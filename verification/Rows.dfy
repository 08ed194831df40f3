/**
 Rows events: the nested walk of rows_event.c from event to rows, to row images, to columns,
 with the static counter that tells the images of an update apart.
 */
module Rows {
  import opened Bytes
  import opened Outcomes
  import opened LengthEncoded
  import opened TableMaps
  import DecimalFormat
  import Decimals
  import Temporal

  const UPDATE_ROWS_EVENTv1 := 0x18
  const EVENT_HEADER_LENGTH := 19

  // ---------- one column ----------

  /** What a column is decoded to. `zeros` of a decimal is left out, since it depends on an
      uninitialised byte, and so is the sign of a TIME, a field that is never written. A decimal
      whose accumulation overflows has no value, and neither have the types whose bytes are not
      looked at. Null is what a NULL would have to be decoded to; no column ever is. */
  datatype Value =
    | Integer(n: int)
    | Decimal(negative: bool, integral: int, fractional: int)
    | Overflowed
    | Real(bits: seq<byte>)
    | DateTime2(dateTime: Temporal.DateTime2)
    | Date(date: Temporal.Date)
    | Time2(time: Temporal.Time)
    | Time(hour: int, minute: int, second: int)
    | Unread
    | Null

  /** The bytes get_column_val moves over, for all types but NEWDECIMAL. A VARCHAR is read
      but its length never reaches the cursor. */
  function FixedWidth(columnDef: byte): nat {
    if columnDef == MYSQL_TYPE_TINY then 1
    else if columnDef in [MYSQL_TYPE_SHORT, MYSQL_TYPE_YEAR] then 2
    else if columnDef in [MYSQL_TYPE_INT24, MYSQL_TYPE_DATE, MYSQL_TYPE_TIME, MYSQL_TYPE_TIME2] then 3
    else if columnDef in [MYSQL_TYPE_LONG, MYSQL_TYPE_FLOAT, MYSQL_TYPE_TIMESTAMP2] then 4
    else if columnDef == MYSQL_TYPE_DATETIME2 then 5
    else if columnDef in [MYSQL_TYPE_LONGLONG, MYSQL_TYPE_DOUBLE] then 8
    else 0
  }

  /** The value of a column of such a type. The readers of SHORT, YEAR and LONGLONG read and
      print the number but return 0; that of TINY returns a plain `char`. */
  function FixedValue(signedChar: bool, columnDef: byte, cell: seq<byte>): Value
    requires |cell| == FixedWidth(columnDef)
  {
    if columnDef == MYSQL_TYPE_TINY then Integer(PlainChar(signedChar, cell[0]))
    else if columnDef in [MYSQL_TYPE_SHORT, MYSQL_TYPE_YEAR, MYSQL_TYPE_LONGLONG] then Integer(0)
    else if columnDef == MYSQL_TYPE_INT24 then Integer(ReadInt3(cell))
    else if columnDef == MYSQL_TYPE_LONG then Integer(ReadInt4(cell))
    else if columnDef in [MYSQL_TYPE_FLOAT, MYSQL_TYPE_DOUBLE] then Real(cell)
    else if columnDef == MYSQL_TYPE_TIMESTAMP2 then Integer(Temporal.ReadTimestamp2(cell))
    else if columnDef == MYSQL_TYPE_DATETIME2 then DateTime2(Temporal.ReadDateTime2(cell))
    else if columnDef == MYSQL_TYPE_DATE then Date(Temporal.ReadDate(cell))
    else if columnDef == MYSQL_TYPE_TIME2 then Time2(Temporal.ReadTime2(cell))
    else if columnDef == MYSQL_TYPE_TIME then
      var (hour, minute, second) := Temporal.ReadTime(cell);
      Time(hour, minute, second)
    else Unread
  }

  function DecimalValue(signedChar: bool, cell: seq<byte>, precision: byte, scale: byte): Value {
    match Decimals.DecimalNumber(signedChar, cell, precision, scale, 0)
    case Done(d) => Decimal(d.value.negative, d.value.integral, d.value.fractional)
    case _ => Overflowed
  }

  /** Precision and scale of a NEWDECIMAL column, found through get_column_meta_def. */
  function DecimalMeta(t: TableMap, column: nat): Outcome<seq<byte>>
    requires column < |t.columnDef|
  {
    match ColumnMeta(t.columnDef, column)
    case None => Undefined
    case Some(at) =>
      var meta :- Take(t.columnMeta, at, 2);
      if meta[0] < meta[1] then Undefined else Done(meta)
  }

  /** The width of a column as the walk takes it. It depends on the table map alone, and for
      NEWDECIMAL on `char` being signed: the decoder does not come back where it is not. */
  function ColumnWidth(signedChar: bool, t: TableMap, column: nat): Outcome<nat> {
    if column >= |t.columnDef| then Undefined
    else if t.columnDef[column] != MYSQL_TYPE_NEWDECIMAL then Done(FixedWidth(t.columnDef[column]))
    else if !signedChar then Undefined
    else
      var meta :- DecimalMeta(t, column);
      Done(DecimalFormat.SideLength(meta[0] - meta[1]) + DecimalFormat.SideLength(meta[1]))
  }

  /** The value of a column, from its own bytes. */
  function CellValue(signedChar: bool, t: TableMap, column: nat, cell: seq<byte>): Value
    requires ColumnWidth(signedChar, t, column) == Done(|cell|)
  {
    if t.columnDef[column] != MYSQL_TYPE_NEWDECIMAL then FixedValue(signedChar, t.columnDef[column], cell)
    else
      var meta := DecimalMeta(t, column).value;
      DecimalValue(signedChar, cell, meta[0], meta[1])
  }

  datatype Visit = Visit(column: nat, offset: nat, value: Value)
  datatype Walk = Walk(visits: seq<Visit>, cursor: nat)

  // ---------- images, rows, events ----------

  /** What a walk over the rows of one event depends on besides the bytes. */
  datatype Context = Context(signedChar: bool, update: bool, table: TableMap, columns: int)

  /** get_column_val: the value at pos and the width of the column. */
  function ColumnVal(ctx: Context, column: nat, mem: seq<byte>, pos: nat): (r: Outcome<(Value, nat)>)
    ensures !r.Diverges?
  {
    match ColumnWidth(ctx.signedChar, ctx.table, column)
    case Done(width) =>
      if pos + width > |mem| then Undefined
      else Done((CellValue(ctx.signedChar, ctx.table, column, mem[pos..pos + width]), width))
    case _ => Undefined
  }

  function WalkColumns(ctx: Context, i: nat, mem: seq<byte>, pos: nat): (r: Outcome<Walk>)
    ensures r.Done? ==> r.value.cursor >= pos
    ensures !r.Diverges?
    decreases ctx.columns - i
  {
    if i >= ctx.columns then Done(Walk([], pos)) else
    var cell :- ColumnVal(ctx, i, mem, pos);
    var rest :- WalkColumns(ctx, i + 1, mem, pos + cell.1);
    Done(Walk([Visit(i, pos, cell.0)] + rest.visits, rest.cursor))
  }

  /** One row image: its NULL bitmap is copied and not consulted, then every column is read. */
  function WalkImage(ctx: Context, mem: seq<byte>, pos: nat): (r: Outcome<Walk>)
    requires ctx.columns > 0
    ensures r.Done? ==> r.value.cursor > pos
    ensures !r.Diverges?
  {
    if pos + MaskLength(ctx.columns) > |mem| then Undefined
    else WalkColumns(ctx, 0, mem, pos + MaskLength(ctx.columns))
  }

  /** Images read, cursor reached and value of the counter update_row. The counter is only
      ever tested for parity, which a wrap-around at 2^32 keeps. */
  datatype Fetched = Fetched(images: seq<seq<Visit>>, cursor: nat, counter: int)

  /** fetch_a_row. It calls itself only from an odd counter, with an even one. */
  function FetchRow(ctx: Context, counter: int, mem: seq<byte>, pos: nat): (r: Outcome<Fetched>)
    requires ctx.columns > 0
    ensures !r.Diverges?
    ensures r.Done? ==> r.value.cursor > pos
    decreases (counter + 1) % 2 == 0
  {
    hide WalkImage;
    var image :- WalkImage(ctx, mem, pos);
    if ctx.update && (counter + 1) % 2 == 0 then
      var after :- FetchRow(ctx, counter + 1, mem, image.cursor);
      Done(Fetched([image.visits] + after.images, after.cursor, after.counter))
    else
      Done(Fetched([image.visits], image.cursor, counter + 1))
  }

  /** A call reads two images exactly when it is made for a version 1 update with the counter
      odd, and one otherwise, and leaves the counter that much higher: so the recursion is at
      most two deep, and an update's call that starts odd ends odd. */
  lemma {:induction false} FetchRowTakesOneOrTwo(ctx: Context, counter: int, mem: seq<byte>, pos: nat)
    requires ctx.columns > 0 && FetchRow(ctx, counter, mem, pos).Done?
    ensures var row := FetchRow(ctx, counter, mem, pos).value;
            && |row.images| == (if ctx.update && counter % 2 == 1 then 2 else 1)
            && row.counter == counter + |row.images|
            && (ctx.update ==> row.counter % 2 == 1)
            && row.cursor >= pos + |row.images| * MaskLength(ctx.columns)
    decreases counter % 2
  {
    hide WalkColumns, MaskLength;
    var image := WalkImage(ctx, mem, pos).value;
    if ctx.update && (counter + 1) % 2 == 0 {
      FetchRowTakesOneOrTwo(ctx, counter + 1, mem, image.cursor);
    }
  }

  /** The rows loop of rows_event: until the cursor has reached the end of the event. With no
      columns a row has no bytes and the loop never gets there. */
  function FetchRows(ctx: Context, counter: int, mem: seq<byte>, pos: nat, end: int): (r: Outcome<Fetched>)
    ensures r.Diverges? <==> pos < end && ctx.columns <= 0
    decreases end - pos
  {
    if pos >= end then Done(Fetched([], pos, counter))
    else if ctx.columns <= 0 then Diverges
    else
      var row :- FetchRow(ctx, counter, mem, pos);
      var rest :- FetchRows(ctx, row.counter, mem, row.cursor, end);
      Done(Fetched(row.images + rest.images, rest.cursor, rest.counter))
  }

  datatype RowsHeader = RowsHeader(tableId: nat, flags: nat, columnCount: int)

  /** rows_event up to the first row. */
  function ParseRowsHeader(signedChar: bool, postHeader: Option<seq<byte>>, eventType: int, mem: seq<byte>)
    : Outcome<Parsed<RowsHeader>>
  {
    var width :- TableIdWidth(postHeader, eventType);
    var id :- Take(mem, 0, width);
    var flags :- Take(mem, width, 2);
    var count :- GetNumber(signedChar, mem[width + 2..]);
    var c := width + 2 + count.length;
    var present1 :- Take(mem, c, MaskLength(count.value));
    var present2 :- Take(mem, c + |present1|, if eventType == UPDATE_ROWS_EVENTv1 then |present1| else 0);
    Done(Parsed(RowsHeader(TableId(id), LE(flags), count.value), c + |present1| + |present2|))
  }

  datatype RowsResult = RowsResult(header: RowsHeader, rows: Fetched)

  function RowsContext(signedChar: bool, eventType: int, table: TableMap, columns: int): Context {
    Context(signedChar, eventType == UPDATE_ROWS_EVENTv1, table, columns)
  }

  /** rows_event. The number of columns is the event's own; their types are the table map's. */
  function RowsEvent(signedChar: bool, postHeader: Option<seq<byte>>, table: TableMap, counter: int,
                     eventType: int, eventSize: nat, mem: seq<byte>): Outcome<RowsResult>
  {
    var header :- ParseRowsHeader(signedChar, postHeader, eventType, mem);
    var ctx := RowsContext(signedChar, eventType, table, header.value.columnCount);
    var rows :- FetchRows(ctx, counter, mem, header.cursor, ToUint32(eventSize - EVENT_HEADER_LENGTH));
    Done(RowsResult(header.value, rows))
  }

  // ---------- the loops ----------

  method GetColumnVal(ctx: Context, column: nat, mem: seq<byte>, pos: nat, zeros0: byte)
    returns (result: Outcome<(Value, nat)>)
    ensures result == ColumnVal(ctx, column, mem, pos)
  {
    hide FixedValue, FixedWidth, MetaLength, MetaOffset;
    hide Decimals.DecimalNumber, DecimalFormat.SideLength;
    if column >= |ctx.table.columnDef| {
      return Undefined;
    }
    var columnDef := ctx.table.columnDef[column];
    if columnDef != MYSQL_TYPE_NEWDECIMAL {
      var width := FixedWidth(columnDef);
      if pos + width > |mem| {
        return Undefined;
      }
      return Done((FixedValue(ctx.signedChar, columnDef, mem[pos..pos + width]), width));
    }
    var at := GetColumnMetaDef(ctx.table.columnDef, column);
    if at.None? || at.value + 2 > |ctx.table.columnMeta| {
      return Undefined;
    }
    var meta := ctx.table.columnMeta[at.value..at.value + 2];
    if meta[0] < meta[1] {
      return Undefined;
    }
    var width := DecimalFormat.SideLength(meta[0] - meta[1]) + DecimalFormat.SideLength(meta[1]);
    if pos + width > |mem| {
      return Undefined;
    }
    var cell := mem[pos..pos + width];
    ValueIgnoresZeros(ctx.signedChar, cell, meta[0], meta[1], zeros0);
    var decoded := Decimals.ReadDecimal(ctx.signedChar, cell, meta[0], meta[1], zeros0);
    if !ctx.signedChar {
      return Undefined;
    }
    var value := match decoded
      case Done(d) => Decimal(d.value.negative, d.value.integral, d.value.fractional)
      case _ => Overflowed;
    result := Done((value, width));
  }

  lemma ValueIgnoresZeros(signedChar: bool, cell: seq<byte>, precision: byte, scale: byte, zeros0: byte)
    ensures DecimalValue(signedChar, cell, precision, scale)
         == match Decimals.DecimalNumber(signedChar, cell, precision, scale, zeros0)
            case Done(d) => Decimal(d.value.negative, d.value.integral, d.value.fractional)
            case _ => Overflowed
  {
    hide Decimals.Part, Decimals.DigitCount;
  }

  function AfterVisits(visits: seq<Visit>, r: Outcome<Walk>): Outcome<Walk> {
    var rest :- r;
    Done(Walk(visits + rest.visits, rest.cursor))
  }

  function AfterImages(images: seq<seq<Visit>>, r: Outcome<Fetched>): Outcome<Fetched> {
    var rest :- r;
    Done(Fetched(images + rest.images, rest.cursor, rest.counter))
  }

  lemma AfterNone(r: Outcome<Walk>, s: Outcome<Fetched>)
    ensures AfterVisits([], r) == r && AfterImages([], s) == s
  {
    if r.Done? {
      assert [] + r.value.visits == r.value.visits;
    }
    if s.Done? {
      assert [] + s.value.images == s.value.images;
    }
  }

  lemma AfterOneVisit(visits: seq<Visit>, visit: Visit, r: Outcome<Walk>)
    ensures AfterVisits(visits, AfterVisits([visit], r)) == AfterVisits(visits + [visit], r)
  {
    if r.Done? {
      assert visits + ([visit] + r.value.visits) == visits + [visit] + r.value.visits;
    }
  }

  lemma AfterMoreImages(a: seq<seq<Visit>>, b: seq<seq<Visit>>, r: Outcome<Fetched>)
    ensures AfterImages(a, AfterImages(b, r)) == AfterImages(a + b, r)
  {
    if r.Done? {
      assert a + (b + r.value.images) == a + b + r.value.images;
    }
  }

  /** The column loop of fetch_a_row. */
  method ReadColumns(ctx: Context, mem: seq<byte>, start: nat) returns (result: Outcome<Walk>)
    requires ctx.columns > 0
    ensures result == WalkColumns(ctx, 0, mem, start)
  {
    hide ColumnVal;
    var visits, at := [], start;
    AfterNone(WalkColumns(ctx, 0, mem, at), Undefined);
    for i := 0 to ctx.columns
      invariant start <= at
      invariant AfterVisits(visits, WalkColumns(ctx, i, mem, at)) == WalkColumns(ctx, 0, mem, start)
    {
      var zeros0: byte := *;
      var cell := GetColumnVal(ctx, i, mem, at, zeros0);
      if !cell.Done? {
        return Undefined;
      }
      AfterOneVisit(visits, Visit(i, at, cell.value.0), WalkColumns(ctx, i + 1, mem, at + cell.value.1));
      visits := visits + [Visit(i, at, cell.value.0)];
      at := at + cell.value.1;
    }
    result := Done(Walk(visits, at));
    assert visits + [] == visits;
  }

  class RowsDecoder {
    /** The static counter of fetch_a_row; it outlives every event. */
    var updateRow: int
    /** The row images read so far. */
    var images: seq<seq<Visit>>

    constructor ()
      ensures updateRow == 1 && images == []
    {
      updateRow := 1;
      images := [];
    }

    /** fetch_a_row. */
    method FetchARow(ctx: Context, mem: seq<byte>, pos: nat) returns (cursor: Outcome<nat>)
      requires ctx.columns > 0
      modifies this
      ensures match FetchRow(ctx, old(updateRow), mem, pos)
              case Done(row) =>
                cursor == Done(row.cursor) && updateRow == row.counter && images == old(images) + row.images
              case _ => cursor == Undefined
      decreases updateRow % 2
    {
      hide WalkColumns, MaskLength;
      ghost var rows := FetchRow(ctx, updateRow, mem, pos);
      updateRow := updateRow + 1;
      var tmp := MaskLength(ctx.columns);
      if pos + tmp > |mem| {
        return Undefined;
      }
      var walk := ReadColumns(ctx, mem, pos + tmp);
      if !walk.Done? {
        return Undefined;
      }
      images := images + [walk.value.visits];
      if ctx.update && updateRow % 2 == 0 {
        cursor := FetchARow(ctx, mem, walk.value.cursor);
        if rows.Done? {
          assert rows.value.images == [walk.value.visits] + rows.value.images[1..];
        }
      } else {
        cursor := Done(walk.value.cursor);
      }
    }

    /** The rows loop of rows_event. */
    method FetchAllRows(ctx: Context, mem: seq<byte>, start: nat, end: int) returns (cursor: Outcome<nat>)
      modifies this
      ensures match FetchRows(ctx, old(updateRow), mem, start, end)
              case Done(rows) =>
                cursor == Done(rows.cursor) && updateRow == rows.counter && images == old(images) + rows.images
              case Undefined => cursor == Undefined
              case Diverges => cursor == Diverges
    {
      hide FetchRow;
      var at := start;
      ghost var read: seq<seq<Visit>> := [];
      AfterNone(Undefined, FetchRows(ctx, updateRow, mem, start, end));
      while at < end
        invariant images == old(images) + read
        invariant AfterImages(read, FetchRows(ctx, updateRow, mem, at, end))
               == FetchRows(ctx, old(updateRow), mem, start, end)
        decreases end - at
      {
        if ctx.columns <= 0 {
          return Diverges;
        }
        ghost var row := FetchRow(ctx, updateRow, mem, at);
        ghost var before := updateRow;
        var next := FetchARow(ctx, mem, at);
        if !next.Done? {
          return Undefined;
        }
        AfterMoreImages(read, row.value.images, FetchRows(ctx, updateRow, mem, next.value, end));
        read := read + row.value.images;
        at := next.value;
      }
      cursor := Done(at);
    }

    /** rows_event. */
    method HandleRowsEvent(signedChar: bool, postHeader: Option<seq<byte>>, table: TableMap,
                           eventType: int, eventSize: nat, mem: seq<byte>) returns (cursor: Outcome<nat>)
      modifies this
      ensures match RowsEvent(signedChar, postHeader, table, old(updateRow), eventType, eventSize, mem)
              case Done(r) =>
                cursor == Done(r.rows.cursor) && updateRow == r.rows.counter && images == old(images) + r.rows.images
              case Undefined => cursor == Undefined
              case Diverges => cursor == Diverges
    {
      hide ParseRowsHeader, FetchRows, ToUint32;
      var header := ParseRowsHeader(signedChar, postHeader, eventType, mem);
      match header {
        case Done(h) =>
          var ctx := RowsContext(signedChar, eventType, table, h.value.columnCount);
          cursor := FetchAllRows(ctx, mem, h.cursor, ToUint32(eventSize - EVENT_HEADER_LENGTH));
        case Undefined => cursor := Undefined;
        case Diverges => cursor := Diverges;
      }
    }
  }
}
