/**
 Tables of typed columns and rows of stored values, NULLs among them: the images a server writes
 of them, and exactly when the walk returns those very values.
 */
module Schemas {
  import opened Bytes
  import opened Outcomes
  import opened LengthEncoded
  import opened TableMaps
  import opened Rows
  import opened RowsExactness
  import opened Values
  import opened Wire
  import DecimalFormat

  // ---------- typed columns ----------

  /** A column type as a table map gives it: its code, and the metadata that goes with it. */
  datatype ColumnType = ColumnType(code: byte, meta: seq<byte>)

  function MetaOf(v: Stored): (meta: seq<byte>)
    ensures |meta| == MetaBytes(TypeOf(v))
  {
    match v
    case Float(_) => [4]
    case Double(_) => [8]
    case Timestamp2(_) => [0]
    case DateTime2(_) => [0]
    case Time2(_) => [0]
    case NewDecimal(_, _, _, p, s) => [p, s]
    case _ => []
  }

  function TypedAs(v: Stored): ColumnType {
    ColumnType(TypeOf(v), MetaOf(v))
  }

  function Metas(types: seq<ColumnType>): seq<seq<byte>> {
    seq(|types|, i requires 0 <= i < |types| => types[i].meta)
  }

  /** A table map of these columns: their codes, and their metadata one after another. */
  predicate Describes(t: TableMap, types: seq<ColumnType>) {
    && |t.columnDef| == |types|
    && (forall i :: 0 <= i < |types| ==>
          t.columnDef[i] == types[i].code && |types[i].meta| == MetaBytes(types[i].code))
    && t.columnMeta == Concat(Metas(types))
  }

  lemma MetaFound(t: TableMap, types: seq<ColumnType>, c: nat)
    requires Describes(t, types) && c < |types| && MetaBytes(types[c].code) == 2
    ensures var at := ColumnMeta(t.columnDef, c);
            at.Some? && Take(t.columnMeta, at.value, 2) == Done(types[c].meta)
  {
    hide MetaBytes, ColumnMeta, Concat;
    MetaLookupFindsSlice(t.columnDef, Metas(types), c);
  }

  /** The bytes stored of a value have the width that the walk gives the column, and the walk
      takes from them the value that was taken from them alone; unless `char` is unsigned, and
      the column a decimal. */
  lemma CellFits(signedChar: bool, t: TableMap, types: seq<ColumnType>, c: nat, v: Stored)
    requires Describes(t, types) && c < |types| && Storable(v) && TypedAs(v) == types[c]
    ensures ColumnWidth(signedChar, t, c) == if signedChar || !v.NewDecimal? then Done(|CellOf(v)|) else Undefined
    ensures signedChar || !v.NewDecimal? ==>
              CellValue(signedChar, t, c, CellOf(v)) == TakenValue(signedChar, v, CellOf(v))
  {
    hide Concat, MetaOffset, DecimalValue, FixedValue;
    hide DecimalFormat.Encode, DecimalFormat.Pow10, DecimalFormat.SideLength;
    if v.NewDecimal? {
      MetaFound(t, types, c);
    } else {
      FixedCell(v);
    }
  }

  lemma FixedCell(v: Stored)
    requires Storable(v) && !v.NewDecimal?
    ensures |CellOf(v)| == FixedWidth(TypeOf(v)) && TypeOf(v) != MYSQL_TYPE_NEWDECIMAL
  {
  }

  // ---------- rows of values ----------

  /** A row image as a server means it: the NULL bitmap it writes, whose spare bits are anything,
      and the values, None for NULL. */
  datatype Row = Row(mask: seq<byte>, values: seq<Option<Stored>>)

  predicate NullBits(row: Row) {
    && |row.values| <= 8 * |row.mask|
    && forall i :: 0 <= i < |row.values| ==> BitAt(row.mask, i) == row.values[i].None?
  }

  predicate TypedRow(types: seq<ColumnType>, row: Row) {
    && |row.values| == |types| > 0 && Bitmap(row.mask, |types|)
    && NullBits(row)
    && forall i :: 0 <= i < |types| && row.values[i].Some? ==>
         Storable(row.values[i].value) && TypedAs(row.values[i].value) == types[i]
  }

  /** What is written for a value; nothing for NULL. */
  function CellFor(v: Option<Stored>): seq<byte>
    requires v.Some? ==> Storable(v.value)
  {
    if v.None? then [] else CellOf(v.value)
  }

  function ImageOf(types: seq<ColumnType>, row: Row): Image
    requires TypedRow(types, row)
  {
    Image(row.mask, seq(|types|, i requires 0 <= i < |types| => CellFor(row.values[i])))
  }

  function ImagesOf(types: seq<ColumnType>, rows: seq<Row>): (images: seq<Image>)
    requires forall row <- rows :: TypedRow(types, row)
    ensures |images| == |rows| && forall i :: 0 <= i < |rows| ==> images[i] == ImageOf(types, rows[i])
  {
    if |rows| == 0 then [] else [ImageOf(types, rows[0])] + ImagesOf(types, rows[1..])
  }

  function MeantFor(v: Option<Stored>): Value {
    if v.None? then Null else Meant(v.value)
  }

  /** The visits that are right: every column once, in order, at the place its bytes were put,
      with the value that was stored. */
  function MeantVisits(types: seq<ColumnType>, row: Row, i: nat, pos: nat): seq<Visit>
    requires TypedRow(types, row) && i <= |types|
    decreases |types| - i
  {
    if i == |types| then [] else
    var v := row.values[i];
    [Visit(i, pos, MeantFor(v))] + MeantVisits(types, row, i + 1, pos + |CellFor(v)|)
  }

  function MeantImages(types: seq<ColumnType>, rows: seq<Row>, pos: nat): (images: seq<seq<Visit>>)
    requires forall row <- rows :: TypedRow(types, row)
    ensures |images| == |rows|
  {
    if |rows| == 0 then [] else
    [MeantVisits(types, rows[0], 0, pos + |rows[0].mask|)]
    + MeantImages(types, rows[1..], pos + |ImageBytes(ImageOf(types, rows[0]))|)
  }

  /** No value is NULL, and each is one the decoder gets right. */
  predicate RowSurvives(signedChar: bool, row: Row) {
    forall v <- row.values :: v.Some? && Survives(signedChar, v.value)
  }

  /** What the walk can move over: no NULL, and no decimal where `char` is unsigned. */
  predicate Walkable(signedChar: bool, row: Row) {
    forall v <- row.values :: v.Some? && (signedChar || !v.value.NewDecimal?)
  }

  lemma SurvivesWalkable(signedChar: bool, row: Row)
    requires RowSurvives(signedChar, row)
    ensures Walkable(signedChar, row)
  {
  }

  lemma RowFits(ctx: Context, types: seq<ColumnType>, row: Row)
    requires Describes(ctx.table, types) && ctx.columns == |types|
    requires TypedRow(types, row) && Walkable(ctx.signedChar, row)
    ensures Fits(ctx, ImageOf(types, row))
  {
    hide ColumnWidth, CellOf, Storable, TypedAs, Describes, MaskLength, NullBits;
    var cells := ImageOf(types, row).cells;
    forall j | 0 <= j < |cells| ensures ColumnWidth(ctx.signedChar, ctx.table, j) == Done(|cells[j]|) {
      assert row.values[j] in row.values;
      CellFits(ctx.signedChar, ctx.table, types, j, row.values[j].value);
    }
  }

  lemma {:induction false} VisitsMeantIff(ctx: Context, types: seq<ColumnType>, row: Row, i: nat, pos: nat)
    requires Describes(ctx.table, types) && ctx.columns == |types| && i <= |types|
    requires TypedRow(types, row) && Walkable(ctx.signedChar, row) && Fits(ctx, ImageOf(types, row))
    ensures ExpectedVisits(ctx, ImageOf(types, row).cells, i, pos) == MeantVisits(types, row, i, pos)
       <==> forall j :: i <= j < |types| ==> Survives(ctx.signedChar, row.values[j].value)
    decreases |types| - i
  {
    hide ColumnWidth, CellValue, CellOf, Storable, TypedAs, Describes, MaskLength, TakenValue, Meant, Survives;
    hide NullBits, Bitmap;
    if i < |types| {
      var cells := ImageOf(types, row).cells;
      var v := row.values[i];
      assert v in row.values;
      CellFits(ctx.signedChar, ctx.table, types, i, v.value);
      CellRoundTripIff(ctx.signedChar, v.value);
      var after := pos + |cells[i]|;
      VisitsMeantIff(ctx, types, row, i + 1, after);
      assert ExpectedVisits(ctx, cells, i, pos)[1..] == ExpectedVisits(ctx, cells, i + 1, after);
      assert MeantVisits(types, row, i, pos)[1..] == MeantVisits(types, row, i + 1, after);
      assert ExpectedVisits(ctx, cells, i, pos)[0] == MeantVisits(types, row, i, pos)[0]
        <==> Survives(ctx.signedChar, v.value);
    }
  }

  lemma RowMeantIff(ctx: Context, types: seq<ColumnType>, row: Row, pos: nat)
    requires Describes(ctx.table, types) && ctx.columns == |types|
    requires TypedRow(types, row) && Walkable(ctx.signedChar, row) && Fits(ctx, ImageOf(types, row))
    ensures ExpectedVisits(ctx, ImageOf(types, row).cells, 0, pos) == MeantVisits(types, row, 0, pos)
       <==> RowSurvives(ctx.signedChar, row)
  {
    hide ExpectedVisits, MeantVisits, Describes, Fits, Survives, ImageOf;
    VisitsMeantIff(ctx, types, row, 0, pos);
  }

  lemma {:induction false} ImagesMeantIff(ctx: Context, types: seq<ColumnType>, rows: seq<Row>, pos: nat)
    requires Describes(ctx.table, types) && ctx.columns == |types|
    requires forall row <- rows :: TypedRow(types, row) && Walkable(ctx.signedChar, row)
    requires forall i :: 0 <= i < |rows| ==> Fits(ctx, ImagesOf(types, rows)[i])
    ensures ExpectedImages(ctx, ImagesOf(types, rows), pos) == MeantImages(types, rows, pos)
       <==> forall row <- rows :: RowSurvives(ctx.signedChar, row)
  {
    hide Describes, Fits, Walkable, TypedRow, RowSurvives, ExpectedVisits, MeantVisits, ImageBytes, ImageOf;
    hide ExpectedImages, MeantImages, ImagesOf;
    if |rows| == 0 {
      NoRows(ctx, pos);
      NoRowsMeant(types, pos);
    } else {
      var images := ImagesOf(types, rows);
      var next := pos + |ImageBytes(images[0])|;
      assert rows[0] in rows;
      assert forall row <- rows[1..] :: row in rows;
      FirstMeant(types, rows, pos);
      FirstOf(ctx, images, pos);
      RowMeantIff(ctx, types, rows[0], pos + |rows[0].mask|);
      assert forall i :: 0 <= i < |rows| - 1 ==> images[1..][i] == images[i + 1];
      ImagesMeantIff(ctx, types, rows[1..], next);
      SameCons(ExpectedVisits(ctx, images[0].cells, 0, pos + |images[0].mask|), ExpectedImages(ctx, images[1..], next),
               MeantVisits(types, rows[0], 0, pos + |rows[0].mask|), MeantImages(types, rows[1..], next));
      assert forall row :: row in rows <==> row == rows[0] || row in rows[1..];
    }
  }

  lemma SameCons(a: seq<Visit>, x: seq<seq<Visit>>, b: seq<Visit>, y: seq<seq<Visit>>)
    ensures [a] + x == [b] + y <==> a == b && x == y
  {
    assert ([a] + x)[0] == a && ([a] + x)[1..] == x && ([b] + y)[0] == b && ([b] + y)[1..] == y;
  }

  lemma NoRowsMeant(types: seq<ColumnType>, pos: nat)
    ensures ImagesOf(types, []) == [] && MeantImages(types, [], pos) == []
  {
  }

  lemma FirstMeant(types: seq<ColumnType>, rows: seq<Row>, pos: nat)
    requires |rows| > 0 && forall row <- rows :: TypedRow(types, row)
    ensures var images := ImagesOf(types, rows);
            && images[1..] == ImagesOf(types, rows[1..]) && images[0].mask == rows[0].mask
            && MeantImages(types, rows, pos)
               == [MeantVisits(types, rows[0], 0, pos + |rows[0].mask|)]
                  + MeantImages(types, rows[1..], pos + |ImageBytes(images[0])|)
  {
    hide ImageBytes, MeantVisits, TypedRow;
  }

  // ---------- what cannot come out right ----------

  predicate NoNull(visits: seq<Visit>) {
    forall visit <- visits :: visit.value != Null
  }

  lemma {:induction false} WalkFindsNoNull(ctx: Context, i: nat, mem: seq<byte>, pos: nat)
    requires WalkColumns(ctx, i, mem, pos).Done?
    ensures NoNull(WalkColumns(ctx, i, mem, pos).value.visits)
    decreases ctx.columns - i
  {
    hide ColumnWidth, FixedWidth, DecimalMeta;
    if i < ctx.columns {
      WalkFindsNoNull(ctx, i + 1, mem, pos + ColumnWidth(ctx.signedChar, ctx.table, i).value);
    }
  }

  lemma {:induction false} RowFindsNoNull(ctx: Context, counter: int, mem: seq<byte>, pos: nat)
    requires ctx.columns > 0 && FetchRow(ctx, counter, mem, pos).Done?
    ensures forall visits <- FetchRow(ctx, counter, mem, pos).value.images :: NoNull(visits)
    decreases (counter + 1) % 2 == 0
  {
    hide WalkColumns, MaskLength, NoNull;
    var image := WalkImage(ctx, mem, pos).value;
    WalkFindsNoNull(ctx, 0, mem, pos + MaskLength(ctx.columns));
    if ctx.update && (counter + 1) % 2 == 0 {
      RowFindsNoNull(ctx, counter + 1, mem, image.cursor);
    }
  }

  lemma {:induction false} RowsFindNoNull(ctx: Context, counter: int, mem: seq<byte>, pos: nat, end: int)
    requires FetchRows(ctx, counter, mem, pos, end).Done?
    ensures forall visits <- FetchRows(ctx, counter, mem, pos, end).value.images :: NoNull(visits)
    decreases end - pos
  {
    hide FetchRow, NoNull;
    if pos < end {
      RowFindsNoNull(ctx, counter, mem, pos);
      var row := FetchRow(ctx, counter, mem, pos).value;
      RowsFindNoNull(ctx, row.counter, mem, row.cursor, end);
    }
  }

  lemma {:induction false} NullIsMeant(types: seq<ColumnType>, row: Row, i: nat, pos: nat)
    requires TypedRow(types, row) && i <= |types| && NoNull(MeantVisits(types, row, i, pos))
    ensures forall j :: i <= j < |types| ==> row.values[j].Some?
    decreases |types| - i
  {
    hide CellFor, Storable, TypedAs, NullBits, MaskLength, Meant, NoNull;
    if i < |types| {
      var rest := MeantVisits(types, row, i + 1, pos + |CellFor(row.values[i])|);
      NoNullCons(Visit(i, pos, MeantFor(row.values[i])), rest);
      NullIsMeant(types, row, i + 1, pos + |CellFor(row.values[i])|);
    }
  }

  lemma NoNullCons(visit: Visit, rest: seq<Visit>)
    requires NoNull([visit] + rest)
    ensures visit.value != Null && NoNull(rest)
  {
    var all := [visit] + rest;
    assert visit == all[0] && rest == all[1..];
    assert visit in all && forall v <- rest :: v in all;
  }

  lemma {:induction false} NullsAreMeant(types: seq<ColumnType>, rows: seq<Row>, pos: nat)
    requires forall row <- rows :: TypedRow(types, row)
    requires forall visits <- MeantImages(types, rows, pos) :: NoNull(visits)
    ensures forall row <- rows :: forall v <- row.values :: v.Some?
  {
    hide ImageBytes, MeantVisits, NoNull, ImageOf;
    if |rows| > 0 {
      var images := MeantImages(types, rows, pos);
      assert rows[0] in rows && images[0] in images;
      assert forall visits <- images[1..] :: visits in images;
      NullIsMeant(types, rows[0], 0, pos + |rows[0].mask|);
      NullsAreMeant(types, rows[1..], pos + |ImageBytes(ImageOf(types, rows[0]))|);
    }
  }

  lemma {:induction false} WalkPassesColumn(ctx: Context, i: nat, c: nat, mem: seq<byte>, pos: nat)
    requires i <= c < ctx.columns && WalkColumns(ctx, i, mem, pos).Done?
    ensures ColumnWidth(ctx.signedChar, ctx.table, c).Done?
    decreases c - i
  {
    hide ColumnWidth, CellValue;
    if i < c {
      WalkPassesColumn(ctx, i + 1, c, mem, pos + ColumnWidth(ctx.signedChar, ctx.table, i).value);
    }
  }

  lemma DecimalColumn(ctx: Context, types: seq<ColumnType>, row: Row) returns (c: nat)
    requires Describes(ctx.table, types) && TypedRow(types, row)
    requires (forall v <- row.values :: v.Some?) && !Walkable(ctx.signedChar, row)
    ensures c < |types| && !ColumnWidth(ctx.signedChar, ctx.table, c).Done?
  {
    hide ColumnWidth, CellOf, Storable, Describes, MaskLength, TypedAs, NullBits, Bitmap;
    c :| 0 <= c < |types| && !(ctx.signedChar || !row.values[c].value.NewDecimal?);
    CellFits(ctx.signedChar, ctx.table, types, c, row.values[c].value);
  }

  /** A row with a decimal is not walked where `char` is unsigned. */
  lemma DecimalsNotWalked(ctx: Context, types: seq<ColumnType>, row: Row, counter: int, mem: seq<byte>, pos: nat)
    requires Describes(ctx.table, types) && ctx.columns == |types| && TypedRow(types, row)
    requires (forall v <- row.values :: v.Some?) && !Walkable(ctx.signedChar, row)
    ensures FetchRow(ctx, counter, mem, pos) == Undefined
  {
    hide WalkColumns, ColumnWidth, Describes, Walkable, TypedRow, MaskLength;
    assert ctx.columns > 0 by {
      SomeColumns(types, row);
    }
    var c := DecimalColumn(ctx, types, row);
    if WalkImage(ctx, mem, pos).Done? {
      WalkPassesColumn(ctx, 0, c, mem, pos + MaskLength(ctx.columns));
    }
  }

  lemma SomeColumns(types: seq<ColumnType>, row: Row)
    requires TypedRow(types, row)
    ensures |types| > 0
  {
  }

  // ---------- the rows of one event ----------

  lemma RowsMeantNeedValues(ctx: Context, types: seq<ColumnType>, rows: seq<Row>, counter: int, mem: seq<byte>,
                            pos: nat)
    requires Describes(ctx.table, types) && ctx.columns == |types| > 0
    requires forall row <- rows :: TypedRow(types, row)
    requires var r := FetchRows(ctx, counter, mem, pos, pos + |RowsBytes(ImagesOf(types, rows))|);
             r.Done? && r.value.images == MeantImages(types, rows, pos)
    ensures forall row <- rows :: Walkable(ctx.signedChar, row)
  {
    hide FetchRow, RowsBytes, MeantImages, ImagesOf, Describes, Walkable, NoNull, TypedRow;
    var end := pos + |RowsBytes(ImagesOf(types, rows))|;
    RowsFindNoNull(ctx, counter, mem, pos, end);
    NullsAreMeant(types, rows, pos);
    forall row <- rows ensures Walkable(ctx.signedChar, row) {
      if !Walkable(ctx.signedChar, row) {
        DecimalsNotWalked(ctx, types, row, counter, mem, pos);
        assert false;
      }
    }
  }

  /** For a table of typed columns, and rows of values stored in them, the rows loop returns
      exactly those values, each where its bytes were put, if and only if the images are Paired,
      no value is NULL and each survives; and then the cursor is at the end of the event. */
  lemma StoredRowsIff(ctx: Context, types: seq<ColumnType>, rows: seq<Row>, counter: int, mem: seq<byte>, pos: nat,
                      rest: seq<byte>)
    requires Describes(ctx.table, types) && ctx.columns == |types| > 0
    requires forall row <- rows :: TypedRow(types, row)
    requires pos <= |mem| && mem[pos..] == RowsBytes(ImagesOf(types, rows)) + rest
    ensures var end := pos + |RowsBytes(ImagesOf(types, rows))|;
            var r := FetchRows(ctx, counter, mem, pos, end);
            && (Yields(r, MeantImages(types, rows, pos), counter) <==>
                Paired(ctx.update, counter, |rows|) && forall row <- rows :: RowSurvives(ctx.signedChar, row))
            && (Yields(r, MeantImages(types, rows, pos), counter) ==> r.value.cursor == end)
  {
    hide FetchRows, RowsBytes, MeantImages, ExpectedImages, ImagesOf, Describes, Walkable, RowSurvives, TypedRow, Fits;
    hide ImageOf;
    forall row | row in rows && RowSurvives(ctx.signedChar, row) ensures Walkable(ctx.signedChar, row) {
      SurvivesWalkable(ctx.signedChar, row);
    }
    if forall row <- rows :: Walkable(ctx.signedChar, row) {
      var images := ImagesOf(types, rows);
      forall i | 0 <= i < |images| ensures Fits(ctx, images[i]) {
        assert rows[i] in rows;
        RowFits(ctx, types, rows[i]);
      }
      RowsExactIff(ctx, counter, images, mem, pos, rest, MeantImages(types, rows, pos));
      ImagesMeantIff(ctx, types, rows, pos);
    } else if Yields(FetchRows(ctx, counter, mem, pos, pos + |RowsBytes(ImagesOf(types, rows))|),
                     MeantImages(types, rows, pos), counter) {
      RowsMeantNeedValues(ctx, types, rows, counter, mem, pos);
    }
  }

  // ---------- the whole event ----------

  /** A rows event as a server means it. */
  datatype StoredEvent = StoredEvent(
    tableId: nat,
    flags: nat,
    present1: seq<byte>,
    present2: seq<byte>,
    rows: seq<Row>)

  function AsWritten(types: seq<ColumnType>, e: StoredEvent): Written
    requires forall row <- e.rows :: TypedRow(types, row)
  {
    Written(e.tableId, e.flags, |types|, e.present1, e.present2, ImagesOf(types, e.rows))
  }

  predicate ValidStored(types: seq<ColumnType>, e: StoredEvent, width: nat, update: bool) {
    && (width == 4 || width == 6) && e.tableId < Pow256(width) && e.flags < 0x1_0000
    && 0 < |types| < TWO_31
    && Bitmap(e.present1, |types|) && (if update then Bitmap(e.present2, |types|) else e.present2 == [])
    && forall row <- e.rows :: TypedRow(types, row)
  }

  function StoredBody(types: seq<ColumnType>, e: StoredEvent, width: nat): seq<byte>
    requires |types| < TWO_31 && forall row <- e.rows :: TypedRow(types, row)
  {
    EventBody(AsWritten(types, e), width)
  }

  /** The images it should come to. */
  function MeantRows(types: seq<ColumnType>, e: StoredEvent, width: nat): (images: seq<seq<Visit>>)
    requires |types| < TWO_31 && forall row <- e.rows :: TypedRow(types, row)
    ensures |images| == |e.rows|
  {
    RowsInBody(types, e, width);
    MeantImages(types, e.rows, |StoredBody(types, e, width)| - |RowsBytes(ImagesOf(types, e.rows))|)
  }

  lemma RowsInBody(types: seq<ColumnType>, e: StoredEvent, width: nat)
    requires |types| < TWO_31 && forall row <- e.rows :: TypedRow(types, row)
    ensures |RowsBytes(ImagesOf(types, e.rows))| < |StoredBody(types, e, width)|
  {
    hide RowsBytes, ImagesOf;
  }

  /** What decides whether rows_event gets the rows of an event right: that the column count is
      in reach of the reader, that the images are Paired, that no value is NULL and that each is
      one the decoder gets right. */
  predicate EventSurvives(signedChar: bool, types: seq<ColumnType>, e: StoredEvent, update: bool, counter: int) {
    && (!signedChar || |types| < 0x80) && Paired(update, counter, |e.rows|)
    && forall row <- e.rows :: RowSurvives(signedChar, row)
  }

  /** rows_event on an event of rows stored in the table described, followed by anything: its rows
      come out as the values stored, each where its bytes were put, with the counter up by their
      number, if and only if the event survives. Then the column count and flags are right too,
      the cursor is at event_size - 19, and so is the table id if it is in reach. */
  lemma StoredEventIff(signedChar: bool, postHeader: Option<seq<byte>>, table: TableMap, counter: int,
                       eventType: int, types: seq<ColumnType>, e: StoredEvent, tail: seq<byte>)
    requires IdWidth(postHeader, eventType).Some? && Describes(table, types)
    requires ValidStored(types, e, IdWidth(postHeader, eventType).value, eventType == UPDATE_V1)
    requires 19 + |StoredBody(types, e, IdWidth(postHeader, eventType).value)| < TWO_32
    ensures var width := IdWidth(postHeader, eventType).value;
            var body := StoredBody(types, e, width);
            var r := RowsEvent(signedChar, postHeader, table, counter, eventType, 19 + |body|, body + tail);
            var right := r.Done? && Yields(Done(r.value.rows), MeantRows(types, e, width), counter);
            && (right <==> EventSurvives(signedChar, types, e, eventType == UPDATE_V1, counter))
            && (right ==> r.value.rows.cursor == |body| && r.value.header.columnCount == |types|
                          && r.value.header.flags == e.flags
                          && (r.value.header.tableId == e.tableId <==> IdInReach(e.tableId, width)))
  {
    hide RowsEvent, ParseRowsHeader, FetchRows, Describes, TypedRow, RowsBytes, ImagesOf, MeantImages, EventBody;
    hide Pow256, EncodeLE, TableId, RowSurvives, Paired, MaskLength, Yields;
    var width := IdWidth(postHeader, eventType).value;
    var w := AsWritten(types, e);
    var ctx := RowsContext(signedChar, eventType, table, |types|);
    var body := StoredBody(types, e, width);
    RowsInBody(types, e, width);
    TableIdInReachIff(e.tableId, width);
    if signedChar && |types| >= 0x80 {
      NegativeCount(postHeader, table, counter, eventType, w, tail);
    } else {
      EventWithTail(signedChar, postHeader, table, counter, eventType, w, tail);
      StoredRowsIff(ctx, types, e.rows, counter, body + tail, |body| - |RowsBytes(w.images)|, tail);
      YieldsDone(FetchRows(ctx, counter, body + tail, |body| - |RowsBytes(w.images)|, |body|),
                 MeantRows(types, e, width), counter);
    }
  }

  lemma YieldsDone(r: Outcome<Fetched>, wanted: seq<seq<Visit>>, counter: int)
    ensures Yields(r, wanted, counter) <==> r.Done? && Yields(Done(r.value), wanted, counter)
  {
  }

  lemma CellNotEmpty(v: Stored)
    requires Storable(v)
    ensures |CellOf(v)| > 0
  {
    if v.NewDecimal? {
      SomeDigits(v.precision, v.scale);
    } else {
      FixedCell(v);
    }
  }

  lemma SomeDigits(precision: nat, scale: nat)
    requires 0 < precision && scale <= precision
    ensures DecimalFormat.SideLength(precision - scale) + DecimalFormat.SideLength(scale) > 0
  {
    var n := if precision > scale then precision - scale else scale;
    assert n % 9 > 0 || n / 9 > 0;
  }

  lemma ImageAtLeastTwo(types: seq<ColumnType>, row: Row)
    requires TypedRow(types, row) && row.values[0].Some?
    ensures |ImageBytes(ImageOf(types, row))| >= 2
  {
    hide CellOf, Storable, TypedAs;
    CellNotEmpty(row.values[0].value);
    var cells := ImageOf(types, row).cells;
    assert CellsBytes(cells, 0) == cells[0] + CellsBytes(cells, 1);
  }

  /** An event whose images are not Paired fails where one byte follows it. */
  lemma UnpairedFails(signedChar: bool, postHeader: Option<seq<byte>>, table: TableMap, counter: int,
                      eventType: int, types: seq<ColumnType>, e: StoredEvent, follows: byte)
    requires IdWidth(postHeader, eventType).Some? && Describes(table, types)
    requires ValidStored(types, e, IdWidth(postHeader, eventType).value, eventType == UPDATE_V1)
    requires 19 + |StoredBody(types, e, IdWidth(postHeader, eventType).value)| < TWO_32
    requires !signedChar || |types| < 0x80
    requires forall row <- e.rows :: RowSurvives(signedChar, row)
    requires !Paired(eventType == UPDATE_V1, counter, |e.rows|)
    ensures var body := StoredBody(types, e, IdWidth(postHeader, eventType).value);
            RowsEvent(signedChar, postHeader, table, counter, eventType, 19 + |body|, body + [follows]) == Undefined
  {
    hide RowsEvent, EventBody, Describes, RowSurvives, Walkable, TypedRow, Fits, ImageBytes, ImageOf, Pow256;
    hide MaskLength;
    var w := AsWritten(types, e);
    var ctx := RowsContext(signedChar, eventType, table, |types|);
    forall i | 0 <= i < |w.images| ensures Fits(ctx, w.images[i]) {
      assert e.rows[i] in e.rows;
      SurvivesWalkable(signedChar, e.rows[i]);
      RowFits(ctx, types, e.rows[i]);
    }
    var last := e.rows[|e.rows| - 1];
    FirstValue(signedChar, types, last);
    ImageAtLeastTwo(types, last);
    ShortTailFails(signedChar, postHeader, table, counter, eventType, w, [follows]);
  }

  lemma FirstValue(signedChar: bool, types: seq<ColumnType>, row: Row)
    requires TypedRow(types, row) && RowSurvives(signedChar, row)
    ensures |row.values| > 0 && row.values[0].Some?
  {
    assert |row.values| > 0;
    assert row.values[0] in row.values;
  }

  // ---------- version 2 rows events ----------

  /** A version 2 rows event as a server writes it: before the column count it has an extra
      header, two bytes for its length, themselves included, and what else there is of it. */
  function TwoOnto(types: seq<ColumnType>, e: StoredEvent, width: nat, extra: seq<byte>, rest: seq<byte>): seq<byte>
    requires |types| < TWO_31
  {
    EncodeLE(e.tableId, width) + (EncodeLE(e.flags, 2) + (EncodeLE(2 + |extra|, 2) + (extra +
    (EncodeNumber(|types|) + (e.present1 + (e.present2 + rest))))))
  }

  function TwoBody(types: seq<ColumnType>, e: StoredEvent, width: nat, extra: seq<byte>): (body: seq<byte>)
    requires |types| < TWO_31 && forall row <- e.rows :: TypedRow(types, row)
    ensures |body| >= |RowsBytes(ImagesOf(types, e.rows))|
  {
    TwoOnto(types, e, width, extra, RowsBytes(ImagesOf(types, e.rows)))
  }

  /** What it should come to. */
  function MeantTwo(types: seq<ColumnType>, e: StoredEvent, width: nat, extra: seq<byte>): (images: seq<seq<Visit>>)
    requires |types| < TWO_31 && forall row <- e.rows :: TypedRow(types, row)
    ensures |images| == |e.rows|
  {
    MeantImages(types, e.rows, |TwoBody(types, e, width, extra)| - |RowsBytes(ImagesOf(types, e.rows))|)
  }

  lemma NumberLength(signedChar: bool, mem: seq<byte>)
    requires GetNumber(signedChar, mem).Done?
    ensures |mem| > 0
    ensures var length := GetNumber(signedChar, mem).value.length; length == 1 || (length <= 9 && mem[0] >= 0xFB)
  {
    hide LE, ToInt32, ToUint64;
  }

  lemma {:induction false} WalkShape(ctx: Context, i: nat, mem: seq<byte>, pos: nat)
    requires i <= ctx.columns && WalkColumns(ctx, i, mem, pos).Done?
    ensures var visits := WalkColumns(ctx, i, mem, pos).value.visits;
            |visits| == ctx.columns - i && (|visits| > 0 ==> visits[0].offset == pos)
    decreases ctx.columns - i
  {
    hide ColumnWidth, CellValue;
    if i < ctx.columns {
      WalkShape(ctx, i + 1, mem, pos + ColumnWidth(ctx.signedChar, ctx.table, i).value);
    }
  }

  /** The first image a rows loop finds stands where it looks for it. */
  lemma FirstFound(ctx: Context, counter: int, mem: seq<byte>, pos: nat, end: int)
    requires var r := FetchRows(ctx, counter, mem, pos, end); r.Done? && |r.value.images| > 0
    ensures var first := FetchRows(ctx, counter, mem, pos, end).value.images[0];
            |first| == ctx.columns > 0 && first[0].offset == pos + MaskLength(ctx.columns)
  {
    hide WalkColumns, MaskLength;
    var row := FetchRow(ctx, counter, mem, pos).value;
    assert row.images[0] == WalkImage(ctx, mem, pos).value.visits;
    WalkShape(ctx, 0, mem, pos + MaskLength(ctx.columns));
  }

  lemma {:induction false} MeantShape(types: seq<ColumnType>, row: Row, i: nat, pos: nat)
    requires TypedRow(types, row) && i <= |types|
    ensures var visits := MeantVisits(types, row, i, pos);
            |visits| == |types| - i && (|visits| > 0 ==> visits[0].offset == pos)
    decreases |types| - i
  {
    hide CellOf, Storable, TypedAs, NullBits, MaskLength, Meant;
    if i < |types| {
      MeantShape(types, row, i + 1, pos + |CellFor(row.values[i])|);
    }
  }

  lemma FirstMeantAt(types: seq<ColumnType>, rows: seq<Row>, pos: nat)
    requires |rows| > 0 && forall row <- rows :: TypedRow(types, row)
    ensures var first := MeantImages(types, rows, pos)[0];
            |first| == |types| > 0 && first[0].offset == pos + MaskLength(|types|)
  {
    hide MeantVisits, MaskLength, Bitmap, ImageOf, ImageBytes, Storable, TypedAs;
    assert rows[0] in rows;
    BitmapAsWritten(rows[0].mask, |types|);
    MeantShape(types, rows[0], 0, pos + |rows[0].mask|);
  }

  /** Where rows_event looks for the rows of a version 2 event, if it gets there: it takes the
      length of the extra header for the column count. */
  lemma TwoHeader(signedChar: bool, postHeader: Option<seq<byte>>, eventType: int, types: seq<ColumnType>,
                  e: StoredEvent, extra: seq<byte>, rest: seq<byte>)
    requires IdWidth(postHeader, eventType).Some? && eventType != UPDATE_V1
    requires |types| < TWO_31 && 2 + |extra| < 0x1_0000
    ensures var mem := TwoOnto(types, e, IdWidth(postHeader, eventType).value, extra, rest);
            var r := ParseRowsHeader(signedChar, postHeader, eventType, mem);
            r.Done? ==>
              r.value.cursor < IdWidth(postHeader, eventType).value + 2 + 2 + |extra| + 1
                               + MaskLength(r.value.value.columnCount)
  {
    hide LE, Take, TableId, GetNumber, EncodeNumber, MaskLength;
    var width := IdWidth(postHeader, eventType).value;
    var mem := TwoOnto(types, e, width, extra, rest);
    var length := EncodeLE(2 + |extra|, 2);
    var r2 := extra + (EncodeNumber(|types|) + (e.present1 + (e.present2 + rest)));
    assert mem[0..] == EncodeLE(e.tableId, width) + (EncodeLE(e.flags, 2) + (length + r2));
    At(mem, 0, EncodeLE(e.tableId, width), EncodeLE(e.flags, 2) + (length + r2));
    At(mem, width, EncodeLE(e.flags, 2), length + r2);
    assert mem[width + 2..] == length + r2;
    if GetNumber(signedChar, mem[width + 2..]).Done? {
      NumberLength(signedChar, mem[width + 2..]);
      assert mem[width + 2..][0] == length[0] == (2 + |extra|) % 256;
    }
  }

  /** So of a version 2 event with rows, as servers write them, whatever table the decoder holds
      and whatever follows, the rows never come out right: the first image is looked for before
      it starts. */
  lemma TwoNeverRight(signedChar: bool, postHeader: Option<seq<byte>>, table: TableMap, counter: int, eventType: int,
                      types: seq<ColumnType>, e: StoredEvent, extra: seq<byte>, tail: seq<byte>)
    requires IdWidth(postHeader, eventType).Some? && eventType != UPDATE_V1
    requires |types| < TWO_31 && 2 + |extra| < 0x1_0000 && Bitmap(e.present1, |types|)
    requires |e.rows| > 0 && forall row <- e.rows :: TypedRow(types, row)
    ensures var width := IdWidth(postHeader, eventType).value;
            var body := TwoBody(types, e, width, extra);
            var r := RowsEvent(signedChar, postHeader, table, counter, eventType, 19 + |body|, body + tail);
            !(r.Done? && r.value.rows.images == MeantTwo(types, e, width, extra))
  {
    hide ParseRowsHeader, FetchRows, RowsBytes, ImagesOf, MeantImages, MaskLength, TypedRow, EncodeNumber, EncodeLE;
    var width := IdWidth(postHeader, eventType).value;
    var body := TwoBody(types, e, width, extra);
    var rows := RowsBytes(ImagesOf(types, e.rows));
    assert body + tail == TwoOnto(types, e, width, extra, rows + tail);
    TwoHeader(signedChar, postHeader, eventType, types, e, extra, rows + tail);
    FirstMeantAt(types, e.rows, |body| - |rows|);
    BitmapAsWritten(e.present1, |types|);
    var r := RowsEvent(signedChar, postHeader, table, counter, eventType, 19 + |body|, body + tail);
    if r.Done? && r.value.rows.images == MeantTwo(types, e, width, extra) {
      var h := ParseRowsHeader(signedChar, postHeader, eventType, body + tail).value;
      FirstFound(RowsContext(signedChar, eventType, table, h.value.columnCount), counter, body + tail, h.cursor,
                 ToUint32(19 + |body| - EVENT_HEADER_LENGTH));
    }
  }

  // ---------- another table ----------

  lemma LongImage(v: Stored, mask: seq<byte>)
    requires v.Long? && Storable(v) && |mask| == 1 && !BitAt(mask, 0)
    ensures var types, row := [ColumnType(MYSQL_TYPE_LONG, [])], Row(mask, [Some(v)]);
            TypedRow(types, row) && |RowsBytes(ImagesOf(types, [row]))| == 5
  {
    hide Storable, CellOf;
    FixedCell(v);
    var types, row := [ColumnType(MYSQL_TYPE_LONG, [])], Row(mask, [Some(v)]);
    var image := ImageOf(types, row);
    assert CellsBytes(image.cells, 0) == image.cells[0] + CellsBytes(image.cells, 1);
    assert ImagesOf(types, [row]) == [image];
    assert RowsBytes([image]) == ImageBytes(image) + RowsBytes([]);
  }

  /** The columns a rows event is decoded with are those of the latest table map, whatever table
      id it names. Where they are of the same types as those of its own table nothing in the
      results above changes; where they are not, as with a TINY column known and an INT written,
      one row is enough to go wrong: more than one image is found, or the walk fails. */
  lemma OtherTableMisread(ctx: Context, v: Stored, mask: seq<byte>, counter: int, mem: seq<byte>, pos: nat)
    requires v.Long? && Storable(v) && |mask| == 1 && !BitAt(mask, 0) && !ctx.update && ctx.columns == 1
    requires Describes(ctx.table, [ColumnType(MYSQL_TYPE_TINY, [])])
    ensures var types, row := [ColumnType(MYSQL_TYPE_LONG, [])], Row(mask, [Some(v)]);
            && TypedRow(types, row)
            && !Yields(FetchRows(ctx, counter, mem, pos, pos + |RowsBytes(ImagesOf(types, [row]))|),
                       MeantImages(types, [row], pos), counter)
  {
    hide RowsBytes, ImagesOf, MeantImages, TypedRow, FetchRow, Describes;
    LongImage(v, mask);
    TinyRow(ctx, counter, mem, pos);
    var row := FetchRow(ctx, counter, mem, pos);
    if row.Done? && FetchRows(ctx, row.value.counter, mem, row.value.cursor, pos + 5).Done? {
      FetchRowTakesOneOrTwo(ctx, row.value.counter, mem, row.value.cursor);
    }
  }

  lemma TinyRow(ctx: Context, counter: int, mem: seq<byte>, pos: nat)
    requires !ctx.update && ctx.columns == 1 && Describes(ctx.table, [ColumnType(MYSQL_TYPE_TINY, [])])
    ensures var row := FetchRow(ctx, counter, mem, pos);
            row.Done? ==> row.value.cursor == pos + 2 && |row.value.images| == 1
  {
    hide CellValue, Concat;
    assert ColumnWidth(ctx.signedChar, ctx.table, 0) == Done(1);
    if WalkImage(ctx, mem, pos).Done? {
      assert WalkColumns(ctx, 0, mem, pos + 1).value.cursor == pos + 2;
    }
  }
}
