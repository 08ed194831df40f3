/**
 The dispatcher of binlog.c: the state that outlives an event (the latest post-header table,
 the latest table map, the row counter, the rows read), how each event changes it, and what
 it depends on.
 */
module Decoder {
  import opened Bytes
  import opened Outcomes
  import opened LengthEncoded
  import opened TableMaps
  import opened Rows
  import opened Streams
  import DecimalFormat

  const FORMAT_DESCRIPTION_EVENT := 0x0f

  /** The rows events, versions 0, 1 and 2 of write, update and delete. */
  predicate IsRowsEvent(eventType: byte) {
    0x14 <= eventType <= 0x19 || 0x1e <= eventType <= 0x20
  }

  /** The table map is all zero before the first TABLE_MAP_EVENT, with no columns to look up. */
  datatype State = State(postHeader: Option<seq<byte>>, table: TableMap, counter: int, images: seq<seq<Visit>>)

  const NO_TABLE := TableMap(0, 0, [], [], [], [], [])
  const INITIAL := State(None, NO_TABLE, 1, [])

  /** format_description_event: version (2), server version (50, a string that must end within
      it), timestamp (4), header length (1), and the post-header table: the rest of the event. */
  function FormatDescription(eventSize: nat, mem: seq<byte>): Outcome<seq<byte>> {
    var serverVersion :- Take(mem, 2, 50);
    if 0 !in serverVersion then Undefined
    else Take(mem, 57, ToInt32(ToUint32(eventSize - 76)))
  }

  /** parse_binlog_events, for an event whose body stands at the front of mem. */
  function Dispatch(signedChar: bool, s: State, header: EventHeader, mem: seq<byte>): Outcome<State> {
    if header.eventType == FORMAT_DESCRIPTION_EVENT then
      var postHeader :- FormatDescription(header.eventSize, mem);
      Done(s.(postHeader := Some(postHeader)))
    else if header.eventType == TABLE_MAP_EVENT then
      var table :- ParseTableMap(signedChar, s.postHeader, mem);
      Done(s.(table := table.value))
    else if IsRowsEvent(header.eventType) then
      var r :- RowsEvent(signedChar, s.postHeader, s.table, s.counter, header.eventType, header.eventSize, mem);
      Done(s.(counter := r.rows.counter, images := s.images + r.rows.images))
    else
      Done(s)
  }

  /** A FORMAT_DESCRIPTION_EVENT as binlog.h lays it out. */
  function Description(binlogVersion: seq<byte>, serverVersion: seq<byte>, timestamp: seq<byte>, headerLength: byte,
                       postHeader: seq<byte>): seq<byte>
  {
    binlogVersion + (serverVersion + (timestamp + ([headerLength] + postHeader)))
  }

  /** The post-header table is taken from a format description exactly when the server version
      in it is a string that ends within its fifty bytes. */
  lemma DescriptionRoundTripIff(binlogVersion: seq<byte>, serverVersion: seq<byte>, timestamp: seq<byte>,
                                headerLength: byte, postHeader: seq<byte>, tail: seq<byte>)
    requires |binlogVersion| == 2 && |serverVersion| == 50 && |timestamp| == 4 && |postHeader| < TWO_31
    ensures var body := Description(binlogVersion, serverVersion, timestamp, headerLength, postHeader);
            FormatDescription(19 + |body|, body + tail) == Done(postHeader) <==> 0 in serverVersion
  {
    var r2 := timestamp + ([headerLength] + (postHeader + tail));
    var mem := Description(binlogVersion, serverVersion, timestamp, headerLength, postHeader) + tail;
    assert mem[0..] == binlogVersion + (serverVersion + r2);
    At(mem, 0, binlogVersion, serverVersion + r2);
    At(mem, 2, serverVersion, r2);
    At(mem, 52, timestamp, [headerLength] + (postHeader + tail));
    At(mem, 56, [headerLength], postHeader + tail);
    At(mem, 57, postHeader, tail);
  }

  class EventDecoder {
    const signedChar: bool
    const rows: RowsDecoder
    var postHeader: Option<seq<byte>>
    var table: TableMap

    constructor (signedChar: bool)
      ensures this.signedChar == signedChar && fresh(rows) && Current() == INITIAL
    {
      this.signedChar := signedChar;
      rows := new RowsDecoder();
      postHeader := None;
      table := NO_TABLE;
    }

    function Current(): State
      reads this, rows
    {
      State(postHeader, table, rows.updateRow, rows.images)
    }

    /** parse_binlog_events. */
    method ParseBinlogEvents(header: EventHeader, mem: seq<byte>) returns (outcome: Outcome<()>)
      modifies this, rows
      ensures match Dispatch(signedChar, old(Current()), header, mem)
              case Done(s) => outcome == Done(()) && Current() == s
              case Undefined => outcome == Undefined
              case Diverges => outcome == Diverges
    {
      hide RowsEvent, ParseTableMap, FormatDescription;
      outcome := Done(());
      if header.eventType == FORMAT_DESCRIPTION_EVENT {
        var described := FormatDescription(header.eventSize, mem);
        if described.IsFailure() {
          return described.PropagateFailure();
        }
        postHeader := Some(described.value);
      } else if header.eventType == TABLE_MAP_EVENT {
        var parsed := ParseTableMap(signedChar, postHeader, mem);
        if parsed.IsFailure() {
          return parsed.PropagateFailure();
        }
        table := parsed.value.value;
      } else if IsRowsEvent(header.eventType) {
        var cursor := rows.HandleRowsEvent(signedChar, postHeader, table, header.eventType, header.eventSize, mem);
        if cursor.IsFailure() {
          return cursor.PropagateFailure();
        }
      }
    }
  }

  // ---------- more memory changes nothing ----------

  lemma TakeMore(mem: seq<byte>, tail: seq<byte>, pos: nat, k: int)
    requires Take(mem, pos, k).Done?
    ensures Take(mem + tail, pos, k) == Take(mem, pos, k)
  {
    assert (mem + tail)[pos..pos + k] == mem[pos..pos + k];
  }

  lemma NumberMore(signedChar: bool, mem: seq<byte>, tail: seq<byte>)
    requires GetNumber(signedChar, mem).Done?
    ensures GetNumber(signedChar, mem + tail) == GetNumber(signedChar, mem)
  {
    hide LE;
    var tmp := PlainChar(signedChar, mem[0]);
    assert (mem + tail)[0] == mem[0];
    if tmp >= 0xFB {
      var width := if tmp == 0xFC then 2 else if tmp == 0xFD then 3 else 8;
      assert (mem + tail)[1..1 + width] == mem[1..1 + width];
    }
  }

  lemma StringMore(signedChar: bool, mem: seq<byte>, tail: seq<byte>)
    requires GetString(signedChar, mem).Done?
    ensures GetString(signedChar, mem + tail) == GetString(signedChar, mem)
    ensures GetString(signedChar, mem).value.length <= |mem| + 1
  {
    hide GetNumber;
    NumberMore(signedChar, mem, tail);
    var n := GetNumber(signedChar, mem).value;
    assert (mem + tail)[n.length..n.length + n.value] == mem[n.length..n.length + n.value];
  }

  lemma NamesMore(width: nat, mem: seq<byte>, tail: seq<byte>)
    requires width == 4 || width == 6
    requires ParseNames(width, mem).Done?
    ensures ParseNames(width, mem + tail) == ParseNames(width, mem)
  {
    hide LE, Take, TableId;
    TakeMore(mem, tail, 0, width);
    TakeMore(mem, tail, width, 2);
    TakeMore(mem, tail, width + 2, 1);
    var k := Take(mem, width + 2, 1).value[0];
    TakeMore(mem, tail, width + 3, k);
    var c1 := width + 3 + |Take(mem, width + 3, k).value| + 1;
    TakeMore(mem, tail, c1, 1);
    TakeMore(mem, tail, c1 + 1, Take(mem, c1, 1).value[0]);
  }

  lemma ColumnsMore(signedChar: bool, names: Parsed<TableMap>, mem: seq<byte>, tail: seq<byte>)
    requires names.cursor <= |mem| && ParseColumns(signedChar, names, mem).Done?
    ensures ParseColumns(signedChar, names, mem + tail) == ParseColumns(signedChar, names, mem)
    ensures ParseColumns(signedChar, names, mem).value.cursor <= |mem| + 1
  {
    hide GetNumber, GetString;
    var c2 := names.cursor;
    assert (mem + tail)[c2..] == mem[c2..] + tail;
    NumberMore(signedChar, mem[c2..], tail);
    var count := GetNumber(signedChar, mem[c2..]).value;
    var c3 := c2 + count.length;
    TakeMore(mem, tail, c3, count.value);
    var c4 := c3 + count.value;
    assert (mem + tail)[c4..] == mem[c4..] + tail;
    StringMore(signedChar, mem[c4..], tail);
  }

  lemma FieldsMore(signedChar: bool, postHeader: Option<seq<byte>>, mem: seq<byte>, tail: seq<byte>)
    requires ParseFields(signedChar, postHeader, mem).Done?
    ensures ParseFields(signedChar, postHeader, mem + tail) == ParseFields(signedChar, postHeader, mem)
    ensures ParseFields(signedChar, postHeader, mem).value.cursor <= |mem| + 1
  {
    hide ParseNames, ParseColumns;
    var width := TableIdWidth(postHeader, TABLE_MAP_EVENT).value;
    NamesMore(width, mem, tail);
    ColumnsMore(signedChar, ParseNames(width, mem).value, mem, tail);
  }

  lemma {:induction false} WalkMore(ctx: Context, i: nat, mem: seq<byte>, pos: nat, tail: seq<byte>)
    requires WalkColumns(ctx, i, mem, pos).Done?
    ensures WalkColumns(ctx, i, mem + tail, pos) == WalkColumns(ctx, i, mem, pos)
    decreases ctx.columns - i
  {
    hide ColumnWidth, CellValue;
    if i < ctx.columns {
      var width := ColumnWidth(ctx.signedChar, ctx.table, i).value;
      assert (mem + tail)[pos..pos + width] == mem[pos..pos + width];
      WalkMore(ctx, i + 1, mem, pos + width, tail);
    }
  }

  lemma {:induction false} RowMore(ctx: Context, counter: int, mem: seq<byte>, pos: nat, tail: seq<byte>)
    requires ctx.columns > 0 && FetchRow(ctx, counter, mem, pos).Done?
    ensures FetchRow(ctx, counter, mem + tail, pos) == FetchRow(ctx, counter, mem, pos)
    decreases (counter + 1) % 2 == 0
  {
    hide WalkColumns, MaskLength;
    WalkMore(ctx, 0, mem, pos + MaskLength(ctx.columns), tail);
    var image := WalkImage(ctx, mem, pos).value;
    if ctx.update && (counter + 1) % 2 == 0 {
      RowMore(ctx, counter + 1, mem, image.cursor, tail);
    }
  }

  lemma {:induction false} RowsMore(ctx: Context, counter: int, mem: seq<byte>, pos: nat, end: int, tail: seq<byte>)
    requires FetchRows(ctx, counter, mem, pos, end).Done?
    ensures FetchRows(ctx, counter, mem + tail, pos, end) == FetchRows(ctx, counter, mem, pos, end)
    decreases end - pos
  {
    hide FetchRow;
    if pos < end {
      RowMore(ctx, counter, mem, pos, tail);
      var row := FetchRow(ctx, counter, mem, pos).value;
      RowsMore(ctx, row.counter, mem, row.cursor, end, tail);
    }
  }

  lemma HeaderMore(signedChar: bool, postHeader: Option<seq<byte>>, eventType: int, mem: seq<byte>, tail: seq<byte>)
    requires ParseRowsHeader(signedChar, postHeader, eventType, mem).Done?
    ensures ParseRowsHeader(signedChar, postHeader, eventType, mem + tail)
         == ParseRowsHeader(signedChar, postHeader, eventType, mem)
  {
    hide GetNumber, MaskLength, LE, Take, TableId;
    var width := TableIdWidth(postHeader, eventType).value;
    TakeMore(mem, tail, 0, width);
    TakeMore(mem, tail, width, 2);
    assert (mem + tail)[width + 2..] == mem[width + 2..] + tail;
    NumberMore(signedChar, mem[width + 2..], tail);
    var count := GetNumber(signedChar, mem[width + 2..]).value;
    var c := width + 2 + count.length;
    var k := MaskLength(count.value);
    TakeMore(mem, tail, c, k);
    TakeMore(mem, tail, c + k, if eventType == UPDATE_ROWS_EVENTv1 then k else 0);
  }

  lemma RowsEventMore(signedChar: bool, postHeader: Option<seq<byte>>, table: TableMap, counter: int,
                      eventType: int, eventSize: nat, mem: seq<byte>, tail: seq<byte>)
    requires RowsEvent(signedChar, postHeader, table, counter, eventType, eventSize, mem).Done?
    ensures RowsEvent(signedChar, postHeader, table, counter, eventType, eventSize, mem + tail)
         == RowsEvent(signedChar, postHeader, table, counter, eventType, eventSize, mem)
  {
    hide ParseRowsHeader, FetchRows, ToUint32;
    HeaderMore(signedChar, postHeader, eventType, mem, tail);
    var header := ParseRowsHeader(signedChar, postHeader, eventType, mem).value;
    RowsMore(RowsContext(signedChar, eventType, table, header.value.columnCount), counter, mem, header.cursor,
             ToUint32(eventSize - EVENT_HEADER_LENGTH), tail);
  }

  // ---------- what the state depends on ----------

  /** The state without the NULL bitmask, the one thing that is read from past its event. */
  function Core(s: State): State {
    s.(table := s.table.(nullBitmask := []))
  }

  /** What an event does to that state, from its own bytes alone. */
  function DispatchBody(signedChar: bool, s: State, header: EventHeader, body: seq<byte>): Outcome<State> {
    if header.eventType == FORMAT_DESCRIPTION_EVENT then
      var postHeader :- FormatDescription(header.eventSize, body);
      Done(s.(postHeader := Some(postHeader)))
    else if header.eventType == TABLE_MAP_EVENT then
      var table :- ParseFields(signedChar, s.postHeader, body);
      if table.cursor - 1 + MaskLength(|table.value.columnDef|) > |body| then Undefined
      else Done(s.(table := table.value))
    else if IsRowsEvent(header.eventType) then
      var r :- RowsEvent(signedChar, s.postHeader, s.table, s.counter, header.eventType, header.eventSize, body);
      Done(s.(counter := r.rows.counter, images := s.images + r.rows.images))
    else
      Done(s)
  }

  function DecodeBodies(signedChar: bool, s: State, events: seq<Dispatched>): Outcome<State> {
    if |events| == 0 then Done(s) else
    var before :- DecodeBodies(signedChar, s, events[..|events| - 1]);
    DispatchBody(signedChar, before, events[|events| - 1].header, events[|events| - 1].body)
  }

  /** The dispatcher over a run, each event with the memory that happens to follow it. */
  function Decode(signedChar: bool, s: State, events: seq<Dispatched>, tails: seq<seq<byte>>): Outcome<State>
    requires |tails| == |events|
  {
    if |events| == 0 then Done(s) else
    var n := |events| - 1;
    var before :- Decode(signedChar, s, events[..n], tails[..n]);
    Dispatch(signedChar, before, events[n].header, events[n].body + tails[n])
  }

  lemma CellWithoutMask(signedChar: bool, t: TableMap, column: nat, cell: seq<byte>)
    ensures ColumnWidth(signedChar, t.(nullBitmask := []), column) == ColumnWidth(signedChar, t, column)
    ensures ColumnWidth(signedChar, t, column) == Done(|cell|) ==>
              CellValue(signedChar, t.(nullBitmask := []), column, cell) == CellValue(signedChar, t, column, cell)
  {
    hide FixedValue, DecimalValue, FixedWidth, DecimalFormat.SideLength, Take, ColumnMeta;
  }

  lemma {:induction false} WalkWithoutMask(ctx: Context, i: nat, mem: seq<byte>, pos: nat)
    ensures WalkColumns(ctx.(table := ctx.table.(nullBitmask := [])), i, mem, pos) == WalkColumns(ctx, i, mem, pos)
    decreases ctx.columns - i
  {
    hide ColumnWidth, CellValue;
    if i < ctx.columns {
      var width := ColumnWidth(ctx.signedChar, ctx.table, i);
      CellWithoutMask(ctx.signedChar, ctx.table, i, []);
      if width.Done? && pos + width.value <= |mem| {
        CellWithoutMask(ctx.signedChar, ctx.table, i, mem[pos..pos + width.value]);
        WalkWithoutMask(ctx, i + 1, mem, pos + width.value);
      }
    }
  }

  lemma {:induction false} RowWithoutMask(ctx: Context, counter: int, mem: seq<byte>, pos: nat)
    requires ctx.columns > 0
    ensures FetchRow(ctx.(table := ctx.table.(nullBitmask := [])), counter, mem, pos)
         == FetchRow(ctx, counter, mem, pos)
    decreases (counter + 1) % 2 == 0
  {
    hide WalkColumns, MaskLength;
    WalkWithoutMask(ctx, 0, mem, pos + MaskLength(ctx.columns));
    var image := WalkImage(ctx, mem, pos);
    if image.Done? && ctx.update && (counter + 1) % 2 == 0 {
      RowWithoutMask(ctx, counter + 1, mem, image.value.cursor);
    }
  }

  lemma {:induction false} RowsWithoutMask(ctx: Context, counter: int, mem: seq<byte>, pos: nat, end: int)
    ensures FetchRows(ctx.(table := ctx.table.(nullBitmask := [])), counter, mem, pos, end)
         == FetchRows(ctx, counter, mem, pos, end)
    decreases end - pos
  {
    hide FetchRow;
    if pos < end && ctx.columns > 0 {
      RowWithoutMask(ctx, counter, mem, pos);
      var row := FetchRow(ctx, counter, mem, pos);
      if row.Done? {
        RowsWithoutMask(ctx, row.value.counter, mem, row.value.cursor, end);
      }
    }
  }

  lemma RowsEventWithoutMask(signedChar: bool, s: State, header: EventHeader, mem: seq<byte>)
    ensures RowsEvent(signedChar, s.postHeader, Core(s).table, s.counter, header.eventType, header.eventSize, mem)
         == RowsEvent(signedChar, s.postHeader, s.table, s.counter, header.eventType, header.eventSize, mem)
  {
    hide ParseRowsHeader, FetchRows, ToUint32;
    var h := ParseRowsHeader(signedChar, s.postHeader, header.eventType, mem);
    if h.Done? {
      RowsWithoutMask(RowsContext(signedChar, header.eventType, s.table, h.value.value.columnCount), s.counter, mem,
                      h.value.cursor, ToUint32(header.eventSize - EVENT_HEADER_LENGTH));
    }
  }

  /** How many bytes a table map needs from the start of its body: one more than it has, because
      its bitmask is read a byte late. */
  function LateMaskEnd(signedChar: bool, s: State, body: seq<byte>): nat
    requires ParseFields(signedChar, s.postHeader, body).Done?
  {
    var fields := ParseFields(signedChar, s.postHeader, body).value;
    fields.cursor + MaskLength(|fields.value.columnDef|)
  }

  /** An event that can be decoded from its own bytes has the same effect whatever memory
      follows them, except that a table map fails if that memory ends before its bitmask is
      read. Of rows events those that can be decoded from their own bytes are exactly the ones
      that are Paired (RowsExactness.TailIsIgnoredIff). */
  lemma DispatchDependsOnBody(signedChar: bool, s: State, header: EventHeader, body: seq<byte>, tail: seq<byte>)
    requires DispatchBody(signedChar, Core(s), header, body).Done?
    ensures var r := Dispatch(signedChar, s, header, body + tail);
            && (r.Done? <==>
                (header.eventType == TABLE_MAP_EVENT ==> LateMaskEnd(signedChar, s, body) <= |body| + |tail|))
            && (r.Done? ==> Core(r.value) == DispatchBody(signedChar, Core(s), header, body).value)
    ensures |tail| > 0 ==> Dispatch(signedChar, s, header, body + tail).Done?
  {
    hide RowsEvent, ParseFields, FormatDescription, MaskLength;
    if header.eventType == FORMAT_DESCRIPTION_EVENT {
      DescriptionMore(header.eventSize, body, tail);
    } else if header.eventType == TABLE_MAP_EVENT {
      FieldsMore(signedChar, s.postHeader, body, tail);
      NoMaskInFields(signedChar, s.postHeader, body);
      MaskNotNegative(|ParseFields(signedChar, s.postHeader, body).value.value.columnDef|);
    } else if IsRowsEvent(header.eventType) {
      RowsEventMore(signedChar, s.postHeader, Core(s).table, s.counter, header.eventType, header.eventSize, body, tail);
      RowsEventWithoutMask(signedChar, s, header, body + tail);
    }
  }

  lemma MaskNotNegative(columns: nat)
    ensures MaskLength(columns) >= 0
  {
  }

  lemma DescriptionMore(eventSize: nat, mem: seq<byte>, tail: seq<byte>)
    requires FormatDescription(eventSize, mem).Done?
    ensures FormatDescription(eventSize, mem + tail) == FormatDescription(eventSize, mem)
  {
    hide ToInt32, ToUint32;
    TakeMore(mem, tail, 2, 50);
    TakeMore(mem, tail, 57, ToInt32(ToUint32(eventSize - 76)));
  }

  lemma NoMaskInFields(signedChar: bool, postHeader: Option<seq<byte>>, mem: seq<byte>)
    requires ParseFields(signedChar, postHeader, mem).Done?
    ensures ParseFields(signedChar, postHeader, mem).value.value.nullBitmask == []
  {
    hide GetNumber, GetString, Take;
  }

  /** So over a run of such events, whatever follows each in memory, the state after the run is
      that of decoding the events' own bytes, if it is reached: and it is, if a byte follows
      every table map. */
  lemma {:induction false} DecodeDependsOnBodies(signedChar: bool, s: State, events: seq<Dispatched>,
                                                 tails: seq<seq<byte>>)
    requires |tails| == |events| && DecodeBodies(signedChar, Core(s), events).Done?
    ensures var r := Decode(signedChar, s, events, tails);
            && (r.Done? ==> Core(r.value) == DecodeBodies(signedChar, Core(s), events).value)
            && (MapsFollowed(events, tails) ==> r.Done?)
  {
    hide Dispatch, DispatchBody, LateMaskEnd;
    if |events| > 0 {
      var n := |events| - 1;
      DecodeDependsOnBodies(signedChar, s, events[..n], tails[..n]);
      var before := Decode(signedChar, s, events[..n], tails[..n]);
      if before.Done? {
        DispatchDependsOnBody(signedChar, before.value, events[n].header, events[n].body, tails[n]);
      }
    }
  }

  /** A byte of memory follows every table map. */
  predicate MapsFollowed(events: seq<Dispatched>, tails: seq<seq<byte>>)
    requires |tails| == |events|
  {
    forall i :: 0 <= i < |events| && events[i].header.eventType == TABLE_MAP_EVENT ==> |tails[i]| > 0
  }

  /** Two connections that receive the same bytes, cut in any two ways by their reads and with
      anything else in their buffers, end with the same decoder state if they end with one, and
      they do if a byte follows every table map in the buffer; supposing that every event can be
      decoded from its own bytes. What that takes is said of what was sent in
      EndToEnd.TailsIgnoredIff; an update that is not paired is one that cannot. */
  lemma SameBytesSameState(signedChar: bool, chunks: seq<seq<byte>>, others: seq<seq<byte>>,
                           tails: seq<seq<byte>>, otherTails: seq<seq<byte>>)
    requires Flatten(chunks) == Flatten(others)
    requires |tails| == |Run(START, chunks).events| && |otherTails| == |Run(START, others).events|
    requires DecodeBodies(signedChar, INITIAL, Drain(Flatten(chunks)).events).Done?
    ensures var a := Decode(signedChar, INITIAL, Run(START, chunks).events, tails);
            var b := Decode(signedChar, INITIAL, Run(START, others).events, otherTails);
            && (a.Done? && b.Done? ==> Core(a.value) == Core(b.value))
            && (MapsFollowed(Run(START, chunks).events, tails) ==> a.Done?)
            && (MapsFollowed(Run(START, others).events, otherTails) ==> b.Done?)
  {
    hide Run, Drain, Decode, DecodeBodies;
    RunIsDrain(chunks);
    RunIsDrain(others);
    DecodeDependsOnBodies(signedChar, INITIAL, Run(START, chunks).events, tails);
    DecodeDependsOnBodies(signedChar, INITIAL, Run(START, others).events, otherTails);
  }
}
