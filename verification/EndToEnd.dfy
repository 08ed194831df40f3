/**
 Whole histories. What a server sends, described by what it means, against what the decoder holds
 after every event, however the stream was cut and whatever else was in the buffer.
 */
module EndToEnd {
  import opened Bytes
  import opened Outcomes
  import opened TableMaps
  import opened Rows
  import opened RowsExactness
  import opened Schemas
  import opened Streams
  import opened BinlogStream
  import opened Decoder
  import opened Wire

  // ---------- histories ----------

  /** An event by what it means. Change is a rows event of version 0 or 1, ChangeTwo one of
      version 2, with its extra header. Other stands for all events that change nothing later
      events are decoded with. */
  datatype Entry =
    | Describe(binlogVersion: seq<byte>, serverVersion: seq<byte>, timestamp: seq<byte>, headerLength: byte,
               postHeader: seq<byte>)
    | Map(table: TableMap, types: seq<ColumnType>)
    | Change(eventType: byte, columns: seq<ColumnType>, event: StoredEvent)
    | ChangeTwo(twoType: byte, twoColumns: seq<ColumnType>, extra: seq<byte>, twoEvent: StoredEvent)
    | Other(otherType: byte, bytes: seq<byte>)

  function EventType(e: Entry): byte {
    match e
    case Describe(_, _, _, _, _) => DESCRIPTION
    case Map(_, _) => TABLE_MAP
    case Change(eventType, _, _) => eventType
    case ChangeTwo(eventType, _, _, _) => eventType
    case Other(eventType, _) => eventType
  }

  /** What a server can write when the decoder should be in state s: valid fields; rows of columns
      such as the latest table map has, be that the table's own or not; the images of a version 1
      update in pairs. */
  predicate Possible(s: State, e: Entry) {
    match e
    case Describe(binlogVersion, serverVersion, timestamp, _, postHeader) =>
      |binlogVersion| == 2 && |serverVersion| == 50 && |timestamp| == 4 && |postHeader| < TWO_31
    case Map(t, types) =>
      && IdWidth(s.postHeader, TABLE_MAP).Some?
      && Valid(t, IdWidth(s.postHeader, TABLE_MAP).value) && Describes(t, types)
    case Change(eventType, types, event) =>
      && 0x14 <= eventType <= 0x19 && IdWidth(s.postHeader, eventType).Some?
      && Describes(s.table, types)
      && ValidStored(types, event, IdWidth(s.postHeader, eventType).value, eventType == UPDATE_V1)
      && (eventType == UPDATE_V1 ==> |event.rows| % 2 == 0)
    case ChangeTwo(eventType, types, extra, event) =>
      && 0x1e <= eventType <= 0x20 && IdWidth(s.postHeader, eventType).Some?
      && |types| < TWO_31 && 2 + |extra| < 0x1_0000 && Bitmap(event.present1, |types|)
      && |event.rows| > 0 && forall row <- event.rows :: TypedRow(types, row)
    case Other(eventType, _) =>
      eventType !in [0x0f, 0x13, 0x14, 0x15, 0x16, 0x17, 0x18, 0x19, 0x1e, 0x1f, 0x20]
  }

  /** The bytes it writes, which depend on the post-header table it announced. */
  function BodyOf(s: State, e: Entry): seq<byte>
    requires Possible(s, e)
  {
    match e
    case Describe(binlogVersion, serverVersion, timestamp, headerLength, postHeader) =>
      Description(binlogVersion, serverVersion, timestamp, headerLength, postHeader)
    case Map(t, _) => Serialize(t, IdWidth(s.postHeader, TABLE_MAP).value)
    case Change(eventType, types, event) => StoredBody(types, event, IdWidth(s.postHeader, eventType).value)
    case ChangeTwo(eventType, types, extra, event) =>
      TwoBody(types, event, IdWidth(s.postHeader, eventType).value, extra)
    case Other(_, bytes) => bytes
  }

  /** The state the decoder should be in afterwards, leaving out the misplaced bitmask. */
  function MeantNext(s: State, e: Entry): State
    requires Possible(s, e)
  {
    match e
    case Describe(_, _, _, _, postHeader) => s.(postHeader := Some(postHeader))
    case Map(t, _) => s.(table := t.(nullBitmask := []))
    case Change(eventType, types, event) =>
      s.(counter := s.counter + |event.rows|,
         images := s.images + MeantRows(types, event, IdWidth(s.postHeader, eventType).value))
    case ChangeTwo(eventType, types, extra, event) =>
      s.(counter := s.counter + |event.rows|,
         images := s.images + MeantTwo(types, event, IdWidth(s.postHeader, eventType).value, extra))
    case Other(_, _) => s
  }

  /** What decides whether the decoder follows. */
  predicate Follows(signedChar: bool, s: State, e: Entry)
    requires Possible(s, e)
  {
    match e
    case Describe(_, serverVersion, _, _, _) => 0 in serverVersion
    case Map(t, _) =>
      Readable(signedChar, t) && IdInReach(t.tableId, IdWidth(s.postHeader, TABLE_MAP).value)
    case Change(eventType, types, event) =>
      EventSurvives(signedChar, types, event, eventType == UPDATE_V1, s.counter)
    case ChangeTwo(_, _, _, _) => false
    case Other(_, _) => true
  }

  // ---------- one event ----------

  predicate EndsAs(r: Outcome<State>, s: State) {
    r.Done? && Core(r.value) == s
  }

  lemma DescribeStep(signedChar: bool, s: State, header: EventHeader, e: Entry, tail: seq<byte>)
    requires e.Describe? && Possible(Core(s), e) && header.eventType == EventType(e)
    requires header.eventSize == 19 + |BodyOf(Core(s), e)|
    ensures EndsAs(Dispatch(signedChar, s, header, BodyOf(Core(s), e) + tail), MeantNext(Core(s), e))
       <==> Follows(signedChar, Core(s), e)
  {
    hide FormatDescription;
    DescriptionRoundTripIff(e.binlogVersion, e.serverVersion, e.timestamp, e.headerLength, e.postHeader, tail);
    DescriptionIsItsTable(e, header.eventSize, tail);
  }

  lemma DescriptionIsItsTable(e: Entry, eventSize: nat, tail: seq<byte>)
    requires e.Describe? && Possible(INITIAL, e) && eventSize == 19 + |BodyOf(INITIAL, e)|
    ensures var r := FormatDescription(eventSize, BodyOf(INITIAL, e) + tail);
            r.Done? ==> 0 in e.serverVersion
  {
    var mem := BodyOf(INITIAL, e) + tail;
    var rest := e.timestamp + ([e.headerLength] + e.postHeader);
    assert mem[2..] == e.serverVersion + (rest + tail);
    At(mem, 2, e.serverVersion, rest + tail);
  }

  lemma MapStep(signedChar: bool, s: State, header: EventHeader, e: Entry, tail: seq<byte>)
    requires e.Map? && Possible(Core(s), e) && header.eventType == EventType(e)
    ensures EndsAs(Dispatch(signedChar, s, header, BodyOf(Core(s), e) + tail), MeantNext(Core(s), e))
       <==> Follows(signedChar, Core(s), e) && |tail| > 0
    ensures |tail| == 0 ==> Dispatch(signedChar, s, header, BodyOf(Core(s), e) + tail) == Undefined
  {
    hide ParseTableMap, Serialize, MaskLength, TableId, Valid, Describes;
    TableMapRoundTrip(signedChar, s.postHeader, e.table, tail);
  }

  lemma TwoStep(signedChar: bool, s: State, header: EventHeader, e: Entry, tail: seq<byte>)
    requires e.ChangeTwo? && Possible(Core(s), e) && header.eventType == EventType(e)
    requires header.eventSize == 19 + |BodyOf(Core(s), e)|
    ensures !EndsAs(Dispatch(signedChar, s, header, BodyOf(Core(s), e) + tail), MeantNext(Core(s), e))
  {
    hide RowsEvent, TwoBody, MeantTwo, TypedRow, MaskLength;
    var width := IdWidth(s.postHeader, header.eventType).value;
    TwoNeverRight(signedChar, s.postHeader, s.table, s.counter, header.eventType, e.twoColumns, e.twoEvent, e.extra,
                  tail);
    var r := RowsEvent(signedChar, s.postHeader, s.table, s.counter, header.eventType, header.eventSize,
                       BodyOf(Core(s), e) + tail);
    if r.Done? {
      SameSuffix(s.images, r.value.rows.images, MeantTwo(e.twoColumns, e.twoEvent, width, e.extra));
    }
  }

  lemma ChangeStep(signedChar: bool, s: State, header: EventHeader, e: Entry, tail: seq<byte>)
    requires e.Change? && Possible(Core(s), e) && header.eventType == EventType(e)
    requires header.eventSize == 19 + |BodyOf(Core(s), e)| < TWO_32
    ensures EndsAs(Dispatch(signedChar, s, header, BodyOf(Core(s), e) + tail), MeantNext(Core(s), e))
       <==> Follows(signedChar, Core(s), e)
  {
    hide RowsEvent, StoredBody, MeantRows, EventSurvives, Describes, TypedRow, Pow256, MaskLength;
    RowsEventWithoutMask(signedChar, s, header, BodyOf(Core(s), e) + tail);
    StoredEventIff(signedChar, s.postHeader, Core(s).table, s.counter, header.eventType, e.columns, e.event, tail);
    var r := RowsEvent(signedChar, s.postHeader, s.table, s.counter, header.eventType, header.eventSize,
                       BodyOf(Core(s), e) + tail);
    if r.Done? {
      SameSuffix(s.images, r.value.rows.images,
                 MeantRows(e.columns, e.event, IdWidth(s.postHeader, header.eventType).value));
    }
  }

  lemma SameSuffix(a: seq<seq<Visit>>, b: seq<seq<Visit>>, c: seq<seq<Visit>>)
    ensures a + b == a + c <==> b == c
  {
    assert (a + b)[|a|..] == b && (a + c)[|a|..] == c;
  }

  /** One event of any history: whatever memory follows it, the decoder ends as it should
      exactly when it Follows and, after a table map, there is some such memory. */
  lemma StepIff(signedChar: bool, s: State, header: EventHeader, e: Entry, tail: seq<byte>)
    requires Possible(Core(s), e) && header.eventType == EventType(e)
    requires header.eventSize == 19 + |BodyOf(Core(s), e)| < TWO_32
    ensures EndsAs(Dispatch(signedChar, s, header, BodyOf(Core(s), e) + tail), MeantNext(Core(s), e))
       <==> Follows(signedChar, Core(s), e) && (e.Map? ==> |tail| > 0)
  {
    hide EndsAs, Dispatch, MeantNext, Possible, BodyOf;
    if e.Describe? {
      DescribeStep(signedChar, s, header, e, tail);
    } else if e.Map? {
      MapStep(signedChar, s, header, e, tail);
    } else if e.Change? {
      ChangeStep(signedChar, s, header, e, tail);
    } else if e.ChangeTwo? {
      TwoStep(signedChar, s, header, e, tail);
    } else {
      OtherStep(signedChar, s, header, e, tail);
    }
  }

  lemma OtherStep(signedChar: bool, s: State, header: EventHeader, e: Entry, tail: seq<byte>)
    requires e.Other? && Possible(Core(s), e) && header.eventType == EventType(e)
    ensures EndsAs(Dispatch(signedChar, s, header, BodyOf(Core(s), e) + tail), MeantNext(Core(s), e))
       <==> Follows(signedChar, Core(s), e)
  {
    hide RowsEvent, ParseTableMap, FormatDescription;
  }

  // ---------- whole histories ----------

  /** The state the decoder should be in after a history, if a server can write that. */
  function After(es: seq<Entry>): Option<State> {
    if |es| == 0 then Some(INITIAL) else
    match After(es[..|es| - 1])
    case None => None
    case Some(s) => if Possible(s, es[|es| - 1]) then Some(MeantNext(s, es[|es| - 1])) else None
  }

  predicate PossibleHistory(es: seq<Entry>) {
    After(es).Some?
  }

  function MeantState(es: seq<Entry>): State
    requires PossibleHistory(es)
  {
    After(es).value
  }

  lemma LastPossible(es: seq<Entry>)
    requires PossibleHistory(es) && |es| > 0
    ensures PossibleHistory(es[..|es| - 1]) && Possible(MeantState(es[..|es| - 1]), es[|es| - 1])
    ensures MeantState(es) == MeantNext(MeantState(es[..|es| - 1]), es[|es| - 1])
  {
    hide Possible, MeantNext;
  }

  lemma {:induction false} PrefixPossible(es: seq<Entry>, k: nat)
    requires PossibleHistory(es) && k <= |es|
    ensures PossibleHistory(es[..k])
  {
    hide Possible, MeantNext;
    if k < |es| {
      PrefixPossible(es[..|es| - 1], k);
      assert es[..|es| - 1][..k] == es[..k];
    } else {
      assert es[..k] == es;
    }
  }

  /** The packets carry the history: each the bytes of its entry, with its type in the header. */
  predicate Carries(ps: seq<Packet>, es: seq<Entry>)
    requires PossibleHistory(es)
  {
    if |ps| != |es| then false
    else if |es| == 0 then true
    else
      LastPossible(es);
      var n := |es| - 1;
      && Carries(ps[..n], es[..n]) && ValidPacket(ps[n])
      && ps[n].header.eventType == EventType(es[n]) && ps[n].body == BodyOf(MeantState(es[..n]), es[n])
  }

  /** After each event of the run, the decoder is in the state it should be in. */
  predicate RightThroughout(signedChar: bool, es: seq<Entry>, events: seq<Dispatched>, tails: seq<seq<byte>>)
    requires PossibleHistory(es) && |tails| == |events| == |es|
  {
    if |es| == 0 then true
    else
      LastPossible(es);
      var n := |es| - 1;
      && RightThroughout(signedChar, es[..n], events[..n], tails[..n])
      && EndsAs(Decode(signedChar, INITIAL, events, tails), MeantState(es))
  }

  function RowsOf(e: Entry): nat {
    if e.Change? then |e.event.rows| else if e.ChangeTwo? then |e.twoEvent.rows| else 0
  }

  /** The row images a history has written, and those not written by version 1 updates. */
  function TotalRows(es: seq<Entry>): nat {
    if |es| == 0 then 0 else TotalRows(es[..|es| - 1]) + RowsOf(es[|es| - 1])
  }

  function OtherRows(es: seq<Entry>): nat {
    if |es| == 0 then 0 else
    var e := es[|es| - 1];
    OtherRows(es[..|es| - 1]) + if e.Change? && e.eventType == UPDATE_V1 then 0 else RowsOf(e)
  }

  lemma {:induction false} CounterCounts(es: seq<Entry>)
    requires PossibleHistory(es)
    ensures MeantState(es).counter == 1 + TotalRows(es)
    ensures TotalRows(es) % 2 == OtherRows(es) % 2
  {
    hide MeantNext, Possible, PossibleHistory, MeantState;
    if |es| == 0 {
      assert MeantState(es) == INITIAL by {
        NoHistory();
        assert es == [];
      }
    } else {
      LastPossible(es);
      CounterCounts(es[..|es| - 1]);
      NextCounter(MeantState(es[..|es| - 1]), es[|es| - 1]);
    }
  }

  lemma NoHistory()
    ensures PossibleHistory([]) && MeantState([]) == INITIAL
  {
  }

  lemma NextCounter(s: State, e: Entry)
    requires Possible(s, e)
    ensures MeantNext(s, e).counter == s.counter + RowsOf(e)
    ensures e.Change? && e.eventType == UPDATE_V1 ==> |e.event.rows| % 2 == 0
  {
    hide MeantRows, MeantTwo, ValidStored, Describes, Valid, IdWidth, TypedRow;
  }

  lemma EntryPossible(es: seq<Entry>, k: nat)
    requires PossibleHistory(es) && k < |es|
    ensures PossibleHistory(es[..k]) && Possible(MeantState(es[..k]), es[k])
  {
    hide Possible, PossibleHistory, MeantState;
    PrefixPossible(es, k + 1);
    assert es[..k + 1][..k] == es[..k] && es[..k + 1][k] == es[k];
    LastPossible(es[..k + 1]);
  }

  /** What event k must meet for the decoder to follow it, in terms of what was sent:
      - a format description: a server version that ends within its field;
      - a table map: a table id below 2^31 if it has four bytes, and lengths below 0x80 where
        `char` is signed;
      - a rows event: as few columns, no value that is NULL or does not survive, and, for a
        version 1 update with rows, an even number of row images from other events before it;
      - a version 2 rows event: nothing will do. */
  predicate FollowsEntry(signedChar: bool, es: seq<Entry>, k: nat)
    requires PossibleHistory(es) && k < |es|
  {
    EntryPossible(es, k);
    var postHeader := MeantState(es[..k]).postHeader;
    match es[k]
    case Describe(_, serverVersion, _, _, _) => 0 in serverVersion
    case Map(t, _) => Readable(signedChar, t) && IdInReach(t.tableId, IdWidth(postHeader, TABLE_MAP).value)
    case Change(eventType, types, event) =>
      && (!signedChar || |types| < 0x80)
      && (forall row <- event.rows :: RowSurvives(signedChar, row))
      && (eventType == UPDATE_V1 && |event.rows| > 0 ==> OtherRows(es[..k]) % 2 == 0)
    case ChangeTwo(_, _, _, _) => false
    case Other(_, _) => true
  }

  lemma FollowsEntryIff(signedChar: bool, es: seq<Entry>)
    requires PossibleHistory(es) && |es| > 0
    requires PossibleHistory(es[..|es| - 1]) && Possible(MeantState(es[..|es| - 1]), es[|es| - 1])
    ensures Follows(signedChar, MeantState(es[..|es| - 1]), es[|es| - 1]) <==> FollowsEntry(signedChar, es, |es| - 1)
  {
    hide Readable, IdWidth, RowSurvives, MeantNext, ValidStored, Describes, Valid, PossibleHistory, MeantState;
    var n := |es| - 1;
    LastPossible(es);
    CounterCounts(es[..n]);
    PairedFor(es[n], 1 + TotalRows(es[..n]), OtherRows(es[..n]));
  }

  lemma PairedFor(e: Entry, counter: int, others: nat)
    requires (counter - 1) % 2 == others % 2
    requires e.Change? && e.eventType == UPDATE_V1 ==> |e.event.rows| % 2 == 0
    ensures e.Change? ==>
              (Paired(e.eventType == UPDATE_V1, counter, |e.event.rows|) <==>
               (e.eventType == UPDATE_V1 && |e.event.rows| > 0 ==> others % 2 == 0))
  {
  }

  lemma FollowsPrefix(signedChar: bool, es: seq<Entry>, n: nat, k: nat)
    requires PossibleHistory(es) && k < n <= |es|
    ensures PossibleHistory(es[..n])
    ensures FollowsEntry(signedChar, es[..n], k) <==> FollowsEntry(signedChar, es, k)
  {
    hide Readable, IdWidth, RowSurvives, MeantNext, Possible, PossibleHistory, MeantState;
    PrefixPossible(es, n);
    assert es[..n][..k] == es[..k];
  }

  lemma LastCarried(ps: seq<Packet>, es: seq<Entry>)
    requires PossibleHistory(es) && Carries(ps, es) && |es| > 0
    ensures PossibleHistory(es[..|es| - 1]) && Possible(MeantState(es[..|es| - 1]), es[|es| - 1])
    ensures MeantState(es) == MeantNext(MeantState(es[..|es| - 1]), es[|es| - 1])
    ensures var n := |es| - 1;
            && |ps| == |es| && Carries(ps[..n], es[..n]) && ValidPacket(ps[n])
            && ps[n].header.eventType == EventType(es[n]) && ps[n].body == BodyOf(MeantState(es[..n]), es[n])
  {
    hide Possible, MeantNext, ValidPacket, BodyOf, PossibleHistory, MeantState;
    LastPossible(es);
  }

  /** Event k is followed, its late bitmask included. */
  predicate Followed(signedChar: bool, es: seq<Entry>, tails: seq<seq<byte>>, k: nat)
    requires PossibleHistory(es) && k < |es| == |tails|
  {
    FollowsEntry(signedChar, es, k) && (es[k].Map? ==> |tails[k]| > 0)
  }

  /** The events of a run, each as sent, lead through the right states exactly when the decoder
      follows every one of them, and a byte of memory is behind every table map. */
  lemma {:induction false} HistoryIff(signedChar: bool, es: seq<Entry>, ps: seq<Packet>, tails: seq<seq<byte>>)
    requires PossibleHistory(es) && Carries(ps, es) && |tails| == |es|
    requires forall p <- ps :: ValidPacket(p)
    ensures RightThroughout(signedChar, es, EventsOf(ps), tails)
       <==> forall k :: 0 <= k < |es| ==> Followed(signedChar, es, tails, k)
  {
    hide Possible, MeantNext, ValidPacket, BodyOf, PossibleHistory, MeantState, Follows, FollowsEntry, EndsAs, Dispatch;
    hide EncodePacket, EventsOf;
    if |es| > 0 {
      var n := |es| - 1;
      LastCarried(ps, es);
      assert forall p <- ps[..n] :: p in ps;
      EventsPrefix(ps, n);
      HistoryIff(signedChar, es[..n], ps[..n], tails[..n]);
      forall k | 0 <= k < n
        ensures Followed(signedChar, es[..n], tails[..n], k) <==> Followed(signedChar, es, tails, k)
      {
        FollowsPrefix(signedChar, es, n, k);
      }
      FollowsEntryIff(signedChar, es);
      if RightThroughout(signedChar, es[..n], EventsOf(ps[..n]), tails[..n]) {
        LastStep(signedChar, es, ps, tails);
        assert EndsAs(Decode(signedChar, INITIAL, EventsOf(ps), tails), MeantState(es))
          <==> Followed(signedChar, es, tails, n);
      } else {
        var k :| 0 <= k < n && !Followed(signedChar, es[..n], tails[..n], k);
        assert !Followed(signedChar, es, tails, k);
      }
    }
  }

  lemma EventsPrefix(ps: seq<Packet>, n: nat)
    requires n <= |ps| && (forall p <- ps :: ValidPacket(p)) && forall p <- ps[..n] :: ValidPacket(p)
    ensures EventsOf(ps)[..n] == EventsOf(ps[..n])
  {
    hide EncodePacket, ValidPacket, EventsOf;
  }

  lemma {:induction false} RightMeansEnd(signedChar: bool, es: seq<Entry>, events: seq<Dispatched>,
                                         tails: seq<seq<byte>>)
    requires PossibleHistory(es) && |tails| == |events| == |es|
    requires RightThroughout(signedChar, es, events, tails)
    ensures EndsAs(Decode(signedChar, INITIAL, events, tails), MeantState(es))
  {
    if |es| == 0 {
      assert es == [];
      NoHistory();
    }
  }

  lemma LastStep(signedChar: bool, es: seq<Entry>, ps: seq<Packet>, tails: seq<seq<byte>>)
    requires PossibleHistory(es) && Carries(ps, es) && |es| > 0
    requires |tails| == |es|
    requires (forall p <- ps :: ValidPacket(p)) && forall p <- ps[..|es| - 1] :: ValidPacket(p)
    requires PossibleHistory(es[..|es| - 1]) && Possible(MeantState(es[..|es| - 1]), es[|es| - 1])
    requires RightThroughout(signedChar, es[..|es| - 1], EventsOf(ps[..|es| - 1]), tails[..|es| - 1])
    ensures EndsAs(Decode(signedChar, INITIAL, EventsOf(ps), tails), MeantState(es))
       <==> Follows(signedChar, MeantState(es[..|es| - 1]), es[|es| - 1])
            && (es[|es| - 1].Map? ==> |tails[|es| - 1]| > 0)
  {
    hide Possible, MeantNext, BodyOf, PossibleHistory, MeantState, Follows, Dispatch, EncodePacket, EventsOf;
    hide RightThroughout, ValidHeader;
    var n := |es| - 1;
    LastCarried(ps, es);
    EventsPrefix(ps, n);
    RightMeansEnd(signedChar, es[..n], EventsOf(ps[..n]), tails[..n]);
    var before := Decode(signedChar, INITIAL, EventsOf(ps)[..n], tails[..n]).value;
    HeaderSize(ps[n]);
    StepIff(signedChar, before, ps[n].header, es[n], tails[n]);
  }

  lemma HeaderSize(p: Packet)
    requires ValidPacket(p)
    ensures p.header.eventSize == 19 + |p.body| < TWO_32
  {
  }

  /** A history sent after the connection is made, in packets that fit the buffer. However the
      reads cut the stream, and whatever else is in the buffer behind each event, the program
      dispatches as many events, and is in the right state after every one of them, every stored
      value of every row where its bytes were put, if and only if the history is one it follows,
      event for event, and no table map ends where the buffer does. The first of these is about
      what was sent, the second about the reads: its late bitmask is then read from outside. */
  lemma DeliveredIff(signedChar: bool, es: seq<Entry>, ps: seq<Packet>, chunks: seq<seq<byte>>,
                     tails: seq<seq<byte>>)
    requires PossibleHistory(es) && Carries(ps, es)
    requires (forall p <- ps :: ValidPacket(p) && |EncodePacket(p)| <= BUF_SIZE) && !HeldBack(ps, [])
    requires Flatten(chunks) == EncodePackets(ps) && HasRoom(START, chunks)
    requires |tails| == |RunEnds(chunks)|
    requires forall i :: 0 <= i < |tails| ==> |tails[i]| == BUF_SIZE - RunEnds(chunks)[i]
    ensures RunWrapping(chunks).Some? && |RunWrapping(chunks).value.events| == |es| == |tails|
    ensures RightThroughout(signedChar, es, RunWrapping(chunks).value.events, tails) <==>
            forall k :: 0 <= k < |es| ==>
              FollowsEntry(signedChar, es, k) && (es[k].Map? ==> RunEnds(chunks)[k] < BUF_SIZE)
  {
    hide Run, RunWrapping, RunEnds, Drain, EncodePacket, ValidPacket, RightThroughout, FollowsEntry, PossibleHistory;
    assert EncodePackets(ps) + [] == EncodePackets(ps);
    SentRunsAsSpecified(ps, chunks);
    DrainSent(ps, []);
    RunIsDrain(chunks);
    assert ps[..|ps|] == ps;
    RunEndsInBuffer(chunks);
    HistoryIff(signedChar, es, ps, tails);
    assert forall k :: 0 <= k < |es| ==>
      (Followed(signedChar, es, tails, k) <==>
       FollowsEntry(signedChar, es, k) && (es[k].Map? ==> RunEnds(chunks)[k] < BUF_SIZE));
  }

  // ---------- whether the state depends on anything else ----------

  /** The conditions of FollowsEntry but for the pairing of updates. */
  predicate FollowsUnpaired(signedChar: bool, es: seq<Entry>, k: nat)
    requires PossibleHistory(es) && k < |es|
  {
    FollowsEntry(signedChar, es, k) ||
    (es[k].Change? && (!signedChar || |es[k].columns| < 0x80)
     && forall row <- es[k].event.rows :: RowSurvives(signedChar, row))
  }

  function ZeroTails(n: nat): (tails: seq<seq<byte>>)
    ensures |tails| == n && forall i :: 0 <= i < n ==> tails[i] == [0]
  {
    seq(n, _ => [0])
  }

  lemma UnpairedStep(signedChar: bool, es: seq<Entry>, s: State, header: EventHeader)
    requires PossibleHistory(es) && |es| > 0
    requires FollowsUnpaired(signedChar, es, |es| - 1) && !FollowsEntry(signedChar, es, |es| - 1)
    requires PossibleHistory(es[..|es| - 1]) && Core(s) == MeantState(es[..|es| - 1])
    requires var e := es[|es| - 1]; Possible(Core(s), e) && header.eventType == EventType(e)
    requires header.eventSize == 19 + |BodyOf(Core(s), es[|es| - 1])| < TWO_32
    ensures Dispatch(signedChar, s, header, BodyOf(Core(s), es[|es| - 1]) + [0]) == Undefined
  {
    hide RowsEvent, RowSurvives, MeantNext, Describes, Valid, PossibleHistory, MeantState, TypedRow, StoredBody;
    hide Paired, Pow256, MaskLength;
    var n := |es| - 1;
    var e := es[n];
    CounterCounts(es[..n]);
    PairedFor(e, 1 + TotalRows(es[..n]), OtherRows(es[..n]));
    RowsEventWithoutMask(signedChar, s, header, BodyOf(Core(s), e) + [0]);
    UnpairedFails(signedChar, s.postHeader, Core(s).table, s.counter, header.eventType, e.columns, e.event, 0);
  }

  lemma {:induction false} UnpairedRunFails(signedChar: bool, es: seq<Entry>, ps: seq<Packet>, k: nat)
    requires PossibleHistory(es) && Carries(ps, es) && (forall p <- ps :: ValidPacket(p))
    requires forall j :: 0 <= j < |es| ==> FollowsUnpaired(signedChar, es, j)
    requires k < |es| && !FollowsEntry(signedChar, es, k)
    ensures !Decode(signedChar, INITIAL, EventsOf(ps), ZeroTails(|es|)).Done?
  {
    hide Possible, MeantNext, BodyOf, PossibleHistory, MeantState, FollowsEntry, Dispatch, EncodePacket, EventsOf;
    hide RightThroughout, ValidHeader, ZeroTails, RowSurvives;
    var n := |es| - 1;
    LastCarried(ps, es);
    assert forall p <- ps[..n] :: p in ps;
    EventsPrefix(ps, n);
    forall j | 0 <= j < n
      ensures FollowsEntry(signedChar, es[..n], j) <==> FollowsEntry(signedChar, es, j)
      ensures FollowsUnpaired(signedChar, es[..n], j)
    {
      FollowsPrefix(signedChar, es, n, j);
      assert FollowsUnpaired(signedChar, es, j);
    }
    assert ZeroTails(|es|)[..n] == ZeroTails(n);
    if j :| 0 <= j < n && !FollowsEntry(signedChar, es, j) {
      UnpairedRunFails(signedChar, es[..n], ps[..n], j);
    } else {
      HistoryIff(signedChar, es[..n], ps[..n], ZeroTails(n));
      RightMeansEnd(signedChar, es[..n], EventsOf(ps[..n]), ZeroTails(n));
      HeaderSize(ps[n]);
      UnpairedStep(signedChar, es, Decode(signedChar, INITIAL, EventsOf(ps[..n]), ZeroTails(n)).value, ps[n].header);
    }
  }

  lemma {:induction false} NoByteBehindMapFails(signedChar: bool, es: seq<Entry>, ps: seq<Packet>,
                                                tails: seq<seq<byte>>, k: nat)
    requires PossibleHistory(es) && Carries(ps, es) && (forall p <- ps :: ValidPacket(p)) && |tails| == |es|
    requires forall j :: 0 <= j < |es| ==> FollowsEntry(signedChar, es, j)
    requires k < |es| && es[k].Map? && tails[k] == []
    ensures !Decode(signedChar, INITIAL, EventsOf(ps), tails).Done?
  {
    hide Possible, MeantNext, BodyOf, PossibleHistory, MeantState, FollowsEntry, Dispatch, EncodePacket, EventsOf;
    hide RightThroughout, ValidHeader, RowSurvives;
    var n := |es| - 1;
    LastCarried(ps, es);
    assert forall p <- ps[..n] :: p in ps;
    EventsPrefix(ps, n);
    forall j | 0 <= j < n ensures FollowsEntry(signedChar, es[..n], j) {
      FollowsPrefix(signedChar, es, n, j);
    }
    if j :| 0 <= j < n && es[j].Map? && tails[j] == [] {
      NoByteBehindMapFails(signedChar, es[..n], ps[..n], tails[..n], j);
    } else {
      HistoryIff(signedChar, es[..n], ps[..n], tails[..n]);
      RightMeansEnd(signedChar, es[..n], EventsOf(ps[..n]), tails[..n]);
      MapStep(signedChar, Decode(signedChar, INITIAL, EventsOf(ps[..n]), tails[..n]).value, ps[n].header, es[n], []);
    }
  }

  /** A byte of memory is behind every table map. */
  predicate BehindMaps(es: seq<Entry>, tails: seq<seq<byte>>)
    requires |tails| == |es|
  {
    forall i :: 0 <= i < |es| && es[i].Map? ==> |tails[i]| > 0
  }

  /** Of a history that the decoder would follow but for the pairing of updates: what is in the
      buffer behind the events makes no difference to where it ends, but for the byte behind each
      table map, if and only if every version 1 update with rows comes after an even number of
      other row images. If one does not, what follows it in memory decides, and that is up to how
      the reads cut the stream. */
  lemma TailsIgnoredIff(signedChar: bool, es: seq<Entry>, ps: seq<Packet>)
    requires PossibleHistory(es) && Carries(ps, es) && (forall p <- ps :: ValidPacket(p))
    requires forall k :: 0 <= k < |es| ==> FollowsUnpaired(signedChar, es, k)
    ensures (forall tails: seq<seq<byte>> | |tails| == |es| ::
              EndsAs(Decode(signedChar, INITIAL, EventsOf(ps), tails), MeantState(es)) <==> BehindMaps(es, tails))
       <==> forall k :: 0 <= k < |es| ==> FollowsEntry(signedChar, es, k)
  {
    hide PossibleHistory, MeantState, FollowsEntry, FollowsUnpaired, Decode, EventsOf, ValidPacket;
    if k :| 0 <= k < |es| && !FollowsEntry(signedChar, es, k) {
      UnpairedRunFails(signedChar, es, ps, k);
      assert BehindMaps(es, ZeroTails(|es|));
    } else {
      forall tails: seq<seq<byte>> | |tails| == |es|
        ensures EndsAs(Decode(signedChar, INITIAL, EventsOf(ps), tails), MeantState(es)) <==> BehindMaps(es, tails)
      {
        if k :| 0 <= k < |es| && es[k].Map? && tails[k] == [] {
          NoByteBehindMapFails(signedChar, es, ps, tails, k);
        } else {
          HistoryIff(signedChar, es, ps, tails);
          RightMeansEnd(signedChar, es, EventsOf(ps), tails);
        }
      }
    }
  }
}
