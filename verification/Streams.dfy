/**
 The stream of packets a server sends, and what the reassembly loop of binlog.c makes of it:
 a specification in terms of the bytes received so far alone, and what it implies for every
 way reads may cut the stream.
 */
module Streams {
  import opened Bytes

  const BUF_SIZE := 4096

  /** Packet header (4), OK byte (1) and event header (19). */
  const PREFIX_LENGTH := 24

  /** The event type is a plain `char` that is only compared with constants below 0x80, so
      its bit pattern is kept. */
  datatype EventHeader = EventHeader(
    timestamp: nat,
    eventType: byte,
    serverId: nat,
    eventSize: nat,
    logPos: nat,
    flags: nat)

  /** binlog_event_header. */
  function ParseHeader(buf: seq<byte>): EventHeader
    requires |buf| >= 19
  {
    EventHeader(ToUint32(ReadInt4(buf[0..4])), buf[4], ToUint32(ReadInt4(buf[5..9])),
                ToUint32(ReadInt4(buf[9..13])), ToUint32(ReadInt4(buf[13..17])), ReadInt2(buf[17..19]) % 0x1_0000)
  }

  /** An event handed to parse_binlog_events: its header, its body, and all bytes consumed. */
  datatype Dispatched = Dispatched(header: EventHeader, body: seq<byte>, raw: seq<byte>)

  /** What a buffer of bytes comes to: the events in it, the bytes left over, and whether an
      error packet ended the program. */
  datatype Drained = Drained(events: seq<Dispatched>, rest: seq<byte>, failed: bool)

  function HeaderOf(b: seq<byte>): EventHeader
    requires |b| >= PREFIX_LENGTH
  {
    ParseHeader(b[5..PREFIX_LENGTH])
  }

  /** The bytes the packet at the front of b takes, by its event header. The length in the
      packet header is logged and not used. */
  function PacketLength(b: seq<byte>): (n: nat)
    requires |b| >= PREFIX_LENGTH
    ensures n >= 5
  {
    5 + HeaderOf(b).eventSize
  }

  predicate IsError(b: seq<byte>) {
    |b| > PREFIX_LENGTH && b[4] == 0xFF
  }

  /** A complete event stands at the front: more than a prefix, and as much as it announces. */
  predicate Ready(b: seq<byte>) {
    |b| > PREFIX_LENGTH && b[4] != 0xFF && PacketLength(b) <= |b|
  }

  function FirstEvent(b: seq<byte>): Dispatched
    requires Ready(b)
  {
    var n := PacketLength(b);
    Dispatched(HeaderOf(b), if n >= PREFIX_LENGTH then b[PREFIX_LENGTH..n] else [], b[..n])
  }

  /** The inner loop of run_binlog_stream, over a buffer that starts with b. */
  function Drain(b: seq<byte>): (d: Drained)
    ensures d.failed ==> d.rest == []
    decreases |b|
  {
    if IsError(b) then Drained([], [], true)
    else if !Ready(b) then Drained([], b, false)
    else
      var d := Drain(b[PacketLength(b)..]);
      Drained([FirstEvent(b)] + d.events, d.rest, d.failed)
  }

  // ---------- cutting the stream ----------

  lemma FrontStays(a: seq<byte>, c: seq<byte>)
    ensures IsError(a) ==> IsError(a + c)
    ensures Ready(a) ==> Ready(a + c) && PacketLength(a + c) == PacketLength(a) && FirstEvent(a + c) == FirstEvent(a)
    ensures Ready(a) ==> (a + c)[PacketLength(a)..] == a[PacketLength(a)..] + c
  {
    hide ParseHeader;
    if |a| > PREFIX_LENGTH {
      assert (a + c)[5..PREFIX_LENGTH] == a[5..PREFIX_LENGTH];
    }
  }

  /** Draining may be interrupted anywhere: what was left over is put before what comes next. */
  lemma {:induction false} DrainAppend(a: seq<byte>, c: seq<byte>)
    ensures var d, e := Drain(a), Drain(Drain(a).rest + c);
            Drain(a + c) == if d.failed then d else Drained(d.events + e.events, e.rest, e.failed)
    decreases |a|
  {
    hide PacketLength, HeaderOf, FirstEvent;
    FrontStays(a, c);
    if Ready(a) && !IsError(a) {
      DrainAppend(a[PacketLength(a)..], c);
    }
  }

  /** Nothing more comes out of what was left over. */
  lemma {:induction false} DrainIsFinal(b: seq<byte>)
    ensures !Drain(b).failed ==> Drain(Drain(b).rest) == Drained([], Drain(b).rest, false)
    decreases |b|
  {
    hide PacketLength, HeaderOf;
    if Ready(b) && !IsError(b) {
      DrainIsFinal(b[PacketLength(b)..]);
    }
  }

  function RawBytes(events: seq<Dispatched>): seq<byte> {
    if |events| == 0 then [] else events[0].raw + RawBytes(events[1..])
  }

  /** Conservation: the bytes of the dispatched packets, in order, followed by those left
      over, are the bytes received. */
  lemma {:induction false} NothingLost(b: seq<byte>)
    ensures var d := Drain(b); if d.failed then RawBytes(d.events) <= b else RawBytes(d.events) + d.rest == b
    decreases |b|
  {
    hide PacketLength, HeaderOf, RawBytes, FirstEvent;
    RawNone();
    if Ready(b) && !IsError(b) {
      var n := PacketLength(b);
      var d := Drain(b[n..]);
      NothingLost(b[n..]);
      FirstRaw(b);
      RawCons(FirstEvent(b), d.events);
      Rejoin(b, n, RawBytes(d.events), d.rest);
    }
  }

  lemma FirstRaw(b: seq<byte>)
    requires Ready(b)
    ensures FirstEvent(b).raw == b[..PacketLength(b)]
  {
  }

  lemma Rejoin(b: seq<byte>, n: nat, raw: seq<byte>, rest: seq<byte>)
    requires n <= |b|
    ensures raw + rest == b[n..] ==> (b[..n] + raw) + rest == b
    ensures raw <= b[n..] ==> b[..n] + raw <= b
  {
    assert b == b[..n] + b[n..];
    assert (b[..n] + raw) + rest == b[..n] + (raw + rest);
    if raw <= b[n..] {
      assert b[n..] == raw + b[n..][|raw|..];
    }
  }

  lemma RawNone()
    ensures RawBytes([]) == []
  {
  }

  lemma RawCons(event: Dispatched, events: seq<Dispatched>)
    ensures RawBytes([event] + events) == event.raw + RawBytes(events)
  {
    assert ([event] + events)[1..] == events;
  }

  // ---------- runs ----------

  /** The reader between two reads. */
  datatype Reader = Reader(events: seq<Dispatched>, residue: seq<byte>, failed: bool)

  /** One turn of the outer loop: a read appends a chunk, then the buffer is drained. */
  function Receive(r: Reader, chunk: seq<byte>): Reader {
    if r.failed then r else
    var d := Drain(r.residue + chunk);
    Reader(r.events + d.events, d.rest, d.failed)
  }

  function Run(r: Reader, chunks: seq<seq<byte>>): Reader {
    if |chunks| == 0 then r else Receive(Run(r, chunks[..|chunks| - 1]), chunks[|chunks| - 1])
  }

  const START := Reader([], [], false)

  function Flatten(chunks: seq<seq<byte>>): seq<byte> {
    if |chunks| == 0 then [] else Flatten(chunks[..|chunks| - 1]) + chunks[|chunks| - 1]
  }

  /** After any run, the reader is what draining all bytes received at once would give. */
  lemma {:induction false} RunIsDrain(chunks: seq<seq<byte>>)
    ensures var d := Drain(Flatten(chunks)); Run(START, chunks) == Reader(d.events, d.rest, d.failed)
  {
    hide Drain;
    if |chunks| == 0 {
      EmptyDrain();
    } else {
      var earlier := chunks[..|chunks| - 1];
      RunIsDrain(earlier);
      DrainAppend(Flatten(earlier), chunks[|chunks| - 1]);
    }
  }

  lemma EmptyDrain()
    ensures Drain([]) == Drained([], [], false)
  {
  }

  /** How reads cut the stream makes no difference to the events dispatched, the bytes held
      or whether the program has ended. */
  lemma ChunkingIndependence(chunks: seq<seq<byte>>, others: seq<seq<byte>>)
    requires Flatten(chunks) == Flatten(others)
    ensures Run(START, chunks) == Run(START, others)
  {
    RunIsDrain(chunks);
    RunIsDrain(others);
  }

  /** And a run that has seen less of the stream has dispatched a prefix of its events. */
  lemma EventsOnlyGrow(chunks: seq<seq<byte>>, more: seq<seq<byte>>)
    requires Flatten(chunks) <= Flatten(more)
    ensures Run(START, chunks).events <= Run(START, more).events
  {
    hide Drain, Run, Flatten;
    RunIsDrain(chunks);
    RunIsDrain(more);
    var a := Flatten(chunks);
    var c := Flatten(more)[|a|..];
    assert Flatten(more) == a + c;
    DrainAppend(a, c);
  }

  /** Conservation over a run. */
  lemma RunLosesNothing(chunks: seq<seq<byte>>)
    requires !Run(START, chunks).failed
    ensures RawBytes(Run(START, chunks).events) + Run(START, chunks).residue == Flatten(chunks)
  {
    RunIsDrain(chunks);
    NothingLost(Flatten(chunks));
  }

  // ---------- where in the buffer the events end ----------

  /** Where the events of a buffer that starts with b at `at` end in it. */
  function EventEnds(b: seq<byte>, at: nat): (ends: seq<nat>)
    decreases |b|
  {
    if IsError(b) || !Ready(b) then [] else
    var end := at + PacketLength(b);
    [end] + EventEnds(b[PacketLength(b)..], end)
  }

  /** And those of a run of reads: what is behind an event when it is dispatched are the
      BUF_SIZE - end bytes after it. Unlike the events, this depends on how the reads cut them. */
  function RunEnds(chunks: seq<seq<byte>>): (ends: seq<nat>) {
    if |chunks| == 0 then [] else
    var earlier := chunks[..|chunks| - 1];
    var r := Run(START, earlier);
    RunEnds(earlier) + if r.failed then [] else EventEnds(r.residue + chunks[|chunks| - 1], 0)
  }

  lemma {:induction false} EndsInBuffer(b: seq<byte>, at: nat)
    ensures |EventEnds(b, at)| == |Drain(b).events|
    ensures forall i :: 0 <= i < |EventEnds(b, at)| ==> at < EventEnds(b, at)[i] <= at + |b|
    decreases |b|
  {
    hide PacketLength, HeaderOf, FirstEvent;
    if Ready(b) && !IsError(b) {
      EndsInBuffer(b[PacketLength(b)..], at + PacketLength(b));
    }
  }

  lemma {:induction false} RunEndsInBuffer(chunks: seq<seq<byte>>)
    requires HasRoom(START, chunks)
    ensures |RunEnds(chunks)| == |Run(START, chunks).events|
    ensures forall i :: 0 <= i < |RunEnds(chunks)| ==> 0 < RunEnds(chunks)[i] <= BUF_SIZE
  {
    hide Drain, EventEnds;
    if |chunks| > 0 {
      var earlier := chunks[..|chunks| - 1];
      RunEndsInBuffer(earlier);
      EndsInBuffer(Run(START, earlier).residue + chunks[|chunks| - 1], 0);
    }
  }

  // ---------- what a server sends ----------

  datatype Packet = Packet(sequenceId: byte, ok: byte, header: EventHeader, body: seq<byte>)

  function EncodeHeader(h: EventHeader): (b: seq<byte>)
    requires ValidHeader(h)
    ensures |b| == 19
  {
    EncodeLE(h.timestamp, 4) + [h.eventType] + EncodeLE(h.serverId, 4) + EncodeLE(h.eventSize, 4)
    + EncodeLE(h.logPos, 4) + EncodeLE(h.flags, 2)
  }

  predicate ValidHeader(h: EventHeader) {
    h.timestamp < TWO_32 && h.serverId < TWO_32 && h.eventSize < TWO_32 && h.logPos < TWO_32 && h.flags < 0x1_0000
  }

  predicate ValidPacket(p: Packet) {
    p.ok != 0xFF && ValidHeader(p.header) && p.header.eventSize == 19 + |p.body|
  }

  /** A packet: three length bytes, a sequence number, the OK byte, the event. */
  function EncodePacket(p: Packet): (b: seq<byte>)
    requires ValidPacket(p)
    ensures |b| == PREFIX_LENGTH + |p.body|
  {
    EncodeLE(20 + |p.body|, 3) + [p.sequenceId] + [p.ok] + EncodeHeader(p.header) + p.body
  }

  function EncodePackets(ps: seq<Packet>): seq<byte>
    requires forall p <- ps :: ValidPacket(p)
  {
    if |ps| == 0 then [] else EncodePacket(ps[0]) + EncodePackets(ps[1..])
  }

  function EventsOf(ps: seq<Packet>): (events: seq<Dispatched>)
    requires forall p <- ps :: ValidPacket(p)
    ensures |events| == |ps|
    ensures forall i :: 0 <= i < |ps| ==> events[i] == Dispatched(ps[i].header, ps[i].body, EncodePacket(ps[i]))
  {
    if |ps| == 0 then [] else [Dispatched(ps[0].header, ps[0].body, EncodePacket(ps[0]))] + EventsOf(ps[1..])
  }

  lemma FourBytes(b: seq<byte>, at: nat, n: nat)
    requires at + 4 <= |b| && n < TWO_32 && b[at..at + 4] == EncodeLE(n, 4)
    ensures ToUint32(ReadInt4(b[at..at + 4])) == n
  {
    assert Pow256(4) == TWO_32;
    DecodeEncodeLE(n, 4);
    assert b[at..at + 4][..4] == b[at..at + 4];
    UnsignedFieldKeepsBits(b[at..at + 4]);
  }

  lemma HeaderRoundTrip(h: EventHeader)
    requires ValidHeader(h)
    ensures ParseHeader(EncodeHeader(h)) == h
  {
    hide ReadInt4, ToUint32, LE, EncodeLE;
    var b := EncodeHeader(h);
    FourBytes(b, 0, h.timestamp);
    FourBytes(b, 5, h.serverId);
    FourBytes(b, 9, h.eventSize);
    FourBytes(b, 13, h.logPos);
    TwoByteField(b[17..19], h.flags);
  }

  lemma TwoByteField(b: seq<byte>, n: nat)
    requires n < 0x1_0000 && b == EncodeLE(n, 2)
    ensures ReadInt2(b) % 0x1_0000 == n
  {
    assert Pow256(2) == 0x1_0000;
    DecodeEncodeLE(n, 2);
    assert b[..2] == b;
    UnsignedShortKeepsBits(b);
  }

  /** The front of a stream that starts with a packet. */
  lemma PacketInFront(p: Packet, tail: seq<byte>)
    requires ValidPacket(p)
    ensures var b := EncodePacket(p) + tail;
            && !IsError(b) && HeaderOf(b) == p.header && PacketLength(b) == |EncodePacket(p)|
            && (Ready(b) <==> |b| > PREFIX_LENGTH)
            && (Ready(b) ==> FirstEvent(b) == Dispatched(p.header, p.body, EncodePacket(p)))
            && b[PacketLength(b)..] == tail
  {
    hide ParseHeader, EncodeHeader, EncodeLE;
    var e := EncodePacket(p);
    var b := e + tail;
    assert b[5..PREFIX_LENGTH] == EncodeHeader(p.header);
    HeaderRoundTrip(p.header);
    assert b[4] == p.ok;
    assert b[..|e|] == e && b[PREFIX_LENGTH..|e|] == p.body && b[|e|..] == tail;
  }

  /** An incomplete packet yields nothing. */
  lemma PartOfPacket(p: Packet, part: seq<byte>)
    requires ValidPacket(p) && part < EncodePacket(p)
    ensures Drain(part) == Drained([], part, false)
  {
    hide ParseHeader, EncodeHeader, EncodeLE;
    var e := EncodePacket(p);
    PacketInFront(p, []);
    assert e + [] == e;
    if |part| > PREFIX_LENGTH {
      assert part[5..PREFIX_LENGTH] == e[5..PREFIX_LENGTH];
    }
  }

  /** What a server has sent at some moment: whole packets, then part of one more. */
  ghost predicate Sent(ps: seq<Packet>, part: seq<byte>) {
    && (forall p <- ps :: ValidPacket(p))
    && (part == [] || exists p :: ValidPacket(p) && part < EncodePacket(p))
  }

  /** The strict comparison in the loop head holds back a last packet of just a prefix. */
  predicate HeldBack(ps: seq<Packet>, part: seq<byte>) {
    part == [] && |ps| > 0 && ps[|ps| - 1].body == []
  }

  /** The reader against the sender. Of whole packets followed by part of one, every event is
      dispatched, header and body as sent, and the part is kept; except that a final event
      with an empty body stays in the buffer while nothing follows it. */
  lemma {:induction false} DrainSent(ps: seq<Packet>, part: seq<byte>)
    requires Sent(ps, part)
    ensures var n := if HeldBack(ps, part) then |ps| - 1 else |ps|;
            Drain(EncodePackets(ps) + part) == Drained(EventsOf(ps[..n]), EncodePackets(ps[n..]) + part, false)
    decreases |ps|
  {
    hide EncodePacket, PacketLength, FirstEvent, HeaderOf;
    if |ps| == 0 {
      DrainPart(part);
      assert [] + part == part && ps[..0] == [] && ps[0..] == [];
    } else {
      var rest := EncodePackets(ps[1..]) + part;
      var b := EncodePacket(ps[0]) + rest;
      assert EncodePackets(ps) + part == b;
      PacketInFront(ps[0], rest);
      if |b| > PREFIX_LENGTH {
        DrainSent(ps[1..], part);
        var m := if HeldBack(ps[1..], part) then |ps| - 2 else |ps| - 1;
        NotFirstHeldBack(ps, part);
        assert ps[..m + 1][0] == ps[0] && ps[..m + 1][1..] == ps[1..][..m];
        assert ps[m + 1..] == ps[1..][m..];
      } else {
        OnlyPrefix(ps, part);
      }
    }
  }

  lemma DrainPart(part: seq<byte>)
    requires Sent([], part)
    ensures Drain(part) == Drained([], part, false)
  {
    if part != [] {
      var p :| ValidPacket(p) && part < EncodePacket(p);
      PartOfPacket(p, part);
    }
  }

  lemma NotFirstHeldBack(ps: seq<Packet>, part: seq<byte>)
    requires Sent(ps, part) && |ps| > 0 && |EncodePacket(ps[0])| + |EncodePackets(ps[1..]) + part| > PREFIX_LENGTH
    ensures HeldBack(ps, part) <==> HeldBack(ps[1..], part)
    ensures |ps| == 1 ==> !HeldBack(ps, part)
  {
  }

  lemma OnlyPrefix(ps: seq<Packet>, part: seq<byte>)
    requires Sent(ps, part) && |ps| > 0 && |EncodePacket(ps[0])| + |EncodePackets(ps[1..]) + part| <= PREFIX_LENGTH
    ensures |ps| == 1 && HeldBack(ps, part)
    ensures Drain(EncodePackets(ps) + part) == Drained([], EncodePackets(ps) + part, false)
    ensures EventsOf(ps[..0]) == [] && ps[0..] == ps
  {
  }

  /** An error packet after whole packets ends the program, once more than a prefix of it has come
      and however much does: every event before it has been dispatched as sent, and none after. */
  lemma {:induction false} DrainError(ps: seq<Packet>, e: seq<byte>)
    requires (forall p <- ps :: ValidPacket(p)) && |e| > 24 && e[4] == 0xFF
    ensures Drain(EncodePackets(ps) + e) == Drained(EventsOf(ps), [], true)
    decreases |ps|
  {
    hide EncodePacket, PacketLength, FirstEvent, HeaderOf, ValidPacket;
    if |ps| == 0 {
      assert [] + e == e;
    } else {
      var rest := EncodePackets(ps[1..]) + e;
      assert EncodePackets(ps) + e == EncodePacket(ps[0]) + rest;
      PacketInFront(ps[0], rest);
      DrainError(ps[1..], e);
    }
  }

  // ---------- room in the buffer ----------

  /** Every prefix of a stream of packets is whole packets and part of the next. */
  lemma {:induction false} PrefixIsSent(ps: seq<Packet>, b: seq<byte>) returns (k: nat, part: seq<byte>)
    requires forall p <- ps :: ValidPacket(p)
    requires b <= EncodePackets(ps)
    ensures k <= |ps| && b == EncodePackets(ps[..k]) + part
    ensures if k == |ps| then part == [] else part < EncodePacket(ps[k])
    decreases |ps|
  {
    hide EncodePacket;
    if |ps| == 0 || |b| < |EncodePacket(ps[0])| {
      k, part := 0, b;
      assert ps[..0] == [];
      if |ps| > 0 {
        assert b == EncodePackets(ps)[..|b|] == EncodePacket(ps[0])[..|b|];
      }
    } else {
      var n := |EncodePacket(ps[0])|;
      assert EncodePackets(ps)[n..] == EncodePackets(ps[1..]);
      assert b == EncodePacket(ps[0]) + b[n..];
      var j;
      j, part := PrefixIsSent(ps[1..], b[n..]);
      k := j + 1;
      assert ps[..k][0] == ps[0] && ps[..k][1..] == ps[1..][..j];
    }
  }

  lemma SentPart(ps: seq<Packet>, k: nat, part: seq<byte>)
    requires k <= |ps| && forall p <- ps :: ValidPacket(p)
    requires if k == |ps| then part == [] else part < EncodePacket(ps[k])
    ensures Sent(ps[..k], part)
  {
  }

  lemma HeldBackLength(ps: seq<Packet>, part: seq<byte>)
    requires Sent(ps, part) && HeldBack(ps, part)
    ensures |EncodePackets(ps[|ps| - 1..]) + part| == PREFIX_LENGTH
  {
    assert ps[|ps| - 1..][1..] == [];
  }

  /** What the buffer holds after any part of a stream of packets that fit it leaves room for
      the next read. */
  lemma RoomAfter(ps: seq<Packet>, b: seq<byte>)
    requires forall p <- ps :: ValidPacket(p) && |EncodePacket(p)| <= BUF_SIZE
    requires b <= EncodePackets(ps)
    ensures !Drain(b).failed && |Drain(b).rest| < BUF_SIZE
  {
    hide Drain, EncodePacket, Sent, HeldBack;
    var k, part := PrefixIsSent(ps, b);
    SentPart(ps, k, part);
    DrainSent(ps[..k], part);
    if HeldBack(ps[..k], part) {
      HeldBackLength(ps[..k], part);
    } else {
      assert ps[..k][|ps[..k]|..] == [];
    }
  }

  /** A packet that does not fit fills the buffer when BUF_SIZE of its bytes have come. */
  lemma OversizedFills(ps: seq<Packet>, k: nat)
    requires k < |ps| && forall p <- ps :: ValidPacket(p)
    requires |EncodePacket(ps[k])| > BUF_SIZE
    ensures var b := EncodePackets(ps[..k]) + EncodePacket(ps[k])[..BUF_SIZE];
            b <= EncodePackets(ps) && |Drain(b).rest| == BUF_SIZE
  {
    hide Drain, EncodePacket, Sent;
    var part := EncodePacket(ps[k])[..BUF_SIZE];
    SentPart(ps, k, part);
    DrainSent(ps[..k], part);
    assert ps[..k][k..] == [];
    EncodeSplit(ps, k);
  }

  lemma {:induction false} EncodeSplit(ps: seq<Packet>, k: nat)
    requires k < |ps| && forall p <- ps :: ValidPacket(p)
    ensures EncodePackets(ps[..k]) + EncodePacket(ps[k]) <= EncodePackets(ps)
  {
    hide EncodePacket;
    if k > 0 {
      EncodeSplit(ps[1..], k - 1);
      assert ps[..k][0] == ps[0] && ps[..k][1..] == ps[1..][..k - 1];
    } else {
      assert ps[..0] == [];
    }
  }

  /** The buffer never wedges on a stream of packets exactly when each of them fits it. */
  lemma NeverFullIff(ps: seq<Packet>)
    requires forall p <- ps :: ValidPacket(p)
    ensures (forall b :: b <= EncodePackets(ps) ==> |Drain(b).rest| < 4096)
       <==> (forall p <- ps :: |EncodePacket(p)| <= 4096)
  {
    hide Drain, EncodePacket, EncodePackets;
    if forall p <- ps :: |EncodePacket(p)| <= BUF_SIZE {
      forall b | b <= EncodePackets(ps) ensures |Drain(b).rest| < BUF_SIZE {
        RoomAfter(ps, b);
      }
    } else {
      var k :| 0 <= k < |ps| && |EncodePacket(ps[k])| > BUF_SIZE;
      OversizedFills(ps, k);
    }
  }

  /** A run whose reads return no more than there is room for. */
  predicate HasRoom(r: Reader, chunks: seq<seq<byte>>) {
    |chunks| > 0 ==>
      var earlier := chunks[..|chunks| - 1];
      HasRoom(r, earlier)
      && (!Run(r, earlier).failed ==> |Run(r, earlier).residue| + |chunks[|chunks| - 1]| <= BUF_SIZE)
  }

  /** Once the buffer is full after a drain it stays so: every later read has room for no
      byte, and nothing is dispatched again. */
  lemma {:induction false} FullForEver(b: seq<byte>, chunks: seq<seq<byte>>)
    requires !Drain(b).failed && |Drain(b).rest| == BUF_SIZE
    requires HasRoom(Reader(Drain(b).events, Drain(b).rest, false), chunks)
    ensures var r := Reader(Drain(b).events, Drain(b).rest, false); Run(r, chunks) == r
  {
    hide Drain;
    if |chunks| > 0 {
      var r := Reader(Drain(b).events, Drain(b).rest, false);
      FullForEver(b, chunks[..|chunks| - 1]);
      assert r.residue + chunks[|chunks| - 1] == r.residue;
      DrainIsFinal(b);
      assert r.events + [] == r.events;
    }
  }

  /** A closed connection, on which read returns 0, leaves the reader as it is: the loop, which
      only ends on -1, goes round without effect. */
  lemma EndOfStreamIdles(chunks: seq<seq<byte>>)
    ensures Receive(Run(START, chunks), []) == Run(START, chunks)
  {
    hide Drain;
    var r := Run(START, chunks);
    RunIsDrain(chunks);
    if !r.failed {
      DrainIsFinal(Flatten(chunks));
      assert r.residue + [] == r.residue && r.events + [] == r.events;
    }
  }

  // ---------- a read that fails ----------

  /** Shortening what was left over does not make an event of it. */
  lemma ShorterRest(b: seq<byte>, k: nat)
    requires !Drain(b).failed && k <= |Drain(b).rest|
    ensures Drain(Drain(b).rest[..k]) == Drained([], Drain(b).rest[..k], false)
  {
    hide ParseHeader;
    var rest := Drain(b).rest;
    DrainIsFinal(b);
    RestNotReady(b);
    if k > PREFIX_LENGTH {
      assert rest[..k][5..PREFIX_LENGTH] == rest[5..PREFIX_LENGTH];
    }
  }

  lemma {:induction false} RestNotReady(b: seq<byte>)
    requires !Drain(b).failed
    ensures !Ready(Drain(b).rest) && !IsError(Drain(b).rest)
    decreases |b|
  {
    hide PacketLength, HeaderOf, FirstEvent;
    if Ready(b) && !IsError(b) {
      RestNotReady(b[PacketLength(b)..]);
    }
  }

  /** read returned -1: with an empty buffer the loop ends; otherwise the count of buffered
      bytes goes down by one and the loop goes on. */
  function FailedRead(r: Reader): Reader {
    if r.failed || r.residue == [] then r else
    var d := Drain(r.residue[..|r.residue| - 1]);
    Reader(r.events + d.events, d.rest, d.failed)
  }

  /** So a failed read dispatches nothing, and loses the last byte received unless the buffer
      was empty: conservation survives it exactly in that case. */
  lemma FailedReadLosesByte(chunks: seq<seq<byte>>)
    requires !Run(START, chunks).failed
    ensures var r, after := Run(START, chunks), FailedRead(Run(START, chunks));
            && after.events == r.events && !after.failed
            && (RawBytes(after.events) + after.residue == Flatten(chunks) <==> r.residue == [])
            && (r.residue != [] ==>
                  |Flatten(chunks)| > 0
                  && RawBytes(after.events) + after.residue == Flatten(chunks)[..|Flatten(chunks)| - 1])
  {
    hide Drain, RawBytes;
    var r := Run(START, chunks);
    var b := Flatten(chunks);
    RunIsDrain(chunks);
    RunLosesNothing(chunks);
    if r.residue != [] {
      ShorterRest(b, |r.residue| - 1);
      assert r.events + [] == r.events;
      assert (RawBytes(r.events) + r.residue)[..|b| - 1] == RawBytes(r.events) + r.residue[..|r.residue| - 1];
    }
  }
}
