/**
 run_binlog_stream as it works: a fixed buffer that reads fill from behind, an inner loop that
 peels events off its front, with a cursor in 32-bit arithmetic, and the move of what is left
 over to the start. The loop is proved to be that of the specification in Streams as long as the
 arithmetic does not wrap around, and not to be otherwise.
 */
module BinlogStream {
  import opened Bytes
  import opened Outcomes
  import opened Streams

  // ---------- the cursor ----------

  /** Where the cursor goes when an event is skipped, in the unsigned 32-bit arithmetic of
      `cursor + (event_size - 19)` with the cursor behind the event header. */
  function NextCursor(cursor: nat, eventSize: nat): nat {
    ToUint32(cursor + PREFIX_LENGTH + ToUint32(eventSize - 19))
  }

  /** It goes forward by the length of the packet unless that wraps around, and then it stays
      or goes back for exactly the event sizes that wrap to no more than where it was. */
  lemma NextCursorForward(cursor: nat, eventSize: nat)
    requires cursor < BUF_SIZE && eventSize < TWO_32
    ensures NextCursor(cursor, eventSize) == cursor + 5 + eventSize <==> cursor + 5 + eventSize < TWO_32
    ensures NextCursor(cursor, eventSize) <= cursor <==> TWO_32 - 5 - cursor <= eventSize <= TWO_32 - 5
    ensures cursor + 5 + eventSize >= TWO_32 ==> NextCursor(cursor, eventSize) <= cursor + 4
  {
  }

  // ---------- the inner loop ----------

  /** One turn of the inner loop: it waits for more bytes, ends the program on an error packet,
      or hands on an event and goes to where that ends. */
  datatype Turn = Waits | Fails | Goes(event: Dispatched, cursor: nat)

  /** The event at the cursor, if its end is put at `end`. One whose size wrapped around is
      followed by nothing but what is in the buffer. */
  function EventBetween(b: seq<byte>, cursor: nat, end: nat): Dispatched
    requires cursor + PREFIX_LENGTH < |b| && end <= |b|
  {
    var header := HeaderOf(b[cursor..]);
    var body := cursor + PREFIX_LENGTH;
    Dispatched(header, if header.eventSize < 19 then [] else if end < body then b[body..] else b[body..end],
               if end < cursor then [] else b[cursor..end])
  }

  function TurnAt(b: seq<byte>, cursor: nat): (t: Turn)
    ensures t.Goes? ==> t.cursor <= |b|
  {
    if cursor + PREFIX_LENGTH >= |b| then Waits
    else if b[cursor + 4] == 0xFF then Fails
    else
      var next := NextCursor(cursor, HeaderOf(b[cursor..]).eventSize);
      if next > |b| then Waits else Goes(EventBetween(b, cursor, next), next)
  }

  /** The loop after some turns: the events handed on and where they ended, and the cursor. */
  datatype Loop = Loop(events: seq<Dispatched>, ends: seq<nat>, cursor: nat, last: Turn)
  {
    predicate Goes() {
      last.Goes?
    }
  }

  function Turns(b: seq<byte>, n: nat): (l: Loop)
    ensures l.cursor <= |b|
  {
    if n == 0 then Loop([], [], 0, Turn.Goes(Dispatched(EventHeader(0, 0, 0, 0, 0, 0), [], []), 0)) else
    var l := Turns(b, n - 1);
    if !l.Goes() then l else
    match TurnAt(b, l.cursor)
    case Goes(event, cursor) => Loop(l.events + [event], l.ends + [cursor], cursor, Turn.Goes(event, cursor))
    case t => Loop(l.events, l.ends, l.cursor, t)
  }

  lemma NextTurn(b: seq<byte>, n: nat)
    requires Turns(b, n).Goes()
    ensures var l, next := Turns(b, n), Turns(b, n + 1);
            match TurnAt(b, l.cursor)
            case Goes(event, cursor) =>
              next.Goes() && next.events == l.events + [event] && next.ends == l.ends + [cursor]
              && next.cursor == cursor
            case t => next == Loop(l.events, l.ends, l.cursor, t)
  {
    hide TurnAt;
  }

  ghost predicate Ends(b: seq<byte>) {
    exists n: nat :: !Turns(b, n).Goes()
  }

  /** What the loop comes to, if it ends. */
  ghost function Peeled(b: seq<byte>): Drained
    requires Ends(b)
  {
    var n: nat :| !Turns(b, n).Goes();
    Result(b, Turns(b, n))
  }

  ghost function PeeledEnds(b: seq<byte>): seq<nat>
    requires Ends(b)
  {
    var n: nat :| !Turns(b, n).Goes();
    Turns(b, n).ends
  }

  function Result(b: seq<byte>, l: Loop): Drained
    requires l.cursor <= |b|
  {
    if l.last.Fails? then Drained(l.events, [], true) else Drained(l.events, b[l.cursor..], false)
  }

  lemma {:induction false} StopsForGood(b: seq<byte>, m: nat, n: nat)
    requires m <= n && !Turns(b, m).Goes()
    ensures Turns(b, n) == Turns(b, m)
    decreases n
  {
    hide TurnAt;
    if m < n {
      StopsForGood(b, m, n - 1);
    }
  }

  lemma PeeledIs(b: seq<byte>, n: nat)
    requires !Turns(b, n).Goes()
    ensures Ends(b) && Peeled(b) == Result(b, Turns(b, n)) && PeeledEnds(b) == Turns(b, n).ends
  {
    hide Turns;
    var m: nat :| !Turns(b, m).Goes() && Peeled(b) == Result(b, Turns(b, m));
    StopsForGood(b, if m < n then m else n, if m < n then n else m);
    var k: nat :| !Turns(b, k).Goes() && PeeledEnds(b) == Turns(b, k).ends;
    StopsForGood(b, if k < n then k else n, if k < n then n else k);
  }

  // ---------- the buffer ----------

  /** One turn of the outer loop, if its inner loop ends. */
  ghost function ReceiveWrapping(r: Reader, chunk: seq<byte>): Option<Reader> {
    if r.failed then Some(r)
    else if !Ends(r.residue + chunk) then None
    else
      var d := Peeled(r.residue + chunk);
      Some(Reader(r.events + d.events, d.rest, d.failed))
  }

  class StreamReader {
    var buf: array<byte>
    var rbuflen: int
    /** The events handed to parse_binlog_events so far. */
    var dispatched: seq<Dispatched>
    /** Where in the buffer each of them ended: the memory behind it is the rest of the buffer. */
    var ends: seq<nat>
    /** Whether an error packet has ended the program. */
    var failed: bool

    ghost predicate Valid()
      reads this
    {
      buf.Length == BUF_SIZE && 0 <= rbuflen <= BUF_SIZE && (failed ==> rbuflen == 0)
    }

    /** The state as the specification sees it. */
    function Contents(): Reader
      requires Valid()
      reads this, buf
    {
      Reader(dispatched, buf[..rbuflen], failed)
    }

    constructor ()
      ensures Valid() && fresh(buf) && Contents() == START && ends == []
    {
      buf := new byte[BUF_SIZE];
      rbuflen := 0;
      dispatched, ends := [], [];
      failed := false;
    }

    /** The read call: a chunk lands behind what is buffered. */
    method Fill(chunk: seq<byte>)
      requires Valid() && !failed && rbuflen + |chunk| <= BUF_SIZE
      modifies this`rbuflen, buf
      ensures Valid() && buf[..rbuflen] == old(buf[..rbuflen]) + chunk
    {
      for i := 0 to |chunk|
        invariant Valid() && rbuflen == old(rbuflen)
        invariant buf[..rbuflen + i] == old(buf[..rbuflen]) + chunk[..i]
      {
        buf[rbuflen + i] := chunk[i];
        assert buf[..rbuflen + i + 1] == buf[..rbuflen + i] + [chunk[i]];
      }
      rbuflen := rbuflen + |chunk|;
    }

    /** One turn of the inner loop. The source breaks out of its loop where this returns None. */
    method PeelOne(cursor: nat) returns (next: Option<nat>)
      requires Valid() && !failed && cursor + PREFIX_LENGTH < rbuflen
      modifies this`dispatched, this`ends, this`failed, this`rbuflen
      ensures Valid()
      ensures match TurnAt(old(buf[..rbuflen]), cursor)
              case Waits => next == None && rbuflen == old(rbuflen) && !failed
                            && dispatched == old(dispatched) && ends == old(ends)
              case Fails => next == Some(cursor) && failed && dispatched == old(dispatched) && ends == old(ends)
              case Goes(event, n) => next == Some(n) && rbuflen == old(rbuflen) && !failed
                                     && dispatched == old(dispatched) + [event] && ends == old(ends) + [n]
    {
      ghost var all := buf[..];
      assert buf[..rbuflen] == all[..rbuflen];
      if buf[cursor + 4] == 0xFF {
        failed, rbuflen := true, 0;
        return Some(cursor);
      }
      hide ParseHeader, NextCursor, EventBetween, HeaderOf;
      var header := ParseHeader(buf[cursor + 5..cursor + PREFIX_LENGTH]);
      HeaderAt(all, rbuflen, cursor);
      var at := NextCursor(cursor, header.eventSize);
      if at > rbuflen {
        return None;
      }
      var start := cursor + PREFIX_LENGTH;
      var body := if header.eventSize < 19 then [] else if at < start then buf[start..rbuflen] else buf[start..at];
      var event := Dispatched(header, body, if at < cursor then [] else buf[cursor..at]);
      EventAt(all, rbuflen, cursor, at, event);
      dispatched, ends := dispatched + [event], ends + [at];
      return Some(at);
    }

    /** The inner loop. */
    method Peel() returns (cursor: nat)
      requires Valid() && !failed && Ends(buf[..rbuflen])
      modifies this`dispatched, this`ends, this`failed, this`rbuflen
      ensures Valid()
      ensures var d := Peeled(old(buf[..rbuflen]));
              && dispatched == old(dispatched) + d.events && failed == d.failed
              && ends == old(ends) + PeeledEnds(old(buf[..rbuflen]))
              && (!failed ==> cursor <= rbuflen == old(rbuflen) && buf[cursor..rbuflen] == d.rest)
    {
      hide TurnAt, Turns, Ends, Peeled, PeeledEnds;
      cursor := 0;
      ghost var all := buf[..];
      ghost var b := all[..rbuflen];
      assert b == buf[..rbuflen];
      StartsAtFront(b);
      ghost var stop := StopOf(b);
      ghost var n: nat := 0;
      while cursor + PREFIX_LENGTH < rbuflen
        invariant Valid() && rbuflen == old(rbuflen) && cursor <= rbuflen && !failed && buf[..] == all
        invariant n <= stop && Turns(b, n).Goes() && Turns(b, n).cursor == cursor
        invariant dispatched == old(dispatched) + Turns(b, n).events
        invariant ends == old(ends) + Turns(b, n).ends
        decreases stop - n
      {
        GoesBefore(b, n, stop);
        NextTurn(b, n);
        if !TurnAt(b, cursor).Goes? {
          StopsHere(b, n);
        }
        ghost var l := Turns(b, n);
        var next := PeelOne(cursor);
        if next.None? || failed {
          InPrefix(all, old(rbuflen), cursor, old(rbuflen));
          return;
        }
        cursor := next.value;
        n := n + 1;
        AppendLast(old(dispatched), l.events, dispatched[|dispatched| - 1]);
        AppendLast(old(ends), l.ends, cursor);
      }
      ShortWaits(b, cursor);
      StopsHere(b, n);
      InPrefix(all, rbuflen, cursor, rbuflen);
    }

    /** The move of what is left over to the front of the buffer. The source asks memcpy to do
        it although the two regions may overlap; copied from the front up, as here, it is a
        move. */
    method Compact(cursor: nat)
      requires Valid() && !failed && cursor <= rbuflen
      modifies this`rbuflen, buf
      ensures Valid() && buf[..rbuflen] == old(buf[cursor..rbuflen])
    {
      var left := rbuflen - cursor;
      for i := 0 to left
        invariant Valid() && rbuflen == old(rbuflen)
        invariant buf[..i] == old(buf[cursor..cursor + i])
        invariant buf[cursor + i..rbuflen] == old(buf[cursor + i..rbuflen])
      {
        assert buf[cursor + i] == buf[cursor + i..rbuflen][0] == old(buf[cursor + i]);
        ghost var ahead := buf[cursor + i + 1..rbuflen];
        assert ahead == buf[cursor + i..rbuflen][1..];
        buf[i] := buf[cursor + i];
        assert buf[..i + 1] == buf[..i] + [buf[i]];
        assert buf[cursor + i + 1..rbuflen] == ahead;
      }
      rbuflen := left;
    }

    /** One turn of the outer loop, for a read that returned this chunk. */
    method Receive(chunk: seq<byte>)
      requires Valid() && !failed && |Contents().residue| + |chunk| <= BUF_SIZE
      requires Ends(Contents().residue + chunk)
      modifies this, buf
      ensures Valid() && buf == old(buf)
      ensures Some(Contents()) == ReceiveWrapping(old(Contents()), chunk)
      ensures ends == old(ends) + PeeledEnds(old(Contents()).residue + chunk)
    {
      hide Ends, Peeled, PeeledEnds;
      Fill(chunk);
      assert buf[..rbuflen] == old(Contents()).residue + chunk;
      var cursor := Peel();
      if !failed {
        Compact(cursor);
      } else {
        FailedIsEmpty(old(Contents()).residue + chunk);
        assert buf[..0] == [];
      }
    }

    /** One turn of the outer loop, for a read that returned -1. The loop ends if that makes
        the count of buffered bytes -1. */
    method ReceiveFailure() returns (ended: bool)
      requires Valid() && !failed
      requires rbuflen > 0 ==> Ends(buf[..rbuflen - 1])
      modifies this, buf
      ensures Valid() && buf == old(buf)
      ensures ended <==> old(rbuflen) == 0
      ensures if ended then Contents() == old(Contents())
              else Some(Contents())
                   == ReceiveWrapping(old(Contents()).(residue := old(buf[..rbuflen - 1])), [])
    {
      hide Ends, Peeled, PeeledEnds;
      ended := rbuflen == 0;
      if !ended {
        assert buf[..rbuflen - 1] + [] == buf[..rbuflen - 1];
        rbuflen := rbuflen - 1;
        var cursor := Peel();
        if !failed {
          Compact(cursor);
        } else {
          FailedIsEmpty(old(buf[..rbuflen - 1]));
          assert buf[..0] == [];
        }
      }
    }
  }

  lemma StopOf(b: seq<byte>) returns (stop: nat)
    requires Ends(b)
    ensures !Turns(b, stop).Goes()
  {
    stop :| !Turns(b, stop).Goes();
  }

  lemma GoesBefore(b: seq<byte>, n: nat, stop: nat)
    requires Turns(b, n).Goes() && !Turns(b, stop).Goes()
    ensures n < stop
  {
    if stop <= n {
      StopsForGood(b, stop, n);
    }
  }

  lemma AppendLast<T>(a: seq<T>, b: seq<T>, x: T)
    ensures a + b + [x] == a + (b + [x])
  {
  }

  /** What the loop comes to if its next turn is the last. */
  lemma StopsHere(b: seq<byte>, n: nat)
    requires Turns(b, n).Goes() && !TurnAt(b, Turns(b, n).cursor).Goes?
    ensures Ends(b) && PeeledEnds(b) == Turns(b, n).ends
    ensures var l := Turns(b, n);
            Peeled(b) == if TurnAt(b, l.cursor).Fails? then Drained(l.events, [], true)
                         else Drained(l.events, b[l.cursor..], false)
  {
    hide TurnAt, Turns;
    NextTurn(b, n);
    PeeledIs(b, n + 1);
  }

  lemma ShortWaits(b: seq<byte>, cursor: nat)
    requires cursor + PREFIX_LENGTH >= |b|
    ensures TurnAt(b, cursor) == Waits
  {
  }

  lemma FailedIsEmpty(b: seq<byte>)
    requires Ends(b)
    ensures Peeled(b).failed ==> Peeled(b).rest == []
  {
    hide Turns;
  }

  lemma InPrefix(all: seq<byte>, n: nat, i: nat, j: nat)
    requires i <= j <= n <= |all|
    ensures all[..n][i..j] == all[i..j] && all[..n][i..] == all[i..n]
  {
  }

  lemma HeaderAt(all: seq<byte>, n: nat, cursor: nat)
    requires cursor + PREFIX_LENGTH < n <= |all|
    ensures HeaderOf(all[..n][cursor..]) == ParseHeader(all[cursor + 5..cursor + PREFIX_LENGTH])
  {
    hide ParseHeader;
    InPrefix(all, n, cursor, n);
    SubSlice(all, cursor, n, 5, PREFIX_LENGTH);
  }

  lemma SubSlice(a: seq<byte>, i: nat, j: nat, k: nat, l: nat)
    requires i <= j <= |a| && k <= l <= j - i
    ensures a[i..j][k..l] == a[i + k..i + l]
  {
    assert forall x :: 0 <= x < l - k ==> a[i..j][k..l][x] == a[i + k..i + l][x];
  }

  lemma EventAt(all: seq<byte>, n: nat, cursor: nat, at: nat, event: Dispatched)
    requires cursor + PREFIX_LENGTH < n <= |all| && at <= n
    requires event.header == HeaderOf(all[..n][cursor..])
    requires event.raw == if at < cursor then [] else all[cursor..at]
    requires var start := cursor + PREFIX_LENGTH;
             event.body == if event.header.eventSize < 19 then []
                           else if at < start then all[start..n] else all[start..at]
    ensures event == EventBetween(all[..n], cursor, at)
  {
    hide HeaderOf;
    var start := cursor + PREFIX_LENGTH;
    InPrefix(all, n, cursor, if at < cursor then cursor else at);
    InPrefix(all, n, start, if at < start then start else at);
  }

  // ---------- where that is the specification ----------

  /** The size announced by what would be left over puts its end beyond 2^32. */
  predicate Wraps(b: seq<byte>) {
    var d := Drain(b);
    !d.failed && |d.rest| > PREFIX_LENGTH && |b| - |d.rest| + PacketLength(d.rest) >= TWO_32
  }

  lemma HereOf(b: seq<byte>, cursor: nat)
    requires cursor + PREFIX_LENGTH < |b|
    ensures b[cursor..][4] == b[cursor + 4] && PacketLength(b[cursor..]) == 5 + HeaderOf(b[cursor..]).eventSize
    ensures HeaderOf(b[cursor..]).eventSize < TWO_32
  {
  }

  /** At a cursor where the arithmetic is exact, a turn is the step of the specification. */
  lemma TurnIsStep(b: seq<byte>, cursor: nat)
    requires cursor <= |b| <= BUF_SIZE
    ensures var here := b[cursor..];
            && (IsError(here) ==> TurnAt(b, cursor) == Fails)
            && (Ready(here) ==> PREFIX_LENGTH < |here| && PacketLength(here) <= |here|
                                && TurnAt(b, cursor) == Goes(FirstEvent(here), cursor + PacketLength(here)))
            && (!IsError(here) && !Ready(here) && (|here| > PREFIX_LENGTH ==> cursor + PacketLength(here) < TWO_32)
                ==> TurnAt(b, cursor) == Waits)
            && (!IsError(here) && |here| > PREFIX_LENGTH && cursor + PacketLength(here) >= TWO_32
                ==> TurnAt(b, cursor).Goes?)
  {
    hide ParseHeader, NextCursor;
    var here := b[cursor..];
    if |here| > PREFIX_LENGTH {
      HereOf(b, cursor);
      var size := HeaderOf(here).eventSize;
      NextCursorForward(cursor, size);
      if Ready(here) {
        var n := PacketLength(here);
        assert here[..n] == b[cursor..cursor + n];
        assert n >= PREFIX_LENGTH ==> here[PREFIX_LENGTH..n] == b[cursor + PREFIX_LENGTH..cursor + n];
      }
    }
  }

  /** From a cursor the loop has reached, it hands on the events the specification gives, and
      stops where that does, unless what is left over wraps: then it hands on one more. */
  lemma {:induction false} LoopFollows(b: seq<byte>, n: nat) returns (m: nat)
    requires |b| <= BUF_SIZE && Turns(b, n).Goes()
    ensures m >= n
    ensures var l := Turns(b, n);
            var d := Drain(b[l.cursor..]);
            if !d.failed && |d.rest| > PREFIX_LENGTH && |b| - |d.rest| + PacketLength(d.rest) >= TWO_32
            then |Turns(b, m).events| > |l.events + d.events|
            else !Turns(b, m).Goes() && Result(b, Turns(b, m)) == Drained(l.events + d.events, d.rest, d.failed)
                 && Turns(b, m).ends == l.ends + EventEnds(b[l.cursor..], l.cursor)
    decreases |b| - Turns(b, n).cursor
  {
    hide TurnAt, Turns, PacketLength, FirstEvent, HeaderOf, Ready, IsError, Drain, EventEnds;
    NextTurn(b, n);
    var l := Turns(b, n);
    var here := b[l.cursor..];
    TurnIsStep(b, l.cursor);
    DrainStep(here);
    EndsStep(here, l.cursor);
    m := n + 1;
    if Ready(here) && !IsError(here) {
      assert here[PacketLength(here)..] == b[l.cursor + PacketLength(here)..];
      m := LoopFollows(b, n + 1);
      var e := Drain(here[PacketLength(here)..]);
      assert l.events + ([FirstEvent(here)] + e.events) == (l.events + [FirstEvent(here)]) + e.events;
      var end := l.cursor + PacketLength(here);
      var more := EventEnds(here[PacketLength(here)..], end);
      assert l.ends + ([end] + more) == (l.ends + [end]) + more;
    } else {
      assert l.events + [] == l.events && l.ends + [] == l.ends;
    }
  }

  lemma EndsStep(here: seq<byte>, at: nat)
    ensures if !IsError(here) && Ready(here)
            then PacketLength(here) <= |here|
                 && EventEnds(here, at)
                    == [at + PacketLength(here)] + EventEnds(here[PacketLength(here)..], at + PacketLength(here))
            else EventEnds(here, at) == []
  {
    hide HeaderOf;
  }

  lemma DrainStep(here: seq<byte>)
    ensures if IsError(here) then Drain(here) == Drained([], [], true)
            else if Ready(here)
            then PacketLength(here) <= |here|
                 && var d := Drain(here[PacketLength(here)..]);
                    Drain(here) == Drained([FirstEvent(here)] + d.events, d.rest, d.failed)
            else Drain(here) == Drained([], here, false)
  {
    hide FirstEvent, HeaderOf;
  }

  lemma {:induction false} EventsGrow(b: seq<byte>, m: nat, n: nat)
    requires m <= n
    ensures |Turns(b, m).events| <= |Turns(b, n).events|
    decreases n
  {
    hide TurnAt;
    if m < n {
      EventsGrow(b, m, n - 1);
    }
  }

  /** The inner loop ends, and as the specification says, exactly when what is left over does
      not wrap. The events then end in the buffer where it says. */
  lemma LoopIsDrainIff(b: seq<byte>)
    requires |b| <= BUF_SIZE
    ensures Ends(b) && Peeled(b) == Drain(b) <==> !Wraps(b)
    ensures !Wraps(b) ==> PeeledEnds(b) == EventEnds(b, 0)
  {
    hide Turns, Drain, PacketLength, EventEnds;
    StartsAtFront(b);
    var m := LoopFollows(b, 0);
    if !Wraps(b) {
      PeeledIs(b, m);
    } else if Ends(b) {
      var stop := StopOf(b);
      PeeledIs(b, stop);
      if m <= stop {
        EventsGrow(b, m, stop);
      } else {
        StopsForGood(b, stop, m);
      }
    }
  }

  lemma StartsAtFront(b: seq<byte>)
    ensures Turns(b, 0).Goes() && Turns(b, 0).cursor == 0 && Turns(b, 0).events == [] && b[0..] == b
    ensures Turns(b, 0).ends == []
    ensures [] + Drain(b).events == Drain(b).events && [] + EventEnds(b, 0) == EventEnds(b, 0)
  {
    hide Drain, EventEnds, TurnAt;
  }

  /** So one turn of the outer loop is a step of the specification exactly then. */
  lemma ReceiveIff(r: Reader, chunk: seq<byte>)
    requires !r.failed && |r.residue + chunk| <= BUF_SIZE
    ensures ReceiveWrapping(r, chunk) == Some(Streams.Receive(r, chunk)) <==> !Wraps(r.residue + chunk)
  {
    hide Ends, Peeled, Drain, Wraps;
    LoopIsDrainIff(r.residue + chunk);
    if Ends(r.residue + chunk) {
      var d, e := Peeled(r.residue + chunk), Drain(r.residue + chunk);
      assert r.events + d.events == r.events + e.events ==> d.events == e.events by {
        assert (r.events + d.events)[|r.events|..] == d.events && (r.events + e.events)[|r.events|..] == e.events;
      }
    }
  }

  /** And one whose read failed is the failed read of the specification. */
  lemma FailureIff(r: Reader)
    requires !r.failed && 0 < |r.residue| <= BUF_SIZE
    ensures var rest := r.residue[..|r.residue| - 1];
            ReceiveWrapping(r.(residue := rest), []) == Some(FailedRead(r)) <==> !Wraps(rest)
  {
    hide ReceiveWrapping, Drain, Wraps;
    var rest := r.residue[..|r.residue| - 1];
    assert rest + [] == rest;
    ReceiveIff(r.(residue := rest), []);
  }

  // ---------- runs ----------

  /** The outer loop over a run of reads, if all its inner loops end. */
  ghost function RunWrapping(chunks: seq<seq<byte>>): Option<Reader> {
    if |chunks| == 0 then Some(START) else
    match RunWrapping(chunks[..|chunks| - 1])
    case None => None
    case Some(r) => ReceiveWrapping(r, chunks[|chunks| - 1])
  }

  /** No read leaves a size that wraps. */
  predicate Tame(chunks: seq<seq<byte>>) {
    |chunks| > 0 ==>
      var earlier := chunks[..|chunks| - 1];
      Tame(earlier) && (!Run(START, earlier).failed ==> !Wraps(Run(START, earlier).residue + chunks[|chunks| - 1]))
  }

  /** The program as it runs is the specification, for reads the buffer has room for that are
      Tame: it is where draining all bytes received at once would have left it. */
  lemma {:induction false} TameRun(chunks: seq<seq<byte>>)
    requires HasRoom(START, chunks) && Tame(chunks)
    ensures RunWrapping(chunks) == Some(Run(START, chunks))
    ensures var d := Drain(Flatten(chunks)); RunWrapping(chunks) == Some(Reader(d.events, d.rest, d.failed))
  {
    hide Drain, Wraps, ReceiveWrapping;
    RunIsDrain(chunks);
    if |chunks| > 0 {
      var earlier := chunks[..|chunks| - 1];
      TameRun(earlier);
      var r := Run(START, earlier);
      if r.failed {
        FailedStays(r, chunks[|chunks| - 1]);
      } else {
        ReceiveIff(r, chunks[|chunks| - 1]);
      }
    }
  }

  lemma FailedStays(r: Reader, chunk: seq<byte>)
    requires r.failed
    ensures ReceiveWrapping(r, chunk) == Some(r) && Streams.Receive(r, chunk) == r
  {
  }

  /** So for such reads the cut makes no difference to the program either. */
  lemma TameCutsDoNotMatter(chunks: seq<seq<byte>>, others: seq<seq<byte>>)
    requires Flatten(chunks) == Flatten(others)
    requires HasRoom(START, chunks) && Tame(chunks) && HasRoom(START, others) && Tame(others)
    ensures RunWrapping(chunks) == RunWrapping(others)
  {
    TameRun(chunks);
    TameRun(others);
    ChunkingIndependence(chunks, others);
  }

  /** The bytes of what it has dispatched, followed by those it holds, are the bytes received. */
  lemma TameLosesNothing(chunks: seq<seq<byte>>)
    requires HasRoom(START, chunks) && Tame(chunks) && !Run(START, chunks).failed
    ensures RunWrapping(chunks).Some?
    ensures var r := RunWrapping(chunks).value; RawBytes(r.events) + r.residue == Flatten(chunks)
  {
    hide RunWrapping, Run, RawBytes;
    TameRun(chunks);
    RunLosesNothing(chunks);
  }

  /** And a run that has seen less of the stream has dispatched a prefix of its events. */
  lemma TameOnlyGrows(chunks: seq<seq<byte>>, more: seq<seq<byte>>)
    requires HasRoom(START, chunks) && Tame(chunks) && HasRoom(START, more) && Tame(more)
    requires Flatten(chunks) <= Flatten(more)
    ensures RunWrapping(chunks).Some? && RunWrapping(more).Some?
    ensures RunWrapping(chunks).value.events <= RunWrapping(more).value.events
  {
    hide RunWrapping, Run;
    TameRun(chunks);
    TameRun(more);
    EventsOnlyGrow(chunks, more);
  }

  lemma PartAnnounces(p: Packet, part: seq<byte>)
    requires ValidPacket(p) && part < EncodePacket(p) && |part| > PREFIX_LENGTH
    ensures PacketLength(part) == |EncodePacket(p)|
  {
    hide ParseHeader, EncodeHeader, EncodeLE;
    var e := EncodePacket(p);
    PacketInFront(p, []);
    assert e + [] == e;
    assert part[5..PREFIX_LENGTH] == e[5..PREFIX_LENGTH];
  }

  /** Of a stream of packets that fit the buffer, what is left over announces no more than that. */
  lemma RestFits(ps: seq<Packet>, b: seq<byte>)
    requires forall p <- ps :: ValidPacket(p) && |EncodePacket(p)| <= BUF_SIZE
    requires b <= EncodePackets(ps)
    ensures !Drain(b).failed && (|Drain(b).rest| > PREFIX_LENGTH ==> PacketLength(Drain(b).rest) <= BUF_SIZE)
  {
    hide Drain, EncodePacket, Sent, HeldBack, PacketLength;
    var k, part := PrefixIsSent(ps, b);
    SentPart(ps, k, part);
    DrainSent(ps[..k], part);
    if HeldBack(ps[..k], part) {
      HeldBackLength(ps[..k], part);
    } else {
      assert ps[..k][|ps[..k]|..] == [] && EncodePackets([]) + part == part;
      if |part| > PREFIX_LENGTH {
        assert ps[k] in ps;
        PartAnnounces(ps[k], part);
      }
    }
  }

  /** So whatever part of a stream of packets that fit the buffer has been received, in whatever
      reads there was room for, the program has run as specified. */
  lemma {:induction false} SentRunsAsSpecified(ps: seq<Packet>, chunks: seq<seq<byte>>)
    requires forall p <- ps :: ValidPacket(p) && |EncodePacket(p)| <= BUF_SIZE
    requires Flatten(chunks) <= EncodePackets(ps) && HasRoom(START, chunks)
    ensures Tame(chunks) && RunWrapping(chunks) == Some(Run(START, chunks))
  {
    hide Drain, EncodePacket, EncodePackets, RunWrapping, ValidPacket, PacketLength;
    if |chunks| > 0 {
      var earlier := chunks[..|chunks| - 1];
      SentRunsAsSpecified(ps, earlier);
      RunIsDrain(earlier);
      DrainAppend(Flatten(earlier), chunks[|chunks| - 1]);
      RestFits(ps, Flatten(earlier));
      RestFits(ps, Flatten(chunks));
    }
    TameRun(chunks);
  }

  lemma Chunks(c: seq<byte>, d: seq<byte>)
    ensures Flatten([c]) == c && Flatten([c, d]) == c + d
    ensures RunWrapping([c]) == ReceiveWrapping(START, c)
    ensures RunWrapping([c, d])
         == match RunWrapping([c])
            case None => None
            case Some(r) => ReceiveWrapping(r, d)
  {
    hide ReceiveWrapping;
    assert [c][..0] == [] && [c, d][..1] == [c];
    assert Flatten([]) + c == c;
  }

  lemma {:induction false} Round(b: seq<byte>, c: nat, n: nat)
    requires TurnAt(b, 0).Goes? && TurnAt(b, 0).cursor == c
    requires TurnAt(b, c).Goes? && TurnAt(b, c).cursor == 0
    ensures Turns(b, n).Goes() && Turns(b, n).cursor in {0, c}
  {
    hide TurnAt;
    if n > 0 {
      Round(b, c, n - 1);
    }
  }

  lemma GoesRound(p: Packet, x: seq<byte>)
    requires ValidPacket(p) && p.body != [] && |EncodePacket(p)| + |x| <= BUF_SIZE
    requires |x| > PREFIX_LENGTH && x[4] != 0xFF && HeaderOf(x).eventSize == TWO_32 - 5 - |EncodePacket(p)|
    ensures !Ends(EncodePacket(p) + x)
  {
    hide EncodePacket, ValidPacket, HeaderOf, Turns, EventBetween;
    var e := EncodePacket(p);
    var b := e + x;
    PacketInFront(p, x);
    TurnIsStep(b, 0);
    assert b[0..] == b && b[|e|..] == x;
    assert TurnAt(b, |e|).cursor == 0;
    forall n: nat ensures Turns(b, n).Goes() {
      Round(b, |e|, n);
    }
  }

  lemma PacketAlone(p: Packet)
    requires ValidPacket(p) && p.body != []
    ensures var e := EncodePacket(p);
            Drain(e) == Drained([Dispatched(p.header, p.body, e)], [], false) && !Wraps(e)
  {
    hide EncodePacket, ValidPacket, PacketLength, FirstEvent, HeaderOf;
    var e := EncodePacket(p);
    PacketInFront(p, []);
    assert e + [] == e;
    DrainStep(e);
    EmptyDrain();
  }

  lemma LongWaits(x: seq<byte>, c: nat)
    requires PREFIX_LENGTH < |x| <= BUF_SIZE && 0 < c <= BUF_SIZE
    requires x[4] != 0xFF && HeaderOf(x).eventSize == TWO_32 - 5 - c
    ensures Drain(x) == Drained([], x, false) && !Wraps(x)
  {
    hide HeaderOf, FirstEvent;
    DrainStep(x);
  }

  /** A packet with a body, and after it a header that announces 2^32 bytes less the length of
      the packet and five. Read together, the loop goes back to the packet for ever; read one
      after the other, the packet is handed on once and the rest is waited for. */
  lemma CutMatters(p: Packet, x: seq<byte>)
    requires ValidPacket(p) && p.body != [] && |EncodePacket(p)| + |x| <= BUF_SIZE
    requires |x| > PREFIX_LENGTH && x[4] != 0xFF && HeaderOf(x).eventSize == TWO_32 - 5 - |EncodePacket(p)|
    ensures Flatten([EncodePacket(p) + x]) == Flatten([EncodePacket(p), x])
    ensures RunWrapping([EncodePacket(p) + x]) == None
    ensures RunWrapping([EncodePacket(p), x])
         == Some(Reader([Dispatched(p.header, p.body, EncodePacket(p))], x, false))
  {
    hide EncodePacket, ValidPacket, Drain, Ends, Peeled, Wraps, HeaderOf, RunWrapping, Flatten;
    var e := EncodePacket(p);
    var event := Dispatched(p.header, p.body, e);
    Chunks(e + x, []);
    Chunks(e, x);
    GoesRound(p, x);
    assert START.residue + (e + x) == e + x;
    PacketAlone(p);
    LongWaits(x, |e|);
    assert START.residue + e == e && [] + x == x;
    ReceiveIff(START, e);
    assert [] + [event] == [event] && [event] + [] == [event];
    ReceiveIff(Reader([event], [], false), x);
  }
}
