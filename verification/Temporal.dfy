/**
 The bit-packed temporal values of binary_type.c, decoded the way the source does it:
 little-endian loads, byte-swapped by ntohl on a little-endian machine, then masked and
 shifted. Words are numbers here, so `x >> k` reads x / 2^k, and a mask of w bits from bit k
 reads x / 2^k % 2^w. Each decoder is then compared with an independent encoder for the
 layout its comment documents.
 */
module Temporal {
  import opened Bytes

  datatype DateTime2 = DateTime2(
    nonNegative: bool,
    year: nat,
    month: nat,
    day: nat,
    hour: nat,
    minute: nat,
    second: nat)

  datatype Date = Date(year: nat, month: nat, day: nat)
  datatype Time = Time(nonNegative: bool, hour: nat, minute: nat, second: nat)

  /** ntohl on a little-endian machine: the same four bytes in the opposite order. */
  function Ntohl(x: nat): nat {
    BE(EncodeLE(x, 4))
  }

  // ---------- the decoders ----------

  /** The 17 bits of year and month in a load at byte 0: mask 0x00C0FF7F, swap, shift. */
  function YearMonth(head: nat): nat {
    var masked := head % 0x80 + head / 0x100 % 0x100 * 0x100 + head / 0x40_0000 % 4 * 0x40_0000;
    Ntohl(masked) / 0x4000
  }

  function DateTime2OfWords(head: nat, b2: byte, clock: nat): DateTime2 {
    DateTime2(head % 0x100 / 0x80 == 1, YearMonth(head) / 13, YearMonth(head) % 13, b2 % 0x40 / 2,
              clock / 0x1000 % 0x20, clock / 0x40 % 0x40, clock % 0x40)
  }

  /** read_mysql_datetime2: sign, year and month come from a load at byte 0, the clock from
      an overlapping load at byte 1, the day from byte 2 alone. */
  function ReadDateTime2(buf: seq<byte>): DateTime2
    requires |buf| >= 5
  {
    DateTime2OfWords(LE(buf[..3]), buf[2], Ntohl(LE(buf[1..5])))
  }

  /** read_mysql_date. */
  function ReadDate(buf: seq<byte>): Date
    requires |buf| >= 3
  {
    var tmp := LE(buf[..3]);
    Date(tmp / 0x200 % 0x8000, tmp / 0x20 % 0x10, tmp % 0x20)
  }

  function TimeOfWords(head: nat, tmp: nat): Time {
    Time(head % 0x100 / 0x80 == 1, tmp / 0x10_0000 % 0x1000 % 0x100, tmp / 0x4000 % 0x40, tmp / 0x100 % 0x40)
  }

  /** read_mysql_time2: twelve bits are taken for the hour, and the field keeps eight. */
  function ReadTime2(buf: seq<byte>): Time
    requires |buf| >= 3
  {
    var head := LE(buf[..3]);
    TimeOfWords(head, Ntohl(head))
  }

  /** read_mysql_timestamp2: four bytes, most significant first, returned as an int. */
  function ReadTimestamp2(buf: seq<byte>): int
    requires |buf| >= 4
  {
    ToInt32(Ntohl(ToUint32(ReadInt4(buf))))
  }

  /** read_mysql_time swaps a three-byte little-endian number before it splits it. */
  function ReadTime(buf: seq<byte>): (int, int, int)
    requires |buf| >= 3
  {
    var tmp := Ntohl(LE(buf[..3]));
    (tmp / 10000 % 0x100, tmp % 10000 / 100, tmp % 100)
  }

  // ---------- loads and swaps in terms of bytes ----------

  lemma SwapFour(b: seq<byte>)
    requires |b| == 4
    ensures Ntohl(LE(b)) == BE(b)
  {
    EncodeDecodeLE(b);
  }

  lemma SwapThree(b0: byte, b1: byte, b2: byte)
    ensures Ntohl(b0 + 0x100 * (b1 as int) + 0x1_0000 * (b2 as int))
         == 0x100_0000 * (b0 as int) + 0x1_0000 * (b1 as int) + 0x100 * (b2 as int)
  {
    Four([b0, b1, b2, 0]);
    SwapFour([b0, b1, b2, 0]);
  }

  // ---------- DATETIME2 ----------

  predicate DateTime2InRange(t: DateTime2) {
    t.month < 13 && t.day < 32 && t.hour < 32 && t.minute < 64 && t.second < 64
    && t.year * 13 + t.month < 0x2_0000
  }

  /** 1 bit sign, 17 bits year * 13 + month, 5 bits day, 5 bits hour, 6 bits minute, 6 bits
      second: 40 bits, most significant first. */
  function PackDateTime2(t: DateTime2): nat {
    var sign := if t.nonNegative then 1 else 0;
    ((((sign * 0x2_0000 + (t.year * 13 + t.month)) * 32 + t.day) * 32 + t.hour) * 64 + t.minute) * 64 + t.second
  }

  function EncodeDateTime2(t: DateTime2): seq<byte> {
    EncodeBE(PackDateTime2(t), 5)
  }

  lemma PackDateTime2Injective(t: DateTime2, u: DateTime2)
    requires DateTime2InRange(t) && DateTime2InRange(u)
    requires PackDateTime2(t) == PackDateTime2(u)
    ensures t == u
  {
    var p1 := (if t.nonNegative then 1 else 0) * 0x2_0000 + (t.year * 13 + t.month);
    var q1 := (if u.nonNegative then 1 else 0) * 0x2_0000 + (u.year * 13 + u.month);
    var p2, q2 := p1 * 32 + t.day, q1 * 32 + u.day;
    var p3, q3 := p2 * 32 + t.hour, q2 * 32 + u.hour;
    var p4, q4 := p3 * 64 + t.minute, q3 * 64 + u.minute;
    SplitUnique(p4, t.second, q4, u.second, 64);
    SplitUnique(p3, t.minute, q3, u.minute, 64);
    SplitUnique(p2, t.hour, q2, u.hour, 32);
    SplitUnique(p1, t.day, q1, u.day, 32);
    SplitUnique(t.year, t.month, u.year, u.month, 13);
  }

  /** The pieces the mask 0x00C0FF7F keeps of a load at byte 0, and the sign bit it drops. */
  lemma MaskedPieces(sign: nat, y: nat, b1: byte, h: nat, low: nat)
    requires sign < 2 && y < 0x80 && h < 4 && low < 0x40
    ensures var head := (sign * 0x80 + y) + 0x100 * (b1 as int) + 0x1_0000 * (h * 0x40 + low);
            && head % 0x80 == y && head / 0x100 % 0x100 == b1 && head / 0x40_0000 % 4 == h
            && head % 0x100 / 0x80 == sign
  {
    var b2 := h * 0x40 + low;
    var head := (sign * 0x80 + y) + 0x100 * (b1 as int) + 0x1_0000 * b2;
    DivMod(head, 0x80, sign + 2 * (b1 as int) + 0x200 * b2, y);
    DivMod(head, 0x100, b1 + 0x100 * b2, sign * 0x80 + y);
    DivMod(b1 + 0x100 * b2, 0x100, b2, b1);
    DivMod(head, 0x40_0000, h, head - h * 0x40_0000);
    DivMod(sign * 0x80 + y, 0x80, sign, y);
  }

  lemma YearMonthOfPieces(sign: nat, y: nat, b1: byte, h: nat, low: nat)
    requires sign < 2 && y < 0x80 && h < 4 && low < 0x40
    ensures var head := (sign * 0x80 + y) + 0x100 * (b1 as int) + 0x1_0000 * (h * 0x40 + low);
            YearMonth(head) == y * 0x400 + (b1 as int) * 4 + h && head % 0x100 / 0x80 == sign
  {
    MaskedPieces(sign, y, b1, h, low);
    SwapThree(y, b1, h * 0x40);
    DivMod(0x100_0000 * y + 0x1_0000 * (b1 as int) + 0x100 * (h * 0x40), 0x4000, y * 0x400 + (b1 as int) * 4 + h, 0);
  }

  /** The clock fields of the swapped load at byte 1. */
  lemma ClockOfPieces(b1: byte, d: nat, l: nat, hi: nat, lo: nat, m: nat, s: nat)
    requires d < 0x80 && l < 2 && hi < 16 && lo < 16 && m < 4 && s < 64
    ensures var clock := 0x100_0000 * (b1 as int) + 0x1_0000 * (d * 2 + l) + 0x100 * (hi * 16 + lo) + (m * 64 + s);
            clock / 0x1000 % 0x20 == l * 16 + hi && clock / 0x40 % 0x40 == lo * 4 + m && clock % 0x40 == s
  {
    var clock := 0x100_0000 * (b1 as int) + 0x1_0000 * (d * 2 + l) + 0x100 * (hi * 16 + lo) + (m * 64 + s);
    var hours := 0x80 * (b1 as int) + d;
    DivMod(clock, 0x1000, hours * 0x20 + (l * 16 + hi), lo * 0x100 + m * 64 + s);
    DivMod(hours * 0x20 + (l * 16 + hi), 0x20, hours, l * 16 + hi);
    var minutes := hours * 0x20 + (l * 16 + hi);
    DivMod(clock, 0x40, minutes * 0x40 + (lo * 4 + m), s);
    DivMod(minutes * 0x40 + (lo * 4 + m), 0x40, minutes, lo * 4 + m);
  }

  lemma HeadOfPieces(buf: seq<byte>, sign: nat, y: nat, h: nat, low: nat)
    requires |buf| == 5 && sign < 2 && y < 0x80 && h < 4 && low < 0x40
    requires buf[0] == sign * 0x80 + y && buf[2] == h * 0x40 + low
    ensures YearMonth(LE(buf[..3])) == y * 0x400 + (buf[1] as int) * 4 + h && LE(buf[..3]) % 0x100 / 0x80 == sign
  {
    hide YearMonth, LE;
    Three(buf[..3]);
    YearMonthOfPieces(sign, y, buf[1], h, low);
  }

  lemma ClockWord(buf: seq<byte>)
    requires |buf| == 5
    ensures Ntohl(LE(buf[1..5]))
         == 0x100_0000 * (buf[1] as int) + 0x1_0000 * (buf[2] as int) + 0x100 * (buf[3] as int) + buf[4]
  {
    hide Ntohl, LE, BE;
    Four(buf[1..5]);
    SwapFour(buf[1..5]);
  }

  lemma DayOfPieces(h: nat, d: nat, l: nat)
    requires h < 4 && d < 0x20 && l < 2
    ensures (h * 0x40 + d * 2 + l) % 0x40 / 2 == d
  {
    DivMod(h * 0x40 + d * 2 + l, 0x40, h, d * 2 + l);
    DivMod(d * 2 + l, 2, d, l);
  }

  lemma DateTime2OfPieces(buf: seq<byte>, sign: nat, y: nat, h: nat, d: nat, l: nat, hi: nat, lo: nat, m: nat, s: nat)
    requires |buf| == 5
    requires sign < 2 && y < 0x80 && h < 4 && d < 0x20 && l < 2 && hi < 16 && lo < 16 && m < 4 && s < 64
    requires buf[0] == sign * 0x80 + y && buf[2] == h * 0x40 + d * 2 + l
    requires buf[3] == hi * 16 + lo && buf[4] == m * 64 + s
    ensures var yearMonth := y * 0x400 + (buf[1] as int) * 4 + h;
            ReadDateTime2(buf) ==
            DateTime2(sign == 1, yearMonth / 13, yearMonth % 13, d, l * 16 + hi, lo * 4 + m, s)
  {
    hide YearMonth, Ntohl, LE;
    HeadOfPieces(buf, sign, y, h, d * 2 + l);
    ClockWord(buf);
    ClockOfPieces(buf[1], h * 0x20 + d, l, hi, lo, m, s);
    DayOfPieces(h, d, l);
  }

  /** The decoded fields of five bytes pack to the number those bytes spell. */
  lemma DateTime2Arithmetic(buf: seq<byte>)
    requires |buf| == 5
    ensures DateTime2InRange(ReadDateTime2(buf)) && PackDateTime2(ReadDateTime2(buf)) == BE(buf)
  {
    var sign, y := buf[0] / 0x80, buf[0] % 0x80;
    var h, d, l := buf[2] / 0x40, buf[2] % 0x40 / 2, buf[2] % 2;
    var hi, lo := buf[3] / 16, buf[3] % 16;
    var m, s := buf[4] / 64, buf[4] % 64;
    DateTime2OfPieces(buf, sign, y, h, d, l, hi, lo, m, s);
    Five(buf);
    PiecesPack(sign, y, buf[1], h, d, l, hi, lo, m, s, ReadDateTime2(buf));
  }

  lemma PiecesPack(sign: nat, y: nat, b1: byte, h: nat, d: nat, l: nat, hi: nat, lo: nat, m: nat, s: nat, t: DateTime2)
    requires sign < 2 && y < 0x80 && h < 4 && d < 0x20 && l < 2 && hi < 16 && lo < 16 && m < 4 && s < 64
    requires t.nonNegative == (sign == 1)
    requires t.year == (y * 0x400 + (b1 as int) * 4 + h) / 13 && t.month == (y * 0x400 + (b1 as int) * 4 + h) % 13
    requires t.day == d && t.hour == l * 16 + hi && t.minute == lo * 4 + m && t.second == s
    ensures DateTime2InRange(t)
    ensures PackDateTime2(t) == 0x1_0000_0000 * (sign * 0x80 + y) + 0x100_0000 * (b1 as int)
                                + 0x1_0000 * (h * 0x40 + d * 2 + l) + 0x100 * (hi * 16 + lo) + (m * 64 + s)
  {
    assert t.year * 13 + t.month == y * 0x400 + (b1 as int) * 4 + h;
  }

  /** Decoding is a bijection between the 2^40 five-byte strings and the in-range field
      combinations: each inverts the other. */
  lemma DateTime2Bijection(t: DateTime2, buf: seq<byte>)
    requires |buf| == 5
    ensures DateTime2InRange(t) ==> ReadDateTime2(EncodeDateTime2(t)) == t
    ensures DateTime2InRange(ReadDateTime2(buf)) && EncodeDateTime2(ReadDateTime2(buf)) == buf
  {
    DateTime2Arithmetic(buf);
    EncodeDecodeBE(buf);
    if DateTime2InRange(t) {
      var e := EncodeDateTime2(t);
      assert Pow256(5) == 0x100_0000_0000;
      DecodeEncodeBE(PackDateTime2(t), 5);
      DateTime2Arithmetic(e);
      PackDateTime2Injective(t, ReadDateTime2(e));
    }
  }

  // ---------- DATE ----------

  predicate DateInRange(d: Date) {
    d.year < 0x8000 && d.month < 16 && d.day < 32
  }

  /** 15 bits year, 4 bits month, 5 bits day, least significant byte first. */
  function PackDate(d: Date): nat {
    (d.year * 16 + d.month) * 32 + d.day
  }

  function EncodeDate(d: Date): seq<byte> {
    EncodeLE(PackDate(d), 3)
  }

  lemma DateOfPacked(d: Date)
    requires DateInRange(d)
    ensures var v := PackDate(d);
            v / 0x200 % 0x8000 == d.year && v / 0x20 % 0x10 == d.month && v % 0x20 == d.day
  {
    var v := PackDate(d);
    DivMod(v, 0x200, d.year, d.month * 32 + d.day);
    DivMod(v, 0x20, d.year * 16 + d.month, d.day);
    DivMod(d.year * 16 + d.month, 16, d.year, d.month);
  }

  lemma PackedOfDate(v: nat)
    requires v < 0x100_0000
    ensures var d := Date(v / 0x200 % 0x8000, v / 0x20 % 0x10, v % 0x20);
            DateInRange(d) && PackDate(d) == v
  {
    var w := v / 0x20;
    DivMod(v, 0x200, w / 0x10, w % 0x10 * 0x20 + v % 0x20);
  }

  /** Decoding a DATE is a bijection between three-byte strings and in-range fields. */
  lemma DateBijection(d: Date, buf: seq<byte>)
    requires |buf| == 3
    ensures DateInRange(d) ==> ReadDate(EncodeDate(d)) == d
    ensures DateInRange(ReadDate(buf)) && EncodeDate(ReadDate(buf)) == buf
  {
    assert Pow256(3) == 0x100_0000;
    LEBound(buf);
    assert buf[..3] == buf;
    PackedOfDate(LE(buf));
    EncodeDecodeLE(buf);
    if DateInRange(d) {
      DecodeEncodeLE(PackDate(d), 3);
      DateOfPacked(d);
      assert EncodeDate(d)[..3] == EncodeDate(d);
    }
  }

  // ---------- TIME2 and TIMESTAMP2 ----------

  /** Twelve bits of hour are more than a server uses (838); there is no negative zero. */
  predicate TimeInRange(t: Time) {
    t.hour < 1024 && t.minute < 64 && t.second < 64 && (t.nonNegative || Magnitude(t) > 0)
  }

  /** 10 bits hour, 6 bits minute, 6 bits second. */
  function Magnitude(t: Time): nat {
    (t.hour * 64 + t.minute) * 64 + t.second
  }

  /** Offset binary: 0x800000 plus the signed magnitude. So the top bit tells the sign, but the
      fields below it stand as they are only for times that are not negative. */
  function PackTime2(t: Time): nat
    requires TimeInRange(t)
  {
    if t.nonNegative then 0x80_0000 + Magnitude(t) else 0x80_0000 - Magnitude(t)
  }

  /** The three bytes a server stores, most significant first. */
  function EncodeTime2(t: Time): (e: seq<byte>)
    requires TimeInRange(t)
    ensures |e| == 3
  {
    EncodeBE(PackTime2(t), 3)
  }

  /** What the decoder takes the packed number for. */
  function FieldsOf(v: nat): Time {
    Time(v / 0x80_0000 == 1, v / 0x1000 % 0x100, v / 0x40 % 0x40, v % 0x40)
  }

  lemma TimeFields(e: seq<byte>)
    requires |e| == 3
    ensures ReadTime2(e) == FieldsOf(BE(e))
  {
    hide Ntohl, LE, BE;
    assert e[..3] == e;
    TimeWords(e);
    var v := BE(e);
    ShiftedFields(v);
    assert v / 0x80_0000 == 1 <==> LE(e) % 0x100 / 0x80 == 1;
  }

  lemma ShiftedFields(v: nat)
    ensures 0x100 * v / 0x10_0000 % 0x1000 % 0x100 == v / 0x1000 % 0x100
    ensures 0x100 * v / 0x4000 % 0x40 == v / 0x40 % 0x40 && 0x100 * v / 0x100 % 0x40 == v % 0x40
  {
    Shift(v, 0x1000);
    Shift(v, 0x40);
    Shift(v, 1);
    var hours := v / 0x1000;
    DivMod(hours, 0x100, hours / 0x1000 * 0x10 + hours % 0x1000 / 0x100, hours % 0x1000 % 0x100);
  }

  lemma Shift(v: nat, p: nat)
    requires p > 0
    ensures 0x100 * v / (0x100 * p) == v / p
  {
    var q, r := v / p, v % p;
    assert v == q * p + r;
    assert 0x100 * v == q * (0x100 * p) + 0x100 * r;
    DivMod(0x100 * v, 0x100 * p, q, 0x100 * r);
  }

  lemma TimeWords(e: seq<byte>)
    requires |e| == 3
    ensures Ntohl(LE(e)) == 0x100 * BE(e) && LE(e) % 0x100 / 0x80 == BE(e) / 0x80_0000
  {
    hide Ntohl, LE, BE;
    Three(e);
    SwapThree(e[0], e[1], e[2]);
    SignOfFirstByte(e[0], e[1], e[2], BE(e));
  }

  /** A time that is not negative keeps its minute and second, and its hour modulo 256. */
  lemma PositiveFields(t: Time)
    requires TimeInRange(t) && t.nonNegative
    ensures FieldsOf(PackTime2(t)) == t.(hour := t.hour % 256)
  {
    var v := PackTime2(t);
    DivMod(v, 0x80_0000, 1, Magnitude(t));
    DivMod(v, 0x1000, 0x800 + t.hour, t.minute * 64 + t.second);
    DivMod(0x800 + t.hour, 0x100, 8 + t.hour / 0x100, t.hour % 0x100);
    DivMod(v, 64, (0x800 + t.hour) * 64 + t.minute, t.second);
    DivMod((0x800 + t.hour) * 64 + t.minute, 64, 0x800 + t.hour, t.minute);
  }

  /** One time alone is its own complement. */
  lemma NegativeFields(t: Time)
    requires TimeInRange(t) && !t.nonNegative
    ensures FieldsOf(PackTime2(t)) == t <==> t.hour == 128 && t.minute == 0 && t.second == 0
  {
    var v := PackTime2(t);
    var seconds := v % 64;
    assert (v + t.second) % 64 == 0 by {
      DivMod(v + t.second, 64, 0x2_0000 - (t.hour * 64 + t.minute), 0);
    }
    if t.second == 0 {
      DivMod(v, 64, 0x2_0000 - (t.hour * 64 + t.minute), 0);
      NegativeHours(t.hour, t.minute, v);
    } else if seconds == t.second {
      assert t.second == 32;
      DivMod(v, 64, 0x2_0000 - (t.hour * 64 + t.minute) - 1, 32);
      DivMod(0x2_0000 - (t.hour * 64 + t.minute) - 1, 64, 0x800 - t.hour - 1, 63 - t.minute);
    }
  }

  lemma NegativeHours(hour: nat, minute: nat, v: nat)
    requires hour < 1024 && minute < 64 && hour * 64 + minute > 0
    requires v == 0x80_0000 - (hour * 64 + minute) * 64
    ensures v / 0x80_0000 == 0 && v / 0x40 == 0x2_0000 - (hour * 64 + minute)
    ensures v / 0x1000 % 0x100 == hour && v / 0x40 % 0x40 == minute <==> hour == 128 && minute == 0
  {
    DivMod(v, 0x40, 0x2_0000 - (hour * 64 + minute), 0);
    if minute == 0 {
      DivMod(v, 0x1000, 0x800 - hour, 0);
      DivMod(0x2_0000 - hour * 64, 64, 0x800 - hour, 0);
    } else {
      DivMod(v, 0x1000, 0x800 - hour - 1, (64 - minute) * 64);
      DivMod(0x2_0000 - (hour * 64 + minute), 64, 0x800 - hour - 1, 64 - minute);
    }
  }

  lemma PackTime2Bound(t: Time)
    requires TimeInRange(t)
    ensures PackTime2(t) < Pow256(3)
  {
    assert Pow256(3) == 0x100_0000;
  }

  predicate Time2Survives(t: Time) {
    if t.nonNegative then t.hour < 256 else t.hour == 128 && t.minute == 0 && t.second == 0
  }

  /** A stored time comes back exactly when it is not negative and its hour is below 256 (the
      type goes up to 838), or when it is -128:00:00. */
  lemma Time2RoundTrip(t: Time)
    requires TimeInRange(t)
    ensures t.nonNegative ==> ReadTime2(EncodeTime2(t)) == t.(hour := t.hour % 256)
    ensures ReadTime2(EncodeTime2(t)) == t <==> Time2Survives(t)
  {
    hide FieldsOf, ReadTime2, PackTime2, TimeInRange, EncodeBE, BE;
    assert PackTime2(t) < Pow256(3) by {
      PackTime2Bound(t);
    }
    DecodeEncodeBE(PackTime2(t), 3);
    TimeFields(EncodeTime2(t));
    if t.nonNegative {
      PositiveFields(t);
    } else {
      NegativeFields(t);
    }
  }

  lemma SignOfFirstByte(b0: byte, b1: byte, b2: byte, v: nat)
    requires v == 0x1_0000 * (b0 as int) + 0x100 * (b1 as int) + b2
    ensures (b0 + 0x100 * (b1 as int) + 0x1_0000 * (b2 as int)) % 0x100 / 0x80 == v / 0x80_0000
  {
    DivMod(b0 + 0x100 * (b1 as int) + 0x1_0000 * (b2 as int), 0x100, b1 + 0x100 * (b2 as int), b0);
    DivMod(v, 0x80_0000, b0 / 0x80, 0x1_0000 * (b0 % 0x80) + 0x100 * (b1 as int) + b2);
  }

  /** A timestamp is recovered exactly while it fits an int: up to 2038. */
  lemma Timestamp2RoundTrip(n: nat)
    requires n < TWO_32
    ensures ReadTimestamp2(EncodeBE(n, 4)) == n <==> n < TWO_31
  {
    var e := EncodeBE(n, 4);
    assert Pow256(4) == TWO_32;
    DecodeEncodeBE(n, 4);
    assert e[..4] == e;
    UnsignedFieldKeepsBits(e);
    SwapFour(e);
  }

  // ---------- TIME ----------

  /** The three fields of a TIME number, in decimal. */
  function TimeFieldsOf(n: nat): (int, int, int) {
    (n / 10000, n % 10000 / 100, n % 100)
  }

  /** The swap in read_mysql_time is misplaced: the number it splits is another than the one
      stored, unless the low byte is zero and the other two are equal. And the hour field keeps
      eight bits. (The sign field of the struct it returns is never written.) */
  lemma TimeReadsBackIff(buf: seq<byte>)
    requires |buf| == 3
    ensures ReadTime(buf) == TimeFieldsOf(LE(buf)) <==> buf[0] == 0 && buf[1] == buf[2] && LE(buf) < 2560000
  {
    hide ReadTime, CutFields, TimeFieldsOf, LE;
    Three(buf);
    SwappedFields(buf);
    var n, m := LE(buf), 0x100_0000 * (buf[0] as int) + 0x1_0000 * (buf[1] as int) + 0x100 * (buf[2] as int);
    SameFieldsIff(n, m);
    if CutFields(m) == TimeFieldsOf(n) {
      var c :| m == n + 2560000 * c;
      OnlyMultiples(buf[0], buf[1], buf[2], c);
    } else if buf[0] == 0 && buf[1] == buf[2] {
      assert m == n + 2560000 * 0;
    }
  }

  /** Two numbers have the same fields, the hour of one cut to eight bits, exactly when they
      differ by a multiple of 256 hours. */
  lemma SameFieldsIff(n: nat, m: nat)
    ensures CutFields(m) == TimeFieldsOf(n) <==> n < 2560000 && exists c :: m == n + 2560000 * c
  {
    hide CutFields, TimeFieldsOf;
    HourBound(n);
    if CutFields(m) == TimeFieldsOf(n) {
      SameFieldsDiffer(n, m);
    }
    if n < 2560000 && exists c :: m == n + 2560000 * c {
      var c :| m == n + 2560000 * c;
      DifferSameFields(n, m, c);
    }
  }

  function CutFields(m: nat): (int, int, int) {
    (m / 10000 % 0x100, m % 10000 / 100, m % 100)
  }

  lemma HourBound(n: nat)
    ensures n < 2560000 <==> n / 10000 < 0x100
  {
    assert n == 10000 * (n / 10000) + n % 10000;
  }

  lemma SameRest(n: nat)
    ensures n % 10000 == n % 10000 / 100 * 100 + n % 100
  {
    DivMod(n, 100, n / 10000 * 100 + n % 10000 / 100, n % 10000 % 100);
  }

  lemma SameFieldsDiffer(n: nat, m: nat)
    requires CutFields(m) == TimeFieldsOf(n)
    ensures n < 2560000 && exists c :: m == n + 2560000 * c
  {
    SameRest(m);
    SameRest(n);
    HourBound(n);
    var c := m / 10000 / 0x100;
    assert m / 10000 == 0x100 * c + n / 10000;
    assert m == 10000 * (m / 10000) + m % 10000 && n == 10000 * (n / 10000) + n % 10000;
    assert m == n + 2560000 * c;
  }

  lemma DifferSameFields(n: nat, m: nat, c: int)
    requires n < 2560000 && m == n + 2560000 * c
    ensures CutFields(m) == TimeFieldsOf(n)
  {
    HourBound(n);
    SameRest(m);
    SameRest(n);
    var rest := n % 10000;
    assert n == 10000 * (n / 10000) + rest;
    DivMod(m, 10000, 0x100 * c + n / 10000, rest);
    DivMod(0x100 * c + n / 10000, 0x100, c, n / 10000);
  }

  /** Swapped and stored number differ by a multiple of 2560000 only if they are the same. */
  lemma OnlyMultiples(b0: byte, b1: byte, b2: byte, c: int)
    requires 16777215 * (b0 as int) + 65280 * ((b1 as int) - (b2 as int)) == 2560000 * c
    ensures b0 == 0 && b1 == b2
  {
    var d: int := (b1 as int) - (b2 as int);
    SplitUnique(65536 * (b0 as int) + 255 * d - 10000 * c, 0, 0, b0, 256);
    assert 51 * d == 2000 * c;
  }

  /** The number a server stores of a TIME: the digits hhmmss, with a sign. */
  function PackTime(hour: nat, minute: nat, second: nat): nat {
    (hour * 100 + minute) * 100 + second
  }

  lemma PackedFields(hour: nat, minute: nat, second: nat)
    requires minute < 100 && second < 100
    ensures TimeFieldsOf(PackTime(hour, minute, second)) == (hour, minute, second)
  {
    var n := PackTime(hour, minute, second);
    DivMod(n, 10000, hour, minute * 100 + second);
    DivMod(minute * 100 + second, 100, minute, second);
    DivMod(n, 100, hour * 100 + minute, second);
  }

  /** A stored TIME that is not negative comes back exactly when its number is a multiple of
      65792 below 2560000: thirty-nine numbers, 00:00:00 and 39:47:52 the first two of them that
      are valid times. */
  lemma TimeRoundTrip(hour: nat, minute: nat, second: nat)
    requires minute < 100 && second < 100 && PackTime(hour, minute, second) < 0x80_0000
    ensures var n := PackTime(hour, minute, second);
            ReadTime(EncodeSigned(n, 3)) == (hour, minute, second) <==> n % 65792 == 0 && n < 2560000
  {
    hide ReadTime, EncodeLE, PackTime, TimeFieldsOf, LE;
    var n := PackTime(hour, minute, second);
    var e := EncodeSigned(n, 3);
    assert Pow256(3) == 0x100_0000;
    DecodeEncodeLE(n, 3);
    Three(e);
    TimeReadsBackIff(e);
    PackedFields(hour, minute, second);
    TwinBytes(n, e[0], e[1], e[2]);
  }

  lemma TwinBytes(n: nat, b0: byte, b1: byte, b2: byte)
    requires n == b0 + 0x100 * (b1 as int) + 0x1_0000 * (b2 as int)
    ensures b0 == 0 && b1 == b2 <==> n % 65792 == 0 && n < 0x100_0000
  {
    if b0 == 0 && b1 == b2 {
      DivMod(n, 65792, b1, 0);
    } else if n % 65792 == 0 {
      SplitUnique(0x100 * (b2 as int) + b1, b0, 257 * (n / 65792), 0, 0x100);
      SplitUnique(b2, b1, n / 65792, n / 65792, 0x100);
    }
  }

  /** And none that is negative does, even apart from the sign. */
  lemma NegativeTimeMisread(hour: nat, minute: nat, second: nat)
    requires minute < 100 && second < 100 && 0 < PackTime(hour, minute, second) < 0x80_0000
    ensures ReadTime(EncodeSigned(-(PackTime(hour, minute, second) as int), 3)) != (hour, minute, second)
  {
    hide ReadTime, EncodeLE, PackTime, TimeFieldsOf, LE, Ntohl;
    var n: int := PackTime(hour, minute, second);
    var e := EncodeSigned(-n, 3);
    assert Pow256(3) == 0x100_0000;
    DivMod(-n, 0x100_0000, -1, 0x100_0000 - n);
    DecodeEncodeLE(0x100_0000 - n, 3);
    Three(e);
    PackedFields(hour, minute, second);
    SwappedFields(e);
    var m := 0x100_0000 * (e[0] as int) + 0x1_0000 * (e[1] as int) + 0x100 * (e[2] as int);
    SameFieldsIff(n, m);
    if CutFields(m) == TimeFieldsOf(n) {
      var c :| m == n + 2560000 * c;
      NoMultiple(e[0], e[1], e[2], c);
    }
  }

  lemma SwappedFields(buf: seq<byte>)
    requires |buf| == 3
    ensures ReadTime(buf)
         == CutFields(0x100_0000 * (buf[0] as int) + 0x1_0000 * (buf[1] as int) + 0x100 * (buf[2] as int))
  {
    hide Ntohl;
    assert buf[..3] == buf;
    Three(buf);
    SwapThree(buf[0], buf[1], buf[2]);
  }

  lemma NoMultiple(b0: byte, b1: byte, b2: byte, c: int)
    ensures 0x100_0001 * (b0 as int) + 65792 * ((b1 as int) + (b2 as int)) - 0x100_0000 != 2560000 * c
  {
    var s: int := (b1 as int) + (b2 as int);
    NoSum(s, c);
    if 0x100_0001 * (b0 as int) + 65792 * s - 0x100_0000 == 2560000 * c {
      SplitUnique(10000 * c + 65536 - 65536 * (b0 as int) - 257 * s, 0, 0, b0, 256);
    }
  }

  lemma NoSum(s: int, c: int)
    requires 0 <= s <= 510
    ensures 257 * s != 65536 + 10000 * c
  {
  }
}
