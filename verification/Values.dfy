/**
 Column values as a server holds and stores them, and exactly which of them the decoder returns.
 */
module Values {
  import opened Bytes
  import opened TableMaps
  import opened Rows
  import opened RowsExactness
  import opened Outcomes
  import DecimalFormat
  import Decimals
  import DecimalsExactness
  import Fractions
  import Temporal

  /** A column value as a server holds it. Whether an integer column is UNSIGNED its table map
      does not say: the type code, the width and the place of the bytes are the same. */
  datatype Stored =
    | Tiny(unsigned: bool, n: int)
    | Short(unsigned: bool, n: int)
    | Int24(unsigned: bool, n: int)
    | Long(unsigned: bool, n: int)
    | LongLong(unsigned: bool, n: int)
    | Float(bits: seq<byte>)
    | Double(bits: seq<byte>)
    | Timestamp2(seconds: nat)
    | DateTime2(dateTime: Temporal.DateTime2)
    | Date(date: Temporal.Date)
    | Time2(time: Temporal.Time)
    | Time(negative: bool, hour: nat, minute: nat, second: nat)
    | NewDecimal(negative: bool, integral: nat, fractional: nat, precision: byte, scale: byte)

  /** What k bytes hold of one signedness. */
  predicate InRange(unsigned: bool, n: int, k: nat) {
    if unsigned then 0 <= n < Pow256(k) else -Pow256(k) <= 2 * n < Pow256(k)
  }

  /** What each type can hold. A DATETIME2 has a sign bit, but is never negative. */
  predicate Storable(v: Stored) {
    match v
    case Tiny(unsigned, n) => InRange(unsigned, n, 1)
    case Short(unsigned, n) => InRange(unsigned, n, 2)
    case Int24(unsigned, n) => InRange(unsigned, n, 3)
    case Long(unsigned, n) => InRange(unsigned, n, 4)
    case LongLong(unsigned, n) => InRange(unsigned, n, 8)
    case Float(bits) => |bits| == 4
    case Double(bits) => |bits| == 8
    case Timestamp2(n) => n < TWO_32
    case DateTime2(t) => Temporal.DateTime2InRange(t) && t.nonNegative
    case Date(d) => Temporal.DateInRange(d)
    case Time2(t) => Temporal.TimeInRange(t)
    case Time(negative, h, m, s) =>
      m < 100 && s < 100 && Temporal.PackTime(h, m, s) < 0x80_0000 && (negative ==> Temporal.PackTime(h, m, s) > 0)
    case NewDecimal(_, i, f, p, s) =>
      s <= p && p > 0 && i < DecimalFormat.Pow10(p - s) && f < DecimalFormat.Pow10(s)
  }

  /** The type code a table map gives for it. */
  function TypeOf(v: Stored): byte {
    match v
    case Tiny(_, _) => 0x01
    case Short(_, _) => 0x02
    case Int24(_, _) => 0x09
    case Long(_, _) => 0x03
    case LongLong(_, _) => 0x08
    case Float(_) => 0x04
    case Double(_) => 0x05
    case Timestamp2(_) => 0x11
    case DateTime2(_) => 0x12
    case Date(_) => 0x0a
    case Time2(_) => 0x13
    case Time(_, _, _, _) => 0x0b
    case NewDecimal(_, _, _, _, _) => 0xf6
  }

  /** The bytes a server writes for it. */
  function CellOf(v: Stored): seq<byte>
    requires Storable(v)
  {
    match v
    case Tiny(_, n) => EncodeSigned(n, 1)
    case Short(_, n) => EncodeSigned(n, 2)
    case Int24(_, n) => EncodeSigned(n, 3)
    case Long(_, n) => EncodeSigned(n, 4)
    case LongLong(_, n) => EncodeSigned(n, 8)
    case Float(bits) => bits
    case Double(bits) => bits
    case Timestamp2(n) => EncodeBE(n, 4)
    case DateTime2(t) => Temporal.EncodeDateTime2(t)
    case Date(d) => Temporal.EncodeDate(d)
    case Time2(t) => Temporal.EncodeTime2(t)
    case Time(negative, h, m, s) =>
      var n: int := Temporal.PackTime(h, m, s);
      EncodeSigned(if negative then -n else n, 3)
    case NewDecimal(negative, i, f, p, s) => DecimalFormat.Encode(negative, i, f, p, s)
  }

  /** The value that is right for it; of a TIME, apart from its sign. */
  function Meant(v: Stored): Value {
    match v
    case Tiny(_, n) => Integer(n)
    case Short(_, n) => Integer(n)
    case Int24(_, n) => Integer(n)
    case Long(_, n) => Integer(n)
    case LongLong(_, n) => Integer(n)
    case Float(bits) => Real(bits)
    case Double(bits) => Real(bits)
    case Timestamp2(n) => Integer(n)
    case DateTime2(t) => Value.DateTime2(t)
    case Date(d) => Value.Date(d)
    case Time2(t) => Value.Time2(t)
    case Time(_, h, m, s) => Value.Time(h, m, s)
    case NewDecimal(negative, i, f, _, _) => Decimal(negative, i, f)
  }

  /** When the decoder gets it right. */
  predicate Survives(signedChar: bool, v: Stored) {
    match v
    case Tiny(_, n) => if signedChar then n < 0x80 else n >= 0
    case Short(_, n) => n == 0
    case Int24(_, n) => n < 0x80_0000
    case Long(_, n) => n < TWO_31
    case LongLong(_, n) => n == 0
    case Timestamp2(n) => n < TWO_31
    case Time2(t) => Temporal.Time2Survives(t)
    case Time(negative, h, m, s) =>
      !negative && Temporal.PackTime(h, m, s) % 65792 == 0 && Temporal.PackTime(h, m, s) < 2560000
    case NewDecimal(negative, i, f, p, s) =>
      && signedChar && s <= p
      && Decimals.SideSurvives(negative, i, p - s) && Fractions.FractionSurvives(negative, f, s)
    case _ => true
  }

  /** The value the walk takes from a cell of a column of that type. */
  function TakenValue(signedChar: bool, v: Stored, cell: seq<byte>): Value {
    if v.NewDecimal? then DecimalValue(signedChar, cell, v.precision, v.scale)
    else if |cell| == FixedWidth(TypeOf(v)) then FixedValue(signedChar, TypeOf(v), cell)
    else Unread
  }

  lemma RangeOf(unsigned: bool, n: int, k: nat)
    requires InRange(unsigned, n, k)
    ensures -Pow256(k) <= 2 * n && n < Pow256(k)
  {
  }

  lemma SignedCell(signedChar: bool, v: Stored)
    requires Storable(v) && (v.Tiny? || v.Int24? || v.Long?)
    ensures TakenValue(signedChar, v, CellOf(v)) == Meant(v) <==> Survives(signedChar, v)
  {
    hide InRange, ReadInt3, TwosComplement, EncodeSigned, LE;
    assert Pow256(1) == 0x100 && Pow256(3) == 0x100_0000 && Pow256(4) == TWO_32;
    var cell := CellOf(v);
    assert cell + [] == cell;
    if v.Tiny? {
      RangeOf(v.unsigned, v.n, 1);
      TinyCell(v.n);
    } else if v.Int24? {
      RangeOf(v.unsigned, v.n, 3);
      ReadInt3Exact(v.n, []);
    } else {
      RangeOf(v.unsigned, v.n, 4);
      ReadSignedExact(v.n, 4, []);
    }
  }

  lemma TinyCell(n: int)
    requires -0x80 <= n < 0x100
    ensures EncodeSigned(n, 1) == [if n < 0 then n + 0x100 else n]
  {
    assert Pow256(1) == 0x100;
    DivMod(n, 0x100, if n < 0 then -1 else 0, if n < 0 then n + 0x100 else n);
    assert EncodeLE(n % 0x100, 1) == [n % 0x100 % 0x100];
  }

  lemma DecimalCell(signedChar: bool, v: Stored)
    requires Storable(v) && v.NewDecimal?
    ensures TakenValue(signedChar, v, CellOf(v)) == Meant(v) <==> Survives(signedChar, v)
  {
    hide Decimals.DecimalNumber, Decimals.SideSurvives, Fractions.FractionSurvives, Decimals.DigitCount;
    hide DecimalFormat.Encode, DecimalFormat.Pow10;
    var NewDecimal(negative, i, f, p, s) := v;
    DecimalsExactness.DecimalRoundTrip(signedChar, negative, i, f, p, s, [], 0);
    DecimalsExactness.DecimalShape(signedChar, negative, i, f, p, s, [], 0);
    assert CellOf(v) + [] == CellOf(v);
  }

  lemma TimeCell(signedChar: bool, v: Stored)
    requires Storable(v) && v.Time?
    ensures TakenValue(signedChar, v, CellOf(v)) == Meant(v) <==> Survives(signedChar, v)
  {
    hide Temporal.ReadTime, Temporal.PackTime, EncodeSigned;
    var Time(negative, h, m, s) := v;
    if negative {
      Temporal.NegativeTimeMisread(h, m, s);
    } else {
      Temporal.TimeRoundTrip(h, m, s);
    }
  }

  lemma ClockCell(signedChar: bool, v: Stored)
    requires Storable(v) && (v.Timestamp2? || v.Time2?)
    ensures TakenValue(signedChar, v, CellOf(v)) == Meant(v) <==> Survives(signedChar, v)
  {
    hide Temporal.ReadTimestamp2, Temporal.ReadTime2, Temporal.TimeInRange, Temporal.Time2Survives;
    if v.Time2? {
      Temporal.Time2RoundTrip(v.time);
    } else {
      Temporal.Timestamp2RoundTrip(v.seconds);
    }
  }

  lemma CalendarCell(signedChar: bool, v: Stored)
    requires Storable(v) && (v.DateTime2? || v.Date?)
    ensures TakenValue(signedChar, v, CellOf(v)) == Meant(v) <==> Survives(signedChar, v)
  {
    hide Temporal.ReadDateTime2, Temporal.ReadDate, Temporal.DateTime2InRange, Temporal.DateInRange;
    if v.Date? {
      Temporal.DateBijection(v.date, [0, 0, 0]);
    } else {
      Temporal.DateTime2Bijection(v.dateTime, [0, 0, 0, 0, 0]);
    }
  }

  /** For every value a server can hold of a supported type, the decoder returns that value
      from the bytes written for it exactly when it Survives. */
  lemma CellRoundTripIff(signedChar: bool, v: Stored)
    requires Storable(v)
    ensures TakenValue(signedChar, v, CellOf(v)) == Meant(v) <==> Survives(signedChar, v)
  {
    hide TakenValue, Meant, Survives, CellOf, Storable;
    if v.Short? || v.LongLong? || v.Float? || v.Double? {
      PlainCell(signedChar, v);
    } else if v.NewDecimal? {
      DecimalCell(signedChar, v);
    } else if v.Tiny? || v.Int24? || v.Long? {
      SignedCell(signedChar, v);
    } else if v.Time? {
      TimeCell(signedChar, v);
    } else if v.Timestamp2? || v.Time2? {
      ClockCell(signedChar, v);
    } else {
      CalendarCell(signedChar, v);
    }
  }

  lemma PlainCell(signedChar: bool, v: Stored)
    requires Storable(v) && (v.Short? || v.LongLong? || v.Float? || v.Double?)
    ensures TakenValue(signedChar, v, CellOf(v)) == Meant(v) <==> Survives(signedChar, v)
  {
  }

  // ---------- the other column types ----------

  /** Of the types that are not among these YEAR is moved over by two bytes, and printed and
      returned as 0; the others are not moved over and have no value. */
  lemma OtherTypes(signedChar: bool, code: byte, cell: seq<byte>)
    requires code !in [0x01, 0x02, 0x03, 0x04, 0x05, 0x08, 0x09, 0x0a, 0x0b, 0x11, 0x12, 0x13, 0xf6]
    ensures FixedWidth(code) == if code == 0x0d then 2 else 0
    ensures |cell| == FixedWidth(code) ==>
              FixedValue(signedChar, code, cell) == if code == 0x0d then Integer(0) else Unread
  {
  }

  /** So a column of another type misplaces what follows it, or the end of the image, when it is
      written with any bytes at all, and a YEAR, which takes one byte, always does. */
  lemma OtherTypeMisplaces(ctx: Context, image: Image, c: nat, mem: seq<byte>, pos: nat)
    requires Shaped(ctx, image) && c < |image.cells| && c < |ctx.table.columnDef|
    requires ctx.table.columnDef[c]
             !in [0x01, 0x02, 0x03, 0x04, 0x05, 0x08, 0x09, 0x0a, 0x0b, 0x11, 0x12, 0x13, 0xf6]
    requires if ctx.table.columnDef[c] == 0x0d then |image.cells[c]| <= 1 else image.cells[c] != []
    requires WalkImage(ctx, mem, pos).Done?
    ensures var walk := WalkImage(ctx, mem, pos).value;
            Found(walk.visits, walk.cursor) != Places(image.cells, 0, pos + |image.mask|)
  {
    hide WalkImage, FixedWidth, Found, Places, Shaped;
    OtherTypes(ctx.signedChar, ctx.table.columnDef[c], []);
    assert ColumnWidth(ctx.signedChar, ctx.table, c) == Done(FixedWidth(ctx.table.columnDef[c]));
    ImageInPlaceIff(ctx, image, mem, pos);
  }
}
