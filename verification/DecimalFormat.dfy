/**
 The storage format of packed decimals (MySQL's decimal2bin): digits in groups of nine, four
 bytes a group, a shorter group for the digits left over at the outer end of each side,
 negatives complemented, the top bit of the first byte flipped.
 */
module DecimalFormat {
  import opened Bytes

  const GROUP := 1_000_000_000

  function Pow10(k: nat): (p: int)
    ensures 1 <= p
  {
    if k == 0 then 1 else 10 * Pow10(k - 1)
  }

  /** The table intdig2byte: the bytes that k < 10 digits take. */
  function DigitsToBytes(k: nat): (b: nat)
    requires k <= 9
    ensures b <= 4
  {
    if k == 0 then 0 else if k <= 2 then 1 else if k <= 4 then 2 else if k <= 6 then 3 else 4
  }

  /** The bytes one side of a decimal takes. */
  function SideLength(digits: nat): nat {
    DigitsToBytes(digits % 9) + digits / 9 * 4
  }

  /** The last q groups of nine digits of v. */
  function FullGroups(v: nat, q: nat): (b: seq<byte>)
    ensures |b| == 4 * q
  {
    if q == 0 then [] else FullGroups(v / GROUP, q - 1) + EncodeBE(v % GROUP, 4)
  }

  /** The digits of v before its last q groups of nine. */
  function Lead(v: nat, q: nat): nat {
    if q == 0 then v else Lead(v / GROUP, q - 1)
  }

  /** v without its last k digits, and those digits. */
  function DropDigits(v: nat, k: nat): nat {
    if k == 0 then v else DropDigits(v / 10, k - 1)
  }

  function LastDigits(v: nat, k: nat): nat {
    if k == 0 then 0 else LastDigits(v / 10, k - 1) * 10 + v % 10
  }

  /** Digits left of the point: the short group comes first. */
  function IntegralBytes(v: nat, digits: nat): (b: seq<byte>)
    ensures |b| == SideLength(digits)
  {
    EncodeBE(Lead(v, digits / 9), DigitsToBytes(digits % 9)) + FullGroups(v, digits / 9)
  }

  /** Digits right of the point: the short group comes last. */
  function FractionalBytes(v: nat, digits: nat): (b: seq<byte>)
    ensures |b| == SideLength(digits)
  {
    var k := digits % 9;
    FullGroups(DropDigits(v, k), digits / 9) + EncodeBE(LastDigits(v, k), DigitsToBytes(k))
  }

  function Complement(b: seq<byte>): (c: seq<byte>)
    ensures |c| == |b|
    ensures forall i :: 0 <= i < |b| ==> c[i] == 255 - b[i]
  {
    seq(|b|, i requires 0 <= i < |b| => 255 - b[i])
  }

  function Masked(negative: bool, b: seq<byte>): (c: seq<byte>)
    ensures |c| == |b|
  {
    if negative then Complement(b) else b
  }

  /** A server adds 0x80 to the first byte, in eight bits. */
  function Stamped(b: seq<byte>): (c: seq<byte>)
    ensures |c| == |b|
  {
    if |b| == 0 then b else [(b[0] as int + 0x80) % 0x100] + b[1..]
  }

  /** b ^ 0x80, as the decoder has it. */
  function FlipTop(b: byte): byte {
    if b < 0x80 then b + 0x80 else b - 0x80
  }

  function FlipFirst(b: seq<byte>): (c: seq<byte>)
    ensures |c| == |b|
  {
    if |b| == 0 then b else [FlipTop(b[0])] + b[1..]
  }

  function Sides(integral: nat, fractional: nat, precision: nat, scale: nat): (b: seq<byte>)
    requires scale <= precision
    ensures |b| == SideLength(precision - scale) + SideLength(scale)
  {
    IntegralBytes(integral, precision - scale) + FractionalBytes(fractional, scale)
  }

  /** The stored form of a decimal with the given digits on each side of the point. */
  function Encode(negative: bool, integral: nat, fractional: nat, precision: nat, scale: nat): (b: seq<byte>)
    requires scale <= precision
    ensures |b| == SideLength(precision - scale) + SideLength(scale)
  {
    Stamped(Masked(negative, Sides(integral, fractional, precision, scale)))
  }

  // ---------- powers ----------

  lemma {:induction false} Pow10Add(j: nat, k: nat)
    ensures Pow10(j + k) == Pow10(j) * Pow10(k)
  {
    if j > 0 {
      Pow10Add(j - 1, k);
    }
  }

  lemma {:induction false} Pow10Monotone(j: nat, k: nat)
    requires j <= k
    ensures Pow10(j) <= Pow10(k)
  {
    if j < k {
      Pow10Monotone(j, k - 1);
    }
  }

  lemma SmallPowers()
    ensures Pow10(0) == 1 && Pow10(1) == 10 && Pow10(2) == 100 && Pow10(3) == 1000 && Pow10(4) == 10000
    ensures Pow10(5) == 100000 && Pow10(6) == 1000000 && Pow10(7) == 10000000
    ensures Pow10(8) == 100000000 && Pow10(9) == GROUP
    ensures Pow256(1) == 0x100 && Pow256(2) == 0x1_0000 && Pow256(3) == 0x100_0000 && Pow256(4) == TWO_32
  {
  }

  lemma GroupPower(k: nat)
    ensures Pow10(k + 9) == GROUP * Pow10(k)
  {
    SmallPowers();
    Pow10Add(9, k);
  }

  /** The size table leaves the top bit of every group free: 10^k <= 2^(8b - 1). */
  lemma TopBitFree(k: nat)
    requires 1 <= k <= 9
    ensures DigitsToBytes(k) >= 1 && 2 * Pow10(k) <= Pow256(DigitsToBytes(k))
  {
    SmallPowers();
  }

  lemma {:induction false} Pow256Monotone(j: nat, k: nat)
    requires j <= k
    ensures Pow256(j) <= Pow256(k)
  {
    if j < k {
      Pow256Monotone(j, k - 1);
    }
  }

  /** And it is the least table that does: k digits take the fewest bytes whose top bit they
      leave free, and no digits take none. */
  lemma TableIsLeast(k: nat, b: nat)
    requires k <= 9
    ensures k == 0 ==> DigitsToBytes(k) == 0
    ensures k > 0 ==> (DigitsToBytes(k) <= b <==> 2 * Pow10(k) <= Pow256(b))
  {
    hide Pow10, Pow256;
    SmallPowers();
    assert Pow256(0) == 1 by {
      NoPower();
    }
    if k > 0 {
      if b < DigitsToBytes(k) {
        Pow256Monotone(b, DigitsToBytes(k) - 1);
      } else {
        Pow256Monotone(DigitsToBytes(k), b);
      }
    }
  }

  lemma NoPower()
    ensures Pow256(0) == 1
  {
  }

  // ---------- the sign ----------

  lemma {:induction false} FirstByteBound(b: seq<byte>)
    requires |b| > 0
    ensures b[0] * Pow256(|b| - 1) as int <= BE(b)
  {
    if |b| > 1 {
      FirstByteBound(b[..|b| - 1]);
    }
  }

  lemma GroupTopBit(g: nat, k: nat)
    requires 1 <= k <= 9 && g < Pow10(k)
    ensures |EncodeBE(g, DigitsToBytes(k))| > 0 && EncodeBE(g, DigitsToBytes(k))[0] < 0x80
  {
    var b := DigitsToBytes(k);
    TopBitFree(k);
    DecodeEncodeBE(g, b);
    FirstByteBound(EncodeBE(g, b));
    var x: int := EncodeBE(g, b)[0];
    var p := Pow256(b - 1);
    assert Pow256(b) == 256 * p;
    if x >= 0x80 {
      MulAtLeast(x, 0x80, p);
    }
  }

  lemma {:induction false} FullGroupsTopBit(v: nat, q: nat)
    requires q > 0
    ensures FullGroups(v, q)[0] < 0x80
  {
    SmallPowers();
    if q == 1 {
      GroupTopBit(v % GROUP, 9);
    } else {
      FullGroupsTopBit(v / GROUP, q - 1);
    }
  }

  lemma {:induction false} LeadBound(v: nat, q: nat, r: nat)
    requires v < Pow10(9 * q + r)
    ensures Lead(v, q) < Pow10(r)
  {
    if q > 0 {
      GroupPower(9 * (q - 1) + r);
      LeadBound(v / GROUP, q - 1, r);
    }
  }

  lemma {:induction false} LastDigitsBound(v: nat, k: nat)
    ensures LastDigits(v, k) < Pow10(k)
    ensures v < Pow10(k) ==> LastDigits(v, k) == v
  {
    if k > 0 {
      LastDigitsBound(v / 10, k - 1);
    }
  }

  lemma MulAtLeast(x: int, y: int, p: int)
    requires y <= x && 0 <= p
    ensures y * p <= x * p
  {
  }

  lemma IntegralTopBit(v: nat, digits: nat)
    requires v < Pow10(digits) && digits > 0
    ensures SideLength(digits) > 0 && IntegralBytes(v, digits)[0] < 0x80
  {
    var q, r := digits / 9, digits % 9;
    LeadBound(v, q, r);
    if r > 0 {
      GroupTopBit(Lead(v, q), r);
    } else {
      FullGroupsTopBit(v, q);
    }
  }

  lemma FractionalTopBit(v: nat, digits: nat)
    requires digits > 0
    ensures SideLength(digits) > 0 && FractionalBytes(v, digits)[0] < 0x80
  {
    var q, k := digits / 9, digits % 9;
    if q > 0 {
      FullGroupsTopBit(DropDigits(v, k), q);
    } else {
      LastDigitsBound(v, k);
      GroupTopBit(LastDigits(v, k), k);
    }
  }

  lemma SidesTopBit(integral: nat, fractional: nat, precision: nat, scale: nat)
    requires scale <= precision && precision > 0
    requires integral < Pow10(precision - scale) && fractional < Pow10(scale)
    ensures |Sides(integral, fractional, precision, scale)| > 0
    ensures Sides(integral, fractional, precision, scale)[0] < 0x80
  {
    hide IntegralBytes, FractionalBytes, SideLength, Pow10;
    if precision > scale {
      IntegralTopBit(integral, precision - scale);
    } else {
      FractionalTopBit(fractional, scale);
      assert |IntegralBytes(integral, 0)| == SideLength(0) == 0 by {
        NoSide();
      }
    }
  }

  lemma NoSide()
    ensures SideLength(0) == 0
  {
  }

  lemma FlipOfMasked(negative: bool, sides: seq<byte>)
    requires |sides| > 0 && sides[0] < 0x80
    ensures var b := Stamped(Masked(negative, sides));
            && (b[0] < 0x80 <==> negative) && FlipFirst(b) == Masked(negative, sides)
  {
    var m := Masked(negative, sides);
    assert Stamped(m)[1..] == m[1..];
    assert m == [m[0]] + m[1..];
  }

  /** The sign can be read off the first stored byte, and flipping it again gives the masked
      sides back. */
  lemma SignIsStored(negative: bool, integral: nat, fractional: nat, precision: nat, scale: nat)
    requires scale <= precision && precision > 0
    requires integral < Pow10(precision - scale) && fractional < Pow10(scale)
    ensures var b := Encode(negative, integral, fractional, precision, scale);
            && |b| > 0 && (b[0] < 0x80 <==> negative)
            && FlipFirst(b) == Masked(negative, Sides(integral, fractional, precision, scale))
  {
    hide Sides, Masked, FlipFirst, Stamped, Pow10, SideLength;
    SidesTopBit(integral, fractional, precision, scale);
    FlipOfMasked(negative, Sides(integral, fractional, precision, scale));
  }

  /** Up to nine digits, or in whole groups, both sides are laid out alike. */
  lemma FractionalIsIntegral(v: nat, digits: nat)
    requires v < Pow10(digits) && (digits <= 9 || digits % 9 == 0)
    ensures FractionalBytes(v, digits) == IntegralBytes(v, digits)
  {
    if digits % 9 > 0 {
      LastDigitsBound(v, digits);
    }
  }
}
