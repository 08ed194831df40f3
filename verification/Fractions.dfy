/**
 The digits after the point. decimal_number_part takes the bytes that do not fill a word first,
 which is where the short group of the integral side stands; that of a fraction stands last. So
 a fraction of more than nine digits that do not fill whole groups is read out of step with the
 words it was stored in. Which of them come out right all the same?
 */
module Fractions {
  import opened Bytes
  import opened Outcomes
  import opened DecimalFormat
  import opened Decimals

  // ---------- reading out of step ----------

  lemma {:induction false} EncodeBEJoin(x: nat, i: nat, y: nat, j: nat)
    requires y < Pow256(j)
    ensures EncodeBE(x, i) + EncodeBE(y, j) == EncodeBE(x * Pow256(j) + y, i + j)
  {
    if j == 0 {
      assert EncodeBE(x, i) + [] == EncodeBE(x, i);
    } else {
      var p := Pow256(j - 1);
      EncodeBEJoin(x, i, y / 256, j - 1);
      assert x * Pow256(j) == (x * p) * 256;
      DivMod(x * Pow256(j) + y, 256, x * p + y / 256, y % 256);
      assert EncodeBE(x, i) + (EncodeBE(y / 256, j - 1) + [y % 256])
          == (EncodeBE(x, i) + EncodeBE(y / 256, j - 1)) + [y % 256];
    }
  }

  /** What the accumulator comes to in unbounded arithmetic. */
  function Folded(seed: int, groups: seq<int>): int {
    if |groups| == 0 then seed else Folded(seed, groups[..|groups| - 1]) * GROUP + groups[|groups| - 1]
  }

  lemma {:induction false} AccumulateFolds(seed: int, groups: seq<int>)
    ensures var r := Accumulate(seed, groups);
            r.Some? ==> r.value == Folded(seed, groups) && (|groups| > 0 ==> FitsLong(r.value))
  {
    if |groups| > 0 {
      AccumulateFolds(seed, groups[..|groups| - 1]);
    }
  }

  /** The part of a group of nine digits that falls to the word before, and the rest. */
  function High(g: nat, b: nat): nat
    requires b <= 4
  {
    hide Pow256;
    g / Pow256(4 - b)
  }

  function Low(g: nat, b: nat): nat
    requires b <= 4
  {
    hide Pow256;
    g % Pow256(4 - b)
  }

  /** What is read of q groups of nine digits h followed by b bytes that spell next, if the
      first b bytes are taken first and words of four from there on. */
  function OutOfStep(h: nat, q: nat, next: nat, b: nat): int
    requires b <= 4
  {
    if q == 0 then next else
    OutOfStep(h / GROUP, q - 1, High(h % GROUP, b), b) * GROUP
    + TwosComplement(Low(h % GROUP, b) * Pow256(b) + next, 4)
  }

  lemma HighLow(g: nat, b: nat)
    requires g < GROUP && 1 <= b <= 3
    ensures g == High(g, b) * Pow256(4 - b) + Low(g, b) && Low(g, b) < Pow256(4 - b)
    ensures 2 * High(g, b) < Pow256(b)
  {
    SmallPowers();
  }

  /** A group and what follows it, cut into the end of one word and another word. */
  lemma Recut(g: nat, next: nat, b: nat)
    requires g < GROUP && next < Pow256(b) && 1 <= b <= 3
    ensures EncodeBE(g, 4) + EncodeBE(next, b)
         == EncodeBE(High(g, b), b) + EncodeBE(Low(g, b) * Pow256(b) + next, 4)
    ensures Low(g, b) * Pow256(b) + next < TWO_32
  {
    hide High, Low, EncodeBE;
    SmallPowers();
    HighLow(g, b);
    EncodeBEJoin(High(g, b), b, Low(g, b), 4 - b);
    EncodeBEJoin(Low(g, b), 4 - b, next, b);
    assert EncodeBE(High(g, b), b) + EncodeBE(Low(g, b), 4 - b) + EncodeBE(next, b)
        == EncodeBE(High(g, b), b) + (EncodeBE(Low(g, b), 4 - b) + EncodeBE(next, b));
    LowFits(Low(g, b), next, b);
  }

  lemma LowFits(low: nat, next: nat, b: nat)
    requires 1 <= b <= 3 && low < Pow256(4 - b) && next < Pow256(b)
    ensures low * Pow256(b) + next < TWO_32
  {
    SmallPowers();
  }

  lemma WordReads(n: nat)
    requires n < TWO_32
    ensures SignedBE(EncodeBE(n, 4)) == TwosComplement(n, 4)
  {
    SmallPowers();
    DecodeEncodeBE(n, 4);
  }

  lemma FoldedAppend(seed: int, groups: seq<int>, g: int)
    ensures Folded(seed, groups + [g]) == Folded(seed, groups) * GROUP + g
  {
    assert (groups + [g])[..|groups|] == groups;
  }

  lemma {:induction false} ReadOutOfStep(h: nat, q: nat, next: nat, b: nat)
    requires 1 <= b <= 3 && 2 * next < Pow256(b)
    ensures var bytes := FullGroups(h, q) + EncodeBE(next, b);
            Folded(SignedBE(bytes[..b]), Words(bytes[b..], q, false)) == OutOfStep(h, q, next, b)
  {
    hide EncodeBE, SignedBE, TwosComplement, Words, Folded, High, Low, Pow256;
    var bytes := FullGroups(h, q) + EncodeBE(next, b);
    if q == 0 {
      assert bytes[..b] == EncodeBE(next, b) && bytes[b..] == [];
      ShortReads(next, b);
      NoWords();
    } else {
      var g := h % GROUP;
      var before := FullGroups(h / GROUP, q - 1) + EncodeBE(High(g, b), b);
      var word := Low(g, b) * Pow256(b) + next;
      Recut(g, next, b);
      HighLow(g, b);
      ReadOutOfStep(h / GROUP, q - 1, High(g, b), b);
      assert bytes == before + EncodeBE(word, 4) by {
        assert bytes == FullGroups(h / GROUP, q - 1) + (EncodeBE(g, 4) + EncodeBE(next, b));
      }
      assert bytes[..b] == before[..b] && bytes[b..] == before[b..] + EncodeBE(word, 4);
      WordsAppend(before[b..], q - 1, EncodeBE(word, 4), 1);
      OneWord(EncodeBE(word, 4));
      WordReads(word);
      FoldedAppend(SignedBE(before[..b]), Words(before[b..], q - 1, false), TwosComplement(word, 4));
    }
  }

  lemma ShortReads(next: nat, b: nat)
    requires 1 <= b && 2 * next < Pow256(b)
    ensures SignedBE(EncodeBE(next, b)) == next
  {
    DecodeEncodeBE(next, b);
  }

  lemma NoWords()
    ensures Words([], 0, false) == [] && forall seed :: Folded(seed, []) == seed
  {
  }

  // ---------- how far off that is ----------

  /** What being out of step adds for one group of nine digits, k digits before the end. */
  function Defect(g: nat, k: nat, b: nat): int
    requires b <= 4
  {
    High(g, b) * GROUP + Low(g, b) * Pow256(b) - (if 2 * Low(g, b) >= Pow256(4 - b) then TWO_32 else 0)
    - g * Pow10(k)
  }

  lemma WordSign(low: nat, next: nat, b: nat)
    requires 1 <= b <= 3 && low < Pow256(4 - b) && next < Pow256(b)
    ensures TwosComplement(low * Pow256(b) + next, 4)
         == low * Pow256(b) + next - (if 2 * low >= Pow256(4 - b) then TWO_32 else 0)
  {
    SmallPowers();
  }

  lemma OneStepOff(h: nat, q: nat, next: nat, k: nat, b: nat)
    requires q > 0 && 1 <= b <= 3 && next < Pow256(b)
    ensures var g := h % GROUP;
            OutOfStep(h, q, next, b) - h * Pow10(k) - next
            == (OutOfStep(h / GROUP, q - 1, High(g, b), b) - h / GROUP * Pow10(k) - High(g, b)) * GROUP
               + Defect(g, k, b)
  {
    hide TwosComplement, High, Low, Pow256, Pow10;
    var g := h % GROUP;
    HighLow(g, b);
    WordSign(Low(g, b), next, b);
    assert h == h / GROUP * GROUP + g;
    Distribute(h / GROUP, g, Pow10(k));
  }

  lemma Distribute(x: int, g: int, p: int)
    ensures (x * GROUP + g) * p == x * p * GROUP + g * p
  {
  }

  lemma {:induction false} NothingOff(q: nat, k: nat, b: nat)
    requires 1 <= b <= 3
    ensures OutOfStep(0, q, 0, b) == 0 && Defect(0, k, b) == 0
    ensures forall next: nat :: next < Pow256(b) ==> OutOfStep(0, q, next, b) == next
  {
    SmallPowers();
    if q > 0 {
      NothingOff(q - 1, k, b);
    }
  }

  /** With at most two groups that are not zero, the reading is off by their two defects. */
  lemma TwoGroupsOff(h: nat, q: nat, next: nat, k: nat, b: nat)
    requires 1 <= b <= 3 && next < Pow256(b)
    requires q > 0 && h < GROUP * GROUP && (q == 1 ==> h < GROUP)
    ensures OutOfStep(h, q, next, b) - h * Pow10(k) - next
         == Defect(h / GROUP, k, b) * GROUP + Defect(h % GROUP, k, b)
  {
    hide OutOfStep, Defect, High, Low, Pow256, Pow10;
    OneStepOff(h, q, next, k, b);
    HighLow(h % GROUP, b);
    if q == 1 {
      NothingOff(0, k, b);
    } else {
      OneStepOff(h / GROUP, q - 1, High(h % GROUP, b), k, b);
      NothingOff(q - 2, k, b);
      HighLow(h / GROUP % GROUP, b);
      assert h / GROUP / GROUP == 0 && h / GROUP % GROUP == h / GROUP;
    }
  }

  // ---------- it is never off by nothing ----------

  /** 2^32 is 1 modulo 3, and all the other weights differ by multiples of 3: a reading that is
      not off takes no word for a negative number. */
  lemma NoNegativeWord(u: int, s: int, v: int, t: int)
    requires 0 <= s <= 1 && 0 <= t <= 1
    requires (3 * u - s * TWO_32) * GROUP + (3 * v - t * TWO_32) == 0
    ensures s == 0 && t == 0
  {
  }

  /** One if a word that starts with these bytes is taken for negative. */
  function Sign(low: nat, b: nat): (s: int)
    requires b <= 4
    ensures 0 <= s <= 1
  {
    if 2 * low >= Pow256(4 - b) then 1 else 0
  }

  lemma Weights(g: nat, k: nat, b: nat, c: int, a: int)
    requires g < GROUP && 1 <= b <= 3
    requires 3 * c == GROUP - Pow256(4 - b) * Pow10(k) && 3 * a == Pow256(b) - Pow10(k)
    ensures Defect(g, k, b) == 3 * (High(g, b) * c + Low(g, b) * a) - Sign(Low(g, b), b) * TWO_32
  {
    hide High, Low, Pow256, Pow10;
    HighLow(g, b);
    var h, l, m, p := High(g, b), Low(g, b), Pow256(4 - b), Pow10(k);
    assert g * p == h * (m * p) + l * p by {
      Expand(h, l, m, p);
    }
    Regroup(h, l, GROUP, m * p, Pow256(b), p, c, a);
  }

  lemma Expand(h: int, l: int, m: int, p: int)
    ensures (h * m + l) * p == h * (m * p) + l * p
  {
  }

  lemma Regroup(h: int, l: int, x: int, y: int, z: int, p: int, c: int, a: int)
    requires 3 * c == x - y && 3 * a == z - p
    ensures 3 * (h * c + l * a) == h * x + l * z - (h * y + l * p)
  {
    assert 3 * (h * c) == h * (3 * c) && 3 * (l * a) == l * (3 * a);
  }

  /** Where the weights only grow, that leaves the digits zero. */
  lemma GrowingWeights(x: nat, y: nat, k: nat, b: nat, c: int, a: int)
    requires x < GROUP && y < GROUP && 1 <= b <= 3
    requires 3 * c == GROUP - Pow256(4 - b) * Pow10(k) > 0 && 3 * a == Pow256(b) - Pow10(k) > 0
    requires Defect(x, k, b) * GROUP + Defect(y, k, b) == 0
    ensures x == 0 && y == 0
  {
    hide High, Low, Pow256, Pow10, Defect, Sign;
    Weights(x, k, b, c, a);
    Weights(y, k, b, c, a);
    var u, v := High(x, b) * c + Low(x, b) * a, High(y, b) * c + Low(y, b) * a;
    NoNegativeWord(u, Sign(Low(x, b), b), v, Sign(Low(y, b), b));
    SumIsZero(High(x, b), c, Low(x, b), a);
    SumIsZero(High(y, b), c, Low(y, b), a);
    HighLow(x, b);
    HighLow(y, b);
  }

  lemma SumIsZero(h: nat, c: int, l: nat, a: int)
    requires c > 0 && a > 0
    ensures h * c + l * a >= 0
    ensures h * c + l * a == 0 ==> h == 0 && l == 0
  {
    assert h * c >= 0 && l * a >= 0;
    assert h > 0 ==> h * c > 0;
    assert l > 0 ==> l * a > 0;
  }

  /** With two digits left over the weight of the high part shrinks. What saves the reading there
      is the size of a long, which leaves the first of the two groups few values. */
  lemma ShrinkingWeight(x: nat, y: nat)
    requires x < GROUP && y < GROUP && (x * GROUP + y) * 100 < TWO_63
    requires Defect(x, 2, 1) * GROUP + Defect(y, 2, 1) == 0
    ensures x == 0 && y == 0
  {
    hide High, Low, Pow256, Pow10, Defect, Sign;
    SmallPowers();
    var c, a := -225907200, 52;
    Weights(x, 2, 1, c, a);
    Weights(y, 2, 1, c, a);
    NoNegativeWord(High(x, 1) * c + Low(x, 1) * a, Sign(Low(x, 1), 1),
                   High(y, 1) * c + Low(y, 1) * a, Sign(Low(y, 1), 1));
    HighLow(x, 1);
    HighLow(y, 1);
    NotNegative(Low(x, 1));
    NotNegative(Low(y, 1));
    SmallHigh(High(x, 1), Low(x, 1), High(y, 1), Low(y, 1));
  }

  lemma NotNegative(low: nat)
    requires Sign(low, 1) == 0
    ensures low < 0x80_0000
  {
    SmallPowers();
  }

  lemma SmallHigh(xh: nat, xl: nat, yh: nat, yl: nat)
    requires xl < 0x80_0000 && yl < 0x80_0000 && yh * 0x100_0000 + yl < GROUP
    requires ((xh * 0x100_0000 + xl) * GROUP + (yh * 0x100_0000 + yl)) * 100 < TWO_63
    requires (xl * 52 - xh * 225907200) * GROUP + (yl * 52 - yh * 225907200) == 0
    ensures xh == 0 && xl == 0 && yh == 0 && yl == 0
  {
    assert yh < 60 && xh < 6;
    var d := xl * 52 - xh * 225907200;
    assert 0 <= d <= 13;
    assert xh <= 1;
    assert d == 0;
    assert yl * 52 == yh * 225907200;
    assert yl < 0x80_0000;
    assert yh <= 1;
  }

  /** So a reading out of step is right only when the groups it is out of step with are zero. */
  lemma NeverOffByNothing(h: nat, k: nat)
    requires 1 <= k <= 6 && h < GROUP * GROUP && h * Pow10(k) < TWO_63
    requires Defect(h / GROUP, k, DigitsToBytes(k)) * GROUP + Defect(h % GROUP, k, DigitsToBytes(k)) == 0
    ensures h == 0
  {
    hide Defect;
    SmallPowers();
    var x, y := h / GROUP, h % GROUP;
    if k == 1 {
      GrowingWeights(x, y, 1, 1, 277409280, 82);
    } else if k == 2 {
      ShrinkingWeight(x, y);
    } else if k == 3 {
      GrowingWeights(x, y, 3, 2, 311488000, 21512);
    } else if k == 4 {
      GrowingWeights(x, y, 4, 2, 114880000, 18512);
    } else if k == 5 {
      GrowingWeights(x, y, 5, 3, 324800000, 5559072);
    } else {
      GrowingWeights(x, y, 6, 3, 248000000, 5259072);
    }
  }

  // ---------- the digits after the point ----------

  lemma {:induction false} DropAndLast(v: nat, k: nat)
    ensures v == DropDigits(v, k) * Pow10(k) + LastDigits(v, k)
  {
    if k > 0 {
      DropAndLast(v / 10, k - 1);
    }
  }

  lemma DroppedIsZero(v: nat, k: nat)
    ensures DropDigits(v, k) == 0 <==> v < Pow10(k)
    ensures DropDigits(v, k) * Pow10(k) <= v
  {
    DropAndLast(v, k);
    LastDigitsBound(v, k);
    if DropDigits(v, k) > 0 {
      MulAtLeast(DropDigits(v, k), 1, Pow10(k));
    }
  }

  lemma {:induction false} DropBound(v: nat, k: nat, r: nat)
    requires v < Pow10(k + r)
    ensures DropDigits(v, k) < Pow10(r)
  {
    if k > 0 {
      DropBound(v / 10, k - 1, r);
    }
  }

  lemma LongBound(h: nat, k: nat, p: nat)
    requires 1 <= k && p == Pow10(k) && h * p < TWO_63
    ensures h < GROUP * GROUP
  {
    Pow10Monotone(1, k);
    assert Pow10(1) == 10;
    MulAtLeast(p, 10, h);
  }

  /** The value read of a fraction whose short group takes less than a word, if it has one. */
  lemma ShortLastGroup(negative: bool, v: nat, q: nat, k: nat)
    requires q > 0 && 1 <= k <= 6
    ensures var b := DigitsToBytes(k);
            var bytes := FullGroups(DropDigits(v, k), q) + EncodeBE(LastDigits(v, k), b);
            var r := SignedPart(Masked(negative, bytes), negative);
            r.Some? ==> r.value == OutOfStep(DropDigits(v, k), q, LastDigits(v, k), b) && FitsLong(r.value)
  {
    hide SignedPart, PartFrom, Accumulate, Words, SignedBE, OutOfStep, Folded, EncodeBE;
    var b := DigitsToBytes(k);
    var bytes := FullGroups(DropDigits(v, k), q) + EncodeBE(LastDigits(v, k), b);
    LastDigitsBound(v, k);
    TopBitFree(k);
    ReadOutOfStep(DropDigits(v, k), q, LastDigits(v, k), b);
    SplitLength(Masked(negative, bytes), b, q, negative);
    PartOfMasked(negative, bytes, b, q);
    AccumulateFolds(SignedBE(bytes[..b]), Words(bytes[b..], q, false));
  }

  /** It is right only for a fraction that fits the short group. */
  lemma ShortLastGroupOnlySmall(negative: bool, v: nat, q: nat, k: nat)
    requires q > 0 && 1 <= k <= 6 && v < Pow10(9 * q + k)
    requires var bytes := FullGroups(DropDigits(v, k), q) + EncodeBE(LastDigits(v, k), DigitsToBytes(k));
             SignedPart(Masked(negative, bytes), negative) == Some(v)
    ensures v < Pow10(k)
  {
    hide SignedPart, OutOfStep, Defect, Pow10, EncodeBE, DropDigits, LastDigits;
    var h, next, b := DropDigits(v, k), LastDigits(v, k), DigitsToBytes(k);
    ShortLastGroup(negative, v, q, k);
    DropAndLast(v, k);
    DroppedIsZero(v, k);
    LongBound(h, k, Pow10(k));
    LastDigitsBound(v, k);
    TopBitFree(k);
    if q == 1 {
      DropBound(v, k, 9);
      SmallPowers();
    }
    TwoGroupsOff(h, q, next, k, b);
    NeverOffByNothing(h, k);
  }

  lemma {:induction false} ZerosInFront(q: nat, b: nat)
    ensures FullGroups(0, q) + EncodeBE(0, b) == EncodeBE(0, b) + FullGroups(0, q)
  {
    hide EncodeBE;
    if q > 0 {
      var zeros := FullGroups(0, q - 1);
      EncodeBEJoin(0, 4, 0, b);
      EncodeBEJoin(0, b, 0, 4);
      assert zeros + EncodeBE(0, 4) + EncodeBE(0, b) == zeros + (EncodeBE(0, 4) + EncodeBE(0, b));
      assert zeros + EncodeBE(0, b) + EncodeBE(0, 4) == zeros + (EncodeBE(0, b) + EncodeBE(0, 4));
      ZerosInFront(q - 1, b);
    }
  }

  lemma OneGroup(v: nat, q: nat)
    requires q > 0 && v < GROUP
    ensures FullGroups(v, q) == FullGroups(0, q - 1) + EncodeBE(v, 4)
  {
    hide EncodeBE;
    assert v / GROUP == 0 && v % GROUP == v;
  }

  /** A short group behind groups of zeros is the same bytes as a full group behind zeros. */
  lemma ShortAsFull(v: nat, q: nat, b: nat)
    requires q > 0 && v < GROUP && v < Pow256(b)
    ensures FullGroups(0, q) + EncodeBE(v, b) == EncodeBE(0, b) + FullGroups(v, q)
  {
    hide EncodeBE, FullGroups, Pow256;
    OneGroup(0, q);
    OneGroup(v, q);
    ZerosBefore(v, b);
    ZerosInFront(q - 1, b);
    Reassociate(FullGroups(0, q - 1), EncodeBE(0, 4), EncodeBE(v, b));
    Reassociate(FullGroups(0, q - 1), EncodeBE(0, b), EncodeBE(v, 4));
    Reassociate(EncodeBE(0, b), FullGroups(0, q - 1), EncodeBE(v, 4));
  }

  lemma ZerosBefore(v: nat, b: nat)
    requires v < GROUP && v < Pow256(b)
    ensures EncodeBE(0, 4) + EncodeBE(v, b) == EncodeBE(0, b) + EncodeBE(v, 4)
  {
    hide EncodeBE;
    SmallPowers();
    EncodeBEJoin(0, 4, v, b);
    EncodeBEJoin(0, b, v, 4);
  }

  lemma Reassociate(a: seq<byte>, b: seq<byte>, c: seq<byte>)
    ensures a + b + c == a + (b + c)
  {
  }

  lemma ShortBounds(v: nat, k: nat)
    requires 1 <= k <= 8 && v < Pow10(k)
    ensures v < GROUP && v < Pow256(DigitsToBytes(k)) && v < TWO_63
  {
    SmallPowers();
    TopBitFree(k);
    Pow10Monotone(k, 8);
  }

  lemma LeadOfSmall(v: nat, q: nat)
    requires q > 0 && v < GROUP
    ensures Lead(v, q) == 0
  {
    SmallPowers();
    Pow10Monotone(9, 9 * q);
    LeadBound(v, q, 0);
  }

  /** And a fraction that fits the short group is read right. */
  lemma ShortLastGroupSmall(negative: bool, v: nat, q: nat, k: nat)
    requires q > 0 && 1 <= k <= 6 && v < Pow10(k)
    ensures var bytes := FullGroups(DropDigits(v, k), q) + EncodeBE(LastDigits(v, k), DigitsToBytes(k));
            SignedPart(Masked(negative, bytes), negative) == Some(v)
  {
    hide SignedPart, EncodeBE, FullGroups, Lead, Pow10, Pow256;
    var b := DigitsToBytes(k);
    DroppedIsZero(v, k);
    LastDigitsBound(v, k);
    ShortBounds(v, k);
    ShortAsFull(v, q, b);
    TopBitFree(k);
    ShortReads(0, b);
    PartWithShortGroup(negative, EncodeBE(0, b), 0, v, q);
    LeadOfSmall(v, q);
    AppendedToLead(v, q);
    AccumulateFits(0, v, q);
  }

  lemma {:induction false} AppendedNegative(seed: int, v: nat, q: nat)
    requires seed < 0
    ensures Appended(seed, v, q) < 0
  {
    if q > 0 {
      AppendedNegative(seed, v / GROUP, q - 1);
    }
  }

  lemma LeadOfDropped(v: nat, q: nat, k: nat)
    requires v < Pow10(9 * q + k)
    ensures Lead(DropDigits(v, k), q) == 0
  {
    DropBound(v, k, 9 * q);
    LeadBound(DropDigits(v, k), q, 0);
  }

  /** A short group of a whole word is taken for nine more digits. */
  lemma WordLastGroup(negative: bool, v: nat, q: nat, k: nat)
    requires q > 0 && 7 <= k <= 8 && v < Pow10(9 * q + k)
    ensures var bytes := FullGroups(DropDigits(v, k), q) + EncodeBE(LastDigits(v, k), 4);
            SignedPart(Masked(negative, bytes), negative) == Some(v) <==> v < Pow10(k) && !negative
  {
    hide SignedPart, EncodeBE, Accumulate, DigitGroups, Pow10, DropDigits, LastDigits;
    var h, last := DropDigits(v, k), LastDigits(v, k);
    DropAndLast(v, k);
    DroppedIsZero(v, k);
    LastDigitsBound(v, k);
    ShortBounds(last, k);
    LeadOfDropped(v, q, k);
    var w := h * GROUP + last;
    DivMod(w, GROUP, h, last);
    assert FullGroups(w, q + 1) == FullGroups(h, q) + EncodeBE(last, 4);
    PartWithoutShortGroup(negative, w, q + 1);
    AccumulateValue(if negative then -1 else 0, w, q + 1);
    AppendedToLead(w, q + 1);
    AppendedNegative(-1, w, q + 1);
    ShiftedGroup(h, k);
    if h == 0 && !negative {
      AccumulateFits(0, w, q + 1);
    }
  }

  lemma ShiftedGroup(h: nat, k: nat)
    requires k <= 8
    ensures h * GROUP == h * Pow10(k) <==> h == 0
  {
    SmallPowers();
    Pow10Monotone(k, 8);
    if h > 0 {
      MulAtLeast(GROUP - Pow10(k), 1, h);
    }
  }

  /** The digits of a fraction survive if, besides, they are few or in whole groups, or all of
      them are in the short group. */
  predicate FractionSurvives(negative: bool, v: nat, digits: nat) {
    SideSurvives(negative, v, digits) && (digits <= 9 || digits % 9 == 0 || v < Pow10(digits % 9))
  }

  /** The digits after the point are decoded exactly when `char` is signed and they survive. */
  lemma PartOfFractional(signedChar: bool, negative: bool, v: nat, digits: nat)
    requires v < Pow10(digits)
    ensures Part(signedChar, Masked(negative, FractionalBytes(v, digits)), negative) == Some(v)
       <==> signedChar && FractionSurvives(negative, v, digits)
  {
    hide SignedPart, EncodeBE, FullGroups, DropDigits, LastDigits, Masked, Pow10;
    var q, k := digits / 9, digits % 9;
    if digits <= 9 || k == 0 {
      FractionalIsIntegral(v, digits);
      PartOfIntegral(signedChar, negative, v, digits);
    } else {
      WholeWords(digits);
      if v < Pow10(k) {
        ShortBounds(v, k);
      }
      if k >= 7 {
        WordLastGroup(negative, v, q, k);
      } else {
        ShortLastGroupIff(negative, v, q, k);
      }
    }
  }

  lemma ShortLastGroupIff(negative: bool, v: nat, q: nat, k: nat)
    requires q > 0 && 1 <= k <= 6 && v < Pow10(9 * q + k)
    ensures var bytes := FullGroups(DropDigits(v, k), q) + EncodeBE(LastDigits(v, k), DigitsToBytes(k));
            SignedPart(Masked(negative, bytes), negative) == Some(v) <==> v < Pow10(k)
  {
    hide SignedPart, EncodeBE, FullGroups, DropDigits, LastDigits, Masked, Pow10;
    var bytes := FullGroups(DropDigits(v, k), q) + EncodeBE(LastDigits(v, k), DigitsToBytes(k));
    if SignedPart(Masked(negative, bytes), negative) == Some(v) {
      ShortLastGroupOnlySmall(negative, v, q, k);
    }
    if v < Pow10(k) {
      ShortLastGroupSmall(negative, v, q, k);
    }
  }

  /** So with more than nine digits that do not fill whole groups, a fraction with any digit but
      zero before the short group is decoded wrong, for either sign. */
  lemma LongFractionMisread(signedChar: bool, negative: bool, v: nat, digits: nat)
    requires digits > 9 && digits % 9 != 0 && Pow10(digits % 9) <= v < Pow10(digits)
    ensures Part(signedChar, Masked(negative, FractionalBytes(v, digits)), negative) != Some(v)
  {
    hide Part, Masked, FractionalBytes;
    PartOfFractional(signedChar, negative, v, digits);
  }
}
