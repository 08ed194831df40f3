/**
 The two slips of decimal_number_part that keep decimals from being decoded right, and nothing
 else: starting from 0 ^ mask where there is no short group, and taking the short group of a
 fraction first. With both put right, every stored decimal is decoded whose sides fit a long.
 */
module DecimalRepair {
  import opened Bytes
  import opened Outcomes
  import opened DecimalFormat
  import opened Decimals
  import opened Fractions

  /** One more group, of k digits. */
  function StepBy(number: int, k: nat, group: int): Option<int> {
    if k == 0 then Some(number)
    else if FitsLong(number * Pow10(k)) && FitsLong(number * Pow10(k) + group) then Some(number * Pow10(k) + group)
    else None
  }

  /** Digits before the point: the short group first, if there is one, and then the words. */
  function RepairedIntegral(b: seq<byte>, digits: nat, negative: bool): Option<int>
    requires |b| == SideLength(digits)
  {
    var k := DigitsToBytes(digits % 9);
    Accumulate(if k > 0 then Xor(SignedBE(b[..k]), negative) else 0, Words(b[k..], digits / 9, negative))
  }

  /** Digits after the point: the words first, and then the short group, weighed by its digits. */
  function RepairedFractional(b: seq<byte>, digits: nat, negative: bool): Option<int>
    requires |b| == SideLength(digits)
  {
    var words := 4 * (digits / 9);
    match Accumulate(0, Words(b[..words], digits / 9, negative))
    case None => None
    case Some(number) => StepBy(number, digits % 9, Xor(SignedBE(b[words..]), negative))
  }

  lemma MaskedWords(negative: bool, b: seq<byte>, n: nat)
    requires |b| == 4 * n
    ensures Words(Masked(negative, b), n, negative) == Words(b, n, false)
  {
    if negative {
      WordsOfComplement(b, n);
    }
  }

  lemma MaskedGroup(negative: bool, b: seq<byte>)
    requires |b| > 0
    ensures Xor(SignedBE(Masked(negative, b)), negative) == SignedBE(b)
  {
    if negative {
      XorUndoesComplement(b);
    }
  }

  lemma MaskedParts(negative: bool, a: seq<byte>, b: seq<byte>)
    ensures Masked(negative, a + b)[..|a|] == Masked(negative, a)
    ensures Masked(negative, a + b)[|a|..] == Masked(negative, b)
  {
  }

  /** Every integral side that fits a long comes back, whatever its sign and length. */
  lemma RepairedIntegralIff(negative: bool, v: nat, digits: nat)
    requires v < Pow10(digits)
    ensures RepairedIntegral(Masked(negative, IntegralBytes(v, digits)), digits, negative) == Some(v) <==> v < TWO_63
  {
    hide Words, SignedBE, Accumulate, EncodeBE, FullGroups, Masked, Pow10;
    var q, r := digits / 9, digits % 9;
    var first := EncodeBE(Lead(v, q), DigitsToBytes(r));
    LeadBound(v, q, r);
    ShortGroupReadsBack(Lead(v, q), r);
    MaskedParts(negative, first, FullGroups(v, q));
    MaskedWords(negative, FullGroups(v, q), q);
    WordsOfFullGroups(v, q);
    FromShortGroup(Lead(v, q), v, q);
    if r > 0 {
      MaskedGroup(negative, first);
    } else {
      SmallPowers();
    }
  }

  lemma RepairedIsStep(negative: bool, v: nat, digits: nat)
    requires v < Pow10(digits)
    ensures var h, last := DropDigits(v, digits % 9), LastDigits(v, digits % 9);
            RepairedFractional(Masked(negative, FractionalBytes(v, digits)), digits, negative)
            == if h < TWO_63 then StepBy(h, digits % 9, if digits % 9 > 0 then last else 0) else None
  {
    hide Words, SignedBE, Accumulate, EncodeBE, FullGroups, Masked, Pow10, DropDigits, LastDigits, Lead, StepBy, Xor;
    var q, k := digits / 9, digits % 9;
    var h, last := DropDigits(v, k), LastDigits(v, k);
    var short := EncodeBE(last, DigitsToBytes(k));
    LastDigitsBound(v, k);
    ShortGroupReadsBack(last, k);
    LeadOfDropped(v, q, k);
    MaskedParts(negative, FullGroups(h, q), short);
    MaskedWords(negative, FullGroups(h, q), q);
    WordsOfFullGroups(h, q);
    FullGroupsOnly(h, q);
    if k > 0 {
      MaskedGroup(negative, short);
    } else {
      NoStep(h, Xor(SignedBE(Masked(negative, short)), negative));
    }
  }

  lemma NoStep(number: int, group: int)
    ensures StepBy(number, 0, group) == StepBy(number, 0, 0)
  {
  }

  /** And so does every fraction. */
  lemma RepairedFractionalIff(negative: bool, v: nat, digits: nat)
    requires v < Pow10(digits)
    ensures RepairedFractional(Masked(negative, FractionalBytes(v, digits)), digits, negative) == Some(v)
       <==> v < TWO_63
  {
    hide RepairedFractional, FractionalBytes, Masked, Pow10;
    var k := digits % 9;
    RepairedIsStep(negative, v, digits);
    DropAndLast(v, k);
    if k == 0 {
      assert DropDigits(v, 0) == v;
    } else {
      LastStep(DropDigits(v, k), LastDigits(v, k), Pow10(k));
    }
  }

  lemma FullGroupsOnly(h: nat, q: nat)
    requires Lead(h, q) == 0
    ensures Accumulate(0, DigitGroups(h, q)) == if h < TWO_63 then Some(h) else None
  {
    hide DigitGroups, Accumulate;
    AccumulateValue(0, h, q);
    AppendedToLead(h, q);
    if h < TWO_63 {
      AccumulateFits(0, h, q);
    }
  }

  lemma LastStep(h: nat, last: nat, p: int)
    requires p >= 1
    ensures h <= h * p && h * p <= h * p + last
  {
    MulAtLeast(p, 1, h);
  }
}
