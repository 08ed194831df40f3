/**
 The packed-decimal decoder of decimal.c as it stands, and exactly which decimals it decodes.
 */
module Decimals {
  import opened Bytes
  import opened Outcomes
  import opened DecimalFormat

  // ---------- the decoder ----------

  /** The number decimal.c gets out of at most four bytes: big-endian two's complement. */
  function SignedBE(b: seq<byte>): int {
    if |b| == 0 then 0 else TwosComplement(BE(b), |b|)
  }

  /** x ^ mask for the two masks in use, 0 and -1. */
  function Xor(x: int, negative: bool): int {
    if negative then -x - 1 else x
  }

  predicate FitsLong(x: int) {
    -TWO_63 <= x < TWO_63
  }

  /** number * 1000000000 + group in `long int`: None when that overflows, which C leaves
      undefined. */
  function Step(number: int, group: int): Option<int> {
    if FitsLong(number * GROUP) && FitsLong(number * GROUP + group) then Some(number * GROUP + group) else None
  }

  function Accumulate(seed: int, groups: seq<int>): Option<int> {
    if |groups| == 0 then Some(seed) else
    var n := |groups| - 1;
    match Accumulate(seed, groups[..n])
    case None => None
    case Some(number) => Step(number, groups[n])
  }

  /** n words of four bytes, each xored with the mask. */
  function Words(b: seq<byte>, n: nat, negative: bool): (w: seq<int>)
    requires |b| == 4 * n
    ensures |w| == n
  {
    if n == 0 then [] else [Xor(SignedBE(b[..4]), negative)] + Words(b[4..], n - 1, negative)
  }

  function PartFrom(b: seq<byte>, comp: nat, n: nat, negative: bool): Option<int>
    requires |b| == comp + 4 * n
  {
    Accumulate(Xor(SignedBE(b[..comp]), negative), Words(b[comp..], n, negative))
  }

  /** decimal_number_part where `char` is signed: the bytes that do not fill a word of four are
      taken first, whichever side of the point this is; when there are none the accumulator
      starts from 0 ^ mask. */
  function SignedPart(b: seq<byte>, negative: bool): Option<int> {
    PartFrom(b, |b| % 4, |b| / 4, negative)
  }

  /** decimal_number_part. Where `char` is unsigned its very first call of big_endian_number
      has no defined result. */
  function Part(signedChar: bool, b: seq<byte>, negative: bool): Option<int> {
    if signedChar then SignedPart(b, negative) else None
  }

  /** How many times a positive number can be divided by ten before it is zero. */
  function DigitCount(n: int): nat
    decreases if n > 0 then n else 0
  {
    if n > 0 then 1 + DigitCount(n / 10) else 0
  }

  /** bin_decimal. The two number fields are declared unsigned, but are only ever assigned
      from and converted back to `long int`, so they are given as that. */
  datatype BinDecimal = BinDecimal(negative: bool, zeros: byte, integral: int, fractional: int)
  datatype Decoded = Decoded(value: BinDecimal, cursor: nat)

  /** decimal_number. The field `zeros` is counted up from whatever the uninitialised struct
      holds, zeros0. A scale above the precision, which no server writes, indexes the size table
      with a negative remainder; where that is zero the source goes on with a negative length,
      which is not followed here. */
  function DecimalNumber(signedChar: bool, buf: seq<byte>, precision: byte, scale: byte, zeros0: byte)
    : Outcome<Decoded>
  {
    if precision < scale then Undefined
    else DecimalOfSides(signedChar, buf, SideLength(precision - scale), SideLength(scale), zeros0)
  }

  function DecimalOfSides(signedChar: bool, buf: seq<byte>, intLength: nat, fracLength: nat, zeros0: byte)
    : Outcome<Decoded>
  {
    var length := intLength + fracLength;
    if length == 0 || |buf| < length then Undefined else
    var negative := buf[0] < 0x80;
    var nbuf := FlipFirst(buf[..length]);
    Assemble(negative, Part(signedChar, nbuf[..intLength], negative),
             Part(signedChar, nbuf[intLength..], negative), zeros0, length)
  }

  function Assemble(negative: bool, integral: Option<int>, fractional: Option<int>, zeros0: byte, cursor: nat)
    : Outcome<Decoded>
  {
    if integral.None? || fractional.None? then Undefined else
    var zeros := (zeros0 + DigitCount(fractional.value)) % 256;
    Done(Decoded(BinDecimal(negative, zeros, integral.value, fractional.value), cursor))
  }

  // ---------- the loops ----------

  lemma HighBytes(num: seq<byte>, buf: seq<byte>)
    requires |num| == 4 && |buf| <= 4
    requires forall j :: 0 <= j < |buf| ==> num[3 - j] == buf[j]
    requires forall j :: 0 <= j < 4 - |buf| ==> num[j] == 0
    ensures if |buf| == 0 then LE(num) == 0
            else TwosComplement(LE(num), 4) / Pow256(4 - |buf|) == SignedBE(buf)
  {
    Four(num);
    SmallPowers();
    if |buf| == 1 {
      assert BE(buf[..0]) == 0;
      DivMod(TwosComplement(LE(num), 4), 0x100_0000, SignedBE(buf), 0);
    } else if |buf| == 2 {
      assert BE(buf[..1][..0]) == 0;
      assert BE(buf) == 0x100 * (buf[0] as int) + buf[1];
      DivMod(TwosComplement(LE(num), 4), 0x1_0000, SignedBE(buf), 0);
    } else if |buf| == 3 {
      Three(buf);
      DivMod(TwosComplement(LE(num), 4), 0x100, SignedBE(buf), 0);
    } else if |buf| == 4 {
      Four(buf);
    }
  }

  /** --len for a `char` of that signedness. */
  function Decremented(signedChar: bool, len: nat): int {
    if !signedChar && len == 0 then 255 else len - 1
  }

  /** big_endian_number: fills a zeroed int from its high end, then shifts down. For len == 0
      the shift is by 32 bits, of the number zero. The loop goes on while --len >= 0: an
      unsigned len never gets there, wraps around to 255 and leads outside both the number and
      the bytes, which has no defined result. */
  method BigEndianNumber(signedChar: bool, buf: seq<byte>) returns (result: Option<int>)
    requires |buf| <= 4
    ensures result == if signedChar then Some(SignedBE(buf)) else None
  {
    var num := new byte[4](_ => 0);
    var len := |buf|;
    while Decremented(signedChar, len) >= 0
      invariant 0 <= len <= |buf|
      invariant forall j :: len <= j < |buf| ==> num[3 - j] == buf[j]
      invariant forall j :: 0 <= j < 4 && !(len <= 3 - j < |buf|) ==> num[j] == 0
      decreases len
    {
      if Decremented(signedChar, len) >= |buf| {
        return None;
      }
      len := Decremented(signedChar, len);
      num[3 - len] := buf[len];
    }
    var whole := TwosComplement(LE(num[..]), 4);
    HighBytes(num[..], buf);
    result := Some(if |buf| == 0 then whole else whole / Pow256(4 - |buf|));
  }

  /** Groups are taken one after another. */
  lemma {:induction false} AccumulateAppend(seed: int, a: seq<int>, b: seq<int>)
    ensures Accumulate(seed, a + b)
         == match Accumulate(seed, a)
            case None => None
            case Some(number) => Accumulate(number, b)
  {
    if |b| == 0 {
      assert a + b == a;
    } else {
      var n := |b| - 1;
      AccumulateAppend(seed, a, b[..n]);
      assert (a + b)[..|a + b| - 1] == a + b[..n];
    }
  }

  lemma FirstGroup(seed: int, group: int, rest: seq<int>)
    ensures Accumulate(seed, [group] + rest)
         == match Step(seed, group)
            case None => None
            case Some(number) => Accumulate(number, rest)
  {
    AccumulateAppend(seed, [group], rest);
    assert Accumulate(seed, [group][..0]) == Some(seed);
  }

  lemma FirstWord(b: seq<byte>, n: nat, negative: bool)
    requires n > 0 && |b| == 4 * n
    ensures Words(b, n, negative) == [Xor(SignedBE(b[..4]), negative)] + Words(b[4..], n - 1, negative)
  {
  }

  lemma NothingLeft(number: int, negative: bool)
    ensures Accumulate(number, Words([], 0, negative)) == Some(number)
  {
  }

  /** decimal_number_part. */
  method DecimalNumberPart(signedChar: bool, buf: seq<byte>, negative: bool) returns (result: Option<int>)
    ensures result == Part(signedChar, buf, negative)
  {
    hide SignedBE, Words, Accumulate, Step, Xor;
    var comp := |buf| % 4;
    var tmp := BigEndianNumber(signedChar, buf[..comp]);
    if tmp.None? {
      return None;
    }
    var number := Xor(tmp.value, negative);
    ghost var whole, left := SignedPart(buf, negative), |buf| / 4;
    while comp < |buf|
      invariant 0 <= comp <= |buf| && 0 <= left && |buf| == comp + 4 * left
      invariant whole == Accumulate(number, Words(buf[comp..], left, negative))
    {
      ghost var rest := buf[comp..];
      assert rest[..4] == buf[comp..comp + 4] && rest[4..] == buf[comp + 4..];
      tmp := BigEndianNumber(signedChar, buf[comp..comp + 4]);
      FirstWord(rest, left, negative);
      FirstGroup(number, Xor(tmp.value, negative), Words(rest[4..], left - 1, negative));
      var step := Step(number, Xor(tmp.value, negative));
      if step.None? {
        return None;
      }
      number := step.value;
      comp := comp + 4;
      left := left - 1;
    }
    assert buf[comp..] == [];
    NothingLeft(number, negative);
    result := Some(number);
  }

  /** The loop of decimal_number that bumps the eight-bit field `zeros`. */
  method CountDigits(number: int, zeros0: byte) returns (zeros: byte)
    ensures zeros == (zeros0 + DigitCount(number)) % 256
  {
    var frac := number;
    zeros := zeros0;
    ghost var count, wraps := 0, 0;
    while frac > 0
      invariant zeros == zeros0 + count - 256 * wraps
      invariant count + DigitCount(frac) == DigitCount(number)
      decreases frac
    {
      frac := frac / 10;
      count := count + 1;
      if zeros == 255 {
        zeros := 0;
        wraps := wraps + 1;
      } else {
        zeros := zeros + 1;
      }
    }
    DivMod(zeros0 + DigitCount(number), 256, wraps, zeros);
  }

  method Finish(negative: bool, integral: Option<int>, fractional: Option<int>, zeros0: byte, cursor: nat)
    returns (result: Outcome<Decoded>)
    ensures result == Assemble(negative, integral, fractional, zeros0, cursor)
  {
    if integral.None? || fractional.None? {
      return Undefined;
    }
    var zeros := CountDigits(fractional.value, zeros0);
    result := Done(Decoded(BinDecimal(negative, zeros, integral.value, fractional.value), cursor));
  }

  method CopyAndFlip(buf: seq<byte>) returns (nbuf: array<byte>)
    requires |buf| > 0
    ensures nbuf[..] == FlipFirst(buf)
  {
    nbuf := new byte[|buf|](i requires 0 <= i < |buf| => buf[i]);
    nbuf[0] := FlipTop(nbuf[0]);
    assert nbuf[1..] == buf[1..];
  }

  /** decimal_number. */
  method ReadDecimal(signedChar: bool, buf: seq<byte>, precision: byte, scale: byte, zeros0: byte)
    returns (result: Outcome<Decoded>)
    ensures result == DecimalNumber(signedChar, buf, precision, scale, zeros0)
  {
    if precision < scale {
      return Undefined;
    }
    result := ReadSides(signedChar, buf, SideLength(precision - scale), SideLength(scale), zeros0);
  }

  method ReadSides(signedChar: bool, buf: seq<byte>, intLength: nat, fracLength: nat, zeros0: byte)
    returns (result: Outcome<Decoded>)
    ensures result == DecimalOfSides(signedChar, buf, intLength, fracLength, zeros0)
  {
    hide Part;
    var length := intLength + fracLength;
    if length == 0 || |buf| < length {
      return Undefined;
    }
    var negative := buf[0] < 0x80;
    var copy := CopyAndFlip(buf[..length]);
    var nbuf := copy[..];
    var integral := DecimalNumberPart(signedChar, nbuf[..intLength], negative);
    var fractional := DecimalNumberPart(signedChar, nbuf[intLength..], negative);
    result := Finish(negative, integral, fractional, zeros0, length);
  }

  // ---------- the mask ----------

  lemma {:induction false} ComplementBE(b: seq<byte>)
    ensures BE(Complement(b)) == Pow256(|b|) - 1 - BE(b)
  {
    if |b| > 0 {
      ComplementBE(b[..|b| - 1]);
      assert Complement(b)[..|b| - 1] == Complement(b[..|b| - 1]);
    }
  }

  /** Sign extension is harmless: complementing the bytes and the mask together changes
      nothing, so a group is read the same from a negative as from a positive decimal. */
  lemma XorUndoesComplement(b: seq<byte>)
    requires |b| > 0
    ensures Xor(SignedBE(Complement(b)), true) == SignedBE(b)
  {
    ComplementBE(b);
    BEBound(b);
    assert Pow256(|b|) == 256 * Pow256(|b| - 1);
  }

  lemma {:induction false} WordsOfComplement(b: seq<byte>, n: nat)
    requires |b| == 4 * n
    ensures Words(Complement(b), n, true) == Words(b, n, false)
  {
    if n > 0 {
      XorUndoesComplement(b[..4]);
      WordsOfComplement(b[4..], n - 1);
      assert Complement(b)[..4] == Complement(b[..4]) && Complement(b)[4..] == Complement(b[4..]);
    }
  }

  /** What masking does to a side: nothing, except that a side that fills whole words starts
      a negative number from -1 instead of 0. */
  lemma PartOfMasked(negative: bool, b: seq<byte>, comp: nat, n: nat)
    requires |b| == comp + 4 * n
    ensures PartFrom(Masked(negative, b), comp, n, negative)
         == Accumulate(if comp > 0 then SignedBE(b[..comp]) else if negative then -1 else 0,
                       Words(b[comp..], n, false))
  {
    if negative {
      assert Complement(b)[..comp] == Complement(b[..comp]) && Complement(b)[comp..] == Complement(b[comp..]);
      WordsOfComplement(b[comp..], n);
      if comp > 0 {
        XorUndoesComplement(b[..comp]);
      }
    }
  }

  // ---------- groups of digits ----------

  /** A group of k digits is read back from its own bytes. */
  lemma GroupReadsBack(g: nat, k: nat)
    requires 1 <= k <= 9 && g < Pow10(k)
    ensures SignedBE(EncodeBE(g, DigitsToBytes(k))) == g
  {
    TopBitFree(k);
    DecodeEncodeBE(g, DigitsToBytes(k));
  }

  /** The q groups of nine digits of v, most significant first. */
  function DigitGroups(v: nat, q: nat): (g: seq<int>)
    ensures |g| == q
  {
    if q == 0 then [] else DigitGroups(v / GROUP, q - 1) + [v % GROUP]
  }

  lemma {:induction false} WordsAppend(a: seq<byte>, m: nat, b: seq<byte>, n: nat)
    requires |a| == 4 * m && |b| == 4 * n
    ensures Words(a + b, m + n, false) == Words(a, m, false) + Words(b, n, false)
  {
    if m == 0 {
      assert a + b == b;
    } else {
      WordsAppend(a[4..], m - 1, b, n);
      assert (a + b)[..4] == a[..4] && (a + b)[4..] == a[4..] + b;
    }
  }

  lemma OneWord(b: seq<byte>)
    requires |b| == 4
    ensures Words(b, 1, false) == [SignedBE(b)]
  {
    assert b[..4] == b;
  }

  lemma {:induction false} WordsOfFullGroups(v: nat, q: nat)
    ensures Words(FullGroups(v, q), q, false) == DigitGroups(v, q)
  {
    if q > 0 {
      WordsOfFullGroups(v / GROUP, q - 1);
      WordsAppend(FullGroups(v / GROUP, q - 1), q - 1, EncodeBE(v % GROUP, 4), 1);
      OneWord(EncodeBE(v % GROUP, 4));
      SmallPowers();
      GroupReadsBack(v % GROUP, 9);
    }
  }

  /** The number with the digits of seed followed by the 9q digits of v. */
  function Appended(seed: int, v: nat, q: nat): int {
    if q == 0 then seed else Appended(seed, v / GROUP, q - 1) * GROUP + v % GROUP
  }

  lemma {:induction false} AppendedToLead(v: nat, q: nat)
    ensures Appended(Lead(v, q), v, q) == v
  {
    if q > 0 {
      AppendedToLead(v / GROUP, q - 1);
    }
  }

  lemma {:induction false} AppendedMonotone(s: int, t: int, v: nat, q: nat)
    requires s < t
    ensures Appended(s, v, q) < Appended(t, v, q)
  {
    if q > 0 {
      AppendedMonotone(s, t, v / GROUP, q - 1);
    }
  }

  /** An accumulation that does not overflow yields the digits it was given. */
  lemma {:induction false} AccumulateValue(seed: int, v: nat, q: nat)
    ensures var r := Accumulate(seed, DigitGroups(v, q));
            r.Some? ==> r.value == Appended(seed, v, q) && (q > 0 ==> FitsLong(r.value))
  {
    if q > 0 {
      AccumulateValue(seed, v / GROUP, q - 1);
      assert DigitGroups(v, q)[..q - 1] == DigitGroups(v / GROUP, q - 1);
    }
  }

  /** From a non-negative seed every intermediate value lies between 0 and the final one, so
      nothing overflows unless the final value does. */
  lemma {:induction false} AccumulateFits(seed: nat, v: nat, q: nat)
    requires Appended(seed, v, q) < TWO_63
    ensures 0 <= Appended(seed, v, q) && Accumulate(seed, DigitGroups(v, q)) == Some(Appended(seed, v, q))
  {
    hide Step;
    if q > 0 {
      AppendedNat(seed, v / GROUP, q - 1);
      StepFits(Appended(seed, v / GROUP, q - 1), v % GROUP);
      AccumulateFits(seed, v / GROUP, q - 1);
      assert DigitGroups(v, q)[..q - 1] == DigitGroups(v / GROUP, q - 1);
    }
  }

  lemma StepFits(number: nat, group: nat)
    requires number * GROUP + group < TWO_63
    ensures number < TWO_63 && Step(number, group) == Some(number * GROUP + group)
  {
  }

  lemma {:induction false} AppendedNat(seed: nat, v: nat, q: nat)
    ensures 0 <= Appended(seed, v, q)
  {
    if q > 0 {
      AppendedNat(seed, v / GROUP, q - 1);
    }
  }

  // ---------- one side of the point ----------

  lemma SplitLength(b: seq<byte>, comp: nat, n: nat, negative: bool)
    requires |b| == comp + 4 * n && comp < 4
    ensures SignedPart(b, negative) == PartFrom(b, comp, n, negative)
  {
    DivMod(|b|, 4, n, comp);
  }

  lemma PartWithoutShortGroup(negative: bool, rest: nat, q: nat)
    ensures SignedPart(Masked(negative, FullGroups(rest, q)), negative)
         == Accumulate(if negative then -1 else 0, DigitGroups(rest, q))
  {
    PartOfMasked(negative, FullGroups(rest, q), 0, q);
    assert FullGroups(rest, q)[0..] == FullGroups(rest, q);
    WordsOfFullGroups(rest, q);
    SplitLength(Masked(negative, FullGroups(rest, q)), 0, q, negative);
  }

  lemma PartFromWord(negative: bool, first: seq<byte>, rest: nat, q: nat)
    requires |first| == 4
    ensures PartFrom(Masked(negative, first + FullGroups(rest, q)), 0, q + 1, negative)
         == Accumulate(if negative then -1 else 0, [SignedBE(first)] + DigitGroups(rest, q))
  {
    var bytes := first + FullGroups(rest, q);
    PartOfMasked(negative, bytes, 0, q + 1);
    assert bytes[0..] == bytes;
    WordsAppend(first, 1, FullGroups(rest, q), q);
    OneWord(first);
    WordsOfFullGroups(rest, q);
  }

  lemma FirstWordDigits(negative: bool, lead: nat, rest: seq<int>)
    requires lead < GROUP
    ensures Accumulate(if negative then -1 else 0, [lead] + rest)
         == Accumulate(if negative then lead - GROUP else lead, rest)
  {
    FirstGroup(if negative then -1 else 0, lead, rest);
  }

  lemma PartWithWord(negative: bool, first: seq<byte>, lead: nat, rest: nat, q: nat)
    requires |first| == 4 && SignedBE(first) == lead < GROUP
    ensures SignedPart(Masked(negative, first + FullGroups(rest, q)), negative)
         == Accumulate(if negative then lead - GROUP else lead, DigitGroups(rest, q))
  {
    PartFromWord(negative, first, rest, q);
    FirstWordDigits(negative, lead, DigitGroups(rest, q));
    SplitLength(Masked(negative, first + FullGroups(rest, q)), 0, q + 1, negative);
  }

  lemma PartWithShortGroup(negative: bool, first: seq<byte>, lead: nat, rest: nat, q: nat)
    requires 1 <= |first| <= 3 && SignedBE(first) == lead
    ensures SignedPart(Masked(negative, first + FullGroups(rest, q)), negative)
         == Accumulate(lead, DigitGroups(rest, q))
  {
    var groups := FullGroups(rest, q);
    PartOfMasked(negative, first + groups, |first|, q);
    assert (first + groups)[..|first|] == first && (first + groups)[|first|..] == groups;
    WordsOfFullGroups(rest, q);
    SplitLength(Masked(negative, first + groups), |first|, q, negative);
  }

  lemma FromShortGroup(seed: int, v: nat, q: nat)
    requires Lead(v, q) < GROUP
    ensures seed == Lead(v, q) ==> (Accumulate(seed, DigitGroups(v, q)) == Some(v) <==> v < TWO_63)
    ensures seed < Lead(v, q) ==> Accumulate(seed, DigitGroups(v, q)) != Some(v)
  {
    AccumulateValue(seed, v, q);
    AppendedToLead(v, q);
    if seed == Lead(v, q) {
      if v < TWO_63 {
        AccumulateFits(seed, v, q);
      }
    } else if seed < Lead(v, q) {
      AppendedMonotone(seed, Lead(v, q), v, q);
    }
  }

  lemma PartOfSplit(negative: bool, first: seq<byte>, v: nat, q: nat)
    requires |first| <= 4 && SignedBE(first) == Lead(v, q) < GROUP
    ensures SignedPart(Masked(negative, first + FullGroups(v, q)), negative) == Some(v)
       <==> v < TWO_63 && !(negative && |first| in {0, 4})
  {
    var lead := Lead(v, q);
    if |first| == 0 {
      PartWithoutShortGroup(negative, v, q);
      assert first + FullGroups(v, q) == FullGroups(v, q);
      FromShortGroup(if negative then -1 else 0, v, q);
    } else if |first| == 4 {
      PartWithWord(negative, first, lead, v, q);
      FromShortGroup(if negative then lead - GROUP else lead, v, q);
    } else {
      PartWithShortGroup(negative, first, lead, v, q);
      FromShortGroup(lead, v, q);
    }
  }

  lemma ShortGroupReadsBack(lead: nat, r: nat)
    requires r <= 8 && lead < Pow10(r)
    ensures SignedBE(EncodeBE(lead, DigitsToBytes(r))) == lead && lead < GROUP
  {
    Pow10Monotone(r, 8);
    SmallPowers();
    if r > 0 {
      GroupReadsBack(lead, r);
    }
  }

  lemma WholeWords(digits: nat)
    ensures SideLength(digits) % 4 == 0 <==> DigitsToBytes(digits % 9) in {0, 4}
  {
    var b := DigitsToBytes(digits % 9);
    DivMod(SideLength(digits), 4, digits / 9 + b / 4, b % 4);
  }

  /** The condition on one side under which its digits survive storage and decoding: they
      fit a long, and a negative side does not fill whole four-byte words. */
  predicate SideSurvives(negative: bool, v: nat, digits: nat) {
    v < TWO_63 && !(negative && SideLength(digits) % 4 == 0)
  }

  /** The digits before the point are decoded exactly when `char` is signed and they survive. */
  lemma PartOfIntegral(signedChar: bool, negative: bool, v: nat, digits: nat)
    requires v < Pow10(digits)
    ensures Part(signedChar, Masked(negative, IntegralBytes(v, digits)), negative) == Some(v)
       <==> signedChar && SideSurvives(negative, v, digits)
  {
    var q, r := digits / 9, digits % 9;
    LeadBound(v, q, r);
    ShortGroupReadsBack(Lead(v, q), r);
    PartOfSplit(negative, EncodeBE(Lead(v, q), DigitsToBytes(r)), v, q);
    WholeWords(digits);
  }
}
