/**
 The text decimal.c makes of a decoded decimal, and when it is the number's text.
 */
module DecimalText {
  import opened Bytes
  import opened Outcomes
  import opened DecimalFormat
  import opened Decimals
  import opened Fractions
  import opened DecimalsExactness

  function Digit(d: nat): char
    requires d < 10
  {
    '0' + d as char
  }

  /** %ld. */
  function Printed(n: int): string
    decreases n < 0, if n < 0 then -n else n
  {
    if n < 0 then "-" + Printed(-n)
    else if n < 10 then [Digit(n)]
    else Printed(n / 10) + [Digit(n % 10)]
  }

  /** The C string in a buffer: what stands before the first '\\0'. */
  function CString(s: string): (c: string)
    ensures c <= s
  {
    if |s| == 0 || s[0] == '\0' then [] else [s[0]] + CString(s[1..])
  }

  function Repeat(c: char, n: nat): (s: string)
    ensures |s| == n && forall i :: 0 <= i < n ==> s[i] == c
  {
    seq(n, _ => c)
  }

  /** What decimal_as_string passes through sprintf: for a number that is not negative the
      first character is '\\0'. */
  function Formatted(number: BinDecimal): string {
    [if number.negative then '-' else '\0'] + Printed(number.integral) + "."
    + Repeat('0', number.zeros) + Printed(number.fractional)
  }

  /** decimal_as_string. Ten or more zeros do not fit its local array. */
  function Text(number: BinDecimal): Outcome<string> {
    if number.zeros >= 10 then Undefined else Done(CString(Formatted(number)))
  }

  method DecimalAsString(number: BinDecimal) returns (text: Outcome<string>)
    ensures text == Text(number)
  {
    if number.zeros >= 10 {
      return Undefined;
    }
    var zero := new char[10](_ => ' ');
    var tmp := number.zeros as int;
    zero[tmp] := '\0';
    while tmp > 0
      invariant 0 <= tmp <= number.zeros && zero[number.zeros] == '\0'
      invariant forall j :: tmp <= j < number.zeros ==> zero[j] == '0'
    {
      tmp := tmp - 1;
      zero[tmp] := '0';
    }
    EndsAt(zero[..], number.zeros);
    assert zero[..number.zeros] == Repeat('0', number.zeros);
    var buffer := [if number.negative then '-' else '\0'] + Printed(number.integral) + "."
                  + CString(zero[..]) + Printed(number.fractional);
    text := Done(CString(buffer));
  }

  lemma {:induction false} EndsAt(s: string, n: nat)
    requires n < |s| && s[n] == '\0' && forall j :: 0 <= j < n ==> s[j] != '\0'
    ensures CString(s) == s[..n]
  {
    if n > 0 {
      EndsAt(s[1..], n - 1);
      assert s[..n] == [s[0]] + s[1..][..n - 1];
    }
  }

  lemma {:induction false} NoEnd(s: string)
    requires '\0' !in s
    ensures CString(s) == s
  {
    if |s| > 0 {
      NoEnd(s[1..]);
    }
  }

  // ---------- the text of a number ----------

  predicate Digits(s: string) {
    forall i :: 0 <= i < |s| ==> '0' <= s[i] <= '9'
  }

  /** The number a string of digits denotes. */
  function Denoted(s: string): nat
    requires Digits(s)
  {
    if |s| == 0 then 0 else Denoted(s[..|s| - 1]) * 10 + (s[|s| - 1] - '0') as int
  }

  lemma {:induction false} PrintedDigits(n: nat)
    ensures Digits(Printed(n)) && Denoted(Printed(n)) == n
    ensures |Printed(n)| == if n == 0 then 1 else DigitCount(n)
  {
    if n >= 10 {
      PrintedDigits(n / 10);
      assert Printed(n)[..|Printed(n)| - 1] == Printed(n / 10);
    } else {
      assert Printed(n)[..0] == "";
    }
  }

  /** Digits of a fraction below 10^scale, with the zeros that put them in their places. */
  function Padded(fraction: nat, scale: nat): string {
    Repeat('0', if |Printed(fraction)| <= scale then scale - |Printed(fraction)| else 0) + Printed(fraction)
  }

  /** The text of a signed decimal with scale digits after the point, and no point if there are
      none. */
  function RightText(negative: bool, integral: nat, fraction: nat, scale: nat): string {
    (if negative then "-" else "") + Printed(integral) + if scale == 0 then "" else "." + Padded(fraction, scale)
  }

  lemma {:induction false} CountBound(n: nat, k: nat)
    requires n < Pow10(k)
    ensures DigitCount(n) <= k
  {
    if n > 0 {
      CountBound(n / 10, k - 1);
    }
  }

  lemma {:induction false} OnlyZeros(n: nat)
    ensures Digits(Repeat('0', n)) && Denoted(Repeat('0', n)) == 0
  {
    if n > 0 {
      OnlyZeros(n - 1);
      assert Repeat('0', n)[..n - 1] == Repeat('0', n - 1);
    }
  }

  lemma {:induction false} DenotedZeros(n: nat, s: string)
    requires Digits(s)
    ensures Digits(Repeat('0', n) + s) && Denoted(Repeat('0', n) + s) == Denoted(s)
  {
    hide Repeat;
    OnlyZeros(n);
    if |s| == 0 {
      assert Repeat('0', n) + s == Repeat('0', n);
    } else {
      DenotedZeros(n, s[..|s| - 1]);
      assert (Repeat('0', n) + s)[..n + |s| - 1] == Repeat('0', n) + s[..|s| - 1];
    }
  }

  /** The part after the point has exactly scale digits and denotes the fraction. */
  lemma PaddedDenotes(fraction: nat, scale: nat)
    requires scale > 0 && fraction < Pow10(scale)
    ensures |Padded(fraction, scale)| == scale
    ensures Digits(Padded(fraction, scale)) && Denoted(Padded(fraction, scale)) == fraction
  {
    PrintedDigits(fraction);
    CountBound(fraction, scale);
    DenotedZeros(scale - |Printed(fraction)|, Printed(fraction));
  }

  // ---------- when the source gets it right ----------

  lemma {:induction false} PrintedChars(n: int)
    ensures |Printed(n)| > 0
    ensures forall i :: 0 <= i < |Printed(n)| ==> Printed(n)[i] == '-' || '0' <= Printed(n)[i] <= '9'
    ensures Digits(Printed(n)) <==> n >= 0
    decreases n < 0, if n < 0 then -n else n
  {
    if n < 0 {
      PrintedChars(-n);
      assert Printed(n)[0] == '-';
    } else if n >= 10 {
      PrintedChars(n / 10);
    }
  }

  lemma PrintedInjective(m: int, n: nat)
    requires Printed(m) == Printed(n)
    ensures m == n
  {
    hide Printed, Denoted;
    PrintedChars(m);
    PrintedChars(n);
    PrintedDigits(m);
    PrintedDigits(n);
  }

  lemma NotShorter(a: string, x: string, b: string, y: string)
    requires '.' !in b
    ensures a + "." + x == b + "." + y ==> |b| <= |a|
  {
    if |a| < |b| {
      assert (a + "." + x)[|a|] == '.';
      assert (b + "." + y)[|a|] == b[|a|];
    }
  }

  /** A text splits at its first point in one way. */
  lemma SplitAtPoint(a: string, x: string, b: string, y: string)
    requires '.' !in a && '.' !in b
    ensures a + "." + x == b + "." + y <==> a == b && x == y
  {
    NotShorter(a, x, b, y);
    NotShorter(b, y, a, x);
    if a + "." + x == b + "." + y {
      var s := a + "." + x;
      assert s[..|a|] == a && s[..|b|] == b && s[|a| + 1..] == x && s[|b| + 1..] == y;
    }
  }

  /** Zeros and a number are the digits of a fraction in its places exactly when the number is
      the fraction and the zeros are the places it leaves. */
  lemma ZerosAndNumber(zeros: nat, number: int, fraction: nat, scale: nat)
    requires scale > 0 && fraction < Pow10(scale)
    ensures |Printed(fraction)| <= scale
    ensures Repeat('0', zeros) + Printed(number) == Padded(fraction, scale)
       <==> number == fraction && zeros == scale - |Printed(fraction)|
  {
    hide Printed, Denoted, Padded, Pow10;
    PrintedChars(number);
    PrintedDigits(fraction);
    CountBound(fraction, scale);
    PaddedDenotes(fraction, scale);
    PaddedIs(fraction, scale);
    var text := Repeat('0', zeros) + Printed(number);
    if text == Padded(fraction, scale) {
      assert forall i :: 0 <= i < |Printed(number)| ==> Printed(number)[i] == text[zeros + i];
      DenotedZeros(zeros, Printed(number));
      PrintedDigits(number);
    }
  }

  lemma PaddedIs(fraction: nat, scale: nat)
    requires |Printed(fraction)| <= scale
    ensures Padded(fraction, scale) == Repeat('0', scale - |Printed(fraction)|) + Printed(fraction)
  {
  }

  lemma NegativeText(number: BinDecimal)
    requires number.negative
    ensures CString(Formatted(number))
         == "-" + (Printed(number.integral) + "." + (Repeat('0', number.zeros) + Printed(number.fractional)))
    ensures '.' !in Printed(number.integral)
  {
    hide Printed;
    PrintedChars(number.integral);
    PrintedChars(number.fractional);
    NoEnd(Formatted(number));
  }

  lemma RightTextShape(negative: bool, integral: nat, fraction: nat, scale: nat)
    ensures var text := RightText(negative, integral, fraction, scale);
            && |text| > 0 && (text[0] == '-' <==> negative)
            && (scale == 0 ==> '.' !in text)
            && (negative && scale > 0 ==> text == "-" + (Printed(integral) + "." + Padded(fraction, scale)))
    ensures '.' !in Printed(integral)
  {
    hide Printed, Padded;
    PrintedChars(integral);
  }

  /** The text of a number that is not negative is always empty. That of a negative one is the
      text of a given decimal exactly when both parts are, the decimal has places after the point,
      and `zeros` is what it is meant to be: those that the digits of the fraction leave free,
      zero counting as one digit. */
  lemma TextRightIff(number: BinDecimal, negative: bool, integral: nat, fraction: nat, scale: nat)
    requires fraction < Pow10(scale)
    ensures !number.negative && number.zeros < 10 ==> Text(number) == Done("")
    ensures Text(number) == Done(RightText(negative, integral, fraction, scale)) <==>
            && number.negative && negative && scale > 0 && number.integral == integral
            && number.fractional == fraction && number.zeros < 10 && number.zeros == scale - |Printed(fraction)|
  {
    hide Printed, Padded, RightText, Pow10;
    RightTextShape(negative, integral, fraction, scale);
    if number.negative {
      NegativeText(number);
      var rest := Repeat('0', number.zeros) + Printed(number.fractional);
      var text := "-" + (Printed(number.integral) + "." + rest);
      hide Formatted;
      if negative && scale > 0 {
        SplitAtPoint(Printed(number.integral), rest, Printed(integral), Padded(fraction, scale));
        AfterSign(Printed(number.integral) + "." + rest, Printed(integral) + "." + Padded(fraction, scale));
        ZerosAndNumber(number.zeros, number.fractional, fraction, scale);
        if Printed(number.integral) == Printed(integral) {
          PrintedInjective(number.integral, integral);
        }
      } else {
        assert text[0] == '-' && text[1 + |Printed(number.integral)|] == '.';
      }
    } else {
      assert CString(Formatted(number)) == "";
    }
  }

  lemma AfterSign(a: string, b: string)
    ensures "-" + a == "-" + b <==> a == b
  {
    assert ("-" + a)[1..] == a && ("-" + b)[1..] == b;
  }

  /** From stored bytes to text. Of a stored decimal the text made is right exactly when it is
      negative, has places after the point and is decoded right, and when its fraction's digits,
      counted up from whatever the uninitialised field held, come to the places they leave free,
      and to less than ten. So from a cleared field it takes a fraction with half its digits:
      -12396.2310, of a DECIMAL(9,4), is not printed right. */
  lemma StoredTextRightIff(signedChar: bool, negative: bool, integral: nat, fractional: nat, precision: byte,
                           scale: byte, tail: seq<byte>, zeros0: byte)
    requires scale <= precision && precision > 0
    requires integral < Pow10(precision - scale) && fractional < Pow10(scale)
    ensures var b := Encode(negative, integral, fractional, precision, scale);
            var d := DecimalNumber(signedChar, b + tail, precision, scale, zeros0);
            var free := scale - if fractional == 0 then 1 else DigitCount(fractional);
            d.Done? && Text(d.value.value) == Done(RightText(negative, integral, fractional, scale)) <==>
            && negative && scale > 0 && signedChar
            && SideSurvives(negative, integral, precision - scale) && FractionSurvives(negative, fractional, scale)
            && free < 10 && (zeros0 + DigitCount(fractional)) % 256 == free
  {
    hide DecimalNumber, Encode, Text, RightText, Pow10, Printed, DigitCount, SideSurvives, FractionSurvives;
    var b := Encode(negative, integral, fractional, precision, scale);
    var d := DecimalNumber(signedChar, b + tail, precision, scale, zeros0);
    DecimalRoundTrip(signedChar, negative, integral, fractional, precision, scale, tail, zeros0);
    DecimalShape(signedChar, negative, integral, fractional, precision, scale, tail, zeros0);
    PrintedDigits(fractional);
    if d.Done? {
      TextRightIff(d.value.value, negative, integral, fractional, scale);
    }
  }
}
