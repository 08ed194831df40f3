/**
 Exactly which stored decimals decimal.c decodes right, and for which types that is all of them.
 */
module DecimalsExactness {
  import opened Bytes
  import opened Outcomes
  import opened DecimalFormat
  import opened Decimals
  import opened Fractions

  // ---------- whole decimals ----------

  lemma CutSides(negative: bool, i: seq<byte>, f: seq<byte>)
    ensures Masked(negative, i + f)[..|i|] == Masked(negative, i)
    ensures Masked(negative, i + f)[|i|..] == Masked(negative, f)
  {
  }

  lemma DecimalOfBytes(signedChar: bool, b: seq<byte>, tail: seq<byte>, intLength: nat, fracLength: nat,
                       m: seq<byte>, zeros0: byte)
    requires |b| == intLength + fracLength > 0 && FlipFirst(b) == m
    ensures DecimalOfSides(signedChar, b + tail, intLength, fracLength, zeros0)
         == Assemble(b[0] < 0x80, Part(signedChar, m[..intLength], b[0] < 0x80),
                     Part(signedChar, m[intLength..], b[0] < 0x80), zeros0, |b|)
  {
    hide Part;
    assert (b + tail)[..|b|] == b;
  }

  /** The two sides of a stored decimal, as the decoder cuts them. */
  lemma DecimalOfStored(signedChar: bool, negative: bool, integral: nat, fractional: nat, precision: byte,
                        scale: byte, tail: seq<byte>, zeros0: byte)
    requires scale <= precision && precision > 0
    requires integral < Pow10(precision - scale) && fractional < Pow10(scale)
    ensures var b := Encode(negative, integral, fractional, precision, scale);
            DecimalNumber(signedChar, b + tail, precision, scale, zeros0) ==
            Assemble(negative, Part(signedChar, Masked(negative, IntegralBytes(integral, precision - scale)), negative),
                     Part(signedChar, Masked(negative, FractionalBytes(fractional, scale)), negative), zeros0, |b|)
  {
    hide Part;
    var b := Encode(negative, integral, fractional, precision, scale);
    var i, f := IntegralBytes(integral, precision - scale), FractionalBytes(fractional, scale);
    SignIsStored(negative, integral, fractional, precision, scale);
    CutSides(negative, i, f);
    DecimalOfBytes(signedChar, b, tail, |i|, |f|, Masked(negative, i + f), zeros0);
  }

  /** The answer that is right for a stored decimal, given what `zeros` started from. */
  function Right(negative: bool, integral: nat, fractional: nat, zeros0: byte, cursor: nat): Outcome<Decoded> {
    Done(Decoded(BinDecimal(negative, (zeros0 + DigitCount(fractional)) % 256, integral, fractional), cursor))
  }

  lemma AssembleRight(result: Outcome<Decoded>, negative: bool, i: Option<int>, f: Option<int>, zeros0: byte,
                      cursor: nat, v: nat, w: nat)
    requires result == Assemble(negative, i, f, zeros0, cursor)
    ensures result == Right(negative, v, w, zeros0, cursor) <==> i == Some(v) && f == Some(w)
  {
  }

  /** A stored decimal of any type is decoded right, whatever bytes follow, exactly when `char`
      is signed and both sides survive. */
  lemma DecimalRoundTrip(signedChar: bool, negative: bool, integral: nat, fractional: nat, precision: byte,
                         scale: byte, tail: seq<byte>, zeros0: byte)
    requires scale <= precision && precision > 0
    requires integral < Pow10(precision - scale) && fractional < Pow10(scale)
    ensures var b := Encode(negative, integral, fractional, precision, scale);
            DecimalNumber(signedChar, b + tail, precision, scale, zeros0)
            == Right(negative, integral, fractional, zeros0, |b|) <==>
            && signedChar && SideSurvives(negative, integral, precision - scale)
            && FractionSurvives(negative, fractional, scale)
  {
    hide Part, DecimalNumber, Encode;
    var b := Encode(negative, integral, fractional, precision, scale);
    DecimalOfStored(signedChar, negative, integral, fractional, precision, scale, tail, zeros0);
    AssembleRight(DecimalNumber(signedChar, b + tail, precision, scale, zeros0), negative,
                  Part(signedChar, Masked(negative, IntegralBytes(integral, precision - scale)), negative),
                  Part(signedChar, Masked(negative, FractionalBytes(fractional, scale)), negative),
                  zeros0, |b|, integral, fractional);
    PartOfIntegral(signedChar, negative, integral, precision - scale);
    PartOfFractional(signedChar, negative, fractional, scale);
  }

  /** The sign and the two numbers are right exactly when the whole answer is. */
  lemma DecimalShape(signedChar: bool, negative: bool, integral: nat, fractional: nat, precision: byte, scale: byte,
                     tail: seq<byte>, zeros0: byte)
    requires scale <= precision && precision > 0
    requires integral < Pow10(precision - scale) && fractional < Pow10(scale)
    ensures var b := Encode(negative, integral, fractional, precision, scale);
            var r := DecimalNumber(signedChar, b + tail, precision, scale, zeros0);
            r == Right(negative, integral, fractional, zeros0, |b|) <==>
            r.Done? && r.value.value.negative == negative
            && r.value.value.integral == integral && r.value.value.fractional == fractional
  {
    hide Part, DecimalNumber, Encode, DigitCount;
    DecimalOfStored(signedChar, negative, integral, fractional, precision, scale, tail, zeros0);
  }

  // ---------- which column types are always right ----------

  ghost predicate AlwaysRight(signedChar: bool, negative: bool, precision: byte, scale: byte)
    requires scale <= precision && precision > 0
  {
    forall integral: nat, fractional: nat, tail: seq<byte>, zeros0: byte
      | integral < Pow10(precision - scale) && fractional < Pow10(scale) ::
      var b := Encode(negative, integral, fractional, precision, scale);
      DecimalNumber(signedChar, b + tail, precision, scale, zeros0)
      == Right(negative, integral, fractional, zeros0, |b|)
  }

  /** The condition on a column type. */
  predicate RightType(signedChar: bool, negative: bool, precision: byte, scale: byte)
    requires scale <= precision
  {
    && signedChar && precision - scale <= 18 && (scale <= 9 || scale == 18)
    && (negative ==> SideLength(precision - scale) % 4 != 0 && SideLength(scale) % 4 != 0)
  }

  lemma LongDigits(digits: nat)
    ensures digits <= 18 ==> Pow10(digits) <= TWO_63
    ensures digits > 18 ==> 0 < Pow10(19) - 1 < Pow10(digits) && Pow10(19) - 1 >= TWO_63
  {
    SmallPowers();
    Pow10Add(9, 9);
    Pow10Add(10, 9);
    if digits <= 18 {
      Pow10Monotone(digits, 18);
    } else {
      Pow10Monotone(19, digits);
    }
  }

  lemma ShortGroupFull(digits: nat)
    requires digits > 9
    ensures Pow10(digits % 9) < Pow10(digits)
  {
    GroupPower(digits - 9);
    Pow10Monotone(digits % 9, digits - 9);
  }

  /** A digit string that is decoded wrong, for a type that is not right. */
  lemma WrongDigits(signedChar: bool, negative: bool, precision: byte, scale: byte)
    returns (integral: nat, fractional: nat)
    requires scale <= precision && precision > 0 && !RightType(signedChar, negative, precision, scale)
    ensures integral < Pow10(precision - scale) && fractional < Pow10(scale)
    ensures var b := Encode(negative, integral, fractional, precision, scale);
            DecimalNumber(signedChar, b + [], precision, scale, 0) != Right(negative, integral, fractional, 0, |b|)
  {
    hide Part, DecimalNumber, Encode, Pow10;
    LongDigits(precision - scale);
    LongDigits(scale);
    integral, fractional := 0, 0;
    if precision - scale > 18 {
      integral := Pow10(19) - 1;
    }
    if scale > 9 && scale % 9 != 0 {
      ShortGroupFull(scale);
      fractional := Pow10(scale % 9);
    } else if scale > 18 {
      fractional := Pow10(19) - 1;
    }
    DecimalRoundTrip(signedChar, negative, integral, fractional, precision, scale, [], 0);
  }

  /** The exact set of types, per sign, whose every value is decoded right: where `char` is
      signed, at most eighteen integral digits, at most nine fraction digits or exactly
      eighteen, and for negative values no side that fills whole words (which a side without
      digits does). */
  lemma AlwaysRightIffRightType(signedChar: bool, negative: bool, precision: byte, scale: byte)
    requires scale <= precision && precision > 0
    ensures AlwaysRight(signedChar, negative, precision, scale) <==> RightType(signedChar, negative, precision, scale)
  {
    hide Part, DecimalNumber, Encode, Right, Pow10, DigitCount;
    if RightType(signedChar, negative, precision, scale) {
      forall integral: nat, fractional: nat, tail: seq<byte>, zeros0: byte
        | integral < Pow10(precision - scale) && fractional < Pow10(scale)
        ensures var b := Encode(negative, integral, fractional, precision, scale);
                DecimalNumber(signedChar, b + tail, precision, scale, zeros0)
                == Right(negative, integral, fractional, zeros0, |b|)
      {
        RightTypeSurvives(signedChar, negative, precision, scale, integral, fractional);
        DecimalRoundTrip(signedChar, negative, integral, fractional, precision, scale, tail, zeros0);
      }
    } else {
      var integral, fractional := WrongDigits(signedChar, negative, precision, scale);
    }
  }

  lemma RightTypeSurvives(signedChar: bool, negative: bool, precision: byte, scale: byte, integral: nat,
                          fractional: nat)
    requires scale <= precision && RightType(signedChar, negative, precision, scale)
    requires integral < Pow10(precision - scale) && fractional < Pow10(scale)
    ensures SideSurvives(negative, integral, precision - scale) && FractionSurvives(negative, fractional, scale)
  {
    hide Pow10;
    LongDigits(precision - scale);
    LongDigits(scale);
  }

  /** The example of test/instructions.md, DECIMAL(9,4), is right for both signs exactly where
      `char` is signed. */
  lemma DocumentedType(signedChar: bool)
    ensures AlwaysRight(signedChar, false, 9, 4) && AlwaysRight(signedChar, true, 9, 4) <==> signedChar
  {
    hide AlwaysRight;
    AlwaysRightIffRightType(signedChar, false, 9, 4);
    AlwaysRightIffRightType(signedChar, true, 9, 4);
  }

  /** No negative value of a type without fraction digits is right. */
  lemma NegativeWithoutFraction(signedChar: bool, integral: nat, precision: byte, tail: seq<byte>, zeros0: byte)
    requires precision > 0 && integral < Pow10(precision)
    ensures var b := Encode(true, integral, 0, precision, 0);
            DecimalNumber(signedChar, b + tail, precision, 0, zeros0) != Right(true, integral, 0, zeros0, |b|)
  {
    hide Part, DecimalNumber, Encode, Right, Pow10;
    assert !SideSurvives(true, 0, 0);
    DecimalRoundTrip(signedChar, true, integral, 0, precision, 0, tail, zeros0);
  }
}
