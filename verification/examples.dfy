/** Concrete buffers and what the parser as written does with them. */
module Examples {
  import opened Chars
  import opened Json
  import opened NumberCheck
  import opened Strtod
  import opened Whitespace
  import opened Parser
  import opened ParserProperties
  import opened NumberGrammar
  import Rfc8259
  import Corrected

  lemma EmptyExpectsValue()
    ensures Parse("") == Defined(Result(ExpectValue, Null))
  {
  }

  lemma BlankExpectsValue()
    ensures Parse("   ") == Defined(Result(ExpectValue, Null))
  {
  }

  lemma NullParses()
    ensures Parse("null") == Defined(Result(Ok, Null))
  {
    var s := "null";
    assert SkipWs(s, 0) == 0;
    assert ParseValue(s, 0) == Defined(Consumed(4, Null));
  }

  lemma TrueParses()
    ensures Parse("true") == Defined(Result(Ok, True))
  {
    var s := "true";
    assert SkipWs(s, 0) == 0;
    assert ParseValue(s, 0) == Defined(Consumed(4, True));
  }

  lemma PaddedFalseParses()
    ensures Parse(" false\t") == Defined(Result(Ok, False))
  {
    var s := " false\t";
    assert SkipWs(s, 1) == 1;
    assert SkipWs(s, 0) == 1;
    assert ParseValue(s, 1) == Defined(Consumed(6, False));
    assert SkipWs(s, 7) == 7;
    assert SkipWs(s, 6) == 7;
  }

  /** A literal cut short fails to match. */
  lemma ShortLiteralInvalid()
    ensures Parse("nul") == Defined(Result(InvalidValue, Null))
  {
    var s := "nul";
    assert SkipWs(s, 0) == 0;
    assert ParseValue(s, 0) == Defined(Failed(InvalidValue));
  }

  /** A literal followed by more text is a complete value with extra text. */
  lemma LiteralWithTailRootNotSingular()
    ensures Parse("truee") == Defined(Result(RootNotSingular, Null))
  {
    var s := "truee";
    assert SkipWs(s, 0) == 0;
    assert ParseValue(s, 0) == Defined(Consumed(4, True));
    assert SkipWs(s, 4) == 4;
  }

  /** `10`: the integer phase accepts only `1`-`9` after the first digit. */
  lemma TenIsInvalid()
    ensures Parse("10") == Defined(Result(InvalidValue, Null))
  {
    var s := "10";
    assert Scan(s, 1, Integer, false) == InvalidValue;
    assert VerifyNumber(s) == Defined(InvalidValue);
    assert SkipWs(s, 0) == 0;
    assert s[0..] == s;
    assert ParseValue(s, 0) == Defined(Failed(InvalidValue));
  }

  /** `-.5` passes the validator (the `.` is stepped over unchecked) and
      `strtod` converts it. */
  lemma MinusPointFiveAccepted()
    ensures Parse("-.5") == Defined(Result(Ok, Number("-.5")))
  {
    var t := "-.5";
    assert Scan(t, 3, Integer, false) == Ok;
    assert Scan(t, 2, Integer, false) == Ok;
    assert VerifyNumber(t) == Defined(Ok);
    assert SpaceRun(t, 0) == 0;
    assert DigitRun(t, 1) == 1;
    assert DigitRun(t, 3) == 3;
    assert DigitRun(t, 2) == 3;
    assert ConsumedLength(t) == 3;
    assert t[0..3] == t;
    assert ParseValue(t, 0) == Defined(Consumed(3, Number(t)));
  }

  /** `1.e5` passes the validator (the fraction phase needs no digit before
      the exponent) and `strtod` converts it. */
  lemma EmptyFractionAccepted()
    ensures Parse("1.e5") == Defined(Result(Ok, Number("1.e5")))
  {
    var t := "1.e5";
    EmptyFractionValidated();
    EmptyFractionConsumed();
    assert t[0..] == t;
    WholeNumberValue(t, 0);
    assert SkipWs(t, 0) == 0;
    ValueThenWsIsOk(t, |t|, Number(t));
  }

  lemma EmptyFractionValidated()
    ensures VerifyNumber("1.e5") == Defined(Ok)
  {
    var t := "1.e5";
    assert Scan(t, 4, Exponent, false) == Ok;
    assert Scan(t, 3, Exponent, false) == Ok;
    assert Scan(t, 2, Fraction, false) == Ok;
    assert Scan(t, 1, Integer, false) == Ok;
  }

  lemma EmptyFractionConsumed()
    ensures ConsumedLength("1.e5") == 4
  {
    var t := "1.e5";
    assert SpaceRun(t, 0) == 0;
    assert DigitRun(t, 0) == 1;
    assert DigitRun(t, 2) == 2;
    assert DigitRun(t, 4) == 4;
    assert DigitRun(t, 3) == 4;
  }

  /** The validator scans to the terminator, so whitespace or a second
      value after a number is INVALID_VALUE, not ROOT_NOT_SINGULAR. */
  lemma TrailingWsAfterNumberInvalid()
    ensures Parse("1 ") == Defined(Result(InvalidValue, Null))
  {
    var s := "1 ";
    assert Scan(s, 1, Integer, false) == InvalidValue;
    assert SkipWs(s, 0) == 0 && s[0..] == s;
    assert ParseValue(s, 0) == Defined(Failed(InvalidValue));
  }

  lemma SecondValueAfterNumberInvalid()
    ensures Parse("1 true") == Defined(Result(InvalidValue, Null))
  {
    var s := "1 true";
    assert Scan(s, 1, Integer, false) == InvalidValue;
    assert SkipWs(s, 0) == 0 && s[0..] == s;
    assert ParseValue(s, 0) == Defined(Failed(InvalidValue));
  }

  /** A leading zero followed by anything but `.`, `e`, `E` or the end. */
  lemma ZeroThenSpaceRootNotSingular()
    ensures Parse("0 ") == Defined(Result(RootNotSingular, Null))
  {
    var s := "0 ";
    assert VerifyNumber(s) == Defined(RootNotSingular);
    assert SkipWs(s, 0) == 0 && s[0..] == s;
    assert ParseValue(s, 0) == Defined(Failed(RootNotSingular));
  }

  lemma ZeroThenDigitRootNotSingular()
    ensures Parse("01") == Defined(Result(RootNotSingular, Null))
  {
    var s := "01";
    assert VerifyNumber(s) == Defined(RootNotSingular);
    assert SkipWs(s, 0) == 0 && s[0..] == s;
    assert ParseValue(s, 0) == Defined(Failed(RootNotSingular));
  }

  /** A sign anywhere in the exponent passes the validator; `strtod` stops
      before it and the rest is not whitespace. */
  lemma SignInsideExponent()
    ensures VerifyNumber("1e5-3") == Defined(Ok)
    ensures ConsumedLength("1e5-3") == 3
    ensures Parse("1e5-3") == Defined(Result(RootNotSingular, Null))
  {
    var t := "1e5-3";
    SignInsideExponentValidated();
    SignInsideExponentConsumed();
    SignInsideExponentValue(t);
    assert SkipWs(t, 0) == 0 && SkipWs(t, 3) == 3;
  }

  lemma SignInsideExponentValue(t: seq<char>)
    requires t == "1e5-3"
    requires VerifyNumber(t) == Defined(Ok)
    requires ConsumedLength(t) == 3
    ensures ParseValue(t, 0) == Defined(Consumed(3, Number(t[..3])))
  {
    assert t[0..] == t && t[0..3] == t[..3];
    assert ParseValue(t, 0) == ParseNumber(t, 0);
  }

  lemma SignInsideExponentValidated()
    ensures VerifyNumber("1e5-3") == Defined(Ok)
  {
    var t := "1e5-3";
    assert Scan(t, 5, Exponent, true) == Ok;
    assert Scan(t, 4, Exponent, true) == Ok;
    assert Scan(t, 3, Exponent, false) == Ok;
    assert Scan(t, 2, Exponent, false) == Ok;
    assert Scan(t, 1, Integer, false) == Ok;
  }

  lemma SignInsideExponentConsumed()
    ensures ConsumedLength("1e5-3") == 3
  {
    var t := "1e5-3";
    assert SpaceRun(t, 0) == 0;
    assert DigitRun(t, 0) == 1;
    assert DigitRun(t, 2) == 3;
  }

  /** A lone `-`, with or without whitespace before it, is undefined. */
  lemma LoneMinusUndefined()
    ensures Parse("-") == Undefined
  {
    var s := "-";
    assert s[..0] == [];
  }

  /** A lone `-` is not a number in the grammar of section 6 of RFC 8259:
      at least one digit must follow the minus. */
  lemma LoneMinusNotRfcNumber()
    ensures !Rfc8259.IsNumber("-")
  {
    assert MinusLen("-") == 1;
  }

  lemma PaddedMinusUndefined()
    ensures Parse(" \n-") == Undefined
  {
    var s := " \n-";
    assert s[..2] == " \n";
  }

  lemma MinusOneDefined()
    ensures Parse("-1").Defined?
  {
    var s := "-1";
    assert s[1] != '-';
  }

  /** Numbers ending on something other than a digit. */
  lemma PointWithoutFractionInvalid()
    ensures Parse("1.") == Defined(Result(InvalidValue, Null))
  {
    var s := "1.";
    assert Scan(s, 2, Fraction, false) == InvalidValue;
    assert Scan(s, 1, Integer, false) == InvalidValue;
    assert SkipWs(s, 0) == 0 && s[0..] == s;
    assert ParseValue(s, 0) == Defined(Failed(InvalidValue));
  }

  lemma ExponentWithoutDigitsInvalid()
    ensures Parse("1e") == Defined(Result(InvalidValue, Null))
  {
    var s := "1e";
    assert Scan(s, 2, Exponent, false) == InvalidValue;
    assert Scan(s, 1, Integer, false) == InvalidValue;
    assert SkipWs(s, 0) == 0 && s[0..] == s;
    assert ParseValue(s, 0) == Defined(Failed(InvalidValue));
  }

  lemma SignedExponentWithoutDigitsInvalid()
    ensures Parse("1e+") == Defined(Result(InvalidValue, Null))
  {
    var s := "1e+";
    assert Scan(s, 3, Exponent, true) == InvalidValue;
    assert Scan(s, 2, Exponent, false) == InvalidValue;
    assert Scan(s, 1, Integer, false) == InvalidValue;
    assert SkipWs(s, 0) == 0 && s[0..] == s;
    assert ParseValue(s, 0) == Defined(Failed(InvalidValue));
  }

  lemma ZeroPointInvalid()
    ensures Parse("0.") == Defined(Result(InvalidValue, Null))
  {
    var s := "0.";
    assert Scan(s, 2, Fraction, false) == InvalidValue;
    assert VerifyNumber(s) == Defined(InvalidValue);
    assert SkipWs(s, 0) == 0 && s[0..] == s;
    assert ParseValue(s, 0) == Defined(Failed(InvalidValue));
  }

  /** A number must start with a digit or `-`. */
  lemma PlusSignInvalid()
    ensures Parse("+1") == Defined(Result(InvalidValue, Null))
  {
    var s := "+1";
    assert SkipWs(s, 0) == 0 && s[0..] == s;
    assert ParseValue(s, 0) == Defined(Failed(InvalidValue));
  }

  lemma LeadingPointInvalid()
    ensures Parse(".5") == Defined(Result(InvalidValue, Null))
  {
    var s := ".5";
    assert SkipWs(s, 0) == 0 && s[0..] == s;
    assert ParseValue(s, 0) == Defined(Failed(InvalidValue));
  }

  /** `-e5` passes the validator but `strtod` consumes nothing. */
  lemma ConversionConsumesNothing()
    ensures VerifyNumber("-e5") == Defined(Ok)
    ensures ConsumedLength("-e5") == 0
    ensures Parse("-e5") == Defined(Result(InvalidValue, Null))
  {
    var s := "-e5";
    assert Scan(s, 3, Exponent, false) == Ok;
    assert Scan(s, 2, Integer, false) == Ok;
    assert VerifyNumber(s) == Defined(Ok);
    assert SpaceRun(s, 0) == 0;
    assert DigitRun(s, 1) == 1;
    assert ConsumedLength(s) == 0;
    assert SkipWs(s, 0) == 0 && s[0..] == s;
    assert ParseValue(s, 0) == Defined(Failed(InvalidValue));
  }

  lemma ZeroParses()
    ensures Parse("0") == Defined(Result(Ok, Number("0")))
  {
    assert Rfc8259.IntPart("0", 0, 1) && Rfc8259.FracPart("0", 1, 1);
    assert Rfc8259.FracExp("0", 1, 1);
    ParseNumberPadded("", "0");
    assert "" + "0" == "0";
  }

  lemma ZeroFractionParses()
    ensures Parse("0.0") == Defined(Result(Ok, Number("0.0")))
  {
    var t := "0.0";
    assert Rfc8259.IntPart(t, 0, 1) && Rfc8259.FracPart(t, 1, 3);
    assert Rfc8259.FracExp(t, 1, |t|);
    ParseNumberPadded("", t);
    assert "" + t == t;
  }

  lemma ExponentParses()
    ensures Parse("1e10") == Defined(Result(Ok, Number("1e10")))
  {
    var t := "1e10";
    assert Rfc8259.IntPart(t, 0, 1) && Rfc8259.FracPart(t, 1, 1) && Rfc8259.ExpPart(t, 1, |t|);
    assert Rfc8259.FracExp(t, 1, |t|);
    assert !InnerZero(t) by {
      assert !IsDigit(t[1]);
    }
    ParseNumberPadded("", t);
    assert "" + t == t;
  }

  lemma SignedExponentParses()
    ensures Parse("1.5e-3") == Defined(Result(Ok, Number("1.5e-3")))
  {
    var u := "1.5e-3";
    assert Rfc8259.IntPart(u, 0, 1) && Rfc8259.FracPart(u, 1, 3) && Rfc8259.ExpPart(u, 3, |u|);
    assert Rfc8259.FracExp(u, 1, |u|);
    assert !InnerZero(u) by {
      assert !IsDigit(u[1]);
    }
    ParseNumberPadded("", u);
    assert "" + u == u;
  }

  /** The corrected parser on the inputs the parser as written gets wrong. */
  lemma CorrectedTenParses()
    ensures Corrected.Parse("10") == Result(Ok, Number("10"))
  {
    var t := "10";
    assert Rfc8259.IntPart(t, 0, 2) && Rfc8259.FracPart(t, 2, 2) && Rfc8259.ExpPart(t, 2, 2);
    assert Rfc8259.FracExp(t, 2, 2);
    Corrected.ParseNumberPadded("", t, "");
    assert "" + t + "" == t;
  }

  lemma CorrectedTrailingWsParses()
    ensures Corrected.Parse("1 ") == Result(Ok, Number("1"))
  {
    var t := "1";
    assert Rfc8259.IntPart(t, 0, 1) && Rfc8259.FracPart(t, 1, 1) && Rfc8259.ExpPart(t, 1, 1);
    assert Rfc8259.FracExp(t, 1, 1);
    Corrected.ParseNumberPadded("", t, " ");
    assert "" + t + " " == "1 ";
  }

  lemma CorrectedRejectsLoneMinus()
    ensures Corrected.Parse("-") == Result(InvalidValue, Null)
  {
    var s := "-";
    assert SkipWs(s, 0) == 0 && s[0..] == s;
    assert Corrected.ScanNumber(s) == Corrected.NoNumber;
  }

  lemma CorrectedRejectsMinusPoint()
    ensures Corrected.Parse("-.5") == Result(InvalidValue, Null)
  {
    var s := "-.5";
    assert SkipWs(s, 0) == 0 && s[0..] == s;
    assert Corrected.ScanNumber(s) == Corrected.NoNumber;
  }

  lemma CorrectedRejectsEmptyFraction()
    ensures Corrected.Parse("1.e5") == Result(InvalidValue, Null)
  {
    var s := "1.e5";
    assert SkipWs(s, 0) == 0 && s[0..] == s;
    assert Corrected.IntEnd(s, 0) == 1;
    assert Corrected.FracEnd(s, 1) == Corrected.NoNumber;
    assert Corrected.ScanNumber(s) == Corrected.NoNumber;
  }
}
