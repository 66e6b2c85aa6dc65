/** Whole-parse properties: what an OK result says about the buffer, and
    which buffers parse to which values. */
module ParserProperties {
  import opened Chars
  import opened Json
  import opened Whitespace
  import opened Literal
  import opened NumberCheck
  import opened NumberGrammar
  import opened Strtod
  import opened Parser
  import Rfc8259

  /** `strtod` consumes the whole of an RFC 8259 number. */
  lemma ConsumesWholeRfcNumber(t: seq<char>)
    requires Rfc8259.IsNumber(t)
    ensures ConsumedLength(t) == |t|
  {
    var i := MinusLen(t);
    var j :| i <= j <= |t| && Rfc8259.IntPart(t, i, j) && Rfc8259.FracExp(t, j, |t|);
    var k :| j <= k <= |t| && Rfc8259.FracPart(t, j, k) && Rfc8259.ExpPart(t, k, |t|);
    assert SpaceRun(t, 0) == 0;
    if j < k {
      assert Mantissa(t, i, k) by {
        assert t[j] == '.' && DigitsIn(t, i, j) && DigitsIn(t, j + 1, k);
      }
    } else {
      assert Mantissa(t, i, k);
    }
    assert ExponentOpt(t, k, |t|);
    assert Subject(t, 0, |t|);
  }

  /** Round trip for literals: a literal with any whitespace around it
      parses to that literal. */
  lemma ParseLiteralPadded(w1: seq<char>, v: Value, w2: seq<char>)
    requires AllWs(w1) && AllWs(w2)
    requires !v.Number?
    ensures NoNul(w1 + LiteralText(v) + w2)
    ensures Parse(w1 + LiteralText(v) + w2) == Defined(Result(Ok, v))
  {
    var s := w1 + LiteralText(v) + w2;
    var n := |w1| + |LiteralText(v)|;
    PaddedLiteral(w1, v, w2);
    assert ParseValue(s, |w1|) == Defined(Consumed(n, v));
    ValueThenWsIsOk(s, n, v);
  }

  /** A value parsed after the leading whitespace and followed by
      whitespace only makes the whole parse OK to that value. */
  lemma ValueThenWsIsOk(s: seq<char>, n: nat, v: Value)
    requires NoNul(s)
    requires ParseValue(s, SkipWs(s, 0)) == Defined(Consumed(n, v))
    requires AllWs(s[n..])
    ensures Parse(s) == Defined(Result(Ok, v))
  {
    SkipWsToEnd(s, n);
  }

  /** A value parsed after the leading whitespace and followed by anything
      other than whitespace makes the whole parse fail with
      `ROOT_NOT_SINGULAR`. With `ValueThenWsIsOk` and
      `FailedValuePassesThrough` this decides every buffer on which the value
      parse is defined. */
  lemma RnsAfterValue(s: seq<char>, n: nat, v: Value)
    requires NoNul(s)
    requires ParseValue(s, SkipWs(s, 0)) == Defined(Consumed(n, v))
    requires !AllWs(s[n..])
    ensures Parse(s) == Defined(Result(RootNotSingular, Null))
  {
    SkipWsToEnd(s, n);
  }

  /** A value parse that fails after the leading whitespace decides the
      whole parse: its code is returned, with value NULL. */
  lemma FailedValuePassesThrough(s: seq<char>, code: ParseCode)
    requires NoNul(s)
    requires ParseValue(s, SkipWs(s, 0)) == Defined(Failed(code))
    ensures Parse(s) == Defined(Result(code, Null))
  {
  }

  /** An RFC 8259 number with a `0` after its first integer digit, after any
      whitespace, makes the whole parse fail with `INVALID_VALUE`. */
  lemma InnerZeroNumberInvalid(w: seq<char>, t: seq<char>)
    requires AllWs(w)
    requires Rfc8259.IsNumber(t)
    requires InnerZero(t)
    ensures NoNul(w + t)
    ensures Parse(w + t) == Defined(Result(InvalidValue, Null))
  {
    var s := w + t;
    Rfc8259.NumberHasNoNul(t);
    WsHasNoNul(w);
    NoNulConcat(w, t);
    Rfc8259.NumberStart(t);
    RfcNumberVerdict(t);
    SkipWsPrefix(w, t);
    assert s[|w|..] == t;
    assert ParseValue(s, |w|) == ParseNumber(s, |w|);
  }

  /** At a cursor whose rest validates and is consumed whole by `strtod`,
      the value parser yields the number of all of it. */
  lemma WholeNumberValue(s: seq<char>, b: nat)
    requires NoNul(s) && b < |s|
    requires IsDigit(s[b]) || s[b] == '-'
    requires Verdict(s, b) == Defined(Ok)
    requires ConsumedLength(s[b..]) == |s| - b
    ensures ParseValue(s, b) == Defined(Consumed(|s|, Number(s[b..])))
  {
    assert ParseValue(s, b) == ParseNumber(s, b);
    var r := ParseNumber(s, b);
    assert r.Defined? && r.get.Consumed?;
    assert s[b..|s|] == s[b..];
  }

  /** Round trip for numbers: an RFC 8259 number with no `0` after the
      first digit of its integer part, after any whitespace and with
      nothing behind it, parses to a number holding exactly its text. */
  lemma ParseNumberPadded(w: seq<char>, t: seq<char>)
    requires AllWs(w)
    requires Rfc8259.IsNumber(t) && !InnerZero(t)
    ensures NoNul(w + t)
    ensures Parse(w + t) == Defined(Result(Ok, Number(t)))
  {
    var s := w + t;
    Rfc8259.NumberHasNoNul(t);
    WsHasNoNul(w);
    NoNulConcat(w, t);
    RfcNumberVerdict(t);
    ConsumesWholeRfcNumber(t);
    var i := MinusLen(t);
    var j :| i <= j <= |t| && Rfc8259.IntPart(t, i, j) && Rfc8259.FracExp(t, j, |t|);
    assert IsDigit(t[0]) || t[0] == '-';
    assert At(t, 0) == t[0];
    SkipWsPrefix(w, t);
    assert s[|w|..] == t;
    WholeNumberValue(s, |w|);
    ValueThenWsIsOk(s, |s|, Number(t));
  }

  /** An OK parse is a value parsed after the leading whitespace and
      followed by whitespace only. */
  lemma OkParseValue(s: seq<char>)
    requires NoNul(s)
    requires Parse(s).Defined? && Parse(s).get.code == Ok
    ensures var r := ParseValue(s, SkipWs(s, 0));
            && r.Defined? && r.get.Consumed?
            && r.get.value == Parse(s).get.value
            && AllWs(s[r.get.next..])
  {
    var r := ParseValue(s, SkipWs(s, 0));
    assert r.Defined? && r.get.Consumed?;
    SkipWsToEnd(s, r.get.next);
  }

  /** A parse that ends OK on a literal: the buffer is whitespace, the
      literal's text, whitespace. */
  lemma OkLiteralShape(s: seq<char>)
    requires NoNul(s)
    requires Parse(s).Defined? && Parse(s).get.code == Ok && !Parse(s).get.value.Number?
    ensures var b := SkipWs(s, 0);
            var e := b + |LiteralText(Parse(s).get.value)|;
            && e <= |s|
            && AllWs(s[..b])
            && s[b..e] == LiteralText(Parse(s).get.value)
            && AllWs(s[e..])
  {
    OkParseValue(s);
  }

  /** A value parse that yields a number went through the validator, which
      accepted the rest of the buffer, and the number's text starts the
      rest. */
  lemma NumberValueValidated(s: seq<char>, b: nat)
    requires NoNul(s) && b <= |s|
    requires ParseValue(s, b).Defined? && ParseValue(s, b).get.Consumed?
    requires ParseValue(s, b).get.value.Number?
    ensures var n := ParseValue(s, b).get.next;
            && Verdict(s, b) == Defined(Ok)
            && ParseValue(s, b).get.value == Number(s[b..n])
  {
    assert ParseValue(s, b) == ParseNumber(s, b);
  }

  /** Text the validator accepts ends the buffer with a digit. */
  lemma ValidatedRestEndsWithDigit(s: seq<char>, b: nat)
    requires b <= |s|
    requires NoNul(s[b..]) && VerifyNumber(s[b..]) == Defined(Ok)
    ensures b < |s| && IsDigit(s[|s| - 1])
  {
    var t := s[b..];
    assert t[|t| - 1] == s[|s| - 1];
  }

  /** A parse that ends OK on a number: the buffer is whitespace followed by
      the number's text, with nothing at all behind it, not even
      whitespace; the text passed the validator. */
  lemma OkNumberShape(s: seq<char>)
    requires NoNul(s)
    requires Parse(s).Defined? && Parse(s).get.code == Ok && Parse(s).get.value.Number?
    ensures var x := Parse(s).get.value.lexeme;
            && 0 < |x| <= |s|
            && AllWs(s[..|s| - |x|])
            && s[|s| - |x|..] == x
            && NoNul(x)
            && VerifyNumber(x) == Defined(Ok)
  {
    var b := SkipWs(s, 0);
    OkParseValue(s);
    var n := ParseValue(s, b).get.next;
    NumberValueValidated(s, b);
    NoNulSuffix(s, b);
    ValidatedRestEndsWithDigit(s, b);
    WsTailLast(s, n);
    assert s[b..n] == s[b..];
  }

  /** A nonempty whitespace tail makes the last character whitespace. */
  lemma WsTailLast(s: seq<char>, n: nat)
    requires n <= |s| && AllWs(s[n..])
    ensures n < |s| ==> IsWs(s[|s| - 1])
  {
    if n < |s| {
      assert s[n..][|s| - 1 - n] == s[|s| - 1];
    }
  }

  /** Whitespace after a number is never accepted: a buffer that ends in
      whitespace never parses OK to a number. */
  lemma NoTrailingWsAfterNumber(s: seq<char>)
    requires NoNul(s)
    requires |s| > 0 && IsWs(s[|s| - 1])
    ensures Parse(s).Defined? && Parse(s).get.code == Ok ==> !Parse(s).get.value.Number?
  {
    if Parse(s).Defined? && Parse(s).get.code == Ok && Parse(s).get.value.Number? {
      OkNumberShape(s);
    }
  }
}
