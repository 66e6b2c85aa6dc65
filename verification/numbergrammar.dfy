/** What `verify_number` accepts, written as a grammar, and how that
    language compares with the number grammar of section 6 of RFC 8259. */
module NumberGrammar {
  import opened Chars
  import opened Json
  import opened NumberCheck
  import Rfc8259

  predicate NonzeroDigitsIn(t: seq<char>, i: nat, j: nat)
    requires i <= j <= |t|
  {
    forall k :: i <= k < j ==> IsDigit1To9(t[k])
  }

  /** The exponent phase from `i` to the end: digits and signs only, at most
      one sign anywhere, and none at all once `signed` is set. */
  predicate ExpTail(t: seq<char>, i: nat, signed: bool)
    requires i <= |t|
  {
    && (forall k :: i <= k < |t| ==> IsDigit(t[k]) || IsSign(t[k]))
    && (forall j, k :: i <= j < k < |t| ==> !(IsSign(t[j]) && IsSign(t[k])))
    && (signed ==> forall k :: i <= k < |t| ==> !IsSign(t[k]))
  }

  /** The fraction phase from `i` to the end: digits, then optionally an
      `e`/`E` and an exponent tail. */
  predicate FracTail(t: seq<char>, i: nat)
    requires i <= |t|
  {
    || DigitsIn(t, i, |t|)
    || exists q :: i <= q < |t| && DigitsIn(t, i, q) && IsExpMark(t[q]) && ExpTail(t, q + 1, false)
  }

  /** The integer phase from `i` to the end: digits `1`-`9` only, then
      optionally `.` and a fraction tail or `e`/`E` and an exponent tail. */
  predicate IntTail(t: seq<char>, i: nat)
    requires i <= |t|
  {
    || NonzeroDigitsIn(t, i, |t|)
    || exists q :: i <= q < |t| && NonzeroDigitsIn(t, i, q) &&
                   ((t[q] == '.' && FracTail(t, q + 1)) || (IsExpMark(t[q]) && ExpTail(t, q + 1, false)))
  }

  /** The strings `verify_number` accepts: a digit or `-` first and a digit
      last; after the optional `-`, either a `0` alone, a `0` with a
      fraction or exponent tail, or any one character other than `0`
      (unchecked) followed by an integer tail. */
  predicate AsWrittenNumber(t: seq<char>) {
    && |t| > 0 && (IsDigit(t[0]) || t[0] == '-') && IsDigit(t[|t| - 1])
    && var a := MinusLen(t);
       && a < |t|
       && if t[a] == '0' then
            || |t| == a + 1
            || (t[a + 1] == '.' && FracTail(t, a + 2))
            || (IsExpMark(t[a + 1]) && ExpTail(t, a + 2, false))
          else
            IntTail(t, a + 1)
  }

  lemma {:induction false} ScanExponentIff(t: seq<char>, p: nat, signed: bool)
    requires NoNul(t)
    requires 1 <= p <= |t|
    ensures Scan(t, p, Exponent, signed) == Ok <==> ExpTail(t, p, signed) && IsDigit(t[|t| - 1])
    decreases |t| - p
  {
    if p < |t| {
      var c := t[p];
      if IsSign(c) && !signed {
        ScanExponentIff(t, p + 1, true);
      } else if IsSign(c) {
        assert !ExpTail(t, p, signed);
      } else if IsDigit(c) {
        ScanExponentIff(t, p + 1, signed);
      } else {
        assert !ExpTail(t, p, signed);
      }
    }
  }

  /** At a character that is not a digit, a fraction tail can only be an
      exponent mark starting here. */
  lemma FracTailAtNonDigit(t: seq<char>, p: nat)
    requires p < |t| && !IsDigit(t[p])
    ensures FracTail(t, p) <==> IsExpMark(t[p]) && ExpTail(t, p + 1, false)
  {
    assert !DigitsIn(t, p, |t|);
    assert forall q :: p < q <= |t| ==> !DigitsIn(t, p, q);
    if IsExpMark(t[p]) && ExpTail(t, p + 1, false) {
      assert DigitsIn(t, p, p);
    }
  }

  /** At a character that is not `1`-`9`, an integer tail can only switch
      phase here. */
  lemma IntTailAtNonNonzero(t: seq<char>, p: nat)
    requires p < |t| && !IsDigit1To9(t[p])
    ensures IntTail(t, p) <==>
              (t[p] == '.' && FracTail(t, p + 1)) || (IsExpMark(t[p]) && ExpTail(t, p + 1, false))
  {
    assert !NonzeroDigitsIn(t, p, |t|);
    assert forall q :: p < q <= |t| ==> !NonzeroDigitsIn(t, p, q);
    assert NonzeroDigitsIn(t, p, p);
  }

  /** A fraction tail survives stepping over a leading digit, both ways. */
  lemma FracTailAtDigit(t: seq<char>, p: nat)
    requires p < |t| && IsDigit(t[p])
    ensures FracTail(t, p) <==> FracTail(t, p + 1)
  {
    if FracTail(t, p) && !DigitsIn(t, p, |t|) {
      var q :| p <= q < |t| && DigitsIn(t, p, q) && IsExpMark(t[q]) && ExpTail(t, q + 1, false);
      assert DigitsIn(t, p + 1, q);
    }
    if FracTail(t, p + 1) && !DigitsIn(t, p + 1, |t|) {
      var q :| p + 1 <= q < |t| && DigitsIn(t, p + 1, q) && IsExpMark(t[q]) && ExpTail(t, q + 1, false);
      assert DigitsIn(t, p, q);
    }
  }

  /** An integer tail survives stepping over a leading `1`-`9`, both ways. */
  lemma IntTailAtNonzero(t: seq<char>, p: nat)
    requires p < |t| && IsDigit1To9(t[p])
    ensures IntTail(t, p) <==> IntTail(t, p + 1)
  {
    if IntTail(t, p) && !NonzeroDigitsIn(t, p, |t|) {
      var q :| p <= q < |t| && NonzeroDigitsIn(t, p, q) &&
               ((t[q] == '.' && FracTail(t, q + 1)) || (IsExpMark(t[q]) && ExpTail(t, q + 1, false)));
      assert NonzeroDigitsIn(t, p + 1, q);
    }
    if IntTail(t, p + 1) && !NonzeroDigitsIn(t, p + 1, |t|) {
      var q :| p + 1 <= q < |t| && NonzeroDigitsIn(t, p + 1, q) &&
               ((t[q] == '.' && FracTail(t, q + 1)) || (IsExpMark(t[q]) && ExpTail(t, q + 1, false)));
      assert NonzeroDigitsIn(t, p, q);
    }
  }

  lemma {:induction false} ScanFractionIff(t: seq<char>, p: nat)
    requires NoNul(t)
    requires 1 <= p <= |t|
    ensures Scan(t, p, Fraction, false) == Ok <==> FracTail(t, p) && IsDigit(t[|t| - 1])
    decreases |t| - p
  {
    if p < |t| {
      if IsDigit(t[p]) {
        ScanFractionIff(t, p + 1);
        FracTailAtDigit(t, p);
      } else {
        FracTailAtNonDigit(t, p);
        if IsExpMark(t[p]) {
          ScanExponentIff(t, p + 1, false);
        }
      }
    }
  }

  lemma {:induction false} ScanIntegerIff(t: seq<char>, p: nat)
    requires NoNul(t)
    requires 1 <= p <= |t|
    ensures Scan(t, p, Integer, false) == Ok <==> IntTail(t, p) && IsDigit(t[|t| - 1])
    decreases |t| - p
  {
    if p < |t| {
      if IsDigit1To9(t[p]) {
        ScanIntegerIff(t, p + 1);
        IntTailAtNonzero(t, p);
      } else {
        IntTailAtNonNonzero(t, p);
        if t[p] == '.' {
          ScanFractionIff(t, p + 1);
        } else if IsExpMark(t[p]) {
          ScanExponentIff(t, p + 1, false);
        }
      }
    }
  }

  /** `verify_number` returns OK on exactly the strings of `AsWrittenNumber`. */
  lemma VerifyNumberOkIff(t: seq<char>)
    requires NoNul(t)
    ensures VerifyNumber(t) == Defined(Ok) <==> AsWrittenNumber(t)
  {
    if |t| > 0 && (IsDigit(t[0]) || t[0] == '-') {
      var a := MinusLen(t);
      if a < |t| {
        if t[a] == '0' {
          if a + 1 < |t| {
            if IsExpMark(t[a + 1]) {
              ScanExponentIff(t, a + 2, false);
            } else if t[a + 1] == '.' {
              ScanFractionIff(t, a + 2);
            }
          }
        } else {
          ScanIntegerIff(t, a + 1);
        }
      }
    }
  }

  /** A `0` inside the leading digit run of `t`, after its first digit. */
  predicate InnerZero(t: seq<char>) {
    var i := MinusLen(t);
    exists k :: i < k < |t| && DigitsIn(t, i, k) && t[k] == '0'
  }

  /** An RFC 8259 exponent, seen from just after its mark, is an exponent
      tail. */
  lemma ExpPartIsExpTail(t: seq<char>, k: nat)
    requires k < |t| && Rfc8259.ExpPart(t, k, |t|)
    ensures ExpTail(t, k + 1, false)
  {
    var d := Rfc8259.ExpDigitsStart(t, k, |t|);
    forall j, m | k + 1 <= j < m < |t|
      ensures !(IsSign(t[j]) && IsSign(t[m]))
    {
      assert IsDigit(t[m]);
    }
  }

  /** An RFC 8259 `[ frac ] [ exp ]` that begins with `.`, seen from just
      after the `.`, is a fraction tail. */
  lemma FracExpIsFracTail(t: seq<char>, j: nat, k: nat)
    requires j < k <= |t| && Rfc8259.FracPart(t, j, k) && Rfc8259.ExpPart(t, k, |t|)
    ensures FracTail(t, j + 1)
  {
    if k < |t| {
      ExpPartIsExpTail(t, k);
    }
  }

  /** An RFC 8259 number whose integer part is `0` has the as-written form. */
  lemma ZeroIntegerAccepted(t: seq<char>, j: nat, k: nat)
    requires j == MinusLen(t) + 1 <= k <= |t|
    requires t[j - 1] == '0'
    requires Rfc8259.FracPart(t, j, k) && Rfc8259.ExpPart(t, k, |t|)
    ensures AsWrittenNumber(t) && !InnerZero(t)
  {
    var i := j - 1;
    assert IsDigit(t[|t| - 1]) by {
      assert Rfc8259.FracExp(t, j, |t|) && Rfc8259.IntPart(t, i, j);
      Rfc8259.NumberEndsWithDigit(t);
    }
    assert !InnerZero(t) by {
      if j < |t| {
        assert !IsDigit(t[j]);
      }
    }
    if j < k {
      FracExpIsFracTail(t, j, k);
    } else if k < |t| {
      ExpPartIsExpTail(t, k);
    }
  }

  /** An RFC 8259 number whose integer part starts with `1`-`9` has the
      as-written form exactly when that part holds no `0`. */
  lemma NonzeroIntegerVerdict(t: seq<char>, j: nat, k: nat)
    requires MinusLen(t) < j <= k <= |t|
    requires IsDigit1To9(t[MinusLen(t)]) && DigitsIn(t, MinusLen(t) + 1, j)
    requires Rfc8259.FracPart(t, j, k) && Rfc8259.ExpPart(t, k, |t|)
    ensures AsWrittenNumber(t) <==> !InnerZero(t)
  {
    var i := MinusLen(t);
    assert IsDigit(t[|t| - 1]) by {
      assert Rfc8259.FracExp(t, j, |t|) && Rfc8259.IntPart(t, i, j);
      Rfc8259.NumberEndsWithDigit(t);
    }
    if InnerZero(t) {
      var m :| i < m < |t| && DigitsIn(t, i, m) && t[m] == '0';
      assert !NonzeroDigitsIn(t, i + 1, |t|);
      forall q | i + 1 <= q < |t| && NonzeroDigitsIn(t, i + 1, q)
        ensures IsDigit(t[q])
      {
      }
      assert !IntTail(t, i + 1);
    } else {
      assert NonzeroDigitsIn(t, i + 1, j) by {
        forall m | i + 1 <= m < j
          ensures IsDigit1To9(t[m])
        {
        }
      }
      if j < k {
        FracExpIsFracTail(t, j, k);
        assert IntTail(t, i + 1);
      } else if k < |t| {
        ExpPartIsExpTail(t, k);
        assert IntTail(t, i + 1);
      }
    }
  }

  /** On RFC 8259 numbers, `verify_number` departs from the grammar in one
      way only: a `0` after the first digit of the integer part (as in
      `10`) is rejected with INVALID_VALUE. Every other JSON number passes. */
  lemma RfcNumberVerdict(t: seq<char>)
    requires NoNul(t)
    requires Rfc8259.IsNumber(t)
    ensures VerifyNumber(t) == if InnerZero(t) then Defined(InvalidValue) else Defined(Ok)
  {
    var i := MinusLen(t);
    var j :| i <= j <= |t| && Rfc8259.IntPart(t, i, j) && Rfc8259.FracExp(t, j, |t|);
    var k :| j <= k <= |t| && Rfc8259.FracPart(t, j, k) && Rfc8259.ExpPart(t, k, |t|);
    VerifyNumberOkIff(t);
    if j == i + 1 && t[i] == '0' {
      ZeroIntegerAccepted(t, j, k);
    } else {
      NonzeroIntegerVerdict(t, j, k);
      assert !ZeroThenOther(t);
    }
  }

  /** `strtod` also reads hexadecimal (`0x`…), `inf`/`infinity` and `nan`
      forms after an optional sign (section 7.22.1.3 of C11). */
  predicate NonDecimalForm(t: seq<char>) {
    var a := SignEnd(t, 0, |t|);
    || (a + 1 < |t| && t[a] == '0' && (t[a + 1] == 'x' || t[a + 1] == 'X'))
    || (a + 2 < |t| && (t[a] == 'i' || t[a] == 'I') && (t[a + 1] == 'n' || t[a + 1] == 'N')
                    && (t[a + 2] == 'f' || t[a + 2] == 'F'))
    || (a + 2 < |t| && (t[a] == 'n' || t[a] == 'N') && (t[a + 1] == 'a' || t[a + 1] == 'A')
                    && (t[a + 2] == 'n' || t[a + 2] == 'N'))
  }

  /** Text that passes the validator never starts a hexadecimal, infinity
      or NaN form, so only the decimal form of `strtod` matters after it. */
  lemma ValidatedIsNotNonDecimal(t: seq<char>)
    requires NoNul(t)
    requires VerifyNumber(t) == Defined(Ok)
    ensures !NonDecimalForm(t)
  {
    VerifyNumberOkIff(t);
    if t[0] == '-' && 2 < |t| && t[1] != '0' {
      if !IsDigit1To9(t[2]) {
        IntTailAtNonNonzero(t, 2);
      }
    }
  }
}
