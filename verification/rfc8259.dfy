/** The number grammar of section 6 of RFC 8259, as an independent reference:
    `number = [ minus ] int [ frac ] [ exp ]`. Parts are index ranges. */
module Rfc8259 {
  import opened Chars

  /** `int = zero / ( digit1-9 *DIGIT )` on `[i, j)`. */
  predicate IntPart(t: seq<char>, i: nat, j: nat)
    requires i <= j <= |t|
  {
    || (j == i + 1 && t[i] == '0')
    || (i < j && IsDigit1To9(t[i]) && DigitsIn(t, i + 1, j))
  }

  /** `[ frac ]` with `frac = decimal-point 1*DIGIT` on `[j, k)`. */
  predicate FracPart(t: seq<char>, j: nat, k: nat)
    requires j <= k <= |t|
  {
    k == j || (j + 2 <= k && t[j] == '.' && DigitsIn(t, j + 1, k))
  }

  /** Where the exponent digits start after the mark at `k`, for an
      exponent that ends at `n`. */
  function ExpDigitsStart(t: seq<char>, k: nat, n: nat): nat
    requires k < n <= |t|
  {
    SignEnd(t, k + 1, n)
  }

  /** `[ exp ]` with `exp = e [ minus / plus ] 1*DIGIT` on `[k, n)`. */
  predicate ExpPart(t: seq<char>, k: nat, n: nat)
    requires k <= n <= |t|
  {
    || k == n
    || (IsExpMark(t[k]) && ExpDigitsStart(t, k, n) < n && DigitsIn(t, ExpDigitsStart(t, k, n), n))
  }

  /** `[ frac ] [ exp ]` on `[j, n)`. */
  predicate FracExp(t: seq<char>, j: nat, n: nat)
    requires j <= n <= |t|
  {
    exists k :: j <= k <= n && FracPart(t, j, k) && ExpPart(t, k, n)
  }

  /** The first `n` characters of `t` are a JSON number. */
  predicate NumberPrefix(t: seq<char>, n: nat)
    requires n <= |t|
  {
    exists j :: MinusLen(t) <= j <= n && IntPart(t, MinusLen(t), j) && FracExp(t, j, n)
  }

  /** The whole of `t` is a JSON number. */
  predicate IsNumber(t: seq<char>) {
    NumberPrefix(t, |t|)
  }

  /** A JSON number ends with a digit. */
  lemma NumberEndsWithDigit(t: seq<char>)
    requires IsNumber(t)
    ensures |t| > 0 && IsDigit(t[|t| - 1])
  {
    var j :| MinusLen(t) <= j <= |t| && IntPart(t, MinusLen(t), j) && FracExp(t, j, |t|);
    var k :| j <= k <= |t| && FracPart(t, j, k) && ExpPart(t, k, |t|);
    if k < |t| {
      assert IsDigit(t[|t| - 1]);
    } else if j < k {
      assert IsDigit(t[k - 1]);
    } else {
      assert IsDigit(t[j - 1]);
    }
  }

  /** A JSON number holds no NUL. */
  lemma NumberHasNoNul(t: seq<char>)
    requires IsNumber(t)
    ensures NoNul(t)
  {
    var i := MinusLen(t);
    var j :| i <= j <= |t| && IntPart(t, i, j) && FracExp(t, j, |t|);
    var k :| j <= k <= |t| && FracPart(t, j, k) && ExpPart(t, k, |t|);
    forall m | 0 <= m < |t|
      ensures t[m] != Terminator
    {
      if m < i {
      } else if m < j {
        assert IsDigit(t[m]);
      } else if m < k {
        assert IsDigit(t[m]) || t[m] == '.';
      } else {
        assert m == k || m < ExpDigitsStart(t, k, |t|) || IsDigit(t[m]);
      }
    }
  }

  /** Whether the first `n` characters are a number depends on those
      characters only. */
  lemma NumberPrefixTransfer(t: seq<char>, u: seq<char>, n: nat)
    requires n <= |t| && n <= |u| && t[..n] == u[..n]
    requires NumberPrefix(t, n)
    ensures NumberPrefix(u, n)
  {
    forall m | 0 <= m < n ensures t[m] == u[m] {
      assert t[m] == t[..n][m] && u[m] == u[..n][m];
    }
    var a := MinusLen(t);
    var j :| a <= j <= n && IntPart(t, a, j) && FracExp(t, j, n);
    var k :| j <= k <= n && FracPart(t, j, k) && ExpPart(t, k, n);
    assert MinusLen(u) == a;
    assert IntPart(u, a, j);
    assert FracPart(u, j, k);
    if k < n {
      assert ExpDigitsStart(u, k, n) == ExpDigitsStart(t, k, n);
    }
    assert ExpPart(u, k, n);
    assert FracExp(u, j, n);
  }

  /** A JSON number starts with `-` or a digit. */
  lemma NumberStart(t: seq<char>)
    requires IsNumber(t)
    ensures |t| > 0 && (t[0] == '-' || IsDigit(t[0]))
  {
    var j :| MinusLen(t) <= j <= |t| && IntPart(t, MinusLen(t), j) && FracExp(t, j, |t|);
  }
}
