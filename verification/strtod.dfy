/** How many characters `strtod` consumes, after section 7.22.1.3 of C11:
    leading white-space, then the longest initial subsequence of the
    expected decimal form. Only the length is modelled, not the double. */
module Strtod {
  import opened Chars

  /** `isspace` in the "C" locale. */
  predicate IsSpace(c: char) {
    c == ' ' || c == '\t' || c == '\n' || c == '\U{B}' || c == '\U{C}' || c == '\r'
  }

  /** The end of the run of `isspace` characters from `i`. */
  function SpaceRun(t: seq<char>, i: nat): (j: nat)
    requires i <= |t|
    ensures i <= j <= |t|
    ensures forall k :: i <= k < j ==> IsSpace(t[k])
    ensures j == |t| || !IsSpace(t[j])
    decreases |t| - i
  {
    if i < |t| && IsSpace(t[i]) then SpaceRun(t, i + 1) else i
  }

  /** The end of the run of digits from `i`. */
  function DigitRun(t: seq<char>, i: nat): (j: nat)
    requires i <= |t|
    ensures i <= j <= |t|
    ensures DigitsIn(t, i, j)
    ensures j == |t| || !IsDigit(t[j])
    decreases |t| - i
  {
    if i < |t| && IsDigit(t[i]) then DigitRun(t, i + 1) else i
  }

  /** A nonempty sequence of decimal digits optionally containing one
      decimal-point character, on `[a, b)`. */
  predicate Mantissa(t: seq<char>, a: nat, b: nat)
    requires a <= b <= |t|
  {
    || (a < b && DigitsIn(t, a, b))
    || exists p :: a <= p < b && t[p] == '.' && DigitsIn(t, a, p) && DigitsIn(t, p + 1, b) && a + 2 <= b
  }

  /** An optional exponent part (section 6.4.4.2 of C11) on `[e, b)`. */
  predicate ExponentOpt(t: seq<char>, e: nat, b: nat)
    requires e <= b <= |t|
  {
    || e == b
    || (IsExpMark(t[e]) &&
        var f := SignEnd(t, e + 1, b);
        f < b && DigitsIn(t, f, b))
  }

  /** `[a, b)` is a subject sequence of the expected decimal form. */
  predicate Subject(t: seq<char>, a: nat, b: nat)
    requires a <= b <= |t|
  {
    var s := SignEnd(t, a, |t|);
    s <= b && exists e :: s <= e <= b && Mantissa(t, s, e) && ExponentOpt(t, e, b)
  }

  /** The number of characters `strtod(t, &end)` moves `end` past: the
      white-space and the longest subject sequence, or nothing at all when
      there is no subject sequence. It returns the end of the subject
      sequence that starts at the first non-white-space character, and no
      longer subject sequence exists there. */
  function ConsumedLength(t: seq<char>): (n: nat)
    ensures n <= |t|
    ensures n > 0 ==> SpaceRun(t, 0) < n && Subject(t, SpaceRun(t, 0), n)
    ensures forall b :: SpaceRun(t, 0) <= b <= |t| && Subject(t, SpaceRun(t, 0), b) ==> b <= n
  {
    var w := SpaceRun(t, 0);
    var s := SignEnd(t, w, |t|);
    var d := DigitRun(t, s);
    var m := if d < |t| && t[d] == '.' then DigitRun(t, d + 1) else d;
    var digits := if m > d then (d - s) + (m - d - 1) else d - s;
    SubjectNeedsDigits(t, w, s, d, m);
    if digits == 0 then
      0
    else
      var n := if m < |t| && IsExpMark(t[m]) then
                 var f := SignEnd(t, m + 1, |t|);
                 var g := DigitRun(t, f);
                 if g > f then g else m
               else m;
      SubjectAt(t, w, s, d, m, n);
      LongestSubject(t, w, s, d, m, n);
      n
  }

  /** The scan's mantissa `[s, m)` is a mantissa when it holds a digit. */
  lemma ScannedMantissa(t: seq<char>, s: nat, d: nat, m: nat)
    requires s <= d <= m <= |t|
    requires d == DigitRun(t, s)
    requires m == if d < |t| && t[d] == '.' then DigitRun(t, d + 1) else d
    requires s < d || d + 1 < m
    ensures Mantissa(t, s, m)
  {
    if m > d {
      assert t[d] == '.' && DigitsIn(t, s, d) && DigitsIn(t, d + 1, m);
    }
  }

  /** Every mantissa starting at `s` ends at or before the scan's `m`, and
      ends before `m` only on a digit or on the point; and the scan found a
      digit. */
  lemma MantissaWithinScan(t: seq<char>, s: nat, d: nat, m: nat, e: nat)
    requires s <= d <= m <= |t|
    requires d == DigitRun(t, s)
    requires m == if d < |t| && t[d] == '.' then DigitRun(t, d + 1) else d
    requires s <= e <= |t| && Mantissa(t, s, e)
    ensures e <= m
    ensures e < m ==> IsDigit(t[e]) || t[e] == '.'
    ensures s < d || d + 1 < m
  {
    if a: nat :| s <= a < e && t[a] == '.' && DigitsIn(t, s, a) && DigitsIn(t, a + 1, e) && s + 2 <= e {
      assert a == d;
    } else {
      assert DigitsIn(t, s, e);
    }
  }

  /** Every subject sequence holds a digit the scan finds. */
  lemma SubjectNeedsDigits(t: seq<char>, w: nat, s: nat, d: nat, m: nat)
    requires w <= |t|
    requires s == SignEnd(t, w, |t|)
    requires d == DigitRun(t, s)
    requires m == if d < |t| && t[d] == '.' then DigitRun(t, d + 1) else d
    ensures forall b :: w <= b <= |t| && Subject(t, w, b) ==> s < d || d + 1 < m
  {
    forall b | w <= b <= |t| && Subject(t, w, b)
      ensures s < d || d + 1 < m
    {
      var e :| s <= e <= b && Mantissa(t, s, e) && ExponentOpt(t, e, b);
      MantissaWithinScan(t, s, d, m, e);
    }
  }

  lemma SubjectAt(t: seq<char>, w: nat, s: nat, d: nat, m: nat, n: nat)
    requires w <= |t|
    requires s == SignEnd(t, w, |t|)
    requires d == DigitRun(t, s)
    requires m == if d < |t| && t[d] == '.' then DigitRun(t, d + 1) else d
    requires s < d || d + 1 < m
    requires n == if m < |t| && IsExpMark(t[m]) then
                   var f := SignEnd(t, m + 1, |t|);
                   var g := DigitRun(t, f);
                   if g > f then g else m
                 else m
    ensures w < n <= |t| && Subject(t, w, n)
  {
    ScannedMantissa(t, s, d, m);
    assert s <= m <= n;
    assert ExponentOpt(t, m, n);
  }

  /** An exponent part that starts at the scan's `m` ends at or before the
      scan's end. */
  lemma ExponentWithinScan(t: seq<char>, m: nat, b: nat, n: nat)
    requires m < b <= |t| && ExponentOpt(t, m, b)
    requires n == if m < |t| && IsExpMark(t[m]) then
                   var f := SignEnd(t, m + 1, |t|);
                   var g := DigitRun(t, f);
                   if g > f then g else m
                 else m
    ensures b <= n
  {
    var f := SignEnd(t, m + 1, |t|);
    var g := DigitRun(t, f);
    assert f < b && DigitsIn(t, f, b);
  }

  lemma LongestSubject(t: seq<char>, w: nat, s: nat, d: nat, m: nat, n: nat)
    requires w <= |t|
    requires s == SignEnd(t, w, |t|)
    requires d == DigitRun(t, s)
    requires m == if d < |t| && t[d] == '.' then DigitRun(t, d + 1) else d
    requires n == if m < |t| && IsExpMark(t[m]) then
                   var f := SignEnd(t, m + 1, |t|);
                   var g := DigitRun(t, f);
                   if g > f then g else m
                 else m
    ensures forall b :: w <= b <= |t| && Subject(t, w, b) ==> b <= n
  {
    forall b | w <= b <= |t| && Subject(t, w, b)
      ensures b <= n
    {
      var e :| s <= e <= b && Mantissa(t, s, e) && ExponentOpt(t, e, b);
      MantissaWithinScan(t, s, d, m, e);
      if e < b {
        ExponentWithinScan(t, e, b, n);
      }
    }
  }
}
