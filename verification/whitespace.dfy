/** `lept_parse_whitespace`: skip the insignificant whitespace. */
module Whitespace {
  import opened Chars

  /** The cursor after skipping whitespace from `i`: every character passed
      over is whitespace, and the cursor stops at the first character that is
      not, or at the terminator. It never fails. */
  function SkipWs(s: seq<char>, i: nat): (j: nat)
    requires i <= |s|
    ensures i <= j <= |s|
    ensures forall k :: i <= k < j ==> IsWs(s[k])
    ensures !IsWs(At(s, j))
    decreases |s| - i
  {
    if IsWs(At(s, i)) then SkipWs(s, i + 1) else i
  }

  /** The stopping point is unique: any `j` with the characterising
      property is the one `SkipWs` returns. */
  lemma {:induction false} SkipWsUnique(s: seq<char>, i: nat, j: nat)
    requires i <= j <= |s|
    requires forall k :: i <= k < j ==> IsWs(s[k])
    requires !IsWs(At(s, j))
    ensures SkipWs(s, i) == j
    decreases j - i
  {
    if i < j {
      SkipWsUnique(s, i + 1, j);
    }
  }

  /** Skipping from `0` over `w + rest` with `w` all whitespace stops at
      `|w|` exactly when `rest` does not begin with whitespace. */
  lemma SkipWsPrefix(w: seq<char>, rest: seq<char>)
    requires AllWs(w)
    requires !IsWs(At(rest, 0))
    ensures SkipWs(w + rest, 0) == |w|
  {
    var s := w + rest;
    assert At(s, |w|) == At(rest, 0);
    SkipWsUnique(s, 0, |w|);
  }

  /** The whole buffer is whitespace exactly when skipping reaches the end. */
  lemma SkipWsToEnd(s: seq<char>, i: nat)
    requires i <= |s|
    ensures SkipWs(s, i) == |s| <==> AllWs(s[i..])
  {
  }
}
