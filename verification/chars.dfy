/** Character classes and the NUL-terminated view of the input buffer.

    The C parser walks a `const char*` until it meets the terminating NUL.
    Here the buffer is a `seq<char>` that contains no NUL, and a read at
    index `|s|` stands for reading the terminator. Reading further than
    that is undefined behaviour in C, so `At` refuses it.
 */
module Chars {

  const Terminator: char := '\0'

  /** The buffer is a proper C string: no NUL before its end. */
  predicate NoNul(s: seq<char>) {
    forall k :: 0 <= k < |s| ==> s[k] != Terminator
  }

  /** `*p` for a cursor `p` at offset `i`: the terminator at `|s|`. */
  function At(s: seq<char>, i: nat): (c: char)
    requires i <= |s|
    ensures c == Terminator <==> i == |s| || s[i] == Terminator
  {
    if i < |s| then s[i] else Terminator
  }

  /** The `ws` set of section 2 of RFC 8259, as the parser tests it. */
  predicate IsWs(c: char) {
    c == ' ' || c == '\t' || c == '\n' || c == '\r'
  }

  predicate IsDigit(c: char) {
    '0' <= c <= '9'
  }

  predicate IsDigit1To9(c: char) {
    '1' <= c <= '9'
  }

  predicate IsExpMark(c: char) {
    c == 'e' || c == 'E'
  }

  predicate IsSign(c: char) {
    c == '+' || c == '-'
  }

  /** Every character of `s` in `[i, j)` is a digit. */
  predicate DigitsIn(s: seq<char>, i: nat, j: nat)
    requires i <= j <= |s|
  {
    forall k :: i <= k < j ==> IsDigit(s[k])
  }

  /** Every character of `s` is whitespace. */
  predicate AllWs(s: seq<char>) {
    forall k :: 0 <= k < |s| ==> IsWs(s[k])
  }

  /** The length of an optional leading `-`: 1 if the text starts with
      one, 0 otherwise. */
  function MinusLen(t: seq<char>): (n: nat)
    ensures n <= |t|
    ensures n == 1 <==> |t| > 0 && t[0] == '-'
  {
    if |t| > 0 && t[0] == '-' then 1 else 0
  }

  /** The position after an optional `+` or `-` at `p`, looking no further
      than `n`. */
  function SignEnd(t: seq<char>, p: nat, n: nat): (q: nat)
    requires n <= |t|
    ensures q == p || (q == p + 1 && p < n && IsSign(t[p]))
  {
    if p < n && IsSign(t[p]) then p + 1 else p
  }

  /** Whitespace holds no NUL. */
  lemma WsHasNoNul(w: seq<char>)
    requires AllWs(w)
    ensures NoNul(w)
  {
  }

  /** The buffer holds no NUL when its parts do not. */
  lemma NoNulConcat(a: seq<char>, b: seq<char>)
    requires NoNul(a) && NoNul(b)
    ensures NoNul(a + b)
  {
    forall k | 0 <= k < |a + b| ensures (a + b)[k] != Terminator {
      if k >= |a| {
        assert (a + b)[k] == b[k - |a|];
      }
    }
  }

  /** The rest of a buffer from any position holds no NUL either. */
  lemma NoNulSuffix(s: seq<char>, i: nat)
    requires NoNul(s) && i <= |s|
    ensures NoNul(s[i..])
  {
    forall k | 0 <= k < |s[i..]| ensures s[i..][k] != Terminator {
      assert s[i..][k] == s[i + k];
    }
  }
}
