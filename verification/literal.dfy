/** `lept_parse_literal`: the three fixed literals of section 3 of RFC 8259. */
module Literal {
  import opened Chars
  import opened Json
  import opened Whitespace

  /** The text of a literal value. */
  function LiteralText(v: Value): (text: seq<char>)
    requires !v.Number?
  {
    match v
    case True => "true"
    case False => "false"
    case Null => "null"
  }

  /** The text of literal `v` occurs at `i`. */
  predicate LiteralAt(s: seq<char>, i: nat, v: Value)
    requires !v.Number?
  {
    i + |LiteralText(v)| <= |s| && s[i..i + |LiteralText(v)|] == LiteralText(v)
  }

  /** The chain `c->json[0] == lit[0] && c->json[1] == lit[1] && ...` with
      C's short-circuit: a character is read only after the previous ones
      matched, so no read goes past the terminator. */
  predicate MatchesAt(s: seq<char>, i: nat, lit: seq<char>)
    requires i <= |s|
    requires NoNul(lit)
    decreases |lit|
  {
    |lit| == 0 || (At(s, i) == lit[0] && MatchesAt(s, i + 1, lit[1..]))
  }

  /** The chain of comparisons holds exactly when `lit` occurs at `i`. */
  lemma {:induction false} MatchesAtIff(s: seq<char>, i: nat, lit: seq<char>)
    requires i <= |s|
    requires NoNul(lit)
    ensures MatchesAt(s, i, lit) <==> i + |lit| <= |s| && s[i..i + |lit|] == lit
    decreases |lit|
  {
    if |lit| > 0 {
      assert NoNul(lit[1..]) by {
        forall k | 0 <= k < |lit[1..]| ensures lit[1..][k] != Terminator {
          assert lit[1..][k] == lit[k + 1];
        }
      }
      if At(s, i) == lit[0] {
        MatchesAtIff(s, i + 1, lit[1..]);
        if i + |lit| <= |s| {
          assert s[i..i + |lit|] == [s[i]] + s[i + 1..i + 1 + |lit[1..]|];
          assert lit == [lit[0]] + lit[1..];
        }
      } else if i + |lit| <= |s| {
        assert s[i..i + |lit|][0] != lit[0];
      }
    }
  }

  /** `lept_parse_literal`, reached on a lookahead of `t`, `f` or `n`. On an
      exact `true`, `false` or `null` at the cursor it advances past it and
      sets the matching value; on anything else it fails with INVALID_VALUE
      and leaves the cursor where it was. */
  function ParseLiteral(s: seq<char>, i: nat): (r: Step)
    requires i <= |s|
    ensures r.Failed? ==> r.code == InvalidValue
    ensures r.Consumed? ==>
              && !r.value.Number?
              && r.next == i + |LiteralText(r.value)| <= |s|
              && s[i..r.next] == LiteralText(r.value)
    ensures r.Failed? <==> !LiteralAt(s, i, True) && !LiteralAt(s, i, False) && !LiteralAt(s, i, Null)
  {
    MatchesAtIff(s, i, "true");
    MatchesAtIff(s, i, "false");
    MatchesAtIff(s, i, "null");
    if MatchesAt(s, i, "true") then
      Consumed(i + 4, True)
    else if MatchesAt(s, i, "false") then
      Consumed(i + 5, False)
    else if MatchesAt(s, i, "null") then
      Consumed(i + 4, Null)
    else
      Failed(InvalidValue)
  }

  /** Round trip: the literal text of a value, at the cursor, parses back to
      that value and is consumed in full, whatever follows it. */
  lemma LiteralRoundTrip(s: seq<char>, i: nat, v: Value)
    requires !v.Number?
    requires LiteralAt(s, i, v)
    ensures ParseLiteral(s, i) == Consumed(i + |LiteralText(v)|, v)
  {
    var r := ParseLiteral(s, i);
    assert r.Consumed?;
    assert s[i] == LiteralText(v)[0] == LiteralText(r.value)[0];
  }

  /** A literal with whitespace on both sides: the leading whitespace ends
      where the literal starts, the literal parses there, and only the
      trailing whitespace is left after it. */
  lemma PaddedLiteral(w1: seq<char>, v: Value, w2: seq<char>)
    requires AllWs(w1) && AllWs(w2)
    requires !v.Number?
    ensures var s := w1 + LiteralText(v) + w2;
            && NoNul(s)
            && SkipWs(s, 0) == |w1|
            && LiteralAt(s, |w1|, v)
            && ParseLiteral(s, |w1|) == Consumed(|w1| + |LiteralText(v)|, v)
            && s[|w1| + |LiteralText(v)|..] == w2
  {
    var lit := LiteralText(v);
    var s := w1 + lit + w2;
    WsHasNoNul(w1);
    WsHasNoNul(w2);
    NoNulConcat(w1, lit);
    NoNulConcat(w1 + lit, w2);
    assert s == w1 + (lit + w2);
    assert (lit + w2)[0] == lit[0];
    SkipWsPrefix(w1, lit + w2);
    assert s[|w1|..|w1| + |lit|] == lit;
    LiteralRoundTrip(s, |w1|, v);
    assert s[|w1| + |lit|..] == w2;
  }
}
