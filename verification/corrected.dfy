/** The parser with the findings fixed. A number is scanned as the longest
    RFC 8259 number at the cursor, the cursor moves past exactly that, and
    the top level then applies to numbers the whitespace skip and
    ROOT_NOT_SINGULAR check it already applies to literals. This replaces
    `verify_number` and its out-of-bounds step. */
module Corrected {
  import opened Chars
  import opened Json
  import opened Whitespace
  import opened Literal
  import opened Strtod
  import opened Rfc8259

  /** The end of the number scanned at the start of a buffer, if any. */
  datatype Scanned = NoNumber | NumberEnd(end: nat)

  /** What may continue a number: a digit, a point or an exponent mark. */
  predicate Continues(c: char) {
    IsDigit(c) || c == '.' || IsExpMark(c)
  }

  /** The run of digits from `x` ends at the first non-digit. */
  lemma {:induction false} DigitRunStops(t: seq<char>, x: nat, y: nat)
    requires x <= y <= |t|
    requires DigitsIn(t, x, y)
    requires y == |t| || !IsDigit(t[y])
    ensures DigitRun(t, x) == y
    decreases y - x
  {
    if x < y {
      DigitRunStops(t, x + 1, y);
    }
  }

  /** The end of the integer part that starts with the digit at `a`. */
  function IntEnd(t: seq<char>, a: nat): (j: nat)
    requires a < |t| && IsDigit(t[a])
    ensures a < j <= |t| && IntPart(t, a, j)
  {
    if t[a] == '0' then a + 1 else DigitRun(t, a + 1)
  }

  lemma IntEndFinds(t: seq<char>, a: nat, j: nat)
    requires a < j <= |t| && IntPart(t, a, j)
    requires j == |t| || !IsDigit(t[j])
    ensures IntEnd(t, a) == j
  {
    if t[a] != '0' {
      DigitRunStops(t, a + 1, j);
    }
  }

  /** The end of the optional fraction at `j`: a `.` must be followed by a
      digit. */
  function FracEnd(t: seq<char>, j: nat): (r: Scanned)
    requires j <= |t|
    ensures r.NumberEnd? ==> j <= r.end <= |t| && FracPart(t, j, r.end)
  {
    if j < |t| && t[j] == '.' then
      if j + 1 < |t| && IsDigit(t[j + 1]) then NumberEnd(DigitRun(t, j + 2)) else NoNumber
    else
      NumberEnd(j)
  }

  lemma FracEndFinds(t: seq<char>, j: nat, k: nat)
    requires j <= k <= |t| && FracPart(t, j, k)
    requires k == j ==> j == |t| || t[j] != '.'
    requires k == |t| || !IsDigit(t[k])
    ensures FracEnd(t, j) == NumberEnd(k)
  {
    if j < k {
      DigitRunStops(t, j + 2, k);
    }
  }

  /** The end of the optional exponent at `k`: a mark must be followed by
      an optional sign and a digit. */
  function ExpEnd(t: seq<char>, k: nat): (r: Scanned)
    requires k <= |t|
    ensures r.NumberEnd? ==> k <= r.end <= |t| && ExpPart(t, k, r.end)
  {
    if k < |t| && IsExpMark(t[k]) then
      var f := SignEnd(t, k + 1, |t|);
      if f < |t| && IsDigit(t[f]) then
        var n := DigitRun(t, f + 1);
        assert ExpDigitsStart(t, k, n) == f;
        NumberEnd(n)
      else
        NoNumber
    else
      NumberEnd(k)
  }

  lemma ExpEndFinds(t: seq<char>, k: nat, n: nat)
    requires k <= n <= |t| && ExpPart(t, k, n)
    requires n == |t| || !Continues(t[n])
    ensures ExpEnd(t, k) == NumberEnd(n)
  {
    if k < n {
      DigitRunStops(t, ExpDigitsStart(t, k, n) + 1, n);
    }
  }

  /** Scan `-? (0 | [1-9][0-9]*) (. [0-9]+)? ([eE] [+-]? [0-9]+)?` from the
      start of `t`. What it finds is a number. */
  function ScanNumber(t: seq<char>): (r: Scanned)
    ensures r.NumberEnd? ==> 0 < r.end <= |t| && NumberPrefix(t, r.end)
  {
    var a := MinusLen(t);
    if a == |t| || !IsDigit(t[a]) then
      NoNumber
    else
      var j := IntEnd(t, a);
      match FracEnd(t, j)
      case NoNumber => NoNumber
      case NumberEnd(k) =>
        match ExpEnd(t, k)
        case NoNumber => NoNumber
        case NumberEnd(n) =>
          assert FracExp(t, j, n);
          NumberEnd(n)
  }

  /** The scan finds every number at the start of `t` that is not followed
      by a character that could continue it. */
  lemma ScanNumberComplete(t: seq<char>, n: nat)
    requires n <= |t| && NumberPrefix(t, n)
    requires n == |t| || !Continues(t[n])
    ensures ScanNumber(t) == NumberEnd(n)
  {
    var a := MinusLen(t);
    var j :| a <= j <= n && IntPart(t, a, j) && FracExp(t, j, n);
    var k :| j <= k <= n && FracPart(t, j, k) && ExpPart(t, k, n);
    IntEndFinds(t, a, j);
    FracEndFinds(t, j, k);
    ExpEndFinds(t, k, n);
  }

  /** Number dispatch: the cursor moves past exactly the scanned number,
      and the value holds its text. */
  function ParseNumber(s: seq<char>, i: nat): (r: Step)
    requires i <= |s|
    ensures r.Failed? ==> r.code == InvalidValue
    ensures r.Consumed? ==> i < r.next <= |s| && r.value == Number(s[i..r.next]) && IsNumber(s[i..r.next])
  {
    var t := s[i..];
    match ScanNumber(t)
    case NoNumber => Failed(InvalidValue)
    case NumberEnd(n) =>
      assert t[..n] == s[i..i + n] == s[i..i + n][..n];
      NumberPrefixTransfer(t, s[i..i + n], n);
      Consumed(i + n, Number(s[i..i + n]))
  }

  /** Dispatch on the character at the cursor, as `lept_parse_value` does. */
  function ParseValue(s: seq<char>, i: nat): (r: Step)
    requires NoNul(s)
    requires i <= |s|
    ensures r == Failed(ExpectValue) <==> i == |s|
    ensures r.Failed? ==> r.code == ExpectValue || r.code == InvalidValue
    ensures r.Consumed? ==> i < r.next <= |s|
  {
    match At(s, i)
    case 't' => ParseLiteral(s, i)
    case 'f' => ParseLiteral(s, i)
    case 'n' => ParseLiteral(s, i)
    case '\0' => Failed(ExpectValue)
    case _ => ParseNumber(s, i)
  }

  /** The corrected entry point: total, and OK exactly when the buffer is
      one literal or one RFC 8259 number with whitespace around it. */
  function Parse(s: seq<char>): (r: Result)
    requires NoNul(s)
    ensures r.code != Ok ==> r.value == Null
    ensures r.code == ExpectValue <==> AllWs(s)
    ensures r.code == Ok && r.value.Number? ==> IsNumber(r.value.lexeme)
  {
    var b := SkipWs(s, 0);
    SkipWsToEnd(s, 0);
    match ParseValue(s, b)
    case Failed(code) => Result(code, Null)
    case Consumed(n, v) =>
      assert v.Number? ==> ParseValue(s, b) == ParseNumber(s, b);
      if At(s, SkipWs(s, n)) != Terminator then Result(RootNotSingular, Null) else Result(Ok, v)
  }

  /** A number at the cursor that whitespace or the end follows is parsed
      whole. */
  lemma NumberAtCursor(s: seq<char>, b: nat, t: seq<char>)
    requires NoNul(s) && b + |t| <= |s|
    requires s[b..b + |t|] == t && IsNumber(t)
    requires b + |t| == |s| || IsWs(s[b + |t|])
    ensures ParseValue(s, b) == Consumed(b + |t|, Number(t))
  {
    NumberStart(t);
    assert s[b] == t[0];
    ScanAtCursor(s, b, t);
    assert ParseValue(s, b) == ParseNumber(s, b);
  }

  /** The scan of the rest of the buffer stops exactly after such a number. */
  lemma ScanAtCursor(s: seq<char>, b: nat, t: seq<char>)
    requires b + |t| <= |s|
    requires s[b..b + |t|] == t && IsNumber(t)
    requires b + |t| == |s| || IsWs(s[b + |t|])
    ensures ScanNumber(s[b..]) == NumberEnd(|t|)
  {
    var rest := s[b..];
    assert rest[..|t|] == t[..|t|];
    NumberPrefixTransfer(t, rest, |t|);
    if |t| < |rest| {
      assert rest[|t|] == s[b + |t|];
    }
    ScanNumberComplete(rest, |t|);
  }

  /** A value after the leading whitespace, followed by whitespace only,
      makes the parse OK. */
  lemma ValueThenWsIsOk(s: seq<char>, n: nat, v: Value)
    requires NoNul(s) && n <= |s|
    requires ParseValue(s, SkipWs(s, 0)) == Consumed(n, v)
    requires AllWs(s[n..])
    ensures Parse(s) == Result(Ok, v)
  {
    SkipWsToEnd(s, n);
  }

  /** A value after the leading whitespace, followed by anything other
      than whitespace, makes the parse fail with `ROOT_NOT_SINGULAR`. With
      `ValueThenWsIsOk` and `FailedValuePassesThrough` this decides every
      buffer. */
  lemma RnsAfterValue(s: seq<char>, n: nat, v: Value)
    requires NoNul(s) && n <= |s|
    requires ParseValue(s, SkipWs(s, 0)) == Consumed(n, v)
    requires !AllWs(s[n..])
    ensures Parse(s) == Result(RootNotSingular, Null)
  {
    SkipWsToEnd(s, n);
  }

  /** A value parse that fails after the leading whitespace decides the
      whole parse: its code is returned, with value NULL. */
  lemma FailedValuePassesThrough(s: seq<char>, code: ParseCode)
    requires NoNul(s)
    requires ParseValue(s, SkipWs(s, 0)) == Failed(code)
    ensures Parse(s) == Result(code, Null)
  {
  }

  /** Every RFC 8259 number, with any whitespace before and after it,
      parses to a number holding exactly its text. */
  lemma ParseNumberPadded(w1: seq<char>, t: seq<char>, w2: seq<char>)
    requires AllWs(w1) && AllWs(w2)
    requires IsNumber(t)
    ensures NoNul(w1 + t + w2)
    ensures Parse(w1 + t + w2) == Result(Ok, Number(t))
  {
    var s := w1 + t + w2;
    NumberHasNoNul(t);
    WsHasNoNul(w1);
    WsHasNoNul(w2);
    NoNulConcat(w1, t);
    NoNulConcat(w1 + t, w2);
    NumberStart(t);
    var rest := t + w2;
    assert s == w1 + rest;
    assert At(rest, 0) == t[0];
    SkipWsPrefix(w1, rest);
    var b := |w1|;
    assert s[b..b + |t|] == t;
    if b + |t| < |s| {
      assert s[b + |t|] == w2[0];
    }
    NumberAtCursor(s, b, t);
    assert s[b + |t|..] == w2;
    ValueThenWsIsOk(s, b + |t|, Number(t));
  }

  /** Every literal, with any whitespace before and after it, parses to
      that literal. */
  lemma ParseLiteralPadded(w1: seq<char>, v: Value, w2: seq<char>)
    requires AllWs(w1) && AllWs(w2)
    requires !v.Number?
    ensures NoNul(w1 + LiteralText(v) + w2)
    ensures Parse(w1 + LiteralText(v) + w2) == Result(Ok, v)
  {
    var s := w1 + LiteralText(v) + w2;
    var n := |w1| + |LiteralText(v)|;
    PaddedLiteral(w1, v, w2);
    assert ParseValue(s, |w1|) == Consumed(n, v);
    ValueThenWsIsOk(s, n, v);
  }

  /** Conversely, an OK parse is whitespace, then the text of the value
      (a literal's, or an RFC 8259 number's), then whitespace. */
  lemma OkShape(s: seq<char>)
    requires NoNul(s)
    requires Parse(s).code == Ok
    ensures var b := SkipWs(s, 0);
            var v := Parse(s).value;
            var text := if v.Number? then v.lexeme else LiteralText(v);
            && b + |text| <= |s|
            && AllWs(s[..b])
            && s[b..b + |text|] == text
            && AllWs(s[b + |text|..])
            && (v.Number? ==> IsNumber(text))
  {
    var b := SkipWs(s, 0);
    var r := ParseValue(s, b);
    assert r.Consumed? && Parse(s).value == r.value;
    ConsumedText(s, b);
    SkipWsToEnd(s, r.next);
  }

  /** What the dispatcher consumes is exactly the value's text. */
  lemma ConsumedText(s: seq<char>, b: nat)
    requires NoNul(s) && b <= |s|
    requires ParseValue(s, b).Consumed?
    ensures var r := ParseValue(s, b);
            var text := if r.value.Number? then r.value.lexeme else LiteralText(r.value);
            && r.next == b + |text|
            && s[b..r.next] == text
            && (r.value.Number? ==> IsNumber(text))
  {
    var r := ParseValue(s, b);
    if r.value.Number? {
      assert r == ParseNumber(s, b);
    } else {
      assert r == ParseLiteral(s, b);
    }
  }
}
