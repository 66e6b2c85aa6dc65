/** `lept_parse_number`, `lept_parse_value` and `lept_parse`. */
module Parser {
  import opened Chars
  import opened Json
  import opened Whitespace
  import opened Literal
  import opened NumberCheck
  import opened Strtod

  /** The validator's verdict on the rest of the buffer from `i`. */
  function Verdict(s: seq<char>, i: nat): Outcome<ParseCode>
    requires NoNul(s) && i <= |s|
  {
    NoNulSuffix(s, i);
    VerifyNumber(s[i..])
  }

  /** `lept_parse_number` at cursor `i`: the validator's verdict on the rest
      of the buffer, then `strtod`. A failing verdict is passed on unchanged;
      a conversion that consumes nothing is INVALID_VALUE; otherwise the
      cursor moves past exactly what `strtod` consumed and the value is a
      number holding those characters. */
  function ParseNumber(s: seq<char>, i: nat): (r: Outcome<Step>)
    requires NoNul(s)
    requires i <= |s|
    ensures r.Undefined? <==> s[i..] == "-"
    ensures r.Defined? && r.get.Failed? ==> r.get.code != Ok && r.get.code != ExpectValue
    ensures r.Defined? && r.get.Consumed? ==>
              && Verdict(s, i) == Defined(Ok)
              && i < r.get.next <= |s|
              && r.get.next - i == ConsumedLength(s[i..])
              && r.get.value == Number(s[i..r.get.next])
    ensures Verdict(s, i).Defined? && Verdict(s, i).get != Ok ==>
              r == Defined(Failed(Verdict(s, i).get))
    ensures Verdict(s, i) == Defined(Ok) && ConsumedLength(s[i..]) == 0 ==> r == Defined(Failed(InvalidValue))
    ensures Verdict(s, i) == Defined(Ok) && ConsumedLength(s[i..]) > 0 ==> r.Defined? && r.get.Consumed?
  {
    var t := s[i..];
    match Verdict(s, i)
    case Undefined => Undefined
    case Defined(code) =>
      if code != Ok then
        Defined(Failed(code))
      else
        var n := ConsumedLength(t);
        if n == 0 then
          Defined(Failed(InvalidValue))
        else
          assert t[..n] == s[i..i + n];
          Defined(Consumed(i + n, Number(t[..n])))
  }

  /** `lept_parse_value`: dispatch on the character at the cursor. */
  function ParseValue(s: seq<char>, i: nat): (r: Outcome<Step>)
    requires NoNul(s)
    requires i <= |s|
    ensures r.Defined? && r.get.Failed? ==> r.get.code != Ok
    ensures r.Defined? && r.get.Consumed? ==> i < r.get.next <= |s|
    ensures r == Defined(Failed(ExpectValue)) <==> i == |s|
    ensures r.Undefined? <==> s[i..] == "-"
  {
    match At(s, i)
    case 't' => Defined(ParseLiteral(s, i))
    case 'f' => Defined(ParseLiteral(s, i))
    case 'n' => Defined(ParseLiteral(s, i))
    case '\0' => Defined(Failed(ExpectValue))
    case _ => ParseNumber(s, i)
  }

  /** `lept_parse`: the whole buffer must hold exactly one value, with only
      whitespace around it. The value is NULL on every result but OK. */
  function Parse(s: seq<char>): (r: Outcome<Result>)
    requires NoNul(s)
    ensures r.Undefined? <==> |s| > 0 && s[|s| - 1] == '-' && AllWs(s[..|s| - 1])
    ensures r.Defined? && r.get.code != Ok ==> r.get.value == Null
    ensures r.Defined? && r.get.code == ExpectValue <==> AllWs(s)
  {
    var b := SkipWs(s, 0);
    SkipWsToEnd(s, 0);
    UndefinedInput(s);
    match ParseValue(s, b)
    case Undefined => Undefined
    case Defined(Failed(code)) => Defined(Result(code, Null))
    case Defined(Consumed(n, v)) =>
      var e := SkipWs(s, n);
      if At(s, e) != Terminator then
        Defined(Result(RootNotSingular, Null))
      else
        Defined(Result(Ok, v))
  }

  /** After the leading whitespace only `-` remains exactly when the buffer
      is whitespace followed by one `-`. */
  lemma UndefinedInput(s: seq<char>)
    ensures s[SkipWs(s, 0)..] == "-" <==> |s| > 0 && s[|s| - 1] == '-' && AllWs(s[..|s| - 1])
  {
    var b := SkipWs(s, 0);
    if |s| > 0 && s[|s| - 1] == '-' && AllWs(s[..|s| - 1]) {
      forall k | 0 <= k < |s| - 1 ensures IsWs(s[k]) {
        assert s[k] == s[..|s| - 1][k];
      }
      SkipWsUnique(s, 0, |s| - 1);
    }
  }
}
