/** `verify_number`: the three-phase scan that gates `strtod`.

    It is given the whole rest of the buffer from the cursor, `t`, and
    scans it up to the terminator. */
module NumberCheck {
  import opened Chars
  import opened Json

  /** The `step` variable: 1, 2 and 3 in the C code. */
  datatype Phase = Integer | Fraction | Exponent

  /** The main loop from offset `p` in phase `phase`, with `signed` the
      "exponent already signed" flag, followed by the final check that the
      last scanned character is a digit. */
  function Scan(t: seq<char>, p: nat, phase: Phase, signed: bool): (r: ParseCode)
    requires NoNul(t)
    requires 1 <= p <= |t|
    ensures r == Ok || r == InvalidValue
    ensures r == Ok ==> IsDigit(t[|t| - 1])
    decreases |t| - p
  {
    var c := At(t, p);
    if c == Terminator then
      if IsDigit(t[p - 1]) then Ok else InvalidValue
    else
      match phase
      case Integer =>
        if IsDigit1To9(c) then Scan(t, p + 1, Integer, signed)
        else if c == '.' then Scan(t, p + 1, Fraction, signed)
        else if IsExpMark(c) then Scan(t, p + 1, Exponent, signed)
        else InvalidValue
      case Fraction =>
        if IsDigit(c) then Scan(t, p + 1, Fraction, signed)
        else if IsExpMark(c) then Scan(t, p + 1, Exponent, signed)
        else InvalidValue
      case Exponent =>
        if IsSign(c) then
          if !signed then Scan(t, p + 1, Exponent, true) else InvalidValue
        else if IsDigit(c) then Scan(t, p + 1, Exponent, signed)
        else InvalidValue
  }

  /** A leading `0` (after an optional `-`) followed by something other
      than `.`, `e`, `E` or the terminator. */
  predicate ZeroThenOther(t: seq<char>) {
    var a := MinusLen(t);
    a + 1 < |t| && t[a] == '0' && t[a + 1] != '.' && !IsExpMark(t[a + 1])
  }

  /** `verify_number` on the rest of the buffer `t`.

      The first character must be a digit or `-`. After an optional `-`, a
      `0` is followed by the terminator (OK), by `.` (fraction phase), by
      `e`/`E` (exponent phase), or by anything else (ROOT_NOT_SINGULAR).
      Otherwise the character after the optional `-` is stepped over
      unchecked and the scan starts in the integer phase. For `t == "-"`
      that step lands past the terminator and the next read is out of
      bounds: undefined behaviour. */
  function VerifyNumber(t: seq<char>): (r: Outcome<ParseCode>)
    requires NoNul(t)
    ensures r.Undefined? <==> t == "-"
    ensures r.Defined? ==> r.get != ExpectValue
    ensures r == Defined(RootNotSingular) <==> ZeroThenOther(t)
    ensures |t| == 0 || !(IsDigit(t[0]) || t[0] == '-') ==> r == Defined(InvalidValue)
    ensures r == Defined(Ok) ==> |t| > 0 && IsDigit(t[|t| - 1])
  {
    var c := At(t, 0);
    if !(IsDigit(c) || c == '-') then
      Defined(InvalidValue)
    else
      var a := if c == '-' then 1 else 0;
      if At(t, a) == '0' then
        var d := At(t, a + 1);
        if IsExpMark(d) then Defined(Scan(t, a + 2, Exponent, false))
        else if d == '.' then Defined(Scan(t, a + 2, Fraction, false))
        else if d == Terminator then Defined(Ok)
        else Defined(RootNotSingular)
      else if a + 1 > |t| then
        Undefined
      else
        Defined(Scan(t, a + 1, Integer, false))
  }

  /** The C loop, statement for statement, proved to compute `VerifyNumber`. */
  method VerifyNumberLoop(t: seq<char>) returns (r: Outcome<ParseCode>)
    requires NoNul(t)
    ensures r == VerifyNumber(t)
  {
    var p: nat := 0;
    var signed := false;
    var step := Integer;
    if !(IsDigit(At(t, p)) || At(t, p) == '-') {
      return Defined(InvalidValue);
    }
    if At(t, p) == '-' {
      p := p + 1;
    }
    if At(t, p) == '0' {
      p := p + 1;
      if IsExpMark(At(t, p)) {
        step := Exponent;
      } else if At(t, p) == '.' {
        step := Fraction;
      } else if At(t, p) == Terminator {
        return Defined(Ok);
      } else {
        return Defined(RootNotSingular);
      }
    }
    p := p + 1;
    if p > |t| {
      return Undefined;
    }
    while At(t, p) != Terminator
      invariant 1 <= p <= |t|
      invariant VerifyNumber(t) == Defined(Scan(t, p, step, signed))
      decreases |t| - p
    {
      var c := At(t, p);
      if step == Integer {
        if !IsDigit1To9(c) {
          if c == '.' {
            step := Fraction;
          } else if IsExpMark(c) {
            step := Exponent;
          } else {
            return Defined(InvalidValue);
          }
        }
      } else if step == Fraction {
        if !IsDigit(c) {
          if IsExpMark(c) {
            step := Exponent;
          } else {
            return Defined(InvalidValue);
          }
        }
      } else {
        if IsSign(c) {
          if !signed {
            signed := true;
          } else {
            return Defined(InvalidValue);
          }
        } else if !IsDigit(c) {
          return Defined(InvalidValue);
        }
      }
      p := p + 1;
    }
    if IsDigit(At(t, p - 1)) {
      return Defined(Ok);
    } else {
      return Defined(InvalidValue);
    }
  }
}
