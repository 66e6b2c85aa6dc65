# leptjson (tutorial 2) in Dafny

A model of the value parser in `tutorial02/leptjson.c`. The parser turns a
NUL-terminated buffer into one of the values `null`, `true`, `false` or a
number, and reports OK, EXPECT_VALUE, INVALID_VALUE or ROOT_NOT_SINGULAR.
The model follows the code as written: a hand-written three-phase number
validator (`verify_number`), `strtod` for the conversion, and the top-level
whole-input check. The model also compares it with the number grammar of
section 6 of RFC 8259, and gives a corrected parser for the defects listed
under "Findings".

Modules, one per part of the source:

- `Chars`: the buffer is a `seq<char>` with no NUL. `At(s, i)` reads index
  `|s|` as the terminator and cannot read past it, so a model function that
  would read beyond the terminator does not verify. The character classes
  are the `ISDIGIT`/`ISDIGIT1TO9` macros and the four whitespace characters.
- `Json`: `Value` (`Null | False | True | Number(lexeme)`), the type tag,
  the four result codes, and `Outcome<T> = Defined(T) | Undefined` for the
  one input on which the C code has undefined behaviour. The accessors
  `lept_get_type` and `lept_get_number` are also here.
- `Whitespace`: `lept_parse_whitespace`.
- `Literal`: `lept_parse_literal`, with its short-circuit comparison chain.
- `NumberCheck`: `verify_number`. `Scan` is the phase machine as a
  recursive function. `VerifyNumberLoop` is the C loop statement for
  statement, proved equal to it.
- `NumberGrammar`: the language `verify_number` accepts, written as a
  grammar (`AsWrittenNumber`), and how it compares with RFC 8259.
- `Rfc8259`: the RFC 8259 number grammar, used as an independent reference.
- `Strtod`: how many characters `strtod` consumes. This is the longest
  decimal subject sequence of section 7.22.1.3 of C11.
- `Parser`: `lept_parse_number`, `lept_parse_value` and `lept_parse`.
- `ParserProperties`: round trips and the shape of OK results.
- `Examples`: concrete buffers, one lemma per behaviour the code shows.
- `Corrected`: the parser with the findings fixed, proved to accept exactly
  whitespace, one literal or RFC 8259 number, then whitespace.

Two inputs show the code departing from what its own structure and RFC 8259
call for, and the model follows the code in both. After a value, lines
158-161 skip whitespace and report ROOT_NOT_SINGULAR for anything left, so
`"1 true"` was meant to reach that check; the number validator instead scans
to the terminator and rejects the space, so the result is INVALID_VALUE
(`Examples.SecondValueAfterNumberInvalid`). A lone `"-"` is not a number
under section 6 of RFC 8259 (`Examples.LoneMinusNotRfcNumber`), so
INVALID_VALUE is the answer the rest of the validator would give; the code
instead steps past the terminator at line 75 and reads beyond the buffer at
line 76 (`Examples.LoneMinusUndefined`).

## Model

| member | source | states |
|---|---|---|
| `Whitespace.SkipWs` | tutorial02/leptjson.c:16-21 | the cursor passes only over space, tab, LF and CR, and stops at the first other character or at the terminator; it cannot fail |
| `Whitespace.SkipWsUnique` | tutorial02/leptjson.c:16-21 | any position that passes only whitespace and stops at a non-whitespace character or the terminator is the one the skipper returns |
| `Whitespace.SkipWsToEnd` | tutorial02/leptjson.c:16-21 | skipping reaches the terminator exactly when the rest of the buffer is all whitespace |
| `Literal.MatchesAtIff` | tutorial02/leptjson.c:25-35 | the short-circuit chain `c->json[0] == ... && c->json[k] == ...` holds exactly when the literal's text occurs at the cursor, and it never reads past the terminator |
| `Literal.ParseLiteral` | tutorial02/leptjson.c:24-43 | it succeeds exactly when `true`, `false` or `null` occurs at the cursor; then it advances by that literal's length (4, 5 or 4) and sets the matching value; otherwise it gives INVALID_VALUE |
| `Literal.LiteralRoundTrip` | tutorial02/leptjson.c:24-43 | a literal's text at the cursor parses back to that literal and is consumed in full, whatever follows it |
| `NumberCheck.Scan` | tutorial02/leptjson.c:76-120 | the phase loop ends only in OK or INVALID_VALUE, and in OK only when the last character of the buffer is a digit |
| `NumberCheck.VerifyNumber` | tutorial02/leptjson.c:46-122 | undefined exactly on the buffer `-`; ROOT_NOT_SINGULAR exactly for a leading `0` or `-0` followed by something other than `.`, `e`, `E` or the end; INVALID_VALUE when the first character is not a digit or `-`; OK only when the buffer ends in a digit; never EXPECT_VALUE |
| `NumberCheck.VerifyNumberLoop` | tutorial02/leptjson.c:46-122 | the imperative loop with its mutable `step`, `p` and `exponent_signed` gives the same verdict as the phase machine on every buffer |
| `NumberGrammar.ScanExponentIff` | tutorial02/leptjson.c:100-120 | the exponent phase succeeds exactly when the rest is digits and signs, with at most one sign anywhere (none if one was already taken), ending in a digit |
| `NumberGrammar.ScanFractionIff` | tutorial02/leptjson.c:90-120 | the fraction phase succeeds exactly when the rest is digits, optionally followed by `e`/`E` and an exponent tail, ending in a digit; it never returns to an earlier phase |
| `NumberGrammar.ScanIntegerIff` | tutorial02/leptjson.c:77-120 | the integer phase succeeds exactly when the rest is `1`-`9` digits, optionally followed by `.` and a fraction tail or `e`/`E` and an exponent tail, ending in a digit; `0` and whitespace fail |
| `NumberGrammar.VerifyNumberOkIff` | tutorial02/leptjson.c:46-122 | `verify_number` returns OK exactly on the strings of the as-written grammar, in which the character after a leading `-` is stepped over unchecked |
| `NumberGrammar.RfcNumberVerdict` | tutorial02/leptjson.c:60-89 | on RFC 8259 numbers the validator differs from the grammar in one way only: a `0` after the first integer digit gives INVALID_VALUE, and every other JSON number passes |
| `NumberGrammar.ValidatedIsNotNonDecimal` | tutorial02/leptjson.c:127-131 | text that passes the validator never starts a hexadecimal, infinity or NaN form, so only the decimal form of `strtod` applies after it |
| `Strtod.ConsumedLength` | tutorial02/leptjson.c:131-132 | `strtod` sets `end` past leading white-space and the longest decimal subject sequence, or not at all when there is none; no longer subject sequence exists |
| `Parser.ParseNumber` | tutorial02/leptjson.c:124-137 | undefined exactly when the rest is `-`; a failing validator verdict is passed on unchanged; zero consumed characters give INVALID_VALUE; otherwise a value is consumed: the cursor advances by exactly what `strtod` consumed and the value is a number holding those characters |
| `Parser.ParseValue` | tutorial02/leptjson.c:140-148 | EXPECT_VALUE exactly at the terminator; undefined exactly when the rest is `-`; a consumed value moves the cursor forward |
| `Parser.Parse` | tutorial02/leptjson.c:150-165 | EXPECT_VALUE exactly for empty or all-whitespace input; undefined exactly for whitespace followed by one `-`; the value is NULL on every result but OK |
| `ParserProperties.ValueThenWsIsOk` | tutorial02/leptjson.c:156-164 | when a value parses after the leading whitespace and only whitespace follows it, the whole parse is OK with that value |
| `ParserProperties.RnsAfterValue` | tutorial02/leptjson.c:156-164 | when a value parses after the leading whitespace and something other than whitespace follows it, the whole parse is ROOT_NOT_SINGULAR with value NULL; with the row above this settles every buffer whose first value parses |
| `ParserProperties.FailedValuePassesThrough` | tutorial02/leptjson.c:157-164 | when the value parse after the leading whitespace fails, the whole parse returns that same code with value NULL |
| `ParserProperties.InnerZeroNumberInvalid` | tutorial02/leptjson.c:77-87 | an RFC 8259 number with a `0` after its first integer digit, such as `10`, after any whitespace, makes the whole parse INVALID_VALUE |
| `ParserProperties.ConsumesWholeRfcNumber` | tutorial02/leptjson.c:131-134 | `strtod` consumes the whole of an RFC 8259 number |
| `ParserProperties.ParseLiteralPadded` | tutorial02/leptjson.c:150-165 | a literal with any whitespace before and after it parses OK to that literal |
| `ParserProperties.ParseNumberPadded` | tutorial02/leptjson.c:150-165 | an RFC 8259 number without a `0` after its first integer digit, after any whitespace and with nothing behind it, parses OK to a number holding exactly its text |
| `ParserProperties.OkLiteralShape` | tutorial02/leptjson.c:150-165 | an OK literal means the buffer is whitespace, the literal's text, whitespace |
| `ParserProperties.OkNumberShape` | tutorial02/leptjson.c:124-165 | an OK number means the buffer is whitespace followed by the number's text, with nothing after it, not even whitespace, and that text passed the validator |
| `ParserProperties.NoTrailingWsAfterNumber` | tutorial02/leptjson.c:76-86 | a buffer ending in whitespace never parses OK to a number |
| `Json.GetType` | tutorial02/leptjson.c:167-170 | the tag is NUMBER exactly for numbers and names each literal |
| `Json.GetNumber` | tutorial02/leptjson.c:172-175 | callable only on a value tagged NUMBER, and returns that number's payload |
| `Examples.EmptyExpectsValue` | tutorial02/leptjson.c:140-157 | `""` gives EXPECT_VALUE |
| `Examples.BlankExpectsValue` | tutorial02/leptjson.c:140-157 | `"   "` gives EXPECT_VALUE |
| `Examples.NullParses` | tutorial02/leptjson.c:35-38 | `"null"` parses OK to null |
| `Examples.TrueParses` | tutorial02/leptjson.c:25-28 | `"true"` parses OK to true |
| `Examples.PaddedFalseParses` | tutorial02/leptjson.c:30-33 | `" false\t"` parses OK to false |
| `Examples.ShortLiteralInvalid` | tutorial02/leptjson.c:35-42 | `"nul"` gives INVALID_VALUE |
| `Examples.LiteralWithTailRootNotSingular` | tutorial02/leptjson.c:157-161 | `"truee"` gives ROOT_NOT_SINGULAR |
| `Examples.TenIsInvalid` | tutorial02/leptjson.c:77-87 | `"10"` gives INVALID_VALUE |
| `Examples.MinusPointFiveAccepted` | tutorial02/leptjson.c:55-75 | `"-.5"` parses OK to the number `-.5` |
| `Examples.EmptyFractionAccepted` | tutorial02/leptjson.c:90-99 | `"1.e5"` parses OK to the number `1.e5` |
| `Examples.TrailingWsAfterNumberInvalid` | tutorial02/leptjson.c:76-86 | `"1 "` gives INVALID_VALUE |
| `Examples.SecondValueAfterNumberInvalid` | tutorial02/leptjson.c:76-86 | `"1 true"` gives INVALID_VALUE, not ROOT_NOT_SINGULAR |
| `Examples.ZeroThenSpaceRootNotSingular` | tutorial02/leptjson.c:60-73 | `"0 "` gives ROOT_NOT_SINGULAR |
| `Examples.ZeroThenDigitRootNotSingular` | tutorial02/leptjson.c:60-73 | `"01"` gives ROOT_NOT_SINGULAR |
| `Examples.SignInsideExponent` | tutorial02/leptjson.c:100-161 | `"1e5-3"` passes the validator, `strtod` consumes 3 characters, and the parse gives ROOT_NOT_SINGULAR |
| `Examples.LoneMinusUndefined` | tutorial02/leptjson.c:55-76 | `"-"` is undefined |
| `Examples.PaddedMinusUndefined` | tutorial02/leptjson.c:55-76 | `" \n-"` is undefined |
| `Examples.MinusOneDefined` | tutorial02/leptjson.c:55-76 | `"-1"` is defined |
| `Examples.PointWithoutFractionInvalid` | tutorial02/leptjson.c:115-120 | `"1."` gives INVALID_VALUE |
| `Examples.ExponentWithoutDigitsInvalid` | tutorial02/leptjson.c:115-120 | `"1e"` gives INVALID_VALUE |
| `Examples.SignedExponentWithoutDigitsInvalid` | tutorial02/leptjson.c:101-120 | `"1e+"` gives INVALID_VALUE |
| `Examples.ZeroPointInvalid` | tutorial02/leptjson.c:60-120 | `"0."` gives INVALID_VALUE |
| `Examples.PlusSignInvalid` | tutorial02/leptjson.c:52-54 | `"+1"` gives INVALID_VALUE |
| `Examples.LeadingPointInvalid` | tutorial02/leptjson.c:52-54 | `".5"` gives INVALID_VALUE |
| `Examples.ConversionConsumesNothing` | tutorial02/leptjson.c:131-133 | `"-e5"` passes the validator, `strtod` consumes nothing, and the parse gives INVALID_VALUE |
| `Examples.ZeroParses` | tutorial02/leptjson.c:60-69 | `"0"` parses OK to the number `0` |
| `Examples.ZeroFractionParses` | tutorial02/leptjson.c:60-99 | `"0.0"` parses OK to the number `0.0` |
| `Examples.ExponentParses` | tutorial02/leptjson.c:82-84 | `"1e10"` parses OK to the number `1e10` |
| `Examples.SignedExponentParses` | tutorial02/leptjson.c:100-112 | `"1.5e-3"` parses OK to the number `1.5e-3` |
| `Corrected.ScanNumber` | tutorial02/leptjson.c:46-122 | what the corrected scanner finds at the cursor is an RFC 8259 number |
| `Corrected.ScanNumberComplete` | tutorial02/leptjson.c:46-122 | the corrected scanner finds every RFC 8259 number at the cursor that no digit, `.`, `e` or `E` follows |
| `Corrected.ParseNumber` | tutorial02/leptjson.c:124-137 | the corrected number parser fails only with INVALID_VALUE; a consumed number moves the cursor forward within the buffer, and the value holds exactly the characters passed over, which form an RFC 8259 number |
| `Corrected.ParseValue` | tutorial02/leptjson.c:140-148 | EXPECT_VALUE exactly at the terminator; every other failure is INVALID_VALUE; a consumed value moves the cursor forward within the buffer |
| `Corrected.Parse` | tutorial02/leptjson.c:150-165 | the corrected entry point is defined on every buffer; EXPECT_VALUE exactly for all-whitespace input; the value is NULL on every result but OK; an OK number is an RFC 8259 number |
| `Corrected.ValueThenWsIsOk` | tutorial02/leptjson.c:156-164 | in the corrected parser, a value after the leading whitespace followed only by whitespace makes the parse OK with that value |
| `Corrected.RnsAfterValue` | tutorial02/leptjson.c:156-164 | in the corrected parser, a value after the leading whitespace followed by anything other than whitespace makes the parse ROOT_NOT_SINGULAR with value NULL |
| `Corrected.FailedValuePassesThrough` | tutorial02/leptjson.c:157-164 | in the corrected parser, a failing value parse after the leading whitespace makes the whole parse return that same code with value NULL |
| `Corrected.ParseNumberPadded` | tutorial02/leptjson.c:124-137 | every RFC 8259 number, with any whitespace before and after it, parses OK to a number holding exactly its text |
| `Corrected.ParseLiteralPadded` | tutorial02/leptjson.c:150-165 | every literal, with any whitespace before and after it, parses OK to that literal |
| `Corrected.OkShape` | tutorial02/leptjson.c:150-165 | an OK parse is whitespace, then the text of the value (a literal, or an RFC 8259 number), then whitespace |
| `Examples.CorrectedTenParses` | tutorial02/leptjson.c:78 | the corrected parser gives OK for `"10"` |
| `Examples.CorrectedTrailingWsParses` | tutorial02/leptjson.c:76 | the corrected parser gives OK for `"1 "` |
| `Examples.CorrectedRejectsLoneMinus` | tutorial02/leptjson.c:75-76 | the corrected parser gives INVALID_VALUE for `"-"` |
| `Examples.CorrectedRejectsMinusPoint` | tutorial02/leptjson.c:75 | the corrected parser gives INVALID_VALUE for `"-.5"` |
| `Examples.CorrectedRejectsEmptyFraction` | tutorial02/leptjson.c:90-99 | the corrected parser gives INVALID_VALUE for `"1.e5"` |

## Left out

- The double that `strtod` produces is not modelled: no rounding, no overflow to `HUGE_VAL`, no `errno`, no locale decimal point (the "C" locale `.` is assumed). A number value keeps the characters that were converted (`Number(lexeme)`), and `Json.GetNumber` returns those characters instead of a double. So the promise that the converted double is the correct one is not stated.
- `Strtod.ConsumedLength` covers only the decimal form of `strtod`. The hexadecimal, `inf`/`infinity` and `nan` forms are left out. `NumberGrammar.ValidatedIsNotNonDecimal` shows that none of them can start text that passed the validator, which is the only text `strtod` is given.
- The `assert` calls, the unused `EXPECT` macro and the `v != NULL` checks are not modelled; they are C plumbing with no parsing behaviour.
- The numeric values of the `lept_type` and result-code enums are not modelled; they come from `leptjson.h`, which is not part of this model. Datatypes stand for them.
- The memory layout of `lept_value` is not modelled. On the failure path of line 133 the payload has been written at line 131, but the type stays NULL, so callers cannot see it.
- Running the same parse twice gives the same result by construction: `Parse` is a pure function of the buffer, so there is no separate lemma for it.
- `Corrected.ParseNumber` takes the number's length from the corrected scanner and does not call `strtod`. `ParserProperties.ConsumesWholeRfcNumber` shows that `strtod` would consume all of such a number on its own.

## Findings

| source | as written | input that shows it | evidently intended | confidence | as-written member | corrected member |
|---|---|---|---|---|---|---|
| tutorial02/leptjson.c:78 | after the first digit, the integer phase accepts only `1`-`9` | `"10"` gives INVALID_VALUE | any digit `0`-`9` continues a nonzero integer part, so `"10"` is OK | high; not executed | `Examples.TenIsInvalid` | `Corrected.ParseNumberPadded` |
| tutorial02/leptjson.c:75 | the character after a leading `-` is stepped over without being checked | `"-.5"` gives OK | a digit must follow the minus, so `"-.5"` is INVALID_VALUE | high; not executed | `Examples.MinusPointFiveAccepted` | `Corrected.OkShape` |
| tutorial02/leptjson.c:75-76 | for the buffer `-` the step lands past the terminator, and the loop test then reads out of bounds | `"-"` is undefined behaviour | `"-"` gives INVALID_VALUE, since it is not a number under section 6 of RFC 8259 (`Examples.LoneMinusNotRfcNumber`) | high; not executed | `Examples.LoneMinusUndefined` | `Corrected.Parse` |
| tutorial02/leptjson.c:90-99 | the fraction phase accepts `e` directly after the `.` | `"1.e5"` gives OK | a fraction needs at least one digit, so `"1.e5"` is INVALID_VALUE | high; not executed | `Examples.EmptyFractionAccepted` | `Examples.CorrectedRejectsEmptyFraction` |
| tutorial02/leptjson.c:76 | the validator scans to the terminator, so whitespace after a number is checked as part of the number | `"1 "` gives INVALID_VALUE | trailing whitespace is skipped as it is after a literal (line 158), so `"1 "` is OK | high; not executed | `Examples.TrailingWsAfterNumberInvalid` | `Examples.CorrectedTrailingWsParses` |
