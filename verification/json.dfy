/** The values, type tags and result codes of the parser. */
module Json {

  /** The type tag of a parsed value (`lept_type`). */
  datatype LeptType = NullType | FalseType | TrueType | NumberType

  /** A parsed value. A number keeps the characters `strtod` converted;
      the double they denote is not modelled. */
  datatype Value = Null | False | True | Number(lexeme: seq<char>)

  /** The four result codes of a parse. */
  datatype ParseCode = Ok | ExpectValue | InvalidValue | RootNotSingular

  /** An outcome of the C code: defined, or undefined behaviour. */
  datatype Outcome<+T> = Defined(get: T) | Undefined

  /** What a value-level parser leaves behind: the cursor after the value
      and the value, or the error code with cursor and type untouched. */
  datatype Step = Consumed(next: nat, value: Value) | Failed(code: ParseCode)

  /** What `lept_parse` returns together with the value it leaves in `*v`. */
  datatype Result = Result(code: ParseCode, value: Value)

  /** `lept_get_type`: the tag of a value. */
  function GetType(v: Value): (t: LeptType)
    ensures t == NumberType <==> v.Number?
    ensures t == NullType <==> v == Null
    ensures t == TrueType <==> v == True
    ensures t == FalseType <==> v == False
  {
    match v
    case Null => NullType
    case False => FalseType
    case True => TrueType
    case Number(_) => NumberType
  }

  /** `lept_get_number`: only for a number, whose payload it returns. */
  function GetNumber(v: Value): (n: seq<char>)
    requires GetType(v) == NumberType
    ensures v == Number(n)
  {
    v.lexeme
  }
}
