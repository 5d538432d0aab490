/** The token a template is split into (token.go). */
module Token {
  import opened Wrappers

  /** The kind of a token, declared with `iota - 1` so that Undefined is -1 and the
      others follow from 0 in declaration order. */
  datatype TokenType = Undefined | Text | Variable | FilteredVariable | If | Else | IfEnd | ShorthandIf {

    /** The Go integer value of the constant. */
    function Code(): (c: int)
      ensures -1 <= c <= 6
      ensures (c == -1) <==> this == Undefined
    {
      match this
      case Undefined => -1
      case Text => 0
      case Variable => 1
      case FilteredVariable => 2
      case If => 3
      case Else => 4
      case IfEnd => 5
      case ShorthandIf => 6
    }
  }

  /** The token type with a given integer value, if any. */
  function FromCode(c: int): (r: Option<TokenType>)
    ensures r.Some? <==> -1 <= c <= 6
  {
    if c == -1 then Some(Undefined)
    else if c == 0 then Some(Text)
    else if c == 1 then Some(Variable)
    else if c == 2 then Some(FilteredVariable)
    else if c == 3 then Some(If)
    else if c == 4 then Some(Else)
    else if c == 5 then Some(IfEnd)
    else if c == 6 then Some(ShorthandIf)
    else None
  }

  /** The integer values are fixed and distinct: FromCode inverts Code, in both directions. */
  lemma {:induction false} CodeRoundTrip(t: TokenType, c: int)
    ensures FromCode(t.Code()) == Some(t)
    ensures FromCode(c) == Some(t) ==> t.Code() == c
    ensures If.Code() == 3
  {
  }

  /** `BaseToken`: kind, raw text, the variable name and the parameter variables. */
  datatype BaseToken = BaseToken(tokenType: TokenType, rawValue: string, varName: string, paramVars: seq<string>) {
    function Type(): TokenType { tokenType }
    function Raw(): string { rawValue }
    function Name(): string { varName }
    function Params(): seq<string> { paramVars }
  }

  /** A Text token carrying `raw`. */
  function TextToken(raw: string): BaseToken {
    BaseToken(Text, raw, "", [])
  }
}
