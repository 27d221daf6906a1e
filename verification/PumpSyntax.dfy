/** Tokens and syntax trees of the Pump macro language (pump.py). */
module PumpSyntax {
  datatype Kind =
    | KCode | KVar | KElif | KElse | KFor | KIf | KRange | KDollarId | KLiteralDollar | KDollar
    | KOpen | KClose | KId | KEq | KExp | KDots

  /** A token; its position, which only error messages use, is left out. */
  datatype Token = Token(kind: Kind, value: string)

  /** A code node is the sequence of its atomic nodes.  An expression node is its token, whose kind
      tells where it came from. */
  datatype Node =
    | Raw(raw: Token)
    | VarExp(id: Token, exp: Token)
    | VarCode(id: Token, body: seq<Node>)
    | Range(id: Token, exp1: Token, exp2: Token)
    | For(id: Token, sep: Separator, body: seq<Node>)
    | If(exp: Token, thenBranch: seq<Node>, elseBranch: Else)
    | Exp(exp: Token)
    | LiteralDollar(token: Token)
    | Code(body: seq<Node>)

  datatype Else = NoElse | ElseCode(code: seq<Node>)

  datatype Separator = NoSep | Sep(token: Token)

  predicate IsSpace(c: char) {
    c == ' ' || c == '\t' || c == '\n' || c == '\r' || c == '\U{0B}' || c == '\U{0C}'
  }

  /** `not value.strip()` */
  predicate Blank(s: string) {
    forall i :: 0 <= i < |s| ==> IsSpace(s[i])
  }
}
