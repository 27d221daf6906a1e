/** The recursive-descent parser of pump.py.  The functions say what each parsing routine makes of the
    tokens before it; the class takes tokens off its list in place, as the source does. */
module PumpParser {
  import opened Options
  import opened PumpSyntax

  /** A node and the tokens behind it, or an error that ends the program. */
  datatype Parsed<T> = Ok(node: T, rest: seq<Token>) | Error
  {
    predicate IsFailure() {
      Error?
    }

    function PropagateFailure<U>(): Parsed<U>
      requires Error?
    {
      Error
    }

    function Extract(): (T, seq<Token>)
      requires Ok?
    {
      (node, rest)
    }
  }

  // ---------------------------------------------------------------- what the parser computes

  function Pop(ts: seq<Token>, kind: Kind): (r: Parsed<Token>)
    ensures r.Ok? ==> |r.rest| < |ts|
  {
    if ts != [] && ts[0].kind == kind then Ok(ts[0], ts[1..]) else Error
  }

  /** `[[ CODE ]]` */
  function ParseBlock(ts: seq<Token>): (r: Parsed<seq<Node>>)
    ensures r.Ok? ==> |r.rest| < |ts|
    decreases |ts|, 0
  {
    var (_, ts1) :- Pop(ts, KOpen);
    var (code, ts2) :- ParseCode(ts1);
    var (_, ts3) :- Pop(ts2, KClose);
    Ok(code, ts3)
  }

  function ParseElse(ts: seq<Token>): (r: Parsed<Else>)
    ensures r.Ok? ==> |r.rest| <= |ts|
    decreases |ts|, 1
  {
    if ts == [] then Ok(NoElse, ts)
    else if ts[0].kind == KElse then
      var (code, ts1) :- ParseBlock(ts[1..]);
      Ok(ElseCode(code), ts1)
    else if ts[0].kind == KElif then
      var (exp, ts1) :- Pop(ts[1..], KCode);
      var (code, ts2) :- ParseBlock(ts1);
      var (inner, ts3) :- ParseElse(ts2);
      Ok(ElseCode([If(exp, code, inner)]), ts3)
    else if Blank(ts[0].value) then
      var (_, ts1) :- Pop(ts, KCode);
      ParseElse(ts1)
    else
      Ok(NoElse, ts)
  }

  /** One atomic node, or None if the first token cannot start one and stays where it is. */
  function ParseAtomic(ts: seq<Token>): (r: Parsed<Option<Node>>)
    requires ts != []
    ensures r.Ok? ==> if r.node.Some? then |r.rest| < |ts| else r.rest == ts
    decreases |ts|, 1
  {
    var head, ts0 := ts[0], ts[1..];
    match head.kind
    case KCode => Ok(Some(Raw(head)), ts0)
    case KVar =>
      var (id, ts1) :- Pop(ts0, KId);
      var (_, ts2) :- Pop(ts1, KEq);
      if ts2 == [] then Error
      else if ts2[0].kind == KExp then Ok(Some(VarExp(id, ts2[0])), ts2[1..])
      else
        var (code, ts3) :- ParseBlock(ts2);
        Ok(Some(VarCode(id, code)), ts3)
    case KFor =>
      var (id, ts1) :- Pop(ts0, KId);
      if ts1 == [] then Error
      else
        var (sep, ts2) := if ts1[0].kind == KCode then (Sep(ts1[0]), ts1[1..]) else (NoSep, ts1);
        var (code, ts3) :- ParseBlock(ts2);
        Ok(Some(For(id, sep, code)), ts3)
    case KIf =>
      var (exp, ts1) :- Pop(ts0, KCode);
      var (code, ts2) :- ParseBlock(ts1);
      var (else_, ts3) :- ParseElse(ts2);
      Ok(Some(If(exp, code, else_)), ts3)
    case KRange =>
      var (id, ts1) :- Pop(ts0, KId);
      var (exp1, ts2) :- Pop(ts1, KExp);
      var (_, ts3) :- Pop(ts2, KDots);
      var (exp2, ts4) :- Pop(ts3, KExp);
      Ok(Some(Range(id, exp1, exp2)), ts4)
    case KDollarId => Ok(Some(Exp(Token(KId, if head.value == "" then "" else head.value[1..]))), ts0)
    case KLiteralDollar => Ok(Some(LiteralDollar(head)), ts0)
    case KDollar =>
      var (exp, ts1) :- Pop(ts0, KExp);
      Ok(Some(Exp(exp)), ts1)
    case KOpen =>
      var (code, ts1) :- ParseCode(ts0);
      var (_, ts2) :- Pop(ts1, KClose);
      Ok(Some(Code(code)), ts2)
    case _ => Ok(None, ts)
  }

  function ParseCode(ts: seq<Token>): (r: Parsed<seq<Node>>)
    ensures r.Ok? ==> |r.rest| <= |ts|
    decreases |ts|, 2
  {
    if ts == [] then Ok([], ts)
    else
      var (node, ts1) :- ParseAtomic(ts);
      if node.None? then Ok([], ts)
      else
        var (nodes, ts2) :- ParseCode(ts1);
        Ok([node.value] + nodes, ts2)
  }

  // ---------------------------------------------------------------- the parser in place

  class Parser {
    var tokens: seq<Token>

    constructor (tokens: seq<Token>)
      ensures this.tokens == tokens
    {
      this.tokens := tokens;
    }

    /** PopToken with a token type; false for a token of another type, and for an empty list. */
    method PopToken(kind: Kind) returns (ok: bool, token: Token)
      modifies this
      ensures var p := Pop(old(tokens), kind); ok == p.Ok? && (ok ==> token == p.node && tokens == p.rest)
    {
      token := Token(kind, "");
      if tokens == [] {
        return false, token;
      }
      token := tokens[0];
      tokens := tokens[1..];
      ok := token.kind == kind;
    }

    /** The three calls that read `[[ CODE ]]`. */
    method ParseBlockTokens() returns (ok: bool, code: seq<Node>)
      modifies this
      ensures var p := ParseBlock(old(tokens)); ok == p.Ok? && (ok ==> code == p.node && tokens == p.rest)
      decreases |tokens|, 0
    {
      code := [];
      var token;
      ok, token := PopToken(KOpen);
      if !ok { return; }
      ok, code := ParseCodeNode();
      if !ok { return; }
      ok, token := PopToken(KClose);
    }

    method ParseElseNode() returns (ok: bool, else_: Else)
      modifies this
      ensures var p := ParseElse(old(tokens)); ok == p.Ok? && (ok ==> else_ == p.node && tokens == p.rest)
      decreases |tokens|, 1
    {
      ok, else_ := true, NoElse;
      if tokens == [] {
        return;
      }
      var next, token, code := tokens[0], tokens[0], [];
      if next.kind == KElse {
        ok, token := PopToken(KElse);
        ok, code := ParseBlockTokens();
        else_ := ElseCode(code);
      } else if next.kind == KElif {
        ok, token := PopToken(KElif);
        var exp;
        ok, exp := PopToken(KCode);
        if !ok { return; }
        ok, code := ParseBlockTokens();
        if !ok { return; }
        var inner;
        ok, inner := ParseElseNode();
        else_ := ElseCode([If(exp, code, inner)]);
      } else if Blank(next.value) {
        ok, token := PopToken(KCode);
        if !ok { return; }
        ok, else_ := ParseElseNode();
      }
    }

    method ParseAtomicCodeNode() returns (ok: bool, node: Option<Node>)
      requires tokens != []
      modifies this
      ensures var p := ParseAtomic(old(tokens)); ok == p.Ok? && (ok ==> node == p.node && tokens == p.rest)
      decreases |tokens|, 1
    {
      ok, node := true, None;
      var head, token, id, code := tokens[0], tokens[0], tokens[0], [];
      tokens := tokens[1..];
      match head.kind {
        case KCode =>
          node := Some(Raw(head));
        case KVar =>
          ok, id := PopToken(KId);
          if !ok { return; }
          ok, token := PopToken(KEq);
          if !ok { return; }
          if tokens == [] { return false, None; }
          if tokens[0].kind == KExp {
            token := tokens[0];
            tokens := tokens[1..];
            return true, Some(VarExp(id, token));
          }
          ok, code := ParseBlockTokens();
          node := Some(VarCode(id, code));
        case KFor =>
          ok, id := PopToken(KId);
          if !ok { return; }
          if tokens == [] { return false, None; }
          var sep := NoSep;
          if tokens[0].kind == KCode {
            sep := Sep(tokens[0]);
            tokens := tokens[1..];
          }
          ok, code := ParseBlockTokens();
          node := Some(For(id, sep, code));
        case KIf =>
          ok, token := PopToken(KCode);
          if !ok { return; }
          ok, code := ParseBlockTokens();
          if !ok { return; }
          var else_;
          ok, else_ := ParseElseNode();
          node := Some(If(token, code, else_));
        case KRange =>
          var exp1, exp2;
          ok, id := PopToken(KId);
          if !ok { return; }
          ok, exp1 := PopToken(KExp);
          if !ok { return; }
          ok, token := PopToken(KDots);
          if !ok { return; }
          ok, exp2 := PopToken(KExp);
          node := Some(Range(id, exp1, exp2));
        case KDollarId =>
          node := Some(Exp(Token(KId, if head.value == "" then "" else head.value[1..])));
        case KLiteralDollar =>
          node := Some(LiteralDollar(head));
        case KDollar =>
          ok, token := PopToken(KExp);
          node := Some(Exp(token));
        case KOpen =>
          ok, code := ParseCodeNode();
          if !ok { return; }
          ok, token := PopToken(KClose);
          node := Some(Code(code));
        case _ =>
          tokens := [head] + tokens;
      }
    }

    method ParseCodeNode() returns (ok: bool, code: seq<Node>)
      modifies this
      ensures var p := ParseCode(old(tokens)); ok == p.Ok? && (ok ==> code == p.node && tokens == p.rest)
      decreases |tokens|, 2
    {
      ok, code := true, [];
      ghost var all := ParseCode(tokens);
      while true
        invariant ok && |tokens| <= |old(tokens)|
        invariant var p := ParseCode(tokens);
                  all.Ok? == p.Ok? && (p.Ok? ==> all.node == code + p.node && all.rest == p.rest)
        decreases |tokens|
      {
        if tokens == [] {
          break;
        }
        var node;
        ok, node := ParseAtomicCodeNode();
        if !ok {
          return;
        }
        if node.Some? {
          code := code + [node.value];
        } else {
          break;
        }
      }
    }
  }
}
