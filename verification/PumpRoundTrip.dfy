/** What the parser of pump.py makes of a tree written out as tokens, and which trees it can return. */
module PumpRoundTrip {
  import opened Options
  import opened PumpSyntax
  import opened PumpParser

  // ---------------------------------------------------------------- trees as tokens

  /** The tokens in a tree have the kinds the grammar gives them. */
  predicate WellFormed(node: Node) {
    match node
    case Raw(raw) => raw.kind == KCode
    case VarExp(id, exp) => id.kind == KId && exp.kind == KExp
    case VarCode(id, body) => id.kind == KId && WellFormedCode(body)
    case Range(id, exp1, exp2) => id.kind == KId && exp1.kind == KExp && exp2.kind == KExp
    case For(id, sep, body) => id.kind == KId && (sep.Sep? ==> sep.token.kind == KCode) && WellFormedCode(body)
    case If(exp, thenBranch, elseBranch) =>
      exp.kind == KCode && WellFormedCode(thenBranch) && (elseBranch.ElseCode? ==> WellFormedCode(elseBranch.code))
    case Exp(exp) => exp.kind == KExp || exp.kind == KId
    case LiteralDollar(token) => token.kind == KLiteralDollar && !Blank(token.value)
    case Code(body) => WellFormedCode(body)
  }

  predicate WellFormedCode(nodes: seq<Node>) {
    forall i :: 0 <= i < |nodes| ==> WellFormed(nodes[i])
  }

  const OPEN := Token(KOpen, "[[")
  const CLOSE := Token(KClose, "]]")

  function Block(code: seq<Token>): seq<Token> {
    [OPEN] + code + [CLOSE]
  }

  /** A tree written out.  `elif` chooses how an else branch that is a single $if is written:
      with $elif, or inside $else [[ ]]. */
  function Flat(node: Node, elif: bool): (r: seq<Token>)
    ensures r != []
    decreases node
  {
    match node
    case Raw(raw) => [raw]
    case VarExp(id, exp) => [Token(KVar, "$var"), id, Token(KEq, "="), exp]
    case VarCode(id, body) => [Token(KVar, "$var"), id, Token(KEq, "=")] + Block(FlatCode(body, elif))
    case Range(id, exp1, exp2) => [Token(KRange, "$range"), id, exp1, Token(KDots, ".."), exp2]
    case For(id, sep, body) =>
      [Token(KFor, "$for"), id] + (if sep.Sep? then [sep.token] else []) + Block(FlatCode(body, elif))
    case If(exp, thenBranch, elseBranch) =>
      [Token(KIf, "$if"), exp] + Block(FlatCode(thenBranch, elif)) + FlatElse(elseBranch, elif)
    case Exp(exp) =>
      if exp.kind == KId then [Token(KDollarId, "$" + exp.value)] else [Token(KDollar, "$"), exp]
    case LiteralDollar(token) => [token]
    case Code(body) => Block(FlatCode(body, elif))
  }

  function FlatCode(nodes: seq<Node>, elif: bool): seq<Token>
    decreases nodes
  {
    if nodes == [] then [] else Flat(nodes[0], elif) + FlatCode(nodes[1..], elif)
  }

  predicate Chains(branch: Else, elif: bool) {
    elif && branch.ElseCode? && |branch.code| == 1 && branch.code[0].If?
  }

  function FlatElse(branch: Else, elif: bool): seq<Token>
    decreases branch
  {
    if branch.NoElse? then []
    else if Chains(branch, elif) then
      var inner := branch.code[0];
      [Token(KElif, "$elif"), inner.exp] + Block(FlatCode(inner.thenBranch, elif))
      + FlatElse(inner.elseBranch, elif)
    else [Token(KElse, "$else")] + Block(FlatCode(branch.code, elif))
  }

  // ---------------------------------------------------------------- what survives

  predicate BlankRaw(node: Node) {
    node.Raw? && Blank(node.raw.value)
  }

  function LeadingBlanks(nodes: seq<Node>): (n: nat)
    ensures n <= |nodes| && (n < |nodes| ==> !BlankRaw(nodes[n]))
    ensures forall i :: 0 <= i < n ==> BlankRaw(nodes[i])
  {
    if nodes != [] && BlankRaw(nodes[0]) then 1 + LeadingBlanks(nodes[1..]) else 0
  }

  /** Having read the tokens of this branch, the parser still looks for an else. */
  predicate OpenElse(branch: Else, elif: bool) {
    branch.NoElse? || (Chains(branch, elif) && OpenElse(branch.code[0].elseBranch, elif))
  }

  predicate OpenEnded(node: Node, elif: bool) {
    node.If? && OpenElse(node.elseBranch, elif)
  }

  /** The nodes that the parser reads next after the first of these. */
  function Following(nodes: seq<Node>, elif: bool): (r: seq<Node>)
    requires nodes != []
  {
    var skip := if OpenEnded(nodes[0], elif) then LeadingBlanks(nodes[1..]) else 0;
    nodes[1 + skip..]
  }

  /** The tree without the blank code that the parser skips while it looks for an else. */
  function Kept(node: Node, elif: bool): Node
    decreases node
  {
    match node
    case VarCode(id, body) => VarCode(id, KeptCode(body, elif))
    case For(id, sep, body) => For(id, sep, KeptCode(body, elif))
    case If(exp, thenBranch, elseBranch) =>
      If(exp, KeptCode(thenBranch, elif), KeptElse(elseBranch, elif))
    case Code(body) => Code(KeptCode(body, elif))
    case _ => node
  }

  function KeptElse(branch: Else, elif: bool): Else
    decreases branch
  {
    if branch.NoElse? then NoElse else ElseCode(KeptCode(branch.code, elif))
  }

  function KeptCode(nodes: seq<Node>, elif: bool): seq<Node>
    decreases nodes
  {
    if nodes == [] then []
    else [Kept(nodes[0], elif)] + KeptCode(Following(nodes, elif), elif)
  }

  /** Nowhere in the tree is an open-ended $if directly followed by blank code. */
  predicate Clean(node: Node, elif: bool)
    decreases node
  {
    match node
    case VarCode(_, body) => CleanCode(body, elif)
    case For(_, _, body) => CleanCode(body, elif)
    case If(_, thenBranch, elseBranch) =>
      CleanCode(thenBranch, elif) && (elseBranch.ElseCode? ==> CleanCode(elseBranch.code, elif))
    case Code(body) => CleanCode(body, elif)
    case _ => true
  }

  predicate CleanCode(nodes: seq<Node>, elif: bool)
    decreases nodes
  {
    nodes != [] ==>
      && Clean(nodes[0], elif)
      && (|nodes| > 1 && OpenEnded(nodes[0], elif) ==> !BlankRaw(nodes[1]))
      && CleanCode(nodes[1..], elif)
  }

  // ---------------------------------------------------------------- reading back what was written

  /** Tokens that end a run of code: no atomic node starts here, and it is neither blank nor an else. */
  predicate Stops(rest: seq<Token>) {
    rest == [] || (rest[0].kind in {KClose, KId, KEq, KExp, KDots} && !Blank(rest[0].value))
  }

  /** What is left of the tokens behind a node: all of them, or, if the parser still looks for an else,
      those behind the blank code that it skips without finding one. */
  predicate Leaves(open: bool, after: seq<Token>, left: seq<Token>) {
    if open then ParseElse(after) == Ok(NoElse, left) else left == after
  }

  lemma CloseStops(after: seq<Token>)
    ensures Stops([CLOSE] + after)
  {
    assert !IsSpace(CLOSE.value[0]);
  }

  lemma BlockRead(nodes: seq<Node>, elif: bool, after: seq<Token>)
    requires WellFormedCode(nodes)
    ensures ParseBlock(Block(FlatCode(nodes, elif)) + after) == Ok(KeptCode(nodes, elif), after)
    decreases nodes, 1
  {
    hide WellFormedCode, FlatCode, KeptCode, ParseCode, Stops;
    var rest := [CLOSE] + after;
    CloseStops(after);
    CodeRead(nodes, elif, rest);
    assert (Block(FlatCode(nodes, elif)) + after)[1..] == FlatCode(nodes, elif) + rest;
  }

  lemma ElifRead(exp: Token, block: seq<Token>, code: seq<Node>, more: seq<Token>, inner: Else, left: seq<Token>)
    requires exp.kind == KCode
    requires ParseBlock(block + more) == Ok(code, more)
    requires ParseElse(more) == Ok(inner, left)
    ensures ParseElse([Token(KElif, "$elif"), exp] + block + more) == Ok(ElseCode([If(exp, code, inner)]), left)
  {
    hide ParseBlock;
    var ts := [Token(KElif, "$elif"), exp] + block + more;
    assert ts[1..] == [exp] + (block + more);
    assert ts[1..][1..] == block + more;
  }

  lemma ElseCodeRead(block: seq<Token>, code: seq<Node>, after: seq<Token>)
    requires ParseBlock(block + after) == Ok(code, after)
    ensures ParseElse([Token(KElse, "$else")] + block + after) == Ok(ElseCode(code), after)
  {
    hide ParseBlock;
    assert ([Token(KElse, "$else")] + block + after)[1..] == block + after;
  }

  lemma ElseRead(branch: Else, elif: bool, after: seq<Token>, left: seq<Token>)
    requires branch.ElseCode? ==> WellFormedCode(branch.code)
    requires Leaves(OpenElse(branch, elif), after, left)
    ensures ParseElse(FlatElse(branch, elif) + after) == Ok(KeptElse(branch, elif), left)
    decreases branch
  {
    hide ParseElse, ParseBlock, Block, FlatCode, Kept, KeptCode, WellFormed;
    var ts := FlatElse(branch, elif) + after;
    if branch.NoElse? {
      assert ts == after;
    } else if Chains(branch, elif) {
      var inner := branch.code[0];
      ChainParts(branch, elif);
      var block, more := Block(FlatCode(inner.thenBranch, elif)), FlatElse(inner.elseBranch, elif) + after;
      BlockRead(inner.thenBranch, elif, more);
      ElseRead(inner.elseBranch, elif, after, left);
      ElifRead(inner.exp, block, KeptCode(inner.thenBranch, elif), more, KeptElse(inner.elseBranch, elif), left);
      assert ts == [Token(KElif, "$elif"), inner.exp] + block + more;
    } else {
      hide WellFormedCode;
      BlockRead(branch.code, elif, after);
      ElseCodeRead(Block(FlatCode(branch.code, elif)), KeptCode(branch.code, elif), after);
      assert ts == [Token(KElse, "$else")] + Block(FlatCode(branch.code, elif)) + after;
    }
  }

  /** An else branch that can be written with $elif holds the $if that it is written for. */
  lemma ChainParts(branch: Else, elif: bool)
    requires Chains(branch, elif) && WellFormedCode(branch.code)
    ensures WellFormed(branch.code[0])
    ensures var inner := branch.code[0];
            KeptCode(branch.code, elif) ==
            [If(inner.exp, KeptCode(inner.thenBranch, elif), KeptElse(inner.elseBranch, elif))]
  {
    assert branch.code == [branch.code[0]];
    KeptIf(branch.code[0], elif);
  }

  lemma KeptIf(node: Node, elif: bool)
    requires node.If?
    ensures KeptCode([node], elif) ==
            [If(node.exp, KeptCode(node.thenBranch, elif), KeptElse(node.elseBranch, elif))]
  {
    assert KeptCode([node], elif) == [Kept(node, elif)] + KeptCode([], elif);
  }

  lemma VarExpRead(id: Token, exp: Token, after: seq<Token>)
    requires id.kind == KId && exp.kind == KExp
    ensures ParseAtomic([Token(KVar, "$var"), id, Token(KEq, "="), exp] + after) == Ok(Some(VarExp(id, exp)), after)
  {
    hide ParseBlock;
    var ts := [Token(KVar, "$var"), id, Token(KEq, "="), exp] + after;
    assert ts[1..] == [id, Token(KEq, "="), exp] + after;
    assert ts[1..][1..] == [Token(KEq, "="), exp] + after;
    assert ts[1..][1..][1..] == [exp] + after;
  }

  lemma VarCodeRead(id: Token, block: seq<Token>, code: seq<Node>, after: seq<Token>)
    requires id.kind == KId && block != [] && block[0].kind == KOpen
    requires ParseBlock(block) == Ok(code, after)
    ensures ParseAtomic([Token(KVar, "$var"), id, Token(KEq, "=")] + block) == Ok(Some(VarCode(id, code)), after)
  {
    hide ParseBlock;
    var ts := [Token(KVar, "$var"), id, Token(KEq, "=")] + block;
    assert ts[1..] == [id, Token(KEq, "=")] + block;
    assert ts[1..][1..] == [Token(KEq, "=")] + block;
    assert ts[1..][1..][1..] == block;
  }

  lemma RangeRead(id: Token, exp1: Token, exp2: Token, after: seq<Token>)
    requires id.kind == KId && exp1.kind == KExp && exp2.kind == KExp
    ensures ParseAtomic([Token(KRange, "$range"), id, exp1, Token(KDots, ".."), exp2] + after)
         == Ok(Some(Range(id, exp1, exp2)), after)
  {
    hide ParseBlock;
    var ts := [Token(KRange, "$range"), id, exp1, Token(KDots, ".."), exp2] + after;
    assert ts[1..] == [id, exp1, Token(KDots, ".."), exp2] + after;
    assert ts[1..][1..] == [exp1, Token(KDots, ".."), exp2] + after;
    assert ts[1..][1..][1..] == [Token(KDots, ".."), exp2] + after;
    assert ts[1..][1..][1..][1..] == [exp2] + after;
  }

  lemma ForRead(id: Token, sep: Separator, block: seq<Token>, code: seq<Node>, after: seq<Token>)
    requires id.kind == KId && (sep.Sep? ==> sep.token.kind == KCode) && block != [] && block[0].kind == KOpen
    requires ParseBlock(block) == Ok(code, after)
    ensures ParseAtomic([Token(KFor, "$for"), id] + (if sep.Sep? then [sep.token] else []) + block)
         == Ok(Some(For(id, sep, code)), after)
  {
    hide ParseBlock;
    var ts := [Token(KFor, "$for"), id] + (if sep.Sep? then [sep.token] else []) + block;
    if sep.Sep? {
      assert ts[1..] == [id, sep.token] + block;
      assert ts[1..][1..] == [sep.token] + block;
      assert ts[1..][1..][1..] == block;
    } else {
      assert ts[1..] == [id] + block;
      assert ts[1..][1..] == block;
    }
  }

  lemma IfRead(exp: Token, block: seq<Token>, code: seq<Node>, more: seq<Token>, inner: Else, left: seq<Token>)
    requires exp.kind == KCode
    requires ParseBlock(block + more) == Ok(code, more)
    requires ParseElse(more) == Ok(inner, left)
    ensures ParseAtomic([Token(KIf, "$if"), exp] + block + more) == Ok(Some(If(exp, code, inner)), left)
  {
    hide ParseBlock, ParseElse;
    var ts := [Token(KIf, "$if"), exp] + block + more;
    assert ts[1..] == [exp] + (block + more);
    assert ts[1..][1..] == block + more;
  }

  lemma NestedRead(block: seq<Token>, code: seq<Node>, after: seq<Token>)
    requires ParseBlock(block) == Ok(code, after)
    ensures ParseAtomic(block) == Ok(Some(Code(code)), after)
  {
    hide ParseCode;
  }

  lemma ExpRead(exp: Token, after: seq<Token>)
    requires exp.kind == KExp || exp.kind == KId
    ensures ParseAtomic((if exp.kind == KId then [Token(KDollarId, "$" + exp.value)] else [Token(KDollar, "$"), exp])
                        + after)
         == Ok(Some(Exp(exp)), after)
  {
    hide ParseBlock;
    if exp.kind == KId {
      assert ("$" + exp.value)[1..] == exp.value;
      assert ([Token(KDollarId, "$" + exp.value)] + after)[1..] == after;
    } else {
      assert ([Token(KDollar, "$"), exp] + after)[1..] == [exp] + after;
    }
  }

  lemma VarCodeNodeRead(node: Node, elif: bool, after: seq<Token>)
    requires WellFormed(node) && node.VarCode?
    ensures ParseAtomic(Flat(node, elif) + after) == Ok(Some(Kept(node, elif)), after)
    decreases node, 0
  {
    hide ParseAtomic, ParseBlock, FlatCode, KeptCode, WellFormedCode;
    var start, block := [Token(KVar, "$var"), node.id, Token(KEq, "=")], Block(FlatCode(node.body, elif));
    BlockRead(node.body, elif, after);
    VarCodeRead(node.id, block + after, KeptCode(node.body, elif), after);
    assert (start + block) + after == start + (block + after);
  }

  lemma ForNodeRead(node: Node, elif: bool, after: seq<Token>)
    requires WellFormed(node) && node.For?
    ensures ParseAtomic(Flat(node, elif) + after) == Ok(Some(Kept(node, elif)), after)
    decreases node, 0
  {
    hide ParseAtomic, ParseBlock, FlatCode, KeptCode, WellFormedCode;
    var start := [Token(KFor, "$for"), node.id] + (if node.sep.Sep? then [node.sep.token] else []);
    var block := Block(FlatCode(node.body, elif));
    BlockRead(node.body, elif, after);
    ForRead(node.id, node.sep, block + after, KeptCode(node.body, elif), after);
    assert (start + block) + after == start + (block + after);
  }

  lemma IfNodeRead(node: Node, elif: bool, after: seq<Token>, left: seq<Token>)
    requires WellFormed(node) && node.If? && Leaves(OpenElse(node.elseBranch, elif), after, left)
    ensures ParseAtomic(Flat(node, elif) + after) == Ok(Some(Kept(node, elif)), left)
    decreases node, 0
  {
    hide ParseAtomic, ParseBlock, ParseElse, FlatCode, FlatElse, KeptCode, KeptElse, OpenElse, Leaves, WellFormedCode;
    var start, block := [Token(KIf, "$if"), node.exp], Block(FlatCode(node.thenBranch, elif));
    var branch := FlatElse(node.elseBranch, elif);
    BlockRead(node.thenBranch, elif, branch + after);
    ElseRead(node.elseBranch, elif, after, left);
    IfRead(node.exp, block, KeptCode(node.thenBranch, elif), branch + after, KeptElse(node.elseBranch, elif), left);
    hide Block;
    assert (start + block + branch) + after == start + block + (branch + after);
  }

  lemma NestedNodeRead(node: Node, elif: bool, after: seq<Token>)
    requires WellFormed(node) && node.Code?
    ensures ParseAtomic(Flat(node, elif) + after) == Ok(Some(Kept(node, elif)), after)
    decreases node, 0
  {
    hide ParseAtomic, ParseBlock, FlatCode, KeptCode, WellFormedCode, Block;
    BlockRead(node.body, elif, after);
    NestedRead(Flat(node, elif) + after, KeptCode(node.body, elif), after);
  }

  lemma LeafRead(node: Node, elif: bool, after: seq<Token>)
    requires WellFormed(node) && !node.VarCode? && !node.For? && !node.If? && !node.Code?
    ensures ParseAtomic(Flat(node, elif) + after) == Ok(Some(Kept(node, elif)), after)
  {
    hide ParseAtomic;
    match node
    case Raw(raw) => RawRead(raw, after);
    case LiteralDollar(token) => RawRead(token, after);
    case VarExp(id, exp) => VarExpRead(id, exp, after);
    case Range(id, exp1, exp2) => RangeRead(id, exp1, exp2, after);
    case Exp(exp) => ExpRead(exp, after);
    case _ =>
  }

  /** One node written out and read back, before any tokens behind it. */
  lemma AtomicRead(node: Node, elif: bool, after: seq<Token>, left: seq<Token>)
    requires WellFormed(node)
    requires Leaves(OpenEnded(node, elif), after, left)
    ensures ParseAtomic(Flat(node, elif) + after) == Ok(Some(Kept(node, elif)), left)
    decreases node, 1
  {
    hide ParseAtomic, ParseElse, Flat, Kept, WellFormed, OpenElse;
    match node
    case VarCode(_, _) => VarCodeNodeRead(node, elif, after);
    case For(_, _, _) => ForNodeRead(node, elif, after);
    case If(_, _, _) => IfNodeRead(node, elif, after, left);
    case Code(_) => NestedNodeRead(node, elif, after);
    case _ => LeafRead(node, elif, after);
  }

  lemma RawRead(token: Token, after: seq<Token>)
    requires token.kind == KCode || token.kind == KLiteralDollar
    ensures ParseAtomic([token] + after)
         == Ok(Some(if token.kind == KCode then Raw(token) else LiteralDollar(token)), after)
  {
    hide ParseBlock;
    assert ([token] + after)[1..] == after;
  }

  /** Looking for an else, the parser skips the blank code before `rest` or before the next other node. */
  lemma BlanksSkipped(nodes: seq<Node>, elif: bool, rest: seq<Token>)
    requires WellFormedCode(nodes) && Stops(rest)
    ensures Leaves(true, FlatCode(nodes, elif) + rest, FlatCode(nodes[LeadingBlanks(nodes)..], elif) + rest)
  {
    hide ParseElse, Flat, FlatCode, WellFormed;
    var ts := FlatCode(nodes, elif) + rest;
    if nodes == [] {
      NoCode(elif);
      assert ts == rest;
      SearchStops(rest);
    } else {
      var first, more := Flat(nodes[0], elif), FlatCode(nodes[1..], elif) + rest;
      CodeStep(nodes, elif);
      assert ts == first + more;
      if BlankRaw(nodes[0]) {
        BlanksSkipped(nodes[1..], elif, rest);
        assert WellFormed(nodes[0]);
        RawIsItself(nodes[0], elif);
        SearchGoesOn(nodes[0].raw, more);
        assert nodes[LeadingBlanks(nodes)..] == nodes[1..][LeadingBlanks(nodes[1..])..];
      } else {
        FlatHead(nodes[0], elif);
        assert ts[0] == first[0];
        SearchStops(ts);
      }
    }
  }

  lemma NoCode(elif: bool)
    ensures FlatCode([], elif) == [] && KeptCode([], elif) == []
  {
  }

  lemma CodeStep(nodes: seq<Node>, elif: bool)
    requires nodes != []
    ensures FlatCode(nodes, elif) == Flat(nodes[0], elif) + FlatCode(nodes[1..], elif)
    ensures KeptCode(nodes, elif) == [Kept(nodes[0], elif)] + KeptCode(Following(nodes, elif), elif)
  {
    hide Flat, Kept, Following;
  }

  lemma RawIsItself(node: Node, elif: bool)
    requires WellFormed(node) && node.Raw?
    ensures Flat(node, elif) == [node.raw] && node.raw.kind == KCode
  {
  }

  lemma SearchStops(ts: seq<Token>)
    requires ts != [] ==> ts[0].kind != KElse && ts[0].kind != KElif && !Blank(ts[0].value)
    ensures ParseElse(ts) == Ok(NoElse, ts)
  {
    hide ParseBlock, Blank;
  }

  lemma SearchGoesOn(head: Token, ts: seq<Token>)
    requires head.kind == KCode && Blank(head.value)
    ensures ParseElse([head] + ts) == ParseElse(ts)
  {
    hide ParseBlock, Blank;
    assert ([head] + ts)[1..] == ts;
  }

  /** A node that is not blank code starts with a token that ends the search for an else. */
  lemma FlatHead(node: Node, elif: bool)
    requires WellFormed(node) && !BlankRaw(node)
    ensures var head := Flat(node, elif)[0]; head.kind != KElse && head.kind != KElif && !Blank(head.value)
  {
    var head := Flat(node, elif)[0];
    if !node.Raw? && !node.LiteralDollar? {
      assert head.value[0] == '$' || head.value[0] == '[';
    }
  }

  lemma ParseCodeStep(ts: seq<Token>, node: Node, left: seq<Token>, code: seq<Node>, rest: seq<Token>)
    requires ts != [] && ParseAtomic(ts) == Ok(Some(node), left) && ParseCode(left) == Ok(code, rest)
    ensures ParseCode(ts) == Ok([node] + code, rest)
  {
    hide ParseAtomic;
  }

  lemma FollowingLeft(nodes: seq<Node>, elif: bool, rest: seq<Token>)
    requires nodes != [] && WellFormedCode(nodes) && Stops(rest)
    ensures Leaves(OpenEnded(nodes[0], elif), FlatCode(nodes[1..], elif) + rest,
                   FlatCode(Following(nodes, elif), elif) + rest)
  {
    hide ParseElse, FlatCode, OpenEnded, WellFormed;
    BlanksSkipped(nodes[1..], elif, rest);
    var skip := LeadingBlanks(nodes[1..]);
    assert nodes[1 + skip..] == nodes[1..][skip..];
  }

  /** Code written out and read back is the same code less the blanks behind open-ended $ifs, and the
      parser stops exactly where the code ends. */
  lemma CodeRead(nodes: seq<Node>, elif: bool, rest: seq<Token>)
    requires WellFormedCode(nodes) && Stops(rest)
    ensures ParseCode(FlatCode(nodes, elif) + rest) == Ok(KeptCode(nodes, elif), rest)
    decreases nodes, 0
  {
    hide ParseAtomic, ParseCode, Flat, FlatCode, Kept, KeptCode, ParseElse, OpenEnded, WellFormed, Stops,
      Leaves, Following;
    var ts := FlatCode(nodes, elif) + rest;
    if nodes == [] {
      NoCode(elif);
      assert ts == rest;
      StopsRead(rest);
    } else {
      var next := Following(nodes, elif);
      var after, left := FlatCode(nodes[1..], elif) + rest, FlatCode(next, elif) + rest;
      FollowingLeft(nodes, elif, rest);
      CodeStep(nodes, elif);
      assert ts == Flat(nodes[0], elif) + after;
      AtomicRead(nodes[0], elif, after, left);
      FollowingIsShorter(nodes, elif);
      CodeRead(next, elif, rest);
      ParseCodeStep(ts, Kept(nodes[0], elif), left, KeptCode(next, elif), rest);
    }
  }

  lemma FollowingIsShorter(nodes: seq<Node>, elif: bool)
    requires nodes != []
    ensures exists n :: 0 < n <= |nodes| && Following(nodes, elif) == nodes[n..]
    ensures WellFormedCode(nodes) ==> WellFormedCode(Following(nodes, elif))
  {
    hide OpenEnded, WellFormed;
    var n := 1 + if OpenEnded(nodes[0], elif) then LeadingBlanks(nodes[1..]) else 0;
    assert Following(nodes, elif) == nodes[n..];
  }

  lemma StopsRead(rest: seq<Token>)
    requires Stops(rest)
    ensures ParseCode(rest) == Ok([], rest)
  {
    hide ParseBlock;
  }

  // ---------------------------------------------------------------- when the round trip is exact

  function Size(node: Node): (n: nat)
    ensures n > 0
    decreases node
  {
    match node
    case VarCode(_, body) => 1 + SizeCode(body)
    case For(_, _, body) => 1 + SizeCode(body)
    case If(_, thenBranch, elseBranch) =>
      1 + SizeCode(thenBranch) + (if elseBranch.ElseCode? then SizeCode(elseBranch.code) else 0)
    case Code(body) => 1 + SizeCode(body)
    case _ => 1
  }

  function SizeCode(nodes: seq<Node>): nat
    decreases nodes
  {
    if nodes == [] then 0 else Size(nodes[0]) + SizeCode(nodes[1..])
  }

  lemma {:induction false} SizeOfTail(nodes: seq<Node>, n: nat)
    requires n <= |nodes|
    ensures SizeCode(nodes[n..]) + n <= SizeCode(nodes)
  {
    if n > 0 {
      SizeOfTail(nodes[1..], n - 1);
      assert nodes[1..][n - 1..] == nodes[n..];
    }
  }

  /** Clean trees are kept whole; of any other tree something is lost. */
  lemma {:induction false} KeptSize(node: Node, elif: bool)
    ensures if Clean(node, elif) then Kept(node, elif) == node else Size(Kept(node, elif)) < Size(node)
    decreases node
  {
    match node
    case VarCode(_, body) => KeptCodeSize(body, elif);
    case For(_, _, body) => KeptCodeSize(body, elif);
    case If(_, thenBranch, elseBranch) =>
      KeptCodeSize(thenBranch, elif);
      if elseBranch.ElseCode? {
        KeptCodeSize(elseBranch.code, elif);
      }
    case Code(body) => KeptCodeSize(body, elif);
    case _ =>
  }

  lemma {:induction false} KeptCodeSize(nodes: seq<Node>, elif: bool)
    ensures if CleanCode(nodes, elif) then KeptCode(nodes, elif) == nodes
            else SizeCode(KeptCode(nodes, elif)) < SizeCode(nodes)
    decreases nodes
  {
    hide Kept, Clean, Size, OpenEnded;
    if nodes != [] {
      var next := Following(nodes, elif);
      KeptSize(nodes[0], elif);
      KeptCodeSize(next, elif);
      if OpenEnded(nodes[0], elif) {
        var skip := LeadingBlanks(nodes[1..]);
        assert next == nodes[1..][skip..];
        SizeOfTail(nodes[1..], skip);
      }
      assert nodes == [nodes[0]] + nodes[1..];
    }
  }

  /** A tree survives being written out and parsed exactly when it is clean. */
  lemma RoundTripIffClean(nodes: seq<Node>, elif: bool, rest: seq<Token>)
    requires WellFormedCode(nodes) && Stops(rest)
    ensures ParseCode(FlatCode(nodes, elif) + rest) == Ok(nodes, rest) <==> CleanCode(nodes, elif)
  {
    hide ParseCode, FlatCode, KeptCode, CleanCode, WellFormedCode, Stops;
    CodeRead(nodes, elif, rest);
    KeptCodeSize(nodes, elif);
  }

  // ---------------------------------------------------------------- what the parser can return

  /** The tokenizer gives `$($)` as the value of a literal dollar; here it need only not be blank. */
  predicate Lexed(ts: seq<Token>) {
    forall i :: 0 <= i < |ts| && ts[i].kind == KLiteralDollar ==> !Blank(ts[i].value)
  }

  predicate Proper(nodes: seq<Node>) {
    WellFormedCode(nodes) && CleanCode(nodes, false)
  }

  predicate ProperNode(node: Node) {
    WellFormed(node) && Clean(node, false)
  }

  lemma LexedTail(ts: seq<Token>)
    requires Lexed(ts) && ts != []
    ensures Lexed(ts[1..])
    ensures ts[0].kind == KLiteralDollar ==> !Blank(ts[0].value)
  {
    hide Blank;
  }

  lemma BlockIsProper(ts: seq<Token>)
    requires Lexed(ts)
    ensures var p := ParseBlock(ts); p.Ok? ==> Lexed(p.rest) && Proper(p.node)
    decreases |ts|, 0
  {
    hide Proper, ParseCode;
    if ParseBlock(ts).Ok? {
      CodeIsProper(ts[1..]);
    }
  }

  lemma ElseIsProper(ts: seq<Token>)
    requires Lexed(ts)
    ensures var p := ParseElse(ts);
            p.Ok? ==>
              && Lexed(p.rest)
              && (p.node.ElseCode? ==> Proper(p.node.code))
              && (p.node.NoElse? && p.rest != [] ==> !Blank(p.rest[0].value))
    decreases |ts|, 1
  {
    hide Proper, ParseBlock, Blank;
    var p := ParseElse(ts);
    if p.Ok? && ts != [] {
      if ts[0].kind == KElse {
        BlockIsProper(ts[1..]);
      } else if ts[0].kind == KElif {
        var block := ParseBlock(ts[2..]);
        assert ts[1..][1..] == ts[2..];
        BlockIsProper(ts[2..]);
        ElseIsProper(block.rest);
        IfIsProper(ts[1], block.node, ParseElse(block.rest).node);
      } else if Blank(ts[0].value) {
        ElseIsProper(ts[1..]);
      }
    }
  }

  lemma IfIsProper(exp: Token, code: seq<Node>, branch: Else)
    requires exp.kind == KCode && Proper(code) && (branch.ElseCode? ==> Proper(branch.code))
    ensures ProperNode(If(exp, code, branch)) && Proper([If(exp, code, branch)])
  {
    assert CleanCode([], false);
  }

  /** What a parsed node is, seen from the tokens before and behind it. */
  predicate AtomicIsProperAt(ts: seq<Token>, p: Parsed<Option<Node>>)
    requires ts != []
  {
    p.Ok? && p.node.Some? ==>
      && Lexed(p.rest)
      && ProperNode(p.node.value)
      && (BlankRaw(p.node.value) ==> Blank(ts[0].value))
      && (OpenEnded(p.node.value, false) && p.rest != [] ==> !Blank(p.rest[0].value))
  }

  lemma IfNodeIsProper(ts: seq<Token>)
    requires Lexed(ts) && ts != [] && ts[0].kind == KIf
    ensures AtomicIsProperAt(ts, ParseAtomic(ts))
    decreases |ts|, 0
  {
    hide ParseBlock, ParseElse, Blank, Proper, ProperNode;
    if ParseAtomic(ts).Ok? {
      var block := ParseBlock(ts[1..][1..]);
      BlockIsProper(ts[1..][1..]);
      ElseIsProper(block.rest);
      IfIsProper(ts[1], block.node, ParseElse(block.rest).node);
    }
  }

  lemma VarNodeIsProper(ts: seq<Token>)
    requires Lexed(ts) && ts != [] && ts[0].kind == KVar
    ensures AtomicIsProperAt(ts, ParseAtomic(ts))
    decreases |ts|, 0
  {
    hide ParseBlock, ParseElse, ParseCode, Lexed, Blank, WellFormedCode, CleanCode;
    if ParseAtomic(ts).Ok? {
      LexedTail(ts);
      LexedTail(ts[1..]);
      LexedTail(ts[1..][1..]);
      var after := ts[1..][1..][1..];
      if after[0].kind != KExp {
        BlockIsProper(after);
      } else {
        LexedTail(after);
      }
    }
  }

  lemma ForNodeIsProper(ts: seq<Token>)
    requires Lexed(ts) && ts != [] && ts[0].kind == KFor
    ensures AtomicIsProperAt(ts, ParseAtomic(ts))
    decreases |ts|, 0
  {
    hide ParseBlock, ParseElse, ParseCode, Lexed, Blank, WellFormedCode, CleanCode;
    if ParseAtomic(ts).Ok? {
      LexedTail(ts);
      LexedTail(ts[1..]);
      var after := ts[1..][1..];
      LexedTail(after);
      BlockIsProper(if after[0].kind == KCode then after[1..] else after);
    }
  }

  lemma NestedIsProper(ts: seq<Token>)
    requires Lexed(ts) && ts != [] && ts[0].kind == KOpen
    ensures AtomicIsProperAt(ts, ParseAtomic(ts))
    decreases |ts|, 0
  {
    hide ParseBlock, ParseElse, ParseCode, Lexed, Blank, WellFormedCode, CleanCode;
    if ParseAtomic(ts).Ok? {
      LexedTail(ts);
      CodeIsProper(ts[1..]);
      LexedTail(ParseCode(ts[1..]).rest);
    }
  }

  lemma LexedFrom(ts: seq<Token>, n: nat)
    requires Lexed(ts) && n <= |ts|
    ensures Lexed(ts[n..])
  {
    hide Blank;
  }

  lemma RangeParts(ts: seq<Token>)
    requires ts != [] && ts[0].kind == KRange && ParseAtomic(ts).Ok?
    ensures |ts| >= 5 && ts[1].kind == KId && ts[2].kind == KExp && ts[4].kind == KExp
    ensures ParseAtomic(ts) == Ok(Some(Range(ts[1], ts[2], ts[4])), ts[5..])
  {
    hide ParseBlock, ParseElse, ParseCode;
    assert ts[1..][1..] == ts[2..] && ts[2..][1..] == ts[3..] && ts[3..][1..] == ts[4..] && ts[4..][1..] == ts[5..];
  }

  lemma RangeIsProper(ts: seq<Token>)
    requires Lexed(ts) && ts != [] && ts[0].kind == KRange
    ensures AtomicIsProperAt(ts, ParseAtomic(ts))
  {
    hide ParseAtomic, Lexed, Blank, WellFormedCode, CleanCode;
    if ParseAtomic(ts).Ok? {
      RangeParts(ts);
      LexedFrom(ts, 5);
    }
  }

  lemma LeafIsProper(ts: seq<Token>)
    requires Lexed(ts) && ts != [] && ts[0].kind !in {KIf, KVar, KFor, KRange, KOpen}
    ensures AtomicIsProperAt(ts, ParseAtomic(ts))
  {
    hide ParseBlock, ParseElse, ParseCode, Lexed, Blank, WellFormedCode, CleanCode;
    LexedTail(ts);
    if ts[0].kind == KDollar && ts[1..] != [] {
      LexedTail(ts[1..]);
    }
  }

  lemma AtomicIsProper(ts: seq<Token>)
    requires Lexed(ts) && ts != []
    ensures AtomicIsProperAt(ts, ParseAtomic(ts))
    decreases |ts|, 1
  {
    hide *;
    match ts[0].kind
    case KIf => IfNodeIsProper(ts);
    case KVar => VarNodeIsProper(ts);
    case KFor => ForNodeIsProper(ts);
    case KOpen => NestedIsProper(ts);
    case KRange => RangeIsProper(ts);
    case _ => LeafIsProper(ts);
  }

  /** Whatever the parser returns is well formed and clean. */
  lemma CodeIsProper(ts: seq<Token>)
    requires Lexed(ts)
    ensures var p := ParseCode(ts); p.Ok? ==> Lexed(p.rest) && Proper(p.node)
    decreases |ts|, 2
  {
    hide ParseAtomic;
    var p := ParseCode(ts);
    if p.Ok? && ts != [] {
      var first := ParseAtomic(ts);
      AtomicIsProper(ts);
      if first.node.Some? {
        CodeIsProper(first.rest);
        if first.rest != [] {
          AtomicIsProper(first.rest);
        }
      }
    }
  }

  lemma FlatIsLexed(nodes: seq<Node>, elif: bool)
    requires WellFormedCode(nodes)
    ensures Lexed(FlatCode(nodes, elif))
    decreases nodes, 0
  {
    hide Flat, WellFormed, Blank;
    if nodes != [] {
      FlatNodeIsLexed(nodes[0], elif);
      FlatIsLexed(nodes[1..], elif);
      hide Lexed;
      LexedConcat(Flat(nodes[0], elif), FlatCode(nodes[1..], elif));
    }
  }

  lemma FlatElseIsLexed(branch: Else, elif: bool)
    requires branch.ElseCode? ==> WellFormedCode(branch.code)
    ensures Lexed(FlatElse(branch, elif))
    decreases branch
  {
    hide FlatCode, Blank, Block;
    if Chains(branch, elif) {
      var inner := branch.code[0];
      assert WellFormed(inner);
      BlockIsLexed(inner.thenBranch, elif);
      FlatElseIsLexed(inner.elseBranch, elif);
      var start, block := [Token(KElif, "$elif"), inner.exp], Block(FlatCode(inner.thenBranch, elif));
      LexedStart(start, block);
      hide Lexed;
      LexedConcat(start + block, FlatElse(inner.elseBranch, elif));
    } else if branch.ElseCode? {
      BlockIsLexed(branch.code, elif);
      LexedStart([Token(KElse, "$else")], Block(FlatCode(branch.code, elif)));
    }
  }

  lemma LexedConcat(a: seq<Token>, b: seq<Token>)
    requires Lexed(a) && Lexed(b)
    ensures Lexed(a + b)
  {
    hide Blank;
  }

  lemma BlockIsLexed(nodes: seq<Node>, elif: bool)
    requires WellFormedCode(nodes)
    ensures Lexed(Block(FlatCode(nodes, elif)))
    decreases nodes, 1
  {
    FlatIsLexed(nodes, elif);
    assert Lexed([OPEN]) && Lexed([CLOSE]);
    hide Lexed, FlatCode, WellFormedCode;
    LexedConcat([OPEN], FlatCode(nodes, elif));
    LexedConcat([OPEN] + FlatCode(nodes, elif), [CLOSE]);
  }

  lemma FlatNodeIsLexed(node: Node, elif: bool)
    requires WellFormed(node)
    ensures Lexed(Flat(node, elif))
    decreases node
  {
    hide FlatCode, FlatElse, WellFormedCode, Block;
    match node
    case VarCode(id, body) =>
      BlockIsLexed(body, elif);
      LexedStart([Token(KVar, "$var"), id, Token(KEq, "=")], Block(FlatCode(body, elif)));
    case For(id, sep, body) =>
      BlockIsLexed(body, elif);
      LexedStart([Token(KFor, "$for"), id] + (if sep.Sep? then [sep.token] else []), Block(FlatCode(body, elif)));
    case If(exp, thenBranch, elseBranch) =>
      BlockIsLexed(thenBranch, elif);
      FlatElseIsLexed(elseBranch, elif);
      var start := [Token(KIf, "$if"), exp];
      LexedStart(start, Block(FlatCode(thenBranch, elif)));
      LexedConcat(start + Block(FlatCode(thenBranch, elif)), FlatElse(elseBranch, elif));
    case Code(body) => BlockIsLexed(body, elif);
    case _ =>
  }

  lemma LexedStart(start: seq<Token>, ts: seq<Token>)
    requires (forall i :: 0 <= i < |start| ==> start[i].kind != KLiteralDollar) && Lexed(ts)
    ensures Lexed(start + ts)
  {
    hide Blank;
  }

  /** A tree comes out of the parser, for some tokens, exactly when it is well formed and clean. */
  lemma ParserRange(nodes: seq<Node>)
    ensures (exists ts :: Lexed(ts) && ParseCode(ts) == Ok(nodes, [])) <==> Proper(nodes)
  {
    hide ParseCode, WellFormedCode, CleanCode;
    if ts :| Lexed(ts) && ParseCode(ts) == Ok(nodes, []) {
      CodeIsProper(ts);
    }
    if Proper(nodes) {
      var ts := FlatCode(nodes, false);
      RoundTripIffClean(nodes, false, []);
      assert ts + [] == ts;
      FlatIsLexed(nodes, false);
      assert Lexed(ts) && ParseCode(ts) == Ok(nodes, []);
    }
  }

  /** Writing a parsed tree out and parsing it again changes nothing. */
  lemma ParseIsStable(ts: seq<Token>)
    requires Lexed(ts)
    ensures var p := ParseCode(ts); p.Ok? ==> ParseCode(FlatCode(p.node, false)) == Ok(p.node, [])
  {
    hide ParseCode, WellFormedCode, CleanCode;
    var p := ParseCode(ts);
    if p.Ok? {
      CodeIsProper(ts);
      RoundTripIffClean(p.node, false, []);
      assert FlatCode(p.node, false) + [] == FlatCode(p.node, false);
    }
  }

  /** `$if c [[]]` and a blank: the blank is lost. */
  lemma BlankIsLost()
    ensures var node, blank := If(Token(KCode, "c"), [], NoElse), Raw(Token(KCode, " "));
            WellFormedCode([node, blank]) && ParseCode(FlatCode([node, blank], false)) == Ok([node], [])
  {
    var node, blank := If(Token(KCode, "c"), [], NoElse), Raw(Token(KCode, " "));
    assert Blank(" ") && LeadingBlanks([blank]) == 1;
    assert [node, blank][1..] == [blank] && [node, blank][2..] == [];
    assert Following([node, blank], false) == [];
    assert Kept(node, false) == node;
    assert KeptCode([node, blank], false) == [node] + KeptCode([], false) == [node];
    CodeRead([node, blank], false, []);
    assert FlatCode([node, blank], false) + [] == FlatCode([node, blank], false);
  }
}
