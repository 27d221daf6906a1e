/** Which tokens the parser of pump.py takes for a tree: a written form of the tree, and nothing else.  Blank
    code is passed over only where an `$if` without an else so far is looking for one. */
module PumpForms {
  import opened Options
  import opened PumpSyntax
  import opened PumpParser

  // ---------------------------------------------------------------- written forms

  ghost predicate IsCode(ts: seq<Token>, nodes: seq<Node>)
    decreases |ts|, 3
  {
    if nodes == [] then ts == []
    else exists k :: 0 < k <= |ts| && IsNode(ts[..k], nodes[0]) && IsCode(ts[k..], nodes[1..])
  }

  ghost predicate IsBlock(ts: seq<Token>, nodes: seq<Node>)
    decreases |ts|, 0
  {
    && |ts| >= 2 && ts[0].kind == KOpen && ts[|ts| - 1].kind == KClose
    && IsCode(ts[1..|ts| - 1], nodes)
  }

  /** The tokens start with these kinds. */
  predicate Starts(ts: seq<Token>, kinds: seq<Kind>) {
    |kinds| <= |ts| && forall i :: 0 <= i < |kinds| ==> ts[i].kind == kinds[i]
  }

  ghost predicate IsNode(ts: seq<Token>, node: Node)
    decreases |ts|, 2
  {
    match node
    case Raw(raw) => ts == [raw] && raw.kind == KCode
    case LiteralDollar(token) => ts == [token] && token.kind == KLiteralDollar
    case Exp(exp) =>
      || (exp.kind == KExp && Starts(ts, [KDollar]) && ts[1..] == [exp])
      || (exp.kind == KId && Starts(ts, [KDollarId]) && |ts| == 1
          && exp.value == if ts[0].value == "" then "" else ts[0].value[1..])
    case VarExp(id, exp) =>
      Starts(ts, [KVar, KId, KEq, KExp]) && |ts| == 4 && ts[1] == id && ts[3] == exp
    case VarCode(id, body) =>
      Starts(ts, [KVar, KId, KEq]) && ts[1] == id && IsBlock(ts[3..], body)
    case Range(id, exp1, exp2) =>
      Starts(ts, [KRange, KId, KExp, KDots, KExp]) && |ts| == 5 && ts[1] == id && ts[2] == exp1 && ts[4] == exp2
    case For(id, sep, body) =>
      if sep.Sep? then Starts(ts, [KFor, KId, KCode]) && ts[1] == id && ts[2] == sep.token && IsBlock(ts[3..], body)
      else Starts(ts, [KFor, KId]) && ts[1] == id && IsBlock(ts[2..], body)
    case If(exp, thenBranch, elseBranch) =>
      Starts(ts, [KIf, KCode]) && ts[1] == exp && IsBranches(ts[2..], thenBranch, elseBranch)
    case Code(body) => IsBlock(ts, body)
  }

  /** A block, and an else branch behind it, or none. */
  ghost predicate IsBranches(ts: seq<Token>, code: seq<Node>, branch: Else)
    decreases |ts|, 2
  {
    exists k :: 0 < k <= |ts| && IsBlock(ts[..k], code) && IsElse(ts[k..], branch)
  }

  ghost predicate IsElse(ts: seq<Token>, branch: Else)
    decreases |ts|, 1
  {
    exists b :: 0 <= b <= |ts| && (forall i :: 0 <= i < b ==> ts[i].kind == KCode && Blank(ts[i].value))
      && IsElseHere(ts[b..], branch)
  }

  ghost predicate IsElseHere(ts: seq<Token>, branch: Else)
    decreases |ts|, 0
  {
    if branch.NoElse? then ts == []
    else
      || (Starts(ts, [KElse]) && IsBlock(ts[1..], branch.code))
      || (Starts(ts, [KElif, KCode]) && |branch.code| == 1 && branch.code[0].If? && branch.code[0].exp == ts[1]
          && IsBranches(ts[2..], branch.code[0].thenBranch, branch.code[0].elseBranch))
  }

  // ---------------------------------------------------------------- what a parse has taken

  lemma JoinCode(a: seq<Token>, node: Node, b: seq<Token>, nodes: seq<Node>)
    requires a != [] && IsNode(a, node) && IsCode(b, nodes)
    ensures IsCode(a + b, [node] + nodes)
  {
    hide IsNode, IsCode;
    var ts, k := a + b, |a|;
    assert ts[..k] == a && ts[k..] == b && ([node] + nodes)[1..] == nodes;
    CodeOf(ts, k, [node] + nodes);
  }

  lemma CodeOf(ts: seq<Token>, k: nat, nodes: seq<Node>)
    requires 0 < k <= |ts| && nodes != [] && IsNode(ts[..k], nodes[0]) && IsCode(ts[k..], nodes[1..])
    ensures IsCode(ts, nodes)
  {
    hide IsNode;
  }

  lemma BlockOf(open: Token, ts: seq<Token>, close: Token, nodes: seq<Node>)
    requires open.kind == KOpen && close.kind == KClose && IsCode(ts, nodes)
    ensures IsBlock([open] + ts + [close], nodes)
  {
    hide IsCode;
    assert ([open] + ts + [close])[1..|ts| + 1] == ts;
  }

  lemma BranchesOf(block: seq<Token>, code: seq<Node>, more: seq<Token>, branch: Else)
    requires IsBlock(block, code) && IsElse(more, branch)
    ensures IsBranches(block + more, code, branch)
  {
    hide IsElse;
    var ts, k := block + more, |block|;
    assert k > 0;
    hide IsBlock;
    assert ts[..k] == block && ts[k..] == more;
  }

  lemma BlankBefore(blank: Token, ts: seq<Token>, branch: Else)
    requires blank.kind == KCode && Blank(blank.value) && IsElse(ts, branch)
    ensures IsElse([blank] + ts, branch)
  {
    hide IsElseHere, Blank;
    var b :| 0 <= b <= |ts| && (forall i :: 0 <= i < b ==> ts[i].kind == KCode && Blank(ts[i].value))
      && IsElseHere(ts[b..], branch);
    var all := [blank] + ts;
    assert all[b + 1..] == ts[b..];
    assert forall i :: 0 <= i < b + 1 ==> all[i] == if i == 0 then blank else ts[i - 1];
  }

  lemma NoBlanks(ts: seq<Token>, branch: Else)
    requires IsElseHere(ts, branch)
    ensures IsElse(ts, branch)
  {
    hide IsElseHere;
    assert ts[0..] == ts;
  }

  lemma BlockTaken(ts: seq<Token>) returns (used: seq<Token>)
    requires ParseBlock(ts).Ok?
    ensures var p := ParseBlock(ts); ts == used + p.rest && IsBlock(used, p.node)
    decreases |ts|, 0
  {
    hide ParseCode, IsBlock, IsCode;
    var p := ParseCode(ts[1..]);
    var inner := CodeTaken(ts[1..]);
    BlockOf(ts[0], inner, p.rest[0], p.node);
    used := [ts[0]] + inner + [p.rest[0]];
  }

  lemma ElseTaken(ts: seq<Token>) returns (used: seq<Token>)
    requires ParseElse(ts).Ok?
    ensures var p := ParseElse(ts); ts == used + p.rest && IsElse(used, p.node)
    decreases |ts|, 1
  {
    hide ParseBlock, IsElse, IsBlock, IsBranches, Blank;
    var p := ParseElse(ts);
    used := [];
    if ts != [] && ts[0].kind == KElse {
      var block := BlockTaken(ts[1..]);
      used := [ts[0]] + block;
      assert used[1..] == block;
      NoBlanks(used, p.node);
    } else if ts != [] && ts[0].kind == KElif {
      used := ElifTaken(ts);
    } else if ts != [] && Blank(ts[0].value) {
      var more := ElseTaken(ts[1..]);
      used := [ts[0]] + more;
      BlankBefore(ts[0], more, p.node);
    } else {
      NoBlanks([], NoElse);
    }
  }

  lemma ElifTaken(ts: seq<Token>) returns (used: seq<Token>)
    requires ParseElse(ts).Ok? && ts != [] && ts[0].kind == KElif
    ensures var p := ParseElse(ts); ts == used + p.rest && IsElse(used, p.node)
    decreases |ts|, 0
  {
    hide ParseBlock, IsElse, IsBlock, IsBranches, Blank;
    assert ts[1..][1..] == ts[2..];
    var branches := BranchesTaken(ts[2..]);
    used := [ts[0], ts[1]] + branches;
    assert used[2..] == branches;
    NoBlanks(used, ParseElse(ts).node);
  }

  lemma BranchesTaken(ts: seq<Token>) returns (used: seq<Token>)
    requires ParseBlock(ts).Ok? && ParseElse(ParseBlock(ts).rest).Ok?
    ensures var p := ParseBlock(ts);
            var q := ParseElse(p.rest);
            ts == used + q.rest && IsBranches(used, p.node, q.node)
    decreases |ts|, 2
  {
    hide ParseBlock, ParseElse, IsElse, IsBlock, IsBranches;
    var p := ParseBlock(ts);
    var block := BlockTaken(ts);
    var more := ElseTaken(p.rest);
    used := block + more;
    BranchesOf(block, p.node, more, ParseElse(p.rest).node);
  }

  lemma VarTaken(ts: seq<Token>) returns (used: seq<Token>)
    requires ts != [] && ts[0].kind == KVar && ParseAtomic(ts).Ok?
    ensures var p := ParseAtomic(ts); p.node.Some? && ts == used + p.rest && IsNode(used, p.node.value)
    decreases |ts|, 0
  {
    hide ParseBlock, ParseElse, ParseCode, IsBlock;
    assert ts[1..][1..] == ts[2..] && ts[2..][1..] == ts[3..];
    if ts[3].kind == KExp {
      used := ts[..4];
    } else {
      var block := BlockTaken(ts[3..]);
      used := ts[..3] + block;
      assert used[3..] == block;
    }
  }

  lemma ForTaken(ts: seq<Token>) returns (used: seq<Token>)
    requires ts != [] && ts[0].kind == KFor && ParseAtomic(ts).Ok?
    ensures var p := ParseAtomic(ts); p.node.Some? && ts == used + p.rest && IsNode(used, p.node.value)
    decreases |ts|, 0
  {
    hide ParseBlock, ParseElse, ParseCode, IsBlock;
    assert ts[1..][1..] == ts[2..] && ts[2..][1..] == ts[3..];
    var n := if ts[2].kind == KCode then 3 else 2;
    var block := BlockTaken(ts[n..]);
    used := ts[..n] + block;
    assert used[n..] == block;
  }

  lemma IfTaken(ts: seq<Token>) returns (used: seq<Token>)
    requires ts != [] && ts[0].kind == KIf && ParseAtomic(ts).Ok?
    ensures var p := ParseAtomic(ts); p.node.Some? && ts == used + p.rest && IsNode(used, p.node.value)
    decreases |ts|, 0
  {
    hide ParseBlock, ParseElse, ParseCode, IsBranches;
    assert ts[1..][1..] == ts[2..];
    var branches := BranchesTaken(ts[2..]);
    used := ts[..2] + branches;
    assert used[2..] == branches;
  }

  lemma RangeTaken(ts: seq<Token>) returns (used: seq<Token>)
    requires ts != [] && ts[0].kind == KRange && ParseAtomic(ts).Ok?
    ensures var p := ParseAtomic(ts); p.node.Some? && ts == used + p.rest && IsNode(used, p.node.value)
  {
    hide ParseBlock, ParseElse, ParseCode;
    assert ts[1..][1..] == ts[2..] && ts[2..][1..] == ts[3..] && ts[3..][1..] == ts[4..] && ts[4..][1..] == ts[5..];
    used := ts[..5];
  }

  lemma NestedTaken(ts: seq<Token>) returns (used: seq<Token>)
    requires ts != [] && ts[0].kind == KOpen && ParseAtomic(ts).Ok?
    ensures var p := ParseAtomic(ts); p.node.Some? && ts == used + p.rest && IsNode(used, p.node.value)
    decreases |ts|, 1
  {
    hide ParseCode, IsBlock;
    assert ParseBlock(ts).Ok?;
    used := BlockTaken(ts);
  }

  lemma LeafTaken(ts: seq<Token>) returns (used: seq<Token>)
    requires ts != [] && ts[0].kind !in {KIf, KVar, KFor, KRange, KOpen} && ParseAtomic(ts).Ok?
    ensures var p := ParseAtomic(ts);
            if p.node.Some? then ts == used + p.rest && IsNode(used, p.node.value)
            else used == [] && p.rest == ts && ts[0].kind in {KElif, KElse, KClose, KId, KEq, KExp, KDots}
  {
    hide ParseBlock, ParseElse, ParseCode;
    var p := ParseAtomic(ts);
    used := if p.node.None? then [] else if ts[0].kind == KDollar then ts[..2] else ts[..1];
  }

  lemma AtomicTaken(ts: seq<Token>) returns (used: seq<Token>)
    requires ts != [] && ParseAtomic(ts).Ok?
    ensures var p := ParseAtomic(ts);
            if p.node.Some? then ts == used + p.rest && IsNode(used, p.node.value)
            else used == [] && p.rest == ts && ts[0].kind in {KElif, KElse, KClose, KId, KEq, KExp, KDots}
    decreases |ts|, 2
  {
    hide ParseAtomic, IsNode;
    match ts[0].kind
    case KVar => used := VarTaken(ts);
    case KFor => used := ForTaken(ts);
    case KIf => used := IfTaken(ts);
    case KRange => used := RangeTaken(ts);
    case KOpen => used := NestedTaken(ts);
    case _ => used := LeafTaken(ts);
  }

  /** A parse takes a written form of the nodes it returns, and stops only at the end or at a token
      that starts no node. */
  lemma CodeTaken(ts: seq<Token>) returns (used: seq<Token>)
    requires ParseCode(ts).Ok?
    ensures var p := ParseCode(ts);
            && ts == used + p.rest && IsCode(used, p.node)
            && (p.rest == [] || p.rest[0].kind in {KElif, KElse, KClose, KId, KEq, KExp, KDots})
    decreases |ts|, 3
  {
    hide ParseAtomic, IsNode, IsCode;
    used := [];
    NothingTaken();
    if ts != [] {
      var first := ParseAtomic(ts);
      used := AtomicTaken(ts);
      if first.node.Some? {
        var more := CodeTaken(first.rest);
        JoinCode(used, first.node.value, more, ParseCode(first.rest).node);
        used := used + more;
      }
    }
  }

  lemma NothingTaken()
    ensures IsCode([], [])
  {
  }
}
