/** The interpreter of pump.py: environments are lists of bindings that are copied and extended, and the
    text is appended to an output as the tree is walked. */
module PumpInterp {
  import opened Options
  import opened PumpSyntax
  import opened PumpExpand

  // ---------------------------------------------------------------- environments

  /** What a list of bindings means: the first binding of a name counts. */
  function Innermost<T>(bindings: seq<(string, T)>): (r: map<string, T>)
    ensures forall name :: name in r <==> exists i :: 0 <= i < |bindings| && bindings[i].0 == name
  {
    if bindings == [] then map[] else Innermost(bindings[1..])[bindings[0].0 := bindings[0].1]
  }

  /** The value of a name is that of the first binding of it. */
  lemma {:induction false} FirstCounts<T>(bindings: seq<(string, T)>, k: nat)
    requires k < |bindings| && forall i :: 0 <= i < k ==> bindings[i].0 != bindings[k].0
    ensures bindings[k].0 in Innermost(bindings) && Innermost(bindings)[bindings[k].0] == bindings[k].1
  {
    if k > 0 {
      FirstCounts(bindings[1..], k - 1);
    }
  }

  class Env {
    var variables: seq<(string, Value)>
    var ranges: seq<(string, (int, int))>

    ghost function View(): Scope
      reads this
    {
      Scope(Innermost(variables), Innermost(ranges))
    }

    constructor ()
      ensures variables == [] && ranges == [] && View() == Scope(map[], map[])
    {
      variables, ranges := [], [];
    }

    method Clone() returns (clone: Env)
      ensures fresh(clone) && clone.variables == variables && clone.ranges == ranges
      ensures clone.View() == View()
    {
      clone := new Env();
      clone.variables, clone.ranges := variables, ranges;
    }

    /** PushVariable of a text; one that looks like an integer is kept as the integer. */
    method PushText(py: Python, name: string, text: string)
      modifies this
      ensures variables == [(name, Stored(py, text))] + old(variables) && ranges == old(ranges)
      ensures View() == old(View()).Bind(name, Stored(py, text))
    {
      var value := Str(text);
      var number := py.toInt(text);
      if number.Some? && Numeral(number.value) == text {
        value := Int(number.value);
      }
      variables := [(name, value)] + variables;
      assert variables[1..] == old(variables);
    }

    /** PushVariable of an integer, which is never equal to its text and is kept as it is. */
    method PushNumber(name: string, number: int)
      modifies this
      ensures variables == [(name, Int(number))] + old(variables) && ranges == old(ranges)
      ensures View() == old(View()).Bind(name, Int(number))
    {
      variables := [(name, Int(number))] + variables;
      assert variables[1..] == old(variables);
    }

    method PushRange(name: string, lower: int, upper: int)
      modifies this
      ensures ranges == [(name, (lower, upper))] + old(ranges) && variables == old(variables)
      ensures View() == old(View()).BindRange(name, lower, upper)
    {
      ranges := [(name, (lower, upper))] + ranges;
      assert ranges[1..] == old(ranges);
    }

    method GetValue(name: string) returns (r: Option<Value>)
      ensures var visible := View().variables; r == if name in visible then Some(visible[name]) else None
    {
      r := First(variables, name);
    }

    method GetRange(name: string) returns (r: Option<(int, int)>)
      ensures var visible := View().ranges; r == if name in visible then Some(visible[name]) else None
    {
      r := First(ranges, name);
    }

    /** EvalExp; the expression looks its names up with GetValue. */
    method EvalExp(py: Python, exp: Token) returns (r: Option<Value>)
      ensures r == py.eval(exp.value, View().variables)
    {
      r := py.eval(exp.value, Innermost(variables));
    }
  }

  /** The loop of GetValue and GetRange. */
  method First<T>(bindings: seq<(string, T)>, name: string) returns (r: Option<T>)
    ensures var visible := Innermost(bindings); r == if name in visible then Some(visible[name]) else None
  {
    for i := 0 to |bindings|
      invariant forall j :: 0 <= j < i ==> bindings[j].0 != name
    {
      if bindings[i].0 == name {
        FirstCounts(bindings, i);
        return Some(bindings[i].1);
      }
    }
    return None;
  }

  class Output {
    var text: string

    constructor ()
      ensures text == ""
    {
      text := "";
    }

    method Append(s: string)
      modifies this
      ensures text == old(text) + s
    {
      text := text + s;
    }
  }

  // ---------------------------------------------------------------- what code binds

  /** The names that a piece of code binds for what follows it, the latest first.  Only a `$var` that
      stands directly in the code binds one. */
  function VarNames(nodes: seq<Node>): seq<string> {
    if nodes == [] then []
    else
      VarNames(nodes[1..])
      + (if nodes[0].VarExp? || nodes[0].VarCode? then [Strip(nodes[0].id.value)] else [])
  }

  function RangeNames(nodes: seq<Node>): seq<string> {
    if nodes == [] then []
    else RangeNames(nodes[1..]) + (if nodes[0].Range? then [Strip(nodes[0].id.value)] else [])
  }

  /** `after` is `before` with one new binding in front for each of the names. */
  ghost predicate Extends<T>(before: seq<(string, T)>, after: seq<(string, T)>, names: seq<string>) {
    && |after| == |names| + |before|
    && after[|names|..] == before
    && forall i :: 0 <= i < |names| ==> after[i].0 == names[i]
  }

  lemma ExtendsThen<T>(a: seq<(string, T)>, b: seq<(string, T)>, c: seq<(string, T)>,
                       first: seq<string>, second: seq<string>)
    requires Extends(a, b, first) && Extends(b, c, second)
    ensures Extends(a, c, second + first)
  {
    assert forall i :: 0 <= i < |b| ==> c[|second| + i] == b[i];
    assert c[|second| + |first|..] == c[|second|..][|first|..];
  }

  // ---------------------------------------------------------------- the interpreter

  /** What running a node or a piece of code did to the environment and the output. */
  twostate predicate Did(env: Env, output: Output, ok: bool, expansion: Option<Expansion>)
    reads env, output
  {
    && ok == expansion.Some?
    && (ok ==> output.text == old(output.text) + expansion.value.text && env.View() == expansion.value.scope)
  }

  predicate Binds(node: Node) {
    node.VarExp? || node.VarCode? || node.Range?
  }

  method RunAtomicCode(py: Python, env: Env, node: Node, output: Output) returns (ok: bool)
    modifies env, output
    ensures Did(env, output, ok, Expand(py, old(env.View()), node))
    ensures ok ==> Extends(old(env.variables), env.variables, VarNames([node]))
    ensures ok ==> Extends(old(env.ranges), env.ranges, RangeNames([node]))
    decreases node, 1
  {
    hide Expand, Innermost, Strip;
    assert old(output.text) + "" == old(output.text);
    NamesOfOne(node);
    if Binds(node) {
      ok := RunBinding(py, env, node);
    } else {
      ok := RunText(py, env, node, output);
    }
  }

  /** The nodes that bind a name and write nothing. */
  method RunBinding(py: Python, env: Env, node: Node) returns (ok: bool)
    requires Binds(node)
    modifies env
    ensures var r := Expand(py, old(env.View()), node);
            ok == r.Some? && (ok ==> r.value == Expansion("", env.View()))
    ensures ok ==> Extends(old(env.variables), env.variables, if node.Range? then [] else [Strip(node.id.value)])
    ensures ok ==> Extends(old(env.ranges), env.ranges, if node.Range? then [Strip(node.id.value)] else [])
    decreases node, 0
  {
    hide Strip, Stored, Show, Join, Bodies, ExpandCode, Innermost;
    ok := true;
    match node {
      case VarExp(id, exp) =>
        var value := env.EvalExp(py, exp);
        if value.None? { return false; }
        env.PushText(py, Strip(id.value), Show(value.value));
      case VarCode(id, body) =>
        var result := new Output();
        var clone := env.Clone();
        ok := RunCode(py, clone, body, result);
        if !ok { return; }
        assert result.text == ExpandCode(py, env.View(), body).value.text;
        env.PushText(py, Strip(id.value), result.text);
      case Range(id, exp1, exp2) =>
        var value1 := env.EvalExp(py, exp1);
        if value1.None? { return false; }
        var lower := ToInt(py, value1.value);
        if lower.None? { return false; }
        var value2 := env.EvalExp(py, exp2);
        if value2.None? { return false; }
        var upper := ToInt(py, value2.value);
        if upper.None? { return false; }
        env.PushRange(Strip(id.value), lower.value, upper.value);
      case _ =>
    }
  }

  /** The nodes that write text, in copies of the environment if they hold code. */
  method RunText(py: Python, env: Env, node: Node, output: Output) returns (ok: bool)
    requires !Binds(node)
    modifies output
    ensures var r := Expand(py, env.View(), node);
            ok == r.Some? && (ok ==> r.value.scope == env.View() && output.text == old(output.text) + r.value.text)
    decreases node, 0
  {
    hide Strip, Show, Join, Bodies, ExpandCode, Innermost;
    ok := true;
    assert old(output.text) + "" == old(output.text);
    match node {
      case For(id, sep, body) =>
        var name := Strip(id.value);
        var range := env.GetRange(name);
        if range.None? { return false; }
        var (lower, upper) := range.value;
        ok := RunFor(py, env, name, SepText(sep), body, lower, upper, output);
      case Raw(raw) =>
        output.Append(raw.value);
      case If(exp, thenBranch, elseBranch) =>
        var cond := env.EvalExp(py, exp);
        if cond.None? { return false; }
        if Truth(cond.value) {
          var clone := env.Clone();
          ok := RunCode(py, clone, thenBranch, output);
        } else if elseBranch.ElseCode? {
          var clone := env.Clone();
          ok := RunCode(py, clone, elseBranch.code, output);
        }
      case Exp(exp) =>
        var value := env.EvalExp(py, exp);
        if value.None? { return false; }
        output.Append(Show(value.value));
      case LiteralDollar(_) =>
        output.Append("$");
      case Code(body) =>
        var clone := env.Clone();
        ok := RunCode(py, clone, body, output);
      case _ =>
    }
  }

  /** The loop of a `$for`: every round runs the body in its own copy of the environment. */
  method RunFor(py: Python, env: Env, name: string, sep: string, body: seq<Node>, lower: int, upper: int,
                output: Output)
    returns (ok: bool)
    modifies output
    ensures var parts := Bodies(py, env.View(), name, body, lower, upper);
            ok == parts.Some? && (ok ==> output.text == old(output.text) + Join(sep, parts.value))
    decreases body, 2
  {
    hide Innermost, ExpandCode, Bodies, Join;
    var i := lower;
    ghost var before, scope := output.text, env.View();
    ghost var parts := Bodies(py, scope, name, body, lower, upper);
    ghost var done := "";
    while i <= upper
      invariant output.text == before + done
      invariant RoundsLeft(parts, Bodies(py, scope, name, body, i, upper), sep, done)
      decreases upper - i + 1
    {
      ghost var text;
      ok, text := RunForOnce(py, env, name, sep, body, i, upper, output);
      NextRound(py, scope, name, body, i, upper, sep, parts, done);
      if !ok { return; }
      done := done + text;
      i := i + 1;
    }
    NoRounds(py, scope, name, body, i, upper, sep);
    ok := true;
  }

  /** The rounds to come complete the text of all rounds. */
  ghost predicate RoundsLeft(parts: Option<seq<string>>, rest: Option<seq<string>>, sep: string, done: string) {
    parts.Some? == rest.Some? && (parts.Some? ==> Join(sep, parts.value) == done + Join(sep, rest.value))
  }

  lemma NextRound(py: Python, scope: Scope, name: string, body: seq<Node>, i: int, upper: int, sep: string,
                  parts: Option<seq<string>>, done: string)
    requires i <= upper
    requires RoundsLeft(parts, Bodies(py, scope, name, body, i, upper), sep, done)
    ensures var now := ExpandCode(py, scope.Bind(name, Int(i)), body);
            if now.None? then parts.None?
            else RoundsLeft(parts, Bodies(py, scope, name, body, i + 1, upper), sep,
                            done + (now.value.text + if i != upper then sep else ""))
  {
    hide ExpandCode;
    var rest := Bodies(py, scope, name, body, i + 1, upper);
    if rest.Some? && i == upper {
      assert rest.value == [];
    }
  }

  lemma NoRounds(py: Python, scope: Scope, name: string, body: seq<Node>, i: int, upper: int, sep: string)
    requires i > upper
    ensures Bodies(py, scope, name, body, i, upper) == Some([]) && Join(sep, []) == ""
  {
  }

  method RunForOnce(py: Python, env: Env, name: string, sep: string, body: seq<Node>, i: int, upper: int,
                    output: Output)
    returns (ok: bool, ghost text: string)
    modifies output
    ensures var now := ExpandCode(py, env.View().Bind(name, Int(i)), body);
            ok == now.Some? &&
            (ok ==> text == now.value.text + (if i != upper then sep else "") && output.text == old(output.text) + text)
    decreases body, 1
  {
    hide Innermost, ExpandCode;
    var inner := env.Clone();
    inner.PushNumber(name, i);
    ok := RunCode(py, inner, body, output);
    text := "";
    if ok {
      if i != upper {
        output.Append(sep);
      }
      text := output.text[|old(output.text)|..];
    }
  }

  method RunCode(py: Python, env: Env, nodes: seq<Node>, output: Output) returns (ok: bool)
    modifies env, output
    ensures Did(env, output, ok, ExpandCode(py, old(env.View()), nodes))
    ensures ok ==> Extends(old(env.variables), env.variables, VarNames(nodes))
    ensures ok ==> Extends(old(env.ranges), env.ranges, RangeNames(nodes))
    decreases nodes, 0
  {
    hide Innermost, Expand, ExpandCode, Extends, VarNames, RangeNames;
    ghost var before, variables, ranges := output.text, env.variables, env.ranges;
    ghost var all := ExpandCode(py, env.View(), nodes);
    ghost var done, varNames, rangeNames := "", [], [];
    NothingRun(py, env.View(), nodes, variables, ranges);
    for i := 0 to |nodes|
      invariant output.text == before + done
      invariant CodeLeft(all, ExpandCode(py, env.View(), nodes[i..]), done)
      invariant Extends(variables, env.variables, varNames) && VarNames(nodes) == VarNames(nodes[i..]) + varNames
      invariant Extends(ranges, env.ranges, rangeNames) && RangeNames(nodes) == RangeNames(nodes[i..]) + rangeNames
    {
      ghost var scope, middle1, middle2 := env.View(), env.variables, env.ranges;
      NextNode(py, scope, nodes, i, all, done);
      ok := RunAtomicCode(py, env, nodes[i], output);
      if !ok { return; }
      done := done + Expand(py, scope, nodes[i]).value.text;
      ExtendsThen(variables, middle1, env.variables, varNames, VarNames([nodes[i]]));
      ExtendsThen(ranges, middle2, env.ranges, rangeNames, RangeNames([nodes[i]]));
      varNames := VarNames([nodes[i]]) + varNames;
      rangeNames := RangeNames([nodes[i]]) + rangeNames;
    }
    AllRun(py, env.View(), nodes);
    assert nodes[|nodes|..] == [] && [] + varNames == varNames && [] + rangeNames == rangeNames;
    ok := true;
  }

  /** The code to come completes the text of all the code, and ends in its scope. */
  ghost predicate CodeLeft(all: Option<Expansion>, rest: Option<Expansion>, done: string) {
    && all.Some? == rest.Some?
    && (all.Some? ==> all.value.text == done + rest.value.text && all.value.scope == rest.value.scope)
  }

  lemma NothingRun(py: Python, scope: Scope, nodes: seq<Node>,
                   variables: seq<(string, Value)>, ranges: seq<(string, (int, int))>)
    ensures nodes[0..] == nodes
    ensures CodeLeft(ExpandCode(py, scope, nodes), ExpandCode(py, scope, nodes[0..]), "")
    ensures Extends(variables, variables, []) && Extends(ranges, ranges, [])
    ensures VarNames(nodes) + [] == VarNames(nodes) && RangeNames(nodes) + [] == RangeNames(nodes)
  {
    hide ExpandCode;
  }

  lemma NextNode(py: Python, scope: Scope, nodes: seq<Node>, i: nat, all: Option<Expansion>, done: string)
    requires i < |nodes| && CodeLeft(all, ExpandCode(py, scope, nodes[i..]), done)
    ensures var now := Expand(py, scope, nodes[i]);
            if now.None? then all.None?
            else CodeLeft(all, ExpandCode(py, now.value.scope, nodes[i + 1..]), done + now.value.text)
    ensures VarNames(nodes[i..]) == VarNames(nodes[i + 1..]) + VarNames([nodes[i]])
    ensures RangeNames(nodes[i..]) == RangeNames(nodes[i + 1..]) + RangeNames([nodes[i]])
  {
    hide Expand;
    assert nodes[i..][1..] == nodes[i + 1..];
    NamesOfOne(nodes[i]);
  }

  lemma AllRun(py: Python, scope: Scope, nodes: seq<Node>)
    ensures nodes[|nodes|..] == [] && VarNames([]) == [] && RangeNames([]) == []
    ensures ExpandCode(py, scope, []) == Some(Expansion("", scope))
  {
  }

  lemma NamesOfOne(node: Node)
    ensures VarNames([node]) == if node.VarExp? || node.VarCode? then [Strip(node.id.value)] else []
    ensures RangeNames([node]) == if node.Range? then [Strip(node.id.value)] else []
  {
    assert VarNames([node][1..]) == [];
    assert RangeNames([node][1..]) == [];
  }
}
