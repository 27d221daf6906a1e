/** What the text of a Pump tree is: a pure expansion under a scope of named values. */
module PumpExpand {
  import opened Options
  import opened PumpSyntax
  import opened Decimals

  /** A value of the host language: what a meta variable holds, or any other object that an expression
      evaluates to, of which only its text, its truth and its integer value (if any) are ever used. */
  datatype Value = Int(number: int) | Str(text: string) | Object(shown: string, truth: bool, whole: Option<int>)

  /** The host language: evaluation of an expression under the visible variables, and the integer that a
      text denotes.  None stands for an exception. */
  datatype Python = Python(eval: (string, map<string, Value>) -> Option<Value>, toInt: string -> Option<int>)

  function Numeral(i: int): string {
    if i < 0 then "-" + Decimal(-i) else Decimal(i)
  }

  /** `'%s' % value` */
  function Show(value: Value): string {
    match value
    case Int(number) => Numeral(number)
    case Str(text) => text
    case Object(shown, _, _) => shown
  }

  predicate Truth(value: Value) {
    match value
    case Int(number) => number != 0
    case Str(text) => text != ""
    case Object(_, truth, _) => truth
  }

  /** `int(value)` */
  function ToInt(py: Python, value: Value): Option<int> {
    match value
    case Int(number) => Some(number)
    case Str(text) => py.toInt(text)
    case Object(_, _, whole) => whole
  }

  /** The value kept for a variable that is set to `text`: an integer if the text is how it prints. */
  function Stored(py: Python, text: string): (r: Value)
    ensures Show(r) == text
    ensures r.Int? || r == Str(text)
  {
    var number := py.toInt(text);
    if number.Some? && Numeral(number.value) == text then Int(number.value) else Str(text)
  }

  /** `s.strip()` */
  function Strip(s: string): (r: string)
    ensures r != "" ==> !IsSpace(r[0]) && !IsSpace(r[|r| - 1])
  {
    if s == "" then ""
    else if IsSpace(s[0]) then Strip(s[1..])
    else if IsSpace(s[|s| - 1]) then Strip(s[..|s| - 1])
    else s
  }

  function Join(sep: string, parts: seq<string>): string {
    if parts == [] then ""
    else if |parts| == 1 then parts[0]
    else parts[0] + sep + Join(sep, parts[1..])
  }

  /** The meta variables and ranges that are visible, each with its innermost meaning. */
  datatype Scope = Scope(variables: map<string, Value>, ranges: map<string, (int, int)>)
  {
    function Bind(name: string, value: Value): Scope {
      this.(variables := variables[name := value])
    }

    function BindRange(name: string, lower: int, upper: int): Scope {
      this.(ranges := ranges[name := (lower, upper)])
    }
  }

  datatype Expansion = Expansion(text: string, scope: Scope)

  function SepText(sep: Separator): string {
    if sep.Sep? then sep.token.value else ""
  }

  /** The text of a node and the scope behind it, or None if the program ends with an error. */
  function Expand(py: Python, scope: Scope, node: Node): Option<Expansion>
    decreases node
  {
    match node
    case Raw(raw) => Some(Expansion(raw.value, scope))
    case VarExp(id, exp) =>
      var value :- py.eval(exp.value, scope.variables);
      Some(Expansion("", scope.Bind(Strip(id.value), Stored(py, Show(value)))))
    case VarCode(id, body) =>
      var inner :- ExpandCode(py, scope, body);
      Some(Expansion("", scope.Bind(Strip(id.value), Stored(py, inner.text))))
    case Range(id, exp1, exp2) =>
      var value1 :- py.eval(exp1.value, scope.variables);
      var lower :- ToInt(py, value1);
      var value2 :- py.eval(exp2.value, scope.variables);
      var upper :- ToInt(py, value2);
      Some(Expansion("", scope.BindRange(Strip(id.value), lower, upper)))
    case For(id, sep, body) =>
      var name := Strip(id.value);
      if name !in scope.ranges then None
      else
        var (lower, upper) := scope.ranges[name];
        var parts :- Bodies(py, scope, name, body, lower, upper);
        Some(Expansion(Join(SepText(sep), parts), scope))
    case If(exp, thenBranch, elseBranch) =>
      var value :- py.eval(exp.value, scope.variables);
      if Truth(value) then
        var inner :- ExpandCode(py, scope, thenBranch);
        Some(Expansion(inner.text, scope))
      else if elseBranch.ElseCode? then
        var inner :- ExpandCode(py, scope, elseBranch.code);
        Some(Expansion(inner.text, scope))
      else Some(Expansion("", scope))
    case Exp(exp) =>
      var value :- py.eval(exp.value, scope.variables);
      Some(Expansion(Show(value), scope))
    case LiteralDollar(_) => Some(Expansion("$", scope))
    case Code(body) =>
      var inner :- ExpandCode(py, scope, body);
      Some(Expansion(inner.text, scope))
  }

  /** Each node sees what those before it have bound. */
  function ExpandCode(py: Python, scope: Scope, nodes: seq<Node>): Option<Expansion>
    decreases nodes, 0
  {
    if nodes == [] then Some(Expansion("", scope))
    else
      var first :- Expand(py, scope, nodes[0]);
      var rest :- ExpandCode(py, first.scope, nodes[1..]);
      Some(Expansion(first.text + rest.text, rest.scope))
  }

  /** The texts of the body for each value from `i` to `upper`, all under the same outer scope. */
  function Bodies(py: Python, scope: Scope, name: string, body: seq<Node>, i: int, upper: int)
    : (r: Option<seq<string>>)
    ensures r.Some? ==> |r.value| == if i > upper then 0 else upper - i + 1
    decreases body, 1, upper - i + 1
  {
    if i > upper then Some([])
    else
      var first :- ExpandCode(py, scope.Bind(name, Int(i)), body);
      var rest :- Bodies(py, scope, name, body, i + 1, upper);
      Some([first.text] + rest)
  }

  // ---------------------------------------------------------------- laws

  /** Code runs piece by piece: what comes first is done before, and may bind names for, what follows. */
  lemma {:induction false} Sequential(py: Python, scope: Scope, a: seq<Node>, b: seq<Node>)
    ensures ExpandCode(py, scope, a + b) ==
            var first :- ExpandCode(py, scope, a);
            var rest :- ExpandCode(py, first.scope, b);
            Some(Expansion(first.text + rest.text, rest.scope))
    decreases a
  {
    hide Expand;
    if a == [] {
      assert a + b == b;
      var rest := ExpandCode(py, scope, b);
      if rest.Some? {
        assert "" + rest.value.text == rest.value.text;
      }
    } else {
      assert (a + b)[1..] == a[1..] + b;
      var first := Expand(py, scope, a[0]);
      if first.Some? {
        Sequential(py, first.value.scope, a[1..], b);
        var more := ExpandCode(py, first.value.scope, a[1..]);
        if more.Some? {
          var rest := ExpandCode(py, more.value.scope, b);
          if rest.Some? {
            assert (first.value.text + more.value.text) + rest.value.text
                == first.value.text + (more.value.text + rest.value.text);
          }
        }
      }
    }
  }

  lemma NoCode(py: Python, scope: Scope)
    ensures ExpandCode(py, scope, []) == Some(Expansion("", scope))
  {
  }

  lemma RawText(py: Python, scope: Scope, node: Node)
    requires node.Raw?
    ensures Expand(py, scope, node) == Some(Expansion(node.raw.value, scope))
  {
  }

  function Setting(id: Token, i: int): Node {
    VarCode(id, [Raw(Token(KCode, Numeral(i)))])
  }

  /** A `$for` written out: for each value, a block that sets the variable and holds the body, and the
      separator behind every block but the last. */
  function Unrolled(id: Token, sep: Separator, body: seq<Node>, i: int, upper: int): seq<Node>
    decreases upper - i + 1
  {
    if i > upper then []
    else
      [Code([Setting(id, i)] + body)]
      + (if i != upper then [Raw(Token(KCode, SepText(sep)))] else [])
      + Unrolled(id, sep, body, i + 1, upper)
  }

  lemma SingleNode(py: Python, scope: Scope, node: Node)
    ensures ExpandCode(py, scope, [node]) == Expand(py, scope, node)
  {
    hide Expand;
    assert ExpandCode(py, scope, [node][1..]) == ExpandCode(py, scope, []);
    var first := Expand(py, scope, node);
    if first.Some? {
      assert first.value.text + "" == first.value.text;
    }
  }

  lemma SettingBinds(py: Python, scope: Scope, id: Token, i: int)
    requires py.toInt(Numeral(i)) == Some(i)
    ensures Expand(py, scope, Setting(id, i)) == Some(Expansion("", scope.Bind(Strip(id.value), Int(i))))
  {
    hide Strip, Numeral;
    SingleNode(py, scope, Raw(Token(KCode, Numeral(i))));
  }

  /** A block of an unrolled `$for` has the text of the body for that value. */
  lemma BlockIsBody(py: Python, scope: Scope, id: Token, body: seq<Node>, i: int)
    requires py.toInt(Numeral(i)) == Some(i)
    ensures Expand(py, scope, Code([Setting(id, i)] + body)) ==
            var inner :- ExpandCode(py, scope.Bind(Strip(id.value), Int(i)), body);
            Some(Expansion(inner.text, scope))
  {
    hide Strip, Setting, Numeral;
    SettingBinds(py, scope, id, i);
    var all := [Setting(id, i)] + body;
    assert all[1..] == body;
    var inner := ExpandCode(py, scope.Bind(Strip(id.value), Int(i)), body);
    if inner.Some? {
      assert "" + inner.value.text == inner.value.text;
    }
  }

  lemma UnrolledStep(py: Python, scope: Scope, first: Node, between: string, rest: seq<Node>)
    ensures ExpandCode(py, scope, [first, Raw(Token(KCode, between))] + rest) ==
            var x :- Expand(py, scope, first);
            var y :- ExpandCode(py, x.scope, rest);
            Some(Expansion(x.text + between + y.text, y.scope))
  {
    hide Expand;
    var middle := Raw(Token(KCode, between));
    Sequential(py, scope, [first, middle], rest);
    assert [first, middle] == [first] + [middle];
    Sequential(py, scope, [first], [middle]);
    SingleNode(py, scope, first);
    var x := Expand(py, scope, first);
    if x.Some? {
      SingleNode(py, x.value.scope, middle);
      RawText(py, x.value.scope, middle);
    }
  }

  lemma {:induction false} UnrolledText(py: Python, scope: Scope, id: Token, sep: Separator, body: seq<Node>,
                                        i: int, upper: int)
    requires forall k :: py.toInt(Numeral(k)) == Some(k)
    ensures ExpandCode(py, scope, Unrolled(id, sep, body, i, upper)) ==
            var parts :- Bodies(py, scope, Strip(id.value), body, i, upper);
            Some(Expansion(Join(SepText(sep), parts), scope))
    decreases upper - i + 1
  {
    hide Strip, Numeral, Expand, ExpandCode;
    if i > upper {
      NoCode(py, scope);
    } else {
      var block := Code([Setting(id, i)] + body);
      BlockIsBody(py, scope, id, body, i);
      UnrolledText(py, scope, id, sep, body, i + 1, upper);
      if i == upper {
        SingleNode(py, scope, block);
        assert Unrolled(id, sep, body, i, upper) == [block];
      } else {
        var rest := Unrolled(id, sep, body, i + 1, upper);
        UnrolledStep(py, scope, block, SepText(sep), rest);
        assert Unrolled(id, sep, body, i, upper) == [block, Raw(Token(KCode, SepText(sep)))] + rest;
      }
    }
  }

  /** A `$for` over a known range means the same as its unrolled form. */
  lemma ForIsUnrolled(py: Python, scope: Scope, id: Token, sep: Separator, body: seq<Node>)
    requires forall k :: py.toInt(Numeral(k)) == Some(k)
    requires Strip(id.value) in scope.ranges
    ensures var (lower, upper) := scope.ranges[Strip(id.value)];
            Expand(py, scope, For(id, sep, body)) ==
            ExpandCode(py, scope, Unrolled(id, sep, body, lower, upper))
  {
    hide Strip, Unrolled, Bodies, ExpandCode, Join;
    var (lower, upper) := scope.ranges[Strip(id.value)];
    UnrolledText(py, scope, id, sep, body, lower, upper);
  }
}
