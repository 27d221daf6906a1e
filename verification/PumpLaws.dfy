/** What each kind of node means, said apart from the definition of the expansion. */
module PumpLaws {
  import opened Options
  import opened Decimals
  import opened PumpSyntax
  import opened PumpExpand

  // ---------------------------------------------------------------- blocks and branches

  /** A block has the text of its code and leaves the caller's scope as it was, whatever the code binds. */
  lemma BlockLaw(py: Python, scope: Scope, body: seq<Node>)
    ensures Expand(py, scope, Code(body)).None? <==> ExpandCode(py, scope, body).None?
    ensures var r := Expand(py, scope, Code(body));
            r.Some? ==> r.value.text == ExpandCode(py, scope, body).value.text && r.value.scope == scope
  {
    hide ExpandCode;
  }

  /** A condition that is a number other than zero, a text other than the empty one or a true object
      chooses the first branch, which then means what a block means. */
  lemma ThenLaw(py: Python, scope: Scope, exp: Token, a: seq<Node>, branch: Else)
    requires var v := py.eval(exp.value, scope.variables);
             v.Some? && (v.value.Int? ==> v.value.number != 0) && (v.value.Str? ==> |v.value.text| > 0)
             && (v.value.Object? ==> v.value.truth)
    ensures Expand(py, scope, If(exp, a, branch)) == Expand(py, scope, Code(a))
  {
    hide ExpandCode;
  }

  /** Zero, the empty text and a false object choose the other branch, or nothing if there is none. */
  lemma ElseLaw(py: Python, scope: Scope, exp: Token, a: seq<Node>, branch: Else)
    requires var v := py.eval(exp.value, scope.variables);
             v.Some? && (v.value.Int? ==> v.value.number == 0) && (v.value.Str? ==> |v.value.text| == 0)
             && (v.value.Object? ==> !v.value.truth)
    ensures branch.ElseCode? ==> Expand(py, scope, If(exp, a, branch)) == Expand(py, scope, Code(branch.code))
    ensures branch.NoElse? ==> Expand(py, scope, If(exp, a, branch)) == Some(Expansion("", scope))
  {
    hide ExpandCode;
  }

  /** A condition that cannot be evaluated ends the program. */
  lemma NoConditionLaw(py: Python, scope: Scope, exp: Token, a: seq<Node>, branch: Else)
    requires py.eval(exp.value, scope.variables) == None
    ensures Expand(py, scope, If(exp, a, branch)) == None
  {
    hide ExpandCode;
  }

  // ---------------------------------------------------------------- texts

  /** The text of an integer: a numeral, with a minus sign in front if the integer is negative. */
  predicate Denotes(s: string, i: int) {
    if i < 0 then s != "" && s[0] == '-' && IsNumeral(s[1..], -i) else IsNumeral(s, i)
  }

  lemma NumeralDenotes(i: int)
    ensures Denotes(Numeral(i), i)
  {
    hide IsNumeral, Decimal;
    DecimalIsNumeral(if i < 0 then -i else i);
    assert i < 0 ==> Numeral(i)[1..] == Decimal(-i);
  }

  /** An expression prints its value: a text as it is, an integer as its numeral, any other object as the
      host language shows it; and changes nothing. */
  lemma PrintLaw(py: Python, scope: Scope, exp: Token)
    ensures var v, r := py.eval(exp.value, scope.variables), Expand(py, scope, Exp(exp));
            && (v.None? ==> r.None?)
            && (v.Some? ==>
                  && r.Some? && r.value.scope == scope
                  && (v.value.Int? ==> Denotes(r.value.text, v.value.number))
                  && (v.value.Str? ==> r.value.text == v.value.text)
                  && (v.value.Object? ==> r.value.text == v.value.shown))
  {
    var v := py.eval(exp.value, scope.variables);
    if v.Some? && v.value.Int? {
      NumeralDenotes(v.value.number);
    }
    hide Denotes, Numeral;
  }

  lemma LiteralLaw(py: Python, scope: Scope, token: Token)
    ensures Expand(py, scope, LiteralDollar(token)) == Some(Expansion("$", scope))
    ensures Expand(py, scope, Raw(token)) == Some(Expansion(token.value, scope))
  {
  }

  // ---------------------------------------------------------------- bindings

  /** White space is the space and the five control characters from the tab to the carriage return. */
  lemma SpacesAre(c: char)
    ensures IsSpace(c) <==> c == ' ' || 9 <= c as int <= 13
  {
  }

  lemma StripFront(c: char, s: string)
    requires IsSpace(c)
    ensures Strip([c] + s) == Strip(s)
  {
    hide IsSpace;
    assert ([c] + s)[1..] == s;
  }

  lemma StripBack(s: string, c: char)
    requires IsSpace(c) && s != "" && !IsSpace(s[0])
    ensures Strip(s + [c]) == Strip(s)
  {
    hide IsSpace;
    var t := s + [c];
    assert t[..|t| - 1] == s && t[|t| - 1] == c && t[0] == s[0];
  }

  lemma StripNone(s: string)
    requires s != "" ==> !IsSpace(s[0]) && !IsSpace(s[|s| - 1])
    ensures Strip(s) == s
  {
    hide IsSpace;
  }

  lemma {:induction false} StripAll(s: string)
    requires Blank(s)
    ensures Strip(s) == ""
  {
    hide IsSpace;
    if s != "" {
      assert s[0] == s[0];
      StripAll(s[1..]);
    }
  }

  lemma {:induction false} StripEnd(s: string, after: string)
    requires Blank(after) && s != "" && !IsSpace(s[0]) && !IsSpace(s[|s| - 1])
    ensures Strip(s + after) == s
    decreases |after|
  {
    hide IsSpace, Strip;
    if after == "" {
      assert s + after == s;
      StripNone(s);
    } else {
      var front := after[..|after| - 1];
      assert after == front + [after[|after| - 1]] && (s + front)[0] == s[0];
      assert s + after == (s + front) + [after[|after| - 1]];
      StripEnd(s, front);
      StripBack(s + front, after[|after| - 1]);
    }
  }

  /** Names are taken without the white space around them. */
  lemma {:induction false} StripLaw(before: string, s: string, after: string)
    requires Blank(before) && Blank(after) && (s != "" ==> !IsSpace(s[0]) && !IsSpace(s[|s| - 1]))
    ensures Strip(before + s + after) == s
    decreases |before|
  {
    hide IsSpace, Strip;
    if before != "" {
      assert before + s + after == [before[0]] + (before[1..] + s + after);
      StripLaw(before[1..], s, after);
      StripFront(before[0], before[1..] + s + after);
    } else if s != "" {
      assert before + s + after == s + after;
      StripEnd(s, after);
    } else {
      assert before + s + after == after;
      StripAll(after);
    }
  }

  /** `$var` writes nothing and gives the name a value that prints as the text of the code; nothing else
      in the scope changes. */
  lemma VarCodeLaw(py: Python, scope: Scope, id: Token, body: seq<Node>)
    ensures var inner, r := ExpandCode(py, scope, body), Expand(py, scope, VarCode(id, body));
            && (r.None? <==> inner.None?)
            && (r.Some? ==> r.value.text == "" && Binds(scope, r.value.scope, Strip(id.value), inner.value.text))
  {
    hide ExpandCode, Strip, Show;
  }

  /** Bound by an expression, it prints as the value does. */
  lemma VarExpLaw(py: Python, scope: Scope, id: Token, exp: Token)
    ensures var printed, r := Expand(py, scope, Exp(exp)), Expand(py, scope, VarExp(id, exp));
            && (r.None? <==> printed.None?)
            && (r.Some? ==> r.value.text == "" && Binds(scope, r.value.scope, Strip(id.value), printed.value.text))
  {
    hide Strip, Show;
  }

  /** One name has a new value, which prints as `text`; the rest is as it was. */
  ghost predicate Binds(scope: Scope, scope': Scope, name: string, text: string) {
    && name in scope'.variables && Show(scope'.variables[name]) == text
    && (forall x :: x != name ==> (x in scope'.variables <==> x in scope.variables))
    && (forall x :: x != name && x in scope.variables ==> scope'.variables[x] == scope.variables[x])
    && scope'.ranges == scope.ranges
  }

  /** The integer that a value stands for where a number is needed. */
  predicate Counts(py: Python, v: Value, i: int) {
    && (v.Int? ==> v.number == i) && (v.Str? ==> py.toInt(v.text) == Some(i))
    && (v.Object? ==> v.whole == Some(i))
  }

  /** `$range` writes nothing and gives the name a lower bound, from the first expression, and an upper,
      from the second; nothing else changes. */
  lemma RangeLaw(py: Python, scope: Scope, id: Token, first: Token, second: Token, v: Value, w: Value,
                 lower: int, upper: int)
    requires py.eval(first.value, scope.variables) == Some(v) && Counts(py, v, lower)
    requires py.eval(second.value, scope.variables) == Some(w) && Counts(py, w, upper)
    ensures Expand(py, scope, Range(id, first, second)) ==
      Some(Expansion("", Scope(scope.variables, scope.ranges[Strip(id.value) := (lower, upper)])))
  {
    hide Strip, ToInt, Counts, ExpandCode, Bodies;
    CountsSome(py, v, lower);
    CountsSome(py, w, upper);
  }

  lemma CountsSome(py: Python, v: Value, i: int)
    requires Counts(py, v, i)
    ensures ToInt(py, v) == Some(i)
  {
  }

  /** It fails if either is no integer. */
  lemma NoRangeLaw(py: Python, scope: Scope, id: Token, first: Token, second: Token)
    requires var v, w := py.eval(first.value, scope.variables), py.eval(second.value, scope.variables);
             v.None? || w.None? || NoCount(py, v.value) || NoCount(py, w.value)
    ensures Expand(py, scope, Range(id, first, second)) == None
  {
    hide Strip, NoCount, ToInt, Counts, ExpandCode, Bodies;
    var v, w := py.eval(first.value, scope.variables), py.eval(second.value, scope.variables);
    if v.Some? && NoCount(py, v.value) {
      CountsNothing(py, v.value);
    } else if w.Some? && NoCount(py, w.value) {
      CountsNothing(py, w.value);
    }
  }

  ghost predicate NoCount(py: Python, v: Value) {
    forall i :: !Counts(py, v, i)
  }

  lemma CountsNothing(py: Python, v: Value)
    requires NoCount(py, v)
    ensures ToInt(py, v) == None
  {
    var r := ToInt(py, v);
    assert r.Some? ==> Counts(py, v, r.value);
  }

  // ---------------------------------------------------------------- loops

  /** A `$for` whose lower bound is above its upper writes nothing; and one over an unknown range fails. */
  lemma NoRoundsLaw(py: Python, scope: Scope, id: Token, sep: Separator, body: seq<Node>)
    ensures Strip(id.value) !in scope.ranges ==> Expand(py, scope, For(id, sep, body)).None?
    ensures Strip(id.value) in scope.ranges && scope.ranges[Strip(id.value)].0 > scope.ranges[Strip(id.value)].1 ==>
      Expand(py, scope, For(id, sep, body)) == Some(Expansion("", scope))
  {
    hide Strip, ExpandCode;
  }

  /** The texts with the separator between them. */
  function Glued(texts: seq<string>, sep: string): string {
    if texts == [] then ""
    else if |texts| == 1 then texts[0]
    else Glued(texts[..|texts| - 1], sep) + sep + texts[|texts| - 1]
  }

  lemma {:induction false} GluedFirst(texts: seq<string>, sep: string)
    requires |texts| > 1
    ensures Glued(texts, sep) == texts[0] + sep + Glued(texts[1..], sep)
    decreases |texts|
  {
    var n := |texts| - 1;
    if n > 1 {
      GluedFirst(texts[..n], sep);
      assert texts[..n][1..] == texts[1..][..n - 1];
      var middle := Glued(texts[1..][..n - 1], sep);
      assert (texts[0] + sep + middle) + sep + texts[n] == texts[0] + sep + (middle + sep + texts[n]);
    } else {
      assert texts[..n] == [texts[0]] && texts[1..] == [texts[1]];
    }
  }

  lemma {:induction false} JoinIsGlued(texts: seq<string>, sep: string)
    ensures Join(sep, texts) == Glued(texts, sep)
    decreases |texts|
  {
    if |texts| > 1 {
      JoinIsGlued(texts[1..], sep);
      GluedFirst(texts, sep);
    }
  }

  /** The body expands to `text` for the number `i`, under the scope in which the loop stands. */
  predicate IsRound(py: Python, scope: Scope, name: string, body: seq<Node>, i: int, text: string) {
    var round := ExpandCode(py, scope.Bind(name, Int(i)), body);
    round.Some? && round.value.text == text
  }

  predicate AreRounds(py: Python, scope: Scope, name: string, body: seq<Node>, lower: int, texts: seq<string>) {
    forall k :: 0 <= k < |texts| ==> IsRound(py, scope, name, body, lower + k, texts[k])
  }

  lemma LaterRounds(py: Python, scope: Scope, name: string, body: seq<Node>, lower: int, texts: seq<string>)
    requires AreRounds(py, scope, name, body, lower, texts) && texts != []
    ensures AreRounds(py, scope, name, body, lower + 1, texts[1..])
    ensures var round := ExpandCode(py, scope.Bind(name, Int(lower)), body);
            round.Some? && round.value.text == texts[0]
  {
    hide ExpandCode, Scope.Bind;
    assert IsRound(py, scope, name, body, lower + 0, texts[0]);
    forall k | 0 <= k < |texts| - 1 ensures IsRound(py, scope, name, body, lower + 1 + k, texts[1..][k]) {
      assert IsRound(py, scope, name, body, lower + (k + 1), texts[k + 1]);
    }
  }

  lemma {:induction false} RoundsAreBodies(py: Python, scope: Scope, name: string, body: seq<Node>, lower: int,
                                           upper: int, texts: seq<string>)
    requires |texts| == (if lower > upper then 0 else upper - lower + 1)
    requires AreRounds(py, scope, name, body, lower, texts)
    ensures Bodies(py, scope, name, body, lower, upper) == Some(texts)
    decreases |texts|
  {
    hide ExpandCode, AreRounds, Scope.Bind;
    if texts != [] {
      LaterRounds(py, scope, name, body, lower, texts);
      RoundsAreBodies(py, scope, name, body, lower + 1, upper, texts[1..]);
      assert texts == [texts[0]] + texts[1..];
    }
  }

  /** A `$for` writes the texts of its body for the numbers of the range, from the lower bound up, with the
      separator between them, and leaves the scope as it was. */
  lemma ForLaw(py: Python, scope: Scope, id: Token, sep: Separator, body: seq<Node>, lower: int, upper: int,
               texts: seq<string>)
    requires Strip(id.value) in scope.ranges && scope.ranges[Strip(id.value)] == (lower, upper)
    requires |texts| == (if lower > upper then 0 else upper - lower + 1)
    requires AreRounds(py, scope, Strip(id.value), body, lower, texts)
    ensures Expand(py, scope, For(id, sep, body)) ==
      Some(Expansion(Glued(texts, if sep.Sep? then sep.token.value else ""), scope))
  {
    hide Strip, ExpandCode, AreRounds, Bodies, Glued;
    RoundsAreBodies(py, scope, Strip(id.value), body, lower, upper, texts);
    JoinIsGlued(texts, SepText(sep));
  }
}
