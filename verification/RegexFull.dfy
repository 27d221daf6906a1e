/** The RE class of gtest-port.cc: partial and full matching.

    A full match is compiled into the expression itself, by adding a `^` and a `$` where the text
    does not already start and end with them.  The test for the `$` looks at the last character
    only, so an expression that ends in an escaped dollar does not get one; the theorem at the end
    says that this is the only case in which a full match is not a match of the whole string. */
module RegexFull {
  import opened Options
  import opened CStrings
  import opened RegexSyntax
  import opened RegexMatch

  predicate EndsInEscapedDollar(re: Regex) {
    !re.atEnd && re.items != [] && re.items[|re.items| - 1] == Item(true, '$', Once)
  }

  predicate EndsInDollar(s: string) {
    s != "" && s[|s| - 1] == '$'
  }

  /** The pattern text RE::Init builds for full matches. */
  function FullText(s: string): string {
    (if At(s, 0) != '^' then "^" else "") + s + (if !EndsInDollar(s) then "$" else "")
  }

  /** The expression that `FullText` spells. */
  function FullSyntax(re: Regex): Regex {
    Regex(true, re.items, re.atEnd || !EndsInEscapedDollar(re))
  }

  lemma LastCharOfItem(it: Item)
    requires ValidItem(it)
    ensures RenderItem(it) != ""
    ensures EndsInDollar(RenderItem(it)) <==> it == Item(true, '$', Once)
  {
    var text := RenderItem(it);
    assert text[|text| - 1] == if it.rep == Once then it.c else RenderRep(it.rep)[0];
  }

  lemma LastCharOfConcat(a: string, b: string)
    ensures EndsInDollar(a + b) <==> EndsInDollar(if b == "" then a else b)
  {
    assert b == "" ==> a + b == a;
  }

  lemma {:induction false} LastCharOfBody(items: seq<Item>, atEnd: bool)
    requires ValidItems(items)
    ensures RenderBody(items, atEnd) == "" <==> items == [] && !atEnd
    ensures EndsInDollar(RenderBody(items, atEnd)) <==> atEnd || EndsInEscapedDollar(Regex(true, items, atEnd))
  {
    if items != [] {
      LastCharOfItem(items[0]);
      LastCharOfBody(items[1..], atEnd);
      LastCharOfConcat(RenderItem(items[0]), RenderBody(items[1..], atEnd));
    }
  }

  lemma {:induction false} AddEnd(items: seq<Item>)
    ensures RenderBody(items, true) == RenderBody(items, false) + "$"
  {
    if items != [] {
      AddEnd(items[1..]);
    }
  }

  lemma AnchorsOfText(re: Regex)
    requires ValidItems(re.items)
    ensures At(Render(re), 0) == '^' <==> re.atStart
    ensures EndsInDollar(Render(re)) <==> re.atEnd || EndsInEscapedDollar(re)
  {
    StartAnchor(re);
    LastCharOfBody(re.items, re.atEnd);
  }

  /** The full pattern is itself a valid expression, and this is the one. */
  lemma FullTextIsFullSyntax(re: Regex)
    requires ValidItems(re.items)
    ensures FullText(Render(re)) == Render(FullSyntax(re))
  {
    hide RenderBody, Render, EndsInDollar, EndsInEscapedDollar;
    AnchorsOfText(re);
    AddEnd(re.items);
    StartOfText(re);
    var text, body := Render(re), RenderBody(re.items, re.atEnd);
    var end := if !EndsInDollar(text) then "$" else "";
    assert body + end == RenderBody(re.items, re.atEnd || !EndsInEscapedDollar(re));
    assert ("^" + body) + end == "^" + (body + end);
    StartOfText(FullSyntax(re));
  }

  lemma StartOfText(re: Regex)
    ensures Render(re) == (if re.atStart then "^" else "") + RenderBody(re.items, re.atEnd)
    ensures (if re.atStart then "" else "^") + Render(re) == "^" + RenderBody(re.items, re.atEnd)
  {
  }

  // ---------------------------------------------------------------- unique reading

  lemma {:induction false} BodyInjective(a: seq<Item>, aEnd: bool, b: seq<Item>, bEnd: bool)
    requires ValidItems(a) && ValidItems(b)
    requires RenderBody(a, aEnd) == RenderBody(b, bEnd)
    ensures a == b && aEnd == bEnd
    decreases |a|
  {
    hide RenderBody, ValidItem, IsRepeat, RenderRep;
    NoBody();
    if a != [] {
      FirstAtom(a, aEnd);
    }
    if b != [] {
      FirstAtom(b, bEnd);
    }
    if a != [] && b != [] {
      RepInjective(a[0].rep, b[0].rep);
      BodyInjective(a[1..], aEnd, b[1..], bEnd);
      assert a == [a[0]] + a[1..] && b == [b[0]] + b[1..];
    }
  }

  lemma RepInjective(a: Rep, b: Rep)
    ensures RenderRep(a) == RenderRep(b) ==> a == b
  {
    assert RenderRep(a) == RenderRep(b) ==> a == Once || RenderRep(a)[0] == RenderRep(b)[0];
  }

  /** A text is the printed form of at most one expression. */
  lemma RenderInjective(a: Regex, b: Regex)
    requires ValidItems(a.items) && ValidItems(b.items) && Render(a) == Render(b)
    ensures a == b
  {
    StartAnchor(a);
    StartAnchor(b);
    BodyInjective(a.items, a.atEnd, b.items, b.atEnd);
  }

  ghost function SyntaxOf(s: string): (re: Regex)
    requires IsWellFormed(s)
    ensures ValidItems(re.items) && s == Render(re)
  {
    var re: Regex :| ValidItems(re.items) && s == Render(re);
    re
  }

  // ---------------------------------------------------------------- the class

  /** Lays out the full pattern in a buffer with room for the two anchors and the terminator. */
  method BuildFullPattern(s: CString) returns (text: CString)
    requires |s| + 3 <= SIZE_MAX
    ensures text == FullText(s)
  {
    var len := |s|;
    var buffer := new char[len + 3];
    var n := 0;
    if At(s, 0) != '^' {
      buffer[n] := '^';
      n := n + 1;
    }
    forall k | 0 <= k < len {
      buffer[n + k] := s[k];
    }
    assert buffer[..n + len] == (if At(s, 0) != '^' then "^" else "") + s;
    n := n + len;
    if len == 0 || s[len - 1] != '$' {
      buffer[n] := '$';
      n := n + 1;
    }
    buffer[n] := '\0';
    assert buffer[..n] == FullText(s);
    text := buffer[..n];
  }

  class RE {
    var pattern: Option<CString>
    var fullPattern: Option<CString>
    var isValid: bool

    ghost predicate Valid()
      reads this
    {
      && (isValid <==> pattern.Some? && IsWellFormed(pattern.value))
      && (isValid ==> fullPattern == Some(FullText(pattern.value)))
    }

    /** RE::Init */
    constructor (regex: Option<CString>)
      requires regex.Some? ==> |regex.value| + 3 <= SIZE_MAX
      ensures Valid() && pattern == regex
      ensures isValid ==> IsWellFormed(fullPattern.value)
    {
      pattern, fullPattern := regex, None;
      var ok := ValidateRegex(regex);
      isValid := ok;
      new;
      if ok {
        var text := BuildFullPattern(regex.value);
        FullTextIsFullSyntax(SyntaxOf(regex.value));
        fullPattern := Some(text);
      }
    }

    /** True iff the expression matches a substring of `str`. */
    method PartialMatch(str: Option<CString>) returns (matched: bool)
      requires Valid()
      ensures matched <==> isValid && str.Some? && Matches(SyntaxOf(pattern.value), str.value)
    {
      matched := false;
      if isValid {
        matched := MatchRegexAnywhere(SyntaxOf(pattern.value), pattern, str);
      }
    }

    /** True iff the whole of `str` is in the language, unless the expression ends in an escaped
        dollar: then a prefix of `str` is enough. */
    method FullMatch(str: Option<CString>) returns (matched: bool)
      requires Valid()
      ensures matched ==> isValid && str.Some?
      ensures isValid && str.Some? ==>
        var re := SyntaxOf(pattern.value);
        matched <==>
          if EndsInEscapedDollar(re) then HeadMatch(re.items, false, str.value)
          else InLanguage(re.items, str.value)
    {
      matched := false;
      if isValid {
        ghost var re := SyntaxOf(pattern.value);
        FullTextIsFullSyntax(re);
        matched := MatchRegexAnywhere(FullSyntax(re), fullPattern, str);
        if str.Some? {
          FullSyntaxMatches(re, str.value);
        }
      }
    }
  }

  // ---------------------------------------------------------------- when a full match is full

  lemma FullSyntaxMatches(re: Regex, s: string)
    ensures Matches(FullSyntax(re), s) <==>
      if EndsInEscapedDollar(re) then HeadMatch(re.items, false, s) else InLanguage(re.items, s)
  {
    assert s[0..|s|] == s;
    assert forall j :: 0 <= j <= |s| ==> s[0..j] == s[..j];
  }

  /** A character the atom accepts. */
  function Sample(it: Item): (c: char)
    requires ValidItem(it)
    ensures c != '\0' && AtomMatchesChar(it.escaped, it.c, c)
  {
    if !it.escaped then it.c
    else match it.c
      case 'd' => '0'
      case 'D' => 'a'
      case 'f' => '\U{0C}'
      case 'n' => '\n'
      case 'r' => '\r'
      case 's' => ' '
      case 'S' => 'a'
      case 't' => '\t'
      case 'v' => '\U{0B}'
      case 'w' => 'a'
      case 'W' => ' '
      case _ => it.c
  }

  /** Every valid expression has a text in its language that is no longer than the expression. */
  lemma {:induction false} LanguageNonempty(items: seq<Item>) returns (w: string)
    requires ValidItems(items)
    ensures InLanguage(items, w) && '\0' !in w && |w| <= |items|
    decreases |items|
  {
    w := "";
    if items != [] {
      var tail := LanguageNonempty(items[1..]);
      w := [Sample(items[0])] + tail;
      assert w[..1] == [Sample(items[0])] && w[1..] == tail;
      assert ItemAccepts(items[0], w[..1]);
    }
  }

  lemma DollarOnly()
    ensures forall c :: AtomMatchesChar(true, '$', c) ==> c == '$'
  {
  }

  /** A text in the language of items ending in `\$` ends in a dollar. */
  lemma {:induction false} EndsAsItems(items: seq<Item>, w: string)
    requires items != [] && items[|items| - 1] == Item(true, '$', Once) && InLanguage(items, w)
    ensures EndsInDollar(w)
    decreases |items|
  {
    hide AtomMatchesChar;
    DollarOnly();
    var k :| 0 <= k <= |w| && ItemAccepts(items[0], w[..k]) && InLanguage(items[1..], w[k..]);
    if |items| == 1 {
      assert w[k..] == "" && w == w[..k];
      assert w[0] in w[..k];
    } else {
      EndsAsItems(items[1..], w[k..]);
    }
  }

  lemma {:induction false} ItemsRenderLonger(items: seq<Item>)
    ensures |items| <= |RenderBody(items, false)|
    ensures items != [] && items[|items| - 1].escaped ==> |items| < |RenderBody(items, false)|
    decreases |items|
  {
    if items != [] {
      ItemsRenderLonger(items[1..]);
    }
  }

  /** FullMatch means "the whole string is in the language" for exactly the expressions that do not
      end in an escaped dollar. */
  lemma FullMatchExactness(s: CString)
    requires IsWellFormed(s)
    ensures var re := SyntaxOf(s);
            (forall t: CString :: Matches(FullSyntax(re), t) <==> InLanguage(re.items, t))
            <==> !EndsInEscapedDollar(re)
  {
    hide Matches, InLanguage, Sample, RenderBody, AtomMatchesChar, IsWellFormed;
    var re := SyntaxOf(s);
    if EndsInEscapedDollar(re) {
      var t := LongerText(re);
      FullSyntaxMatches(re, t);
    } else {
      forall t: CString ensures Matches(FullSyntax(re), t) <==> InLanguage(re.items, t) {
        FullSyntaxMatches(re, t);
      }
    }
  }

  /** A text that is not in the language, though it starts with one that is. */
  lemma LongerText(re: Regex) returns (t: CString)
    requires ValidItems(re.items) && EndsInEscapedDollar(re) && |Render(re)| < SIZE_MAX
    ensures HeadMatch(re.items, false, t) && !InLanguage(re.items, t)
  {
    hide InLanguage, Sample, RenderBody, Render, AtomMatchesChar, ValidItem;
    var w := LanguageNonempty(re.items);
    ItemsRenderLonger(re.items);
    BodyIsShorter(re);
    t := w + "x";
    assert t[..|w|] == w;
    if InLanguage(re.items, t) {
      EndsAsItems(re.items, t);
    }
  }

  lemma BodyIsShorter(re: Regex)
    ensures !re.atEnd ==> |RenderBody(re.items, false)| <= |Render(re)|
  {
  }
}
