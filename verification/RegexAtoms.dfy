/** What every atom of the regular expressions stands for, and which characters make one, spelled out
    character by character, apart from the predicates that validator and matcher share. */
module RegexAtoms {
  import opened Options
  import opened CStrings
  import opened RegexSyntax
  import opened RegexMatch
  import opened RegexFull

  // ---------------------------------------------------------------- which characters make an atom

  /** The escapes are the letters dDfnrsStvwW and the characters of ASCII that are neither letters nor
      digits, from the exclamation mark to the tilde. */
  lemma EscapesAre(c: char)
    ensures IsValidEscape(c) <==>
      || c == 'd' || c == 'D' || c == 'f' || c == 'n' || c == 'r' || c == 's' || c == 'S' || c == 't' || c == 'v'
      || c == 'w' || c == 'W' || '!' <= c <= '/' || ':' <= c <= '@' || '[' <= c <= '`' || '{' <= c <= '~'
  {
    hide IsAsciiPunct, IsInSet;
    PunctuationIs(c);
    LettersAre(c);
  }

  lemma PunctuationIs(c: char)
    ensures IsAsciiPunct(c) <==> '!' <= c <= '/' || ':' <= c <= '@' || '[' <= c <= '`' || '{' <= c <= '~'
  {
  }

  lemma LettersAre(c: char)
    ensures IsInSet(c, "dDfnrsStvwW") <==>
      || c == 'd' || c == 'D' || c == 'f' || c == 'n' || c == 'r' || c == 's' || c == 'S' || c == 't' || c == 'v'
      || c == 'w' || c == 'W'
  {
  }

  /** A plain atom is any character but the terminator, the backslash, an anchor, a repetition, or a
      bracket or bar of the richer syntaxes. */
  lemma PlainAtomsAre(c: char, rep: Rep)
    ensures ValidItem(Item(false, c, rep)) <==>
      && c != '\0' && c != '\\' && c != '^' && c != '$' && c != '?' && c != '*' && c != '+'
      && c != '(' && c != ')' && c != '[' && c != ']' && c != '{' && c != '}' && c != '|'
  {
  }

  // ---------------------------------------------------------------- what an atom stands for

  /** The characters an atom stands for. */
  predicate Stands(escaped: bool, c: char, ch: char) {
    if !escaped then (if c == '.' then ch != '\n' else ch == c)
    else if c == 'd' then '0' <= ch <= '9'
    else if c == 'D' then ch < '0' || ch > '9'
    else if c == 'f' then ch == '\U{0C}'
    else if c == 'n' then ch == '\n'
    else if c == 'r' then ch == '\r'
    else if c == 's' then ch == ' ' || ch == '\t' || ch == '\n' || ch == '\r' || ch == '\U{0B}' || ch == '\U{0C}'
    else if c == 'S' then ch != ' ' && ch != '\t' && ch != '\n' && ch != '\r' && ch != '\U{0B}' && ch != '\U{0C}'
    else if c == 't' then ch == '\t'
    else if c == 'v' then ch == '\U{0B}'
    else if c == 'w' then '0' <= ch <= '9' || 'A' <= ch <= 'Z' || 'a' <= ch <= 'z' || ch == '_'
    else if c == 'W' then ch < '0' || '9' < ch < 'A' || 'Z' < ch < '_' || ch == '`' || ch > 'z'
    else ch == c
  }

  lemma AtomStands(it: Item, ch: char)
    requires ValidItem(it)
    ensures AtomMatchesChar(it.escaped, it.c, ch) <==> Stands(it.escaped, it.c, ch)
  {
    hide IsAsciiPunct, IsInSet, IsAsciiWhiteSpace;
    if it.escaped {
      PunctuationIs(it.c);
      LettersAre(it.c);
      SpacesAre(ch);
    }
  }

  lemma SpacesAre(c: char)
    ensures IsAsciiWhiteSpace(c) <==>
      c == ' ' || c == '\t' || c == '\n' || c == '\r' || c == '\U{0B}' || c == '\U{0C}'
  {
  }

  /** The whole strings that match one atom with its repetition: every character is one that the atom
      stands for, and their number is one, at most one, any, or at least one. */
  lemma OneItemMatches(it: Item, w: string)
    requires ValidItem(it)
    ensures HeadMatch([it], true, w) <==>
      && (forall i :: 0 <= i < |w| ==> Stands(it.escaped, it.c, w[i]))
      && (it.rep == Once ==> |w| == 1) && (it.rep == Optional ==> |w| <= 1) && (it.rep == Plus ==> |w| >= 1)
  {
    hide AtomMatchesChar, Stands, ValidItem;
    forall ch ensures AtomMatchesChar(it.escaped, it.c, ch) <==> Stands(it.escaped, it.c, ch) {
      AtomStands(it, ch);
    }
    SingleLanguage(it, w);
    assert w[..|w|] == w;
    assert forall i :: 0 <= i < |w| ==> w[i] in w;
  }

  lemma SingleLanguage(it: Item, w: string)
    ensures HeadMatch([it], true, w) <==> ItemAccepts(it, w)
  {
    hide ItemAccepts;
    assert w[..|w|] == w && w[|w|..] == "";
    assert [it][1..] == [];
    if ItemAccepts(it, w) {
      assert InLanguage([], w[|w|..]);
      assert InLanguage([it], w);
    }
    if HeadMatch([it], true, w) {
      assert InLanguage([it], w);
      var k :| 0 <= k <= |w| && ItemAccepts(it, w[..k]) && InLanguage([], w[k..]);
      assert k == |w|;
    }
  }

  /** Atoms without repetition match one character each, in order. */
  lemma {:induction false} OnceLanguage(items: seq<Item>, w: string)
    requires ValidItems(items) && forall i :: 0 <= i < |items| ==> items[i].rep == Once
    ensures InLanguage(items, w) <==>
      |w| == |items| && forall i :: 0 <= i < |w| ==> Stands(items[i].escaped, items[i].c, w[i])
    decreases |items|
  {
    hide AtomMatchesChar, Stands, ValidItem;
    if items != [] {
      var it, rest := items[0], items[1..];
      forall ch ensures AtomMatchesChar(it.escaped, it.c, ch) <==> Stands(it.escaped, it.c, ch) {
        AtomStands(it, ch);
      }
      if InLanguage(items, w) {
        var k :| 0 <= k <= |w| && ItemAccepts(it, w[..k]) && InLanguage(rest, w[k..]);
        assert k == 1 && w[..k][0] == w[0];
        OnceLanguage(rest, w[1..]);
        assert forall i :: 0 < i < |w| ==> w[i] == w[1..][i - 1] && items[i] == rest[i - 1];
      }
      if |w| == |items| && forall i :: 0 <= i < |w| ==> Stands(items[i].escaped, items[i].c, w[i]) {
        OnceLanguage(rest, w[1..]);
        assert w[..1] == [w[0]] && ItemAccepts(it, w[..1]);
      }
    }
  }

  /** How a repetition and the anchors are written. */
  lemma SignsAre(c: char, sign: char, rep: Rep)
    requires ValidItem(Item(false, c, Once))
    requires (sign == '?' && rep == Optional) || (sign == '*' && rep == Star) || (sign == '+' && rep == Plus)
    ensures IsWellFormed([c, sign]) && SyntaxOf([c, sign]) == Regex(false, [Item(false, c, rep)], false)
    ensures IsWellFormed(['^', c, '$']) && SyntaxOf(['^', c, '$']) == Regex(true, [Item(false, c, Once)], true)
  {
    var repeated, anchored := Regex(false, [Item(false, c, rep)], false), Regex(true, [Item(false, c, Once)], true);
    OneItemText(Item(false, c, rep), false);
    OneItemText(Item(false, c, Once), true);
    hide RenderBody, RenderItem, IsInSet;
    assert ValidItems(repeated.items) && ValidItems(anchored.items);
    assert Render(repeated) == [c, sign] && Render(anchored) == ['^', c, '$'];
    hide Render;
    RenderInjective(SyntaxOf([c, sign]), repeated);
    RenderInjective(SyntaxOf(['^', c, '$']), anchored);
  }

  lemma OneItemText(it: Item, atEnd: bool)
    ensures RenderBody([it], atEnd) ==
      (if it.escaped then ['\\', it.c] else [it.c])
      + (match it.rep case Once => "" case Optional => "?" case Star => "*" case Plus => "+")
      + if atEnd then "$" else ""
  {
    assert [it][1..] == [];
    NoBody();
  }

  // ---------------------------------------------------------------- the three operations on `a.c`

  /** On "abc" the pattern `a.c` is found, and matches in full; on "a\nc" it does neither. */
  method DotExample() returns (found: bool, full: bool, none: bool)
    ensures found && full && !none
  {
    var re := new RE(Some("a.c"));
    DotSyntax();
    found := re.PartialMatch(Some("abc"));
    full := re.FullMatch(Some("abc"));
    none := re.PartialMatch(Some("a\nc"));
    DotMatches();
  }

  const DOT: seq<Item> := [Item(false, 'a', Once), Item(false, '.', Once), Item(false, 'c', Once)]

  lemma DotSyntax()
    ensures IsWellFormed("a.c") && SyntaxOf("a.c") == Regex(false, DOT, false)
  {
    DotStands();
    hide ValidItem;
    assert DOT[1..] == [Item(false, '.', Once), Item(false, 'c', Once)] && DOT[1..][1..] == [Item(false, 'c', Once)];
    assert Render(Regex(false, DOT, false)) == "a.c";
    hide RenderBody, Render;
    RenderInjective(SyntaxOf("a.c"), Regex(false, DOT, false));
  }

  lemma DotLanguage(w: string)
    ensures InLanguage(DOT, w) <==> |w| == 3 && w[0] == 'a' && w[1] != '\n' && w[2] == 'c'
  {
    DotStands();
    hide InLanguage, ValidItem;
    OnceLanguage(DOT, w);
  }

  lemma DotMatches()
    ensures Matches(Regex(false, DOT, false), "abc") && InLanguage(DOT, "abc")
    ensures !Matches(Regex(false, DOT, false), "a\nc")
  {
    hide InLanguage;
    DotLanguage("abc");
    assert "abc"[0..3] == "abc";
    NotAcrossLines("a\nc");
  }

  lemma NotAcrossLines(s: string)
    requires |s| == 3 && s[1] == '\n'
    ensures !Matches(Regex(false, DOT, false), s)
  {
    hide InLanguage;
    forall i, j | 0 <= i <= j <= |s| ensures !InLanguage(DOT, s[i..j]) {
      DotLanguage(s[i..j]);
    }
  }

  lemma DotStands()
    ensures ValidItems(DOT) && Stands(false, 'a', 'a') && Stands(false, '.', 'b') && Stands(false, 'c', 'c')
    ensures !Stands(false, '.', '\n')
  {
    hide Stands;
    PlainAtomsAre('a', Once);
    PlainAtomsAre('.', Once);
    PlainAtomsAre('c', Once);
    DotCharacter();
  }

  lemma DotCharacter()
    ensures Stands(false, 'a', 'a') && Stands(false, '.', 'b') && Stands(false, 'c', 'c') && !Stands(false, '.', '\n')
  {
  }
}
