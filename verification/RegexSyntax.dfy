/** The concrete syntax of the simple regular expressions of gtest-port.cc, and the validator.

    The reference definition is a small abstract syntax with a printer, `Render`.  The validator is
    proved to accept a string exactly when the printer can produce it. */
module RegexSyntax {
  import opened Options
  import opened CStrings

  // ---------------------------------------------------------------- character classes

  predicate IsInSet(ch: char, chars: string) {
    ch != '\0' && ch in chars
  }

  predicate IsAsciiDigit(ch: char) {
    '0' <= ch <= '9'
  }

  predicate IsAsciiPunct(ch: char) {
    IsInSet(ch, "^-!\"#$%&'()*+,./:;<=>?@[\\]_`{|}~")
  }

  predicate IsRepeat(ch: char) {
    IsInSet(ch, "?*+")
  }

  predicate IsAsciiWhiteSpace(ch: char) {
    IsInSet(ch, " \U{0C}\n\r\t\U{0B}")
  }

  predicate IsAsciiWordChar(ch: char) {
    'a' <= ch <= 'z' || 'A' <= ch <= 'Z' || '0' <= ch <= '9' || ch == '_'
  }

  predicate IsValidEscape(c: char) {
    IsAsciiPunct(c) || IsInSet(c, "dDfnrsStvwW")
  }

  predicate AtomMatchesChar(escaped: bool, patternChar: char, ch: char) {
    if escaped then
      match patternChar
      case 'd' => IsAsciiDigit(ch)
      case 'D' => !IsAsciiDigit(ch)
      case 'f' => ch == '\U{0C}'
      case 'n' => ch == '\n'
      case 'r' => ch == '\r'
      case 's' => IsAsciiWhiteSpace(ch)
      case 'S' => !IsAsciiWhiteSpace(ch)
      case 't' => ch == '\t'
      case 'v' => ch == '\U{0B}'
      case 'w' => IsAsciiWordChar(ch)
      case 'W' => !IsAsciiWordChar(ch)
      case _ => IsAsciiPunct(patternChar) && patternChar == ch
    else
      (patternChar == '.' && ch != '\n') || patternChar == ch
  }

  // ---------------------------------------------------------------- abstract syntax and printer

  datatype Rep = Once | Optional | Star | Plus

  /** One atom, plain or escaped, with its repetition. */
  datatype Item = Item(escaped: bool, c: char, rep: Rep)

  /** `^`? item* `$`? */
  datatype Regex = Regex(atStart: bool, items: seq<Item>, atEnd: bool)

  predicate ValidItem(it: Item) {
    if it.escaped then
      IsValidEscape(it.c)
    else
      && it.c != '\0' && it.c != '\\' && it.c != '^' && it.c != '$'
      && !IsInSet(it.c, "()[]{}|") && !IsRepeat(it.c)
  }

  predicate ValidItems(items: seq<Item>) {
    forall i :: 0 <= i < |items| ==> ValidItem(items[i])
  }

  function RenderRep(rep: Rep): string {
    match rep
    case Once => ""
    case Optional => "?"
    case Star => "*"
    case Plus => "+"
  }

  function RenderItem(it: Item): string {
    (if it.escaped then ['\\', it.c] else [it.c]) + RenderRep(it.rep)
  }

  function RenderEnd(atEnd: bool): string {
    if atEnd then "$" else ""
  }

  function RenderBody(items: seq<Item>, atEnd: bool): string {
    if items == [] then RenderEnd(atEnd) else RenderItem(items[0]) + RenderBody(items[1..], atEnd)
  }

  function Render(re: Regex): string {
    (if re.atStart then "^" else "") + RenderBody(re.items, re.atEnd)
  }

  ghost predicate IsWellFormed(s: string) {
    exists re: Regex :: ValidItems(re.items) && s == Render(re)
  }

  /** What follows the text of an item can never be taken for a repetition of it. */
  lemma BodyHead(items: seq<Item>, atEnd: bool)
    requires ValidItems(items)
    ensures RenderBody(items, atEnd) != "" ==> !IsRepeat(RenderBody(items, atEnd)[0])
    ensures RenderBody(items, atEnd) != "" ==> RenderBody(items, atEnd)[0] != '^'
  {
  }

  lemma StartAnchor(re: Regex)
    requires ValidItems(re.items)
    ensures At(Render(re), 0) == '^' <==> re.atStart
    ensures re.atStart ==> Render(re) != "" && Render(re)[1..] == RenderBody(re.items, re.atEnd)
    ensures !re.atStart ==> Render(re) == RenderBody(re.items, re.atEnd)
  {
    BodyHead(re.items, re.atEnd);
  }

  // ---------------------------------------------------------------- the validator

  /** No syntax error is reported for `s` from index `i` on. */
  predicate Scan(s: string, i: nat, prevRepeatable: bool)
    requires i <= |s|
    decreases |s| - i
  {
    if i == |s| then
      true
    else if s[i] == '\\' then
      i + 1 < |s| && IsValidEscape(s[i + 1]) && Scan(s, i + 2, true)
    else
      && !(s[i] == '^' && i > 0)
      && !(s[i] == '$' && At(s, i + 1) != '\0')
      && !IsInSet(s[i], "()[]{}|")
      && !(IsRepeat(s[i]) && !prevRepeatable)
      && Scan(s, i + 1, !IsInSet(s[i], "^$?*+"))
  }

  /** ValidateRegex accepts exactly the printed forms of the abstract syntax. */
  method ValidateRegex(regex: Option<CString>) returns (isValid: bool)
    ensures isValid <==> regex.Some? && IsWellFormed(regex.value)
  {
    hide IsInSet, IsRepeat, IsValidEscape, IsWellFormed;
    if regex.None? {
      return false;
    }
    var s := regex.value;
    ScanIffWellFormed(s);
    isValid := true;
    var prevRepeatable := false;
    var i := 0;
    while At(s, i) != '\0'
      invariant 0 <= i <= |s|
      invariant Scan(s, 0, false) <==> isValid && Scan(s, i, prevRepeatable)
      decreases |s| - i
    {
      if s[i] == '\\' {
        i := i + 1;
        if At(s, i) == '\0' {
          return false;
        }
        if !IsValidEscape(s[i]) {
          isValid := false;
        }
        prevRepeatable := true;
      } else {
        var ch := s[i];
        if ch == '^' && i > 0 {
          isValid := false;
        } else if ch == '$' && At(s, i + 1) != '\0' {
          isValid := false;
        } else if IsInSet(ch, "()[]{}|") {
          isValid := false;
        } else if IsRepeat(ch) && !prevRepeatable {
          isValid := false;
        }
        prevRepeatable := !IsInSet(ch, "^$?*+");
      }
      i := i + 1;
    }
  }

  lemma AnchorOrRepeat(c: char)
    ensures IsInSet(c, "^$?*+") <==> c == '^' || c == '$' || IsRepeat(c)
    ensures IsRepeat(c) <==> c == '?' || c == '*' || c == '+'
    ensures IsRepeat(c) ==> !IsInSet(c, "()[]{}|")
    ensures !IsInSet('^', "()[]{}|") && !IsInSet('$', "()[]{}|") && !IsRepeat('\\') && !IsRepeat('^') && !IsRepeat('$')
  {
  }

  lemma ScanIffWellFormed(s: CString)
    ensures Scan(s, 0, false) <==> IsWellFormed(s)
  {
    if Scan(s, 0, false) {
      ScanGivesSyntax(s);
    }
    if IsWellFormed(s) {
      var re: Regex :| ValidItems(re.items) && s == Render(re);
      SyntaxScans(s, re);
    }
  }

  lemma ScanGivesSyntax(s: CString)
    requires Scan(s, 0, false)
    ensures IsWellFormed(s)
  {
    AnchorOrRepeat('^');
    var atStart := s != "" && s[0] == '^';
    var i := if atStart then 1 else 0;
    var rep, items, atEnd := ScanSound(s, i, false);
    assert s == s[..i] + s[i..];
    assert s == Render(Regex(atStart, items, atEnd));
  }

  lemma SyntaxScans(s: CString, re: Regex)
    requires ValidItems(re.items) && s == Render(re)
    ensures Scan(s, 0, false)
  {
    AnchorOrRepeat('^');
    var i := if re.atStart then 1 else 0;
    assert s[i..] == RenderBody(re.items, re.atEnd);
    ScanComplete(s, i, false, re.items, re.atEnd);
  }

  /** An error-free scan yields syntax; `rep` is the repetition still owed to the previous atom. */
  lemma ScanSound(s: CString, i: nat, prevRepeatable: bool) returns (rep: Rep, items: seq<Item>, atEnd: bool)
    requires i <= |s| && Scan(s, i, prevRepeatable)
    requires i == 0 && s != "" ==> s[0] != '^'
    ensures !prevRepeatable ==> rep == Once
    ensures ValidItems(items)
    ensures s[i..] == RenderRep(rep) + RenderBody(items, atEnd)
    decreases |s| - i
  {
    hide RenderBody, IsInSet, IsRepeat, IsValidEscape;
    rep, items, atEnd := Once, [], false;
    NoBody();
    if i < |s| {
      var c := s[i];
      AnchorOrRepeat(c);
      assert c in s;
      assert s[i..] == [c] + s[i + 1..];
      if c == '\\' {
        rep, items, atEnd := ScanSound(s, i + 2, true);
        assert s[i..] == ['\\', s[i + 1]] + s[i + 2..];
        items := PrependItem(true, s[i + 1], rep, items, atEnd);
        rep := Once;
      } else if c == '$' {
        AtIsNul(s, i + 1);
        atEnd := true;
      } else if IsRepeat(c) {
        rep, items, atEnd := ScanSound(s, i + 1, false);
        rep := if c == '?' then Optional else if c == '*' then Star else Plus;
        assert RenderRep(rep) == [c];
      } else {
        rep, items, atEnd := ScanSound(s, i + 1, true);
        items := PrependItem(false, c, rep, items, atEnd);
        rep := Once;
      }
    }
  }

  lemma NoBody()
    ensures RenderBody([], false) == "" && RenderBody([], true) == "$"
  {
  }

  /** Puts one more item in front of a body, keeping its text in step. */
  lemma PrependItem(escaped: bool, c: char, rep: Rep, rest: seq<Item>, atEnd: bool) returns (items: seq<Item>)
    requires ValidItem(Item(escaped, c, rep)) && ValidItems(rest)
    ensures ValidItems(items)
    ensures RenderBody(items, atEnd) ==
      (if escaped then ['\\', c] else [c]) + (RenderRep(rep) + RenderBody(rest, atEnd))
  {
    hide ValidItem, RenderBody, RenderItem, RenderRep;
    var it := Item(escaped, c, rep);
    items := [it] + rest;
    assert items[1..] == rest;
    BodyStep(items, atEnd);
    ItemText(it);
    var atom := if escaped then ['\\', c] else [c];
    assert (atom + RenderRep(rep)) + RenderBody(rest, atEnd) == atom + (RenderRep(rep) + RenderBody(rest, atEnd));
  }

  lemma ItemText(it: Item)
    ensures RenderItem(it) == (if it.escaped then ['\\', it.c] else [it.c]) + RenderRep(it.rep)
  {
  }

  lemma BodyStep(items: seq<Item>, atEnd: bool)
    requires items != []
    ensures RenderBody(items, atEnd) == RenderItem(items[0]) + RenderBody(items[1..], atEnd)
  {
  }

  lemma {:induction false} ScanComplete(s: CString, i: nat, prevRepeatable: bool, items: seq<Item>, atEnd: bool)
    requires i <= |s| && ValidItems(items)
    requires s[i..] == RenderBody(items, atEnd)
    ensures Scan(s, i, prevRepeatable)
    decreases |items|
  {
    hide Scan, RenderBody, RenderItem, ValidItem;
    if items == [] {
      NoBody();
      ScanEnd(s, i, prevRepeatable, atEnd);
    } else {
      var text := RenderItem(items[0]);
      BodyStep(items, atEnd);
      SplitText(s, i, text, RenderBody(items[1..], atEnd));
      ScanComplete(s, i + |text|, items[0].rep == Once, items[1..], atEnd);
      ScanItem(s, i, prevRepeatable, items[0]);
    }
  }

  lemma ScanEnd(s: CString, i: nat, prevRepeatable: bool, atEnd: bool)
    requires i <= |s| && s[i..] == RenderEnd(atEnd)
    ensures Scan(s, i, prevRepeatable)
  {
    AnchorOrRepeat('$');
    if atEnd {
      assert s[i] == s[i..][0] == '$';
      assert i + 1 == |s|;
    }
  }

  lemma SplitText(s: string, i: nat, first: string, rest: string)
    requires i <= |s| && s[i..] == first + rest
    ensures |s| == i + |first| + |rest|
    ensures s[i..i + |first|] == first && s[i + |first|..] == rest
  {
    assert s[i..i + |first|] == s[i..][..|first|];
    assert s[i + |first|..] == s[i..][|first|..];
  }

  /** The scanner passes over the text of one valid item. */
  lemma ScanItem(s: CString, i: nat, prevRepeatable: bool, it: Item)
    requires ValidItem(it) && i + |RenderItem(it)| <= |s|
    requires s[i..i + |RenderItem(it)|] == RenderItem(it)
    requires Scan(s, i + |RenderItem(it)|, it.rep == Once)
    ensures Scan(s, i, prevRepeatable)
  {
    var text := RenderItem(it);
    assert forall j :: 0 <= j < |text| ==> s[i + j] == text[j];
    var a := if it.escaped then 2 else 1;
    assert Scan(s, i + a, true) by {
      if it.rep != Once {
        assert s[i + a] == text[a] == RenderRep(it.rep)[0];
        AnchorOrRepeat(s[i + a]);
        assert IsRepeat(s[i + a]);
      }
    }
    AnchorOrRepeat(it.c);
    assert s[i + a - 1] == text[a - 1] == it.c;
    if it.escaped {
      assert s[i] == text[0] == '\\';
    }
  }
}
