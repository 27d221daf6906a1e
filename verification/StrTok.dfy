/** strtok_s across a whole sequence of calls: the tokens are exactly the maximal runs of characters
    that are no delimiters, in order. */
module StrTok {
  import opened Options
  import opened CStrings
  import opened CMemory

  /** The stretch from `i` to `j`. */
  datatype Run = Run(i: nat, j: nat)

  /** The first position from `p` on, up to `n`, that holds a delimiter, or none if `want` is false. */
  function Find(s: seq<char>, p: nat, n: nat, delims: CString, want: bool): (q: nat)
    requires p <= n <= |s|
    ensures p <= q <= n
    ensures forall i :: p <= i < q ==> (s[i] in delims) != want
    ensures q < n ==> (s[q] in delims) == want
    decreases n - p
  {
    if p == n || (s[p] in delims) == want then p else Find(s, p + 1, n, delims, want)
  }

  /** The runs of non-delimiters between `p` and `n`, from the first on. */
  function Tokens(s: seq<char>, p: nat, n: nat, delims: CString): seq<Run>
    requires p <= n <= |s|
    decreases n - p
  {
    var i := Find(s, p, n, delims, false);
    if i == n then []
    else
      var j := Find(s, i, n, delims, true);
      [Run(i, j)] + if j == n then [] else Tokens(s, j + 1, n, delims)
  }

  // ---------------------------------------------------------------- the reference

  /** A nonempty stretch without delimiters that cannot be extended either way. */
  predicate Maximal(r: Run, s: seq<char>, p: nat, n: nat, delims: CString)
    requires p <= n <= |s|
  {
    && p <= r.i < r.j <= n
    && (forall k :: r.i <= k < r.j ==> s[k] !in delims)
    && (r.i == p || s[r.i - 1] in delims) && (r.j == n || s[r.j] in delims)
  }

  /** The tokens are exactly the maximal stretches, and come in order. */
  lemma {:induction false} TokensAreMaximalRuns(s: seq<char>, p: nat, n: nat, delims: CString)
    requires p <= n <= |s|
    ensures forall r :: r in Tokens(s, p, n, delims) <==> Maximal(r, s, p, n, delims)
    ensures forall a, b :: 0 <= a < b < |Tokens(s, p, n, delims)| ==>
      Tokens(s, p, n, delims)[a].j < Tokens(s, p, n, delims)[b].i
    decreases n - p
  {
    hide *;
    TokensStep(s, p, n, delims);
    var i := Find(s, p, n, delims, false);
    var j := Find(s, i, n, delims, true);
    if i < n {
      var rest := if j == n then [] else Tokens(s, j + 1, n, delims);
      if j < n {
        TokensAreMaximalRuns(s, j + 1, n, delims);
        InOrder(Run(i, j), rest, s, j + 1, n, delims);
      }
      forall r ensures r in [Run(i, j)] + rest <==> Maximal(r, s, p, n, delims) {
        MaximalCases(r, s, p, n, delims);
      }
    } else {
      NoRun(s, p, n, delims);
    }
  }

  lemma NoRun(s: seq<char>, p: nat, n: nat, delims: CString)
    requires p <= n <= |s| && Find(s, p, n, delims, false) == n
    ensures forall r :: !Maximal(r, s, p, n, delims)
  {
    forall r ensures !Maximal(r, s, p, n, delims) {
      assert r.i < n ==> p <= r.i ==> s[r.i] in delims;
    }
  }

  lemma InOrder(first: Run, rest: seq<Run>, s: seq<char>, p: nat, n: nat, delims: CString)
    requires p <= n <= |s| && first.j < p
    requires forall r :: r in rest ==> Maximal(r, s, p, n, delims)
    requires forall a, b :: 0 <= a < b < |rest| ==> rest[a].j < rest[b].i
    ensures var ts := [first] + rest; forall a, b :: 0 <= a < b < |ts| ==> ts[a].j < ts[b].i
  {
    assert forall b :: 0 <= b < |rest| ==> rest[b] in rest;
  }

  /** A maximal stretch is the first one, or lies behind the delimiter that ends it. */
  lemma MaximalCases(r: Run, s: seq<char>, p: nat, n: nat, delims: CString)
    requires p <= n <= |s| && Find(s, p, n, delims, false) < n
    ensures var i := Find(s, p, n, delims, false);
            var j := Find(s, i, n, delims, true);
            Maximal(r, s, p, n, delims) <==> r == Run(i, j) || (j < n && Maximal(r, s, j + 1, n, delims))
  {
    var i := Find(s, p, n, delims, false);
    var j := Find(s, i, n, delims, true);
    if Maximal(r, s, p, n, delims) {
      assert s[r.i] !in delims;
      assert i <= r.i;
    }
  }

  // ---------------------------------------------------------------- strtok_s

  /** strtok_s.  `strToken`, `context` and the result are offsets into memory, or null; the delimiters
      are a string of their own, and null if `delims` is None. */
  method StrTok(mem: array<char>, strToken: Option<nat>, delims: Option<CString>, context: Option<Option<nat>>)
    returns (token: Option<nat>, context': Option<Option<nat>>)
    requires context.Some? && delims.Some? ==>
      var start := if strToken.Some? then strToken else context.value;
      start.Some? ==> Terminated(mem[..], start.value)
    modifies mem
    ensures context.None? || delims.None? || (strToken.None? && context.value.None?) ==>
      token == None && context' == context && mem[..] == old(mem[..])
    ensures context.Some? && delims.Some? && (strToken.Some? || context.value.Some?) ==>
      var p := if strToken.Some? then strToken.value else context.value.value;
      var m, n := old(mem[..]), p + old(StrLen(mem[..], p));
      var i := Find(m, p, n, delims.value, false);
      var j := Find(m, i, n, delims.value, true);
      && token == (if i == n then None else Some(i))
      && context' == Some(Some(if j == n then n else j + 1))
      && mem[..] == if j == n then m else m[j := '\0']
  {
    hide Find, StrLen, Terminated;
    if context.None? || delims.None? {
      return None, context;
    }
    if strToken.None? && context.value.None? {
      return None, context;
    }
    var p := if strToken.None? then context.value.value else strToken.value;
    ghost var m := mem[..];
    EndOfString(m, p);
    ghost var n := p + StrLen(m, p);
    var ds := delims.value;
    var start := SkipDelims(mem, p, n, ds);
    var q := EndToken(mem, start, n, ds);
    context' := Some(Some(q));
    token := if start == q then None else Some(start);
  }

  lemma EndOfString(m: seq<char>, p: nat)
    requires Terminated(m, p)
    ensures p <= |m|
    ensures var n := p + StrLen(m, p); p <= n < |m| && m[n] == '\0' && forall i :: p <= i < n ==> m[i] != '\0'
  {
  }

  /** The loop that skips leading delimiters. */
  method SkipDelims(mem: array<char>, p: nat, ghost n: nat, delims: CString) returns (q: nat)
    requires p <= n < mem.Length && mem[n] == '\0' && forall i :: p <= i < n ==> mem[i] != '\0'
    ensures q == Find(mem[..], p, n, delims, false)
  {
    q := p;
    while mem[q] != '\0'
      invariant p <= q <= n && Find(mem[..], p, n, delims, false) == Find(mem[..], q, n, delims, false)
      decreases n - q
    {
      var found := InDelims(delims, mem[q]);
      if !found {
        break;
      }
      q := q + 1;
    }
  }

  /** The loop that finds the end of the token and terminates it there. */
  method EndToken(mem: array<char>, start: nat, ghost n: nat, delims: CString) returns (q: nat)
    requires start <= n < mem.Length && mem[n] == '\0' && forall i :: start <= i < n ==> mem[i] != '\0'
    modifies mem
    ensures var m := old(mem[..]);
            var j := Find(m, start, n, delims, true);
            if j == n then q == n && mem[..] == m else q == j + 1 && mem[..] == m[j := '\0']
  {
    ghost var m := mem[..];
    q := start;
    while mem[q] != '\0'
      invariant start <= q <= n && mem[..] == m && Find(m, start, n, delims, true) == Find(m, q, n, delims, true)
      decreases n - q
    {
      var found := InDelims(delims, mem[q]);
      if found {
        mem[q] := '\0';
        q := q + 1;
        return;
      }
      q := q + 1;
    }
  }

  /** The loop over the delimiters. */
  method InDelims(delims: CString, c: char) returns (found: bool)
    requires c != '\0'
    ensures found <==> c in delims
  {
    var k := 0;
    while At(delims, k) != '\0' && At(delims, k) != c
      invariant 0 <= k <= |delims| && c !in delims[..k]
      decreases |delims| - k
    {
      k := k + 1;
    }
    AtIsNul(delims, k);
    found := At(delims, k) != '\0';
  }

  // ---------------------------------------------------------------- a whole sequence of calls

  /** Memory with a terminator written at the end of each run. */
  function Cut(m: seq<char>, runs: seq<Run>): (m': seq<char>)
    requires forall k :: 0 <= k < |runs| ==> runs[k].j < |m|
    ensures |m'| == |m|
  {
    if runs == [] then m else Cut(m, runs[..|runs| - 1])[runs[|runs| - 1].j := '\0']
  }

  lemma {:induction false} CutAt(m: seq<char>, runs: seq<Run>, x: nat)
    requires x < |m| && forall k :: 0 <= k < |runs| ==> runs[k].j < |m|
    ensures Cut(m, runs)[x] == if exists k :: 0 <= k < |runs| && runs[k].j == x then '\0' else m[x]
    decreases |runs|
  {
    if runs != [] { CutAt(m, runs[..|runs| - 1], x); }
  }

  /** What is left of the string from `c` on is untouched, up to its old terminator. */
  lemma RestUncut(m: seq<char>, runs: seq<Run>, c: nat, n: nat)
    requires c <= n < |m| && m[n] == '\0' && (forall i :: c <= i < n ==> m[i] != '\0')
    requires forall k :: 0 <= k < |runs| ==> runs[k].j < c || runs[k].j == n
    ensures forall i :: c <= i <= n ==> Cut(m, runs)[i] == m[i]
    ensures c + StrLen(Cut(m, runs), c) == n
  {
    forall i | c <= i <= n ensures Cut(m, runs)[i] == m[i] {
      CutAt(m, runs, i);
    }
    StrLenIs(Cut(m, runs), c, n - c);
  }

  /** Finding depends only on what is searched. */
  lemma {:induction false} FindSame(s: seq<char>, t: seq<char>, p: nat, n: nat, delims: CString, want: bool)
    requires p <= n <= |s| && n <= |t| && forall i :: p <= i < n ==> s[i] == t[i]
    ensures Find(s, p, n, delims, want) == Find(t, p, n, delims, want)
    decreases n - p
  {
    if p < n { FindSame(s, t, p + 1, n, delims, want); }
  }

  /** The state of such a sequence: the runs found so far are cut out of the original string `m`, and
      those from `c` on are still to come. */
  ghost predicate Underway(m0: seq<char>, m: seq<char>, p: nat, n: nat, delims: CString, found: seq<Run>, c: nat) {
    && p <= c <= n < |m| && m[n] == '\0' && (forall i :: p <= i < n ==> m[i] != '\0')
    && (forall k :: 0 <= k < |found| ==> found[k].j < c || found[k].j == n)
    && found + Tokens(m, c, n, delims) == Tokens(m, p, n, delims)
    && m0 == Cut(m, found)
  }

  /** What one call finds and leaves, while the sequence is under way. */
  lemma OneCall(m0: seq<char>, m: seq<char>, p: nat, n: nat, delims: CString, found: seq<Run>, c: nat)
    requires Underway(m0, m, p, n, delims, found, c)
    ensures c + StrLen(m0, c) == n && |m0| == |m|
    ensures var i := Find(m0, c, n, delims, false);
            var j := Find(m0, i, n, delims, true);
            && (i == n <==> found == Tokens(m, p, n, delims))
            && (i < n ==> Underway(if j == n then m0 else m0[j := '\0'], m, p, n, delims,
                                   found + [Run(i, j)], if j == n then n else j + 1))
            && (i < n ==> |found| < |Tokens(m, p, n, delims)|)
            && (i == n ==> j == n) && j < |m|
  {
    hide Find, Tokens, Cut, StrLen;
    RestUncut(m, found, c, n);
    FindSame(m0, m, c, n, delims, false);
    var i := Find(m, c, n, delims, false);
    FindSame(m0, m, i, n, delims, true);
    var j := Find(m, i, n, delims, true);
    TokensAtEnd(m, n, delims);
    TokensStep(m, c, n, delims);
    if i < n {
      CutSnoc(m, found, Run(i, j));
      var rest := if j == n then [] else Tokens(m, j + 1, n, delims);
      assert found + ([Run(i, j)] + rest) == (found + [Run(i, j)]) + rest;
      assert j == n ==> m0[n := '\0'] == m0;
    } else {
      assert found + [] == found;
    }
  }

  lemma TokensAtEnd(m: seq<char>, n: nat, delims: CString)
    requires n <= |m|
    ensures Tokens(m, n, n, delims) == []
  {
  }

  lemma TokensStep(m: seq<char>, c: nat, n: nat, delims: CString)
    requires c <= n <= |m|
    ensures var i := Find(m, c, n, delims, false);
            var j := Find(m, i, n, delims, true);
            && (i == n ==> j == n && Tokens(m, c, n, delims) == [])
            && (i < n ==> Tokens(m, c, n, delims) == [Run(i, j)] + (if j == n then [] else Tokens(m, j + 1, n, delims)))
  {
    hide Find;
  }

  lemma CutSnoc(m: seq<char>, runs: seq<Run>, r: Run)
    requires r.j < |m| && forall k :: 0 <= k < |runs| ==> runs[k].j < |m|
    ensures Cut(m, runs + [r]) == Cut(m, runs)[r.j := '\0']
  {
    assert (runs + [r])[..|runs|] == runs;
  }

  /** One call with the string and then calls with NULL until NULL comes back: the tokens of the
      original string, in order, each terminated in place; afterwards the context points at the
      terminator, where every further call finds nothing and changes nothing. */
  method TokenizeAll(mem: array<char>, p: nat, delims: CString) returns (tokens: seq<nat>, context: nat)
    requires Terminated(mem[..], p)
    modifies mem
    ensures var m := old(mem[..]);
            var n := p + StrLen(m, p);
            var runs := Tokens(m, p, n, delims);
            && |tokens| == |runs| && (forall k :: 0 <= k < |runs| ==> tokens[k] == runs[k].i && runs[k].j < |m|)
            && mem[..] == Cut(m, runs) && context == n && mem[n] == '\0'
  {
    hide Find, Tokens, Cut, StrLen, Underway;
    ghost var m := mem[..];
    ghost var n := p + StrLen(m, p);
    ghost var runs, found: seq<Run>, c: nat := Tokens(m, p, n, delims), [], p;
    tokens := [];
    Start(m, p, n, delims);
    var arg, ctx, more := Some(p), Some(None), true;
    while more
      invariant |tokens| == |found| && forall k :: 0 <= k < |found| ==> tokens[k] == found[k].i && found[k].j < |m|
      invariant mem.Length == |m|
      invariant if more then Underway(mem[..], m, p, n, delims, found, c) && Resumes(arg, ctx, c)
                else found == runs && ctx == Some(Some(n)) && mem[..] == Cut(m, found) && n < |m| && mem[n] == '\0'
      decreases more, |runs| - |found|
    {
      var token;
      token, ctx, found, c := OneRound(mem, arg, ctx, delims, m, p, n, found, c);
      arg := None;
      if token.Some? {
        tokens := tokens + [token.value];
      } else {
        more := false;
      }
    }
    context := ctx.value.value;
  }

  /** The arguments of a call make it go on at `c`. */
  predicate Resumes(arg: Option<nat>, ctx: Option<Option<nat>>, c: nat) {
    ctx.Some? && (arg == Some(c) || (arg == None && ctx == Some(Some(c))))
  }

  /** One call in the sequence: it finds the next run, or there is none left. */
  method OneRound(mem: array<char>, arg: Option<nat>, ctx: Option<Option<nat>>, delims: CString,
                  ghost m: seq<char>, ghost p: nat, ghost n: nat, ghost found: seq<Run>, ghost c: nat)
    returns (token: Option<nat>, ctx': Option<Option<nat>>, ghost found': seq<Run>, ghost c': nat)
    requires Underway(mem[..], m, p, n, delims, found, c) && Resumes(arg, ctx, c) && p <= n < |m| == mem.Length
    modifies mem
    ensures token.Some? ==>
      && |found| < |Tokens(m, p, n, delims)| && |found'| == |found| + 1 && found'[..|found|] == found
      && token.value == found'[|found|].i && found'[|found|].j < |m|
      && Underway(mem[..], m, p, n, delims, found', c') && Resumes(None, ctx', c')
    ensures token.None? ==>
      && found' == found == Tokens(m, p, n, delims) && ctx' == Some(Some(n))
      && (forall k :: 0 <= k < |found| ==> found[k].j < |m|) && mem[..] == Cut(m, found) && mem[n] == '\0'
  {
    hide Find, Tokens, Cut, StrLen, Underway, Terminated;
    ghost var m0 := mem[..];
    OneCall(m0, m, p, n, delims, found, c);
    StillUnderway(m0, m, p, n, delims, found, c);
    ghost var i := Find(m0, c, n, delims, false);
    ghost var j := Find(m0, i, n, delims, true);
    token, ctx' := StrTok(mem, arg, Some(delims), ctx);
    if token.Some? {
      found', c' := found + [Run(i, j)], if j == n then n else j + 1;
    } else {
      found', c' := found, c;
    }
  }

  lemma StillUnderway(m0: seq<char>, m: seq<char>, p: nat, n: nat, delims: CString, found: seq<Run>, c: nat)
    requires Underway(m0, m, p, n, delims, found, c)
    ensures |m0| == |m| && Terminated(m0, c) && m0[n] == '\0'
    ensures (forall k :: 0 <= k < |found| ==> found[k].j < |m|) && m0 == Cut(m, found)
  {
    hide Find, Tokens, Cut, StrLen;
    RestUncut(m, found, c, n);
  }

  /** What a call finds from the terminator on: nothing. */
  lemma NothingLeft(m: seq<char>, c: nat, delims: CString)
    requires c < |m| && m[c] == '\0'
    ensures StrLen(m, c) == 0 && Terminated(m, c)
    ensures Find(m, c, c, delims, false) == c && Find(m, c, c, delims, true) == c
  {
  }

  /** Once the context is on a terminator, any number of further calls with NULL return NULL, and change
      neither the context nor the memory. */
  method CallAgain(mem: array<char>, delims: CString, context: nat, calls: nat)
    returns (tokens: seq<Option<nat>>, context': Option<Option<nat>>)
    requires context < mem.Length && mem[context] == '\0'
    modifies mem
    ensures |tokens| == calls && forall k :: 0 <= k < calls ==> tokens[k] == None
    ensures context' == Some(Some(context)) && mem[..] == old(mem[..])
  {
    hide Find, StrLen, Terminated;
    tokens, context' := [], Some(Some(context));
    for i := 0 to calls
      invariant |tokens| == i && forall k :: 0 <= k < i ==> tokens[k] == None
      invariant context' == Some(Some(context)) && mem[..] == old(mem[..])
    {
      NothingLeft(mem[..], context, delims);
      var token;
      token, context' := StrTok(mem, None, Some(delims), context');
      tokens := tokens + [token];
    }
  }

  lemma Start(m: seq<char>, p: nat, n: nat, delims: CString)
    requires Terminated(m, p) && n == p + StrLen(m, p)
    ensures Underway(m, m, p, n, delims, [], p) && n < |m| && m[n] == '\0' && Cut(m, []) == m
  {
    assert [] + Tokens(m, p, n, delims) == Tokens(m, p, n, delims);
  }

  /** Every token can be read where it was returned, as long as the memory stays. */
  lemma TokensStayReadable(m: seq<char>, p: nat, n: nat, delims: CString, k: nat)
    requires p <= n < |m| && m[n] == '\0' && (forall i :: p <= i < n ==> m[i] != '\0')
    requires k < |Tokens(m, p, n, delims)|
    ensures var runs := Tokens(m, p, n, delims);
            && runs[k].i < runs[k].j && (forall l :: 0 <= l < |runs| ==> runs[l].j < |m|)
            && StrAt(Cut(m, runs), runs[k].i) == m[runs[k].i..runs[k].j]
  {
    hide Find, Tokens, Cut, StrLen;
    var runs := Tokens(m, p, n, delims);
    TokensAreMaximalRuns(m, p, n, delims);
    forall l | 0 <= l < |runs| ensures Maximal(runs[l], m, p, n, delims) {
      assert runs[l] in runs;
    }
    var r, cut := runs[k], Cut(m, runs);
    forall x | r.i <= x < r.j ensures cut[x] == m[x] && m[x] != '\0' {
      CutAt(m, runs, x);
    }
    CutAt(m, runs, r.j);
    assert cut[r.j] == '\0';
    StrLenIs(cut, r.i, r.j - r.i);
  }
}
