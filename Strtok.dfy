/**
 * C's strtok. The pure part says which tokens a string splits into (`Tokens`);
 * the class `Tokenizer` is the in-place algorithm: a buffer that strtok overwrites
 * with NULs and the single hidden cursor that every call shares.
 */
module Strtok {
  import opened Wrappers
  import opened CLib

  /** strspn from index `i` of `s`: the first index from `i` on that is not a delimiter. */
  function Skip(s: string, i: nat, delims: set<char>): (k: nat)
    requires i <= |s|
    ensures i <= k <= |s|
    decreases |s| - i
  {
    if i < |s| && s[i] in delims then Skip(s, i + 1, delims) else i
  }

  /** strcspn from index `i` of `s`: the first index from `i` on that is a delimiter. */
  function Run(s: string, i: nat, delims: set<char>): (k: nat)
    requires i <= |s|
    ensures i <= k <= |s|
    decreases |s| - i
  {
    if i < |s| && s[i] !in delims then Run(s, i + 1, delims) else i
  }

  /** strspn passes over delimiters only and stops at a non-delimiter or at the end. */
  lemma {:induction false} SkipStops(s: string, i: nat, delims: set<char>)
    requires i <= |s|
    ensures forall j :: i <= j < Skip(s, i, delims) ==> s[j] in delims
    ensures Skip(s, i, delims) < |s| ==> s[Skip(s, i, delims)] !in delims
    decreases |s| - i
  {
    if i < |s| && s[i] in delims {
      SkipStops(s, i + 1, delims);
    }
  }

  /** strcspn passes over non-delimiters only and stops at a delimiter or at the end. */
  lemma {:induction false} RunStops(s: string, i: nat, delims: set<char>)
    requires i <= |s|
    ensures forall j :: i <= j < Run(s, i, delims) ==> s[j] !in delims
    ensures Run(s, i, delims) < |s| ==> s[Run(s, i, delims)] in delims
    decreases |s| - i
  {
    if i < |s| && s[i] !in delims {
      RunStops(s, i + 1, delims);
    }
  }

  /** strspn's stopping point is the only one that fits its description. */
  lemma {:induction false} SkipUnique(s: string, i: nat, k: nat, delims: set<char>)
    requires i <= k <= |s| && (forall j :: i <= j < k ==> s[j] in delims) && (k < |s| ==> s[k] !in delims)
    ensures Skip(s, i, delims) == k
    decreases k - i
  {
    if i < k {
      SkipUnique(s, i + 1, k, delims);
    }
  }

  /** strcspn's stopping point is the only one that fits its description. */
  lemma {:induction false} RunUnique(s: string, i: nat, k: nat, delims: set<char>)
    requires i <= k <= |s| && (forall j :: i <= j < k ==> s[j] !in delims) && (k < |s| ==> s[k] in delims)
    ensures Run(s, i, delims) == k
    decreases k - i
  {
    if i < k {
      RunUnique(s, i + 1, k, delims);
    }
  }

  /** A token strtok can return: non-empty, and free of delimiters. */
  predicate IsRun(t: string, delims: set<char>)
  {
    t != [] && forall j :: 0 <= j < |t| ==> t[j] !in delims
  }

  /** A token and the text after the delimiter that ended it. */
  datatype Split = Split(token: string, rest: string)

  /**
   * One strtok step on a NUL-free string: skip the leading delimiters, take the
   * maximal run of non-delimiters, and drop the one delimiter that ends it
   * (strtok overwrites that one with NUL and resumes after it).
   */
  function FirstToken(s: string, delims: set<char>): (r: Option<Split>)
    ensures r.Some? ==> |r.value.rest| < |s|
  {
    var a := Skip(s, 0, delims);
    if a == |s| then None
    else
      var e := Run(s, a, delims);
      Some(Split(s[a..e], if e == |s| then [] else s[e + 1..]))
  }

  /** strtok finds no token exactly when the string is all delimiters, and a token is a run. */
  lemma FirstTokenFacts(s: string, delims: set<char>)
    ensures FirstToken(s, delims).None? <==> forall j :: 0 <= j < |s| ==> s[j] in delims
    ensures FirstToken(s, delims).Some? ==> IsRun(FirstToken(s, delims).value.token, delims)
  {
    SkipStops(s, 0, delims);
    var a := Skip(s, 0, delims);
    if a < |s| {
      RunStops(s, a, delims);
    }
  }

  /**
   * The request line is the first maximal run: the token starts after the
   * leading delimiters, cannot be extended, and the rest starts after the one
   * delimiter that ended it.
   */
  lemma FirstTokenIsFirstRun(s: string, delims: set<char>)
    requires FirstToken(s, delims).Some?
    ensures var a, t, rest := Skip(s, 0, delims), FirstToken(s, delims).value.token, FirstToken(s, delims).value.rest;
      && (forall j :: 0 <= j < a ==> s[j] in delims)
      && a + |t| <= |s| && s[a..a + |t|] == t
      && (a + |t| == |s| ==> rest == [])
      && (a + |t| < |s| ==> s[a + |t|] in delims && rest == s[a + |t| + 1..])
  {
    SkipStops(s, 0, delims);
    RunStops(s, Skip(s, 0, delims), delims);
  }

  /** Every token successive strtok calls return on `s`, in order. */
  function Tokens(s: string, delims: set<char>): seq<string>
    decreases |s|
  {
    match FirstToken(s, delims)
    case None => []
    case Some(sp) => [sp.token] + Tokens(sp.rest, delims)
  }

  /** strtok never returns an empty token, nor one that holds a delimiter. */
  lemma {:induction false} TokensAreRuns(s: string, delims: set<char>)
    ensures forall i :: 0 <= i < |Tokens(s, delims)| ==> IsRun(Tokens(s, delims)[i], delims)
    decreases |s|
  {
    match FirstToken(s, delims)
    case None =>
    case Some(sp) =>
      FirstTokenFacts(s, delims);
      TokensAreRuns(sp.rest, delims);
  }

  /** The first token is pinned down by where it starts and where it ends. */
  lemma FirstTokenAt(s: string, delims: set<char>, a: nat, e: nat)
    requires a < e <= |s|
    requires forall j :: 0 <= j < a ==> s[j] in delims
    requires forall j :: a <= j < e ==> s[j] !in delims
    requires e < |s| ==> s[e] in delims
    ensures FirstToken(s, delims).Some?
    ensures FirstToken(s, delims).value.token == s[a..e]
    ensures FirstToken(s, delims).value.rest == if e == |s| then [] else s[e + 1..]
  {
    SkipUnique(s, 0, a, delims);
    RunUnique(s, a, e, delims);
  }

  /** Slices of `x + s` past `x` are slices of `s`. */
  lemma ShiftSlices(x: string, s: string, i: nat, j: nat)
    requires i <= j <= |s|
    ensures (x + s)[|x| + i..|x| + j] == s[i..j]
    ensures (x + s)[|x| + i..] == s[i..]
  {
  }

  /** strspn past leading delimiters `x`: they add their length to the stopping point. */
  lemma SkipShift(x: string, s: string, delims: set<char>)
    requires forall j :: 0 <= j < |x| ==> x[j] in delims
    ensures Skip(x + s, 0, delims) == |x| + Skip(s, 0, delims)
  {
    var xs, k := x + s, Skip(s, 0, delims);
    SkipStops(s, 0, delims);
    forall j | 0 <= j < |x| + k ensures xs[j] in delims {
      if j >= |x| { assert xs[j] == s[j - |x|]; }
    }
    if k < |s| {
      assert xs[|x| + k] == s[k];
    }
    SkipUnique(xs, 0, |x| + k, delims);
  }

  /** strcspn inside `s`, seen from `x + s`. */
  lemma RunShift(x: string, s: string, a: nat, delims: set<char>)
    requires a <= |s|
    ensures Run(x + s, |x| + a, delims) == |x| + Run(s, a, delims)
  {
    var xs, e := x + s, Run(s, a, delims);
    RunStops(s, a, delims);
    forall j | |x| + a <= j < |x| + e ensures xs[j] !in delims {
      assert xs[j] == s[j - |x|];
    }
    if e < |s| {
      assert xs[|x| + e] == s[e];
    }
    RunUnique(xs, |x| + a, |x| + e, delims);
  }

  /** A string of delimiters only has no token. */
  lemma FirstTokenNone(s: string, delims: set<char>)
    requires Skip(s, 0, delims) == |s|
    ensures FirstToken(s, delims) == None
  {
  }

  /** The first token read off strspn's and strcspn's stopping points `a` and `e`. */
  lemma FirstTokenSome(s: string, delims: set<char>, a: nat, e: nat)
    requires a == Skip(s, 0, delims) < |s| && e == Run(s, a, delims)
    ensures FirstToken(s, delims).Some?
    ensures FirstToken(s, delims).value.token == s[a..e]
    ensures FirstToken(s, delims).value.rest == if e == |s| then [] else s[e + 1..]
  {
  }

  /** Two strtok outcomes agree when both find a token with the same text and the same rest. */
  lemma SameOutcome(r: Option<Split>, r': Option<Split>)
    requires r.Some? <==> r'.Some?
    requires r.Some? ==> r.value.token == r'.value.token && r.value.rest == r'.value.rest
    ensures r == r'
  {
  }

  /** Any number of leading delimiters is skipped: no empty token comes of them. */
  lemma SkipLeading(x: string, s: string, delims: set<char>)
    requires forall j :: 0 <= j < |x| ==> x[j] in delims
    ensures FirstToken(x + s, delims) == FirstToken(s, delims)
  {
    SkipShift(x, s, delims);
    var a := Skip(s, 0, delims);
    if a < |s| {
      var e := Run(s, a, delims);
      RunShift(x, s, a, delims);
      FirstTokenSome(s, delims, a, e);
      FirstTokenSome(x + s, delims, |x| + a, |x| + e);
      ShiftSlices(x, s, a, e);
      if e < |s| {
        ShiftSlices(x, s, e + 1, e + 1);
      }
    } else {
      FirstTokenNone(s, delims);
      FirstTokenNone(x + s, delims);
    }
    SameOutcome(FirstToken(x + s, delims), FirstToken(s, delims));
  }

  /** Leading delimiters do not change the token list. */
  lemma TokensSkipLeading(x: string, s: string, delims: set<char>)
    requires forall j :: 0 <= j < |x| ==> x[j] in delims
    ensures Tokens(x + s, delims) == Tokens(s, delims)
  {
    SkipLeading(x, s, delims);
  }

  /** A run followed by a delimiter is the first token, and the rest starts after that delimiter. */
  lemma FirstTokenOfRun(t: string, x: string, s: string, delims: set<char>)
    requires IsRun(t, delims)
    requires x != [] && x[0] in delims
    ensures FirstToken(t + x + s, delims) == Some(Split(t, x[1..] + s))
  {
    var u := t + x + s;
    AppendAssoc(t, x, s);
    assert u[|t|] == x[0];
    assert forall j :: 0 <= j < |t| ==> u[j] == t[j];
    FirstTokenAt(u, delims, 0, |t|);
    assert u[0..|t|] == t;
    ShiftSlices(t, x + s, 1, 1);
    DropFirst(x, s);
  }

  /** A run followed by one or more delimiters is the first token; the rest is tokenised on. */
  lemma TokensCons(t: string, x: string, s: string, delims: set<char>)
    requires IsRun(t, delims)
    requires x != [] && forall j :: 0 <= j < |x| ==> x[j] in delims
    ensures Tokens(t + x + s, delims) == [t] + Tokens(s, delims)
  {
    FirstTokenOfRun(t, x, s, delims);
    assert forall j :: 0 <= j < |x[1..]| ==> x[1..][j] == x[j + 1];
    TokensSkipLeading(x[1..], s, delims);
  }

  /** Each string of `lines` followed by `sep`: the shape of CRLF-terminated header lines. */
  function Lines(lines: seq<string>, sep: string): string
  {
    if lines == [] then [] else lines[0] + sep + Lines(lines[1..], sep)
  }

  /** Tokenising terminated lines gives the lines back: `Tokens` inverts `Lines`. */
  lemma {:induction false} TokensOfLines(lines: seq<string>, sep: string, delims: set<char>)
    requires forall i :: 0 <= i < |lines| ==> IsRun(lines[i], delims)
    requires sep != [] && forall j :: 0 <= j < |sep| ==> sep[j] in delims
    ensures Tokens(Lines(lines, sep), delims) == lines
  {
    if lines != [] {
      TokensOfLines(lines[1..], sep, delims);
      TokensCons(lines[0], sep, Lines(lines[1..], sep), delims);
    } else {
      assert FirstToken([], delims) == None;
    }
  }

  /** A string with no delimiter in it is at most one token: itself. */
  lemma TokensWithoutDelims(s: string, delims: set<char>)
    requires forall j :: 0 <= j < |s| ==> s[j] !in delims
    ensures Tokens(s, delims) == if s == [] then [] else [s]
  {
    if s != [] {
      FirstTokenAt(s, delims, 0, |s|);
      assert s[0..|s|] == s;
      assert FirstToken([], delims) == None;
    } else {
      assert FirstToken(s, delims) == None;
    }
  }

  // ---- strtok on a NUL-ended buffer, by position ----------------------------

  /** A buffer strtok can work on: a C string, so its last character is NUL. */
  predicate IsCBuffer(b: seq<char>)
  {
    0 < |b| && b[|b| - 1] == NUL
  }

  /** strspn: the first position from `i` on that holds NUL or a non-delimiter. */
  function SpanFrom(b: seq<char>, i: nat, delims: set<char>): (k: nat)
    requires IsCBuffer(b) && i < |b|
    ensures i <= k < |b|
    decreases |b| - i
  {
    if b[i] != NUL && b[i] in delims then SpanFrom(b, i + 1, delims) else i
  }

  /** strpbrk: the first position from `i` on that holds NUL or a delimiter. */
  function BreakFrom(b: seq<char>, i: nat, delims: set<char>): (k: nat)
    requires IsCBuffer(b) && i < |b|
    ensures i <= k < |b|
    decreases |b| - i
  {
    if b[i] != NUL && b[i] !in delims then BreakFrom(b, i + 1, delims) else i
  }

  /** strspn in the buffer passes over delimiters only, and stops at NUL or a non-delimiter. */
  lemma {:induction false} SpanStops(b: seq<char>, i: nat, delims: set<char>)
    requires IsCBuffer(b) && i < |b|
    ensures var k := SpanFrom(b, i, delims);
      && (b[k] == NUL || b[k] !in delims)
      && forall j :: i <= j < k ==> b[j] != NUL && b[j] in delims
    decreases |b| - i
  {
    if b[i] != NUL && b[i] in delims {
      SpanStops(b, i + 1, delims);
    }
  }

  /** strpbrk in the buffer passes over non-delimiters only, and stops at NUL or a delimiter. */
  lemma {:induction false} BreakStops(b: seq<char>, i: nat, delims: set<char>)
    requires IsCBuffer(b) && i < |b|
    ensures var k := BreakFrom(b, i, delims);
      && (b[k] == NUL || b[k] in delims)
      && forall j :: i <= j < k ==> b[j] != NUL && b[j] !in delims
    decreases |b| - i
  {
    if b[i] != NUL && b[i] !in delims {
      BreakStops(b, i + 1, delims);
    }
  }

  /** The token position strtok returns, the buffer it leaves, and its saved position. */
  datatype StepResult = StepResult(tok: Option<nat>, buf: seq<char>, cursor: nat)

  /**
   * What one strtok call does when it starts at position `p`: skip the delimiters;
   * at the NUL there is no token and the cursor stays on it; otherwise the token runs
   * to the next delimiter, which is overwritten with NUL, and the cursor moves past it.
   */
  function Step(b: seq<char>, p: nat, delims: set<char>): StepResult
    requires IsCBuffer(b) && p < |b|
  {
    var i := SpanFrom(b, p, delims);
    if b[i] == NUL then StepResult(None, b, i)
    else
      var j := BreakFrom(b, i, delims);
      if b[j] == NUL then StepResult(Some(i), b, j) else StepResult(Some(i), b[j := NUL], j + 1)
  }

  /** strtok writes nothing before its starting point and never changes a NUL. */
  lemma StepFrame(b: seq<char>, p: nat, delims: set<char>)
    requires IsCBuffer(b) && p < |b|
    ensures var r := Step(b, p, delims);
      && IsCBuffer(r.buf) && p <= r.cursor < |b| && Keeps(b, r.buf, p)
  {
  }

  /** `b'` agrees with `b` before position `c` and wherever `b` holds NUL. */
  predicate Keeps(b: seq<char>, b': seq<char>, c: nat)
  {
    |b'| == |b| && forall j :: 0 <= j < |b| && (j < c || b[j] == NUL) ==> b'[j] == b[j]
  }

  lemma KeepsTrans(b0: seq<char>, b1: seq<char>, b2: seq<char>, c0: nat, c1: nat)
    requires c0 <= c1 && Keeps(b0, b1, c0) && Keeps(b1, b2, c1)
    ensures Keeps(b0, b2, c0)
  {
  }

  /** What strtok keeps, it keeps for every string terminated before its starting point. */
  lemma KeepsTerminated(b: seq<char>, b': seq<char>, c: nat, i: nat, str: string)
    requires Keeps(b, b', c) && Terminated(b, i, str) && i + |str| <= c
    ensures Terminated(b', i, str)
  {
    TerminatedFrame(b, b', i, str);
  }

  /** When only delimiters remain, strtok finds no token and parks the cursor on the NUL. */
  lemma StepAtEnd(b: seq<char>, p: nat, delims: set<char>)
    requires IsCBuffer(b) && p < |b| && NUL !in delims
    requires FirstToken(CStrAt(b, p), delims).None?
    ensures Step(b, p, delims).tok.None? && CStrAt(b, Step(b, p, delims).cursor) == []
  {
    var s := CStrAt(b, p);
    var n := p + |s|;
    CStrAtInBuffer(b, p);
    FirstTokenFacts(s, delims);
    forall m | p <= m < n ensures b[m] != NUL && b[m] in delims {
      assert b[m] == s[m - p];
    }
    SpanFromUnique(b, p, n, delims);
    CStrAtOfStretch(b, n, n);
  }

  /** strspn's stopping point in a buffer is the only one that fits its description. */
  lemma {:induction false} SpanFromUnique(b: seq<char>, p: nat, x: nat, delims: set<char>)
    requires IsCBuffer(b) && p <= x < |b|
    requires forall m :: p <= m < x ==> b[m] != NUL && b[m] in delims
    requires b[x] == NUL || b[x] !in delims
    ensures SpanFrom(b, p, delims) == x
    decreases x - p
  {
    if p < x {
      SpanFromUnique(b, p + 1, x, delims);
    }
  }

  /** strpbrk's stopping point in a buffer is the only one that fits its description. */
  lemma {:induction false} BreakFromUnique(b: seq<char>, p: nat, x: nat, delims: set<char>)
    requires IsCBuffer(b) && p <= x < |b|
    requires forall m :: p <= m < x ==> b[m] != NUL && b[m] !in delims
    requires b[x] == NUL || b[x] in delims
    ensures BreakFrom(b, p, delims) == x
    decreases x - p
  {
    if p < x {
      BreakFromUnique(b, p + 1, x, delims);
    }
  }

  /** On the C string `b[p..n]`, the buffer's strspn agrees with `Skip` on the string. */
  lemma SpanIsSkip(b: seq<char>, p: nat, n: nat, delims: set<char>)
    requires IsCBuffer(b) && p <= n < |b| && b[n] == NUL && NUL !in delims
    requires forall m :: p <= m < n ==> b[m] != NUL
    ensures SpanFrom(b, p, delims) == p + Skip(b[p..n], 0, delims)
  {
    var s := b[p..n];
    var k := Skip(s, 0, delims);
    SkipStops(s, 0, delims);
    forall m | p <= m < p + k ensures b[m] != NUL && b[m] in delims {
      assert b[m] == s[m - p];
    }
    if k < |s| {
      assert b[p + k] == s[k];
    }
    SpanFromUnique(b, p, p + k, delims);
  }

  /** On the C string `b[p..n]`, the buffer's strpbrk agrees with `Run` on the string. */
  lemma BreakIsRun(b: seq<char>, p: nat, n: nat, i: nat, delims: set<char>)
    requires IsCBuffer(b) && p <= i <= n < |b| && b[n] == NUL && NUL !in delims
    requires forall m :: p <= m < n ==> b[m] != NUL
    ensures BreakFrom(b, i, delims) == p + Run(b[p..n], i - p, delims)
  {
    var s := b[p..n];
    var e := Run(s, i - p, delims);
    RunStops(s, i - p, delims);
    forall m | i <= m < p + e ensures b[m] != NUL && b[m] !in delims {
      assert b[m] == s[m - p];
    }
    if e < |s| {
      assert b[p + e] == s[e];
    }
    BreakFromUnique(b, i, p + e, delims);
  }

  /** The slices of the stretch `b[p..n]` at `a` and `e`, read off the buffer. */
  lemma SlicesOfStretch(b: seq<char>, p: nat, n: nat, a: nat, e: nat)
    requires p <= n <= |b| && a <= e <= n - p
    ensures b[p..n][a..e] == b[p + a..p + e]
    ensures e < n - p ==> b[p..n][e + 1..] == b[p + e + 1..n]
  {
    SliceOfSlice(b, p, n, a, e);
    if e < n - p {
      SliceOfSlice(b, p, n, e + 1, n - p);
      assert b[p..n][e + 1..] == b[p..n][e + 1..n - p];
    }
  }

  /** In the NUL-ended stretch `b[p..n]`, strspn and strpbrk stop where `Skip` and `Run` do. */
  lemma StretchStops(b: seq<char>, p: nat, n: nat, delims: set<char>)
    requires IsCBuffer(b) && p <= n < |b| && b[n] == NUL && NUL !in delims
    requires forall m :: p <= m < n ==> b[m] != NUL
    requires Skip(b[p..n], 0, delims) < n - p
    ensures var a := Skip(b[p..n], 0, delims);
      var e := Run(b[p..n], a, delims);
      && a < e <= n - p
      && SpanFrom(b, p, delims) == p + a && BreakFrom(b, p + a, delims) == p + e
      && (b[p + e] == NUL <==> p + e == n)
  {
    var s := b[p..n];
    var a := Skip(s, 0, delims);
    SpanIsSkip(b, p, n, delims);
    BreakIsRun(b, p, n, p + a, delims);
    SkipStops(s, 0, delims);
    var e := Run(s, a, delims);
    RunStops(s, a, delims);
    if e < |s| {
      assert b[p + e] == s[e];
    }
  }

  /** The first token of the NUL-ended stretch `b[p..n]` lies between strspn's and strpbrk's positions. */
  lemma TokenInStretch(b: seq<char>, p: nat, n: nat, delims: set<char>)
    requires IsCBuffer(b) && p <= n < |b| && b[n] == NUL && NUL !in delims
    requires forall m :: p <= m < n ==> b[m] != NUL
    requires FirstToken(b[p..n], delims).Some?
    ensures var i, sp := SpanFrom(b, p, delims), FirstToken(b[p..n], delims).value;
      var j := BreakFrom(b, i, delims);
      && i < j <= n && (b[j] == NUL <==> j == n)
      && sp.token == b[i..j] && sp.rest == (if j == n then [] else b[j + 1..n])
  {
    var s := b[p..n];
    var a := Skip(s, 0, delims);
    StretchStops(b, p, n, delims);
    var e := Run(s, a, delims);
    FirstTokenSome(s, delims, a, e);
    SlicesOfStretch(b, p, n, a, e);
  }

  /** The first token of the C string at `p` lies between strspn's and strpbrk's positions. */
  lemma TokenInBuffer(b: seq<char>, p: nat, delims: set<char>)
    requires IsCBuffer(b) && p < |b| && NUL !in delims
    requires FirstToken(CStrAt(b, p), delims).Some?
    ensures var n, i, sp := p + |CStrAt(b, p)|, SpanFrom(b, p, delims), FirstToken(CStrAt(b, p), delims).value;
      var j := BreakFrom(b, i, delims);
      && n < |b| && b[n] == NUL && i < j <= n && (b[j] == NUL <==> j == n)
      && (forall m :: p <= m < n ==> b[m] != NUL)
      && sp.token == b[i..j] && sp.rest == (if j == n then [] else b[j + 1..n])
  {
    var s := CStrAt(b, p);
    var n := p + |s|;
    CStrAtInBuffer(b, p);
    assert s == b[p..n];
    assert forall m :: p <= m < n ==> b[m] != NUL by {
      forall m | p <= m < n ensures b[m] != NUL {
        assert b[m] == s[m - p];
      }
    }
    TokenInStretch(b, p, n, delims);
  }

  /** A NUL-free stretch `b[i..j]` ended by NUL is a terminated string with nothing after it. */
  lemma EndsAt(b: seq<char>, i: nat, j: nat)
    requires i <= j < |b| && b[j] == NUL
    requires forall m :: i <= m < j ==> b[m] != NUL
    ensures Terminated(b, i, b[i..j]) && CStrAt(b, j) == []
  {
    CStrAtOfStretch(b, j, j);
  }

  /** Writing NUL at `j` inside the C string `b[i..n]` splits it into `b[i..j]` and `b[j + 1..n]`. */
  lemma CutAt(b: seq<char>, i: nat, j: nat, n: nat)
    requires i <= j < n < |b| && b[n] == NUL
    requires forall m :: i <= m < n ==> b[m] != NUL
    ensures Terminated(b[j := NUL], i, b[i..j]) && CStrAt(b[j := NUL], j + 1) == b[j + 1..n]
  {
    var b' := b[j := NUL];
    assert b'[i..j] == b[i..j];
    assert b'[j + 1..n] == b[j + 1..n];
    CStrAtOfStretch(b', j + 1, n);
  }

  /** What strtok does once the token is known to be `b[i..j]` inside the C string `b[p..n]`. */
  lemma StepFinds(b: seq<char>, p: nat, delims: set<char>, n: nat, rest: string)
    requires IsCBuffer(b) && p < |b| && n < |b|
    requires var i := SpanFrom(b, p, delims); var j := BreakFrom(b, i, delims);
      && i < j <= n && (b[j] == NUL <==> j == n) && (forall m :: p <= m < n ==> b[m] != NUL)
      && b[n] == NUL && rest == (if j == n then [] else b[j + 1..n])
    ensures var r, i := Step(b, p, delims), SpanFrom(b, p, delims);
      var j := BreakFrom(b, i, delims);
      && r.tok == Some(i) && r.cursor >= j
      && Terminated(r.buf, i, b[i..j]) && CStrAt(r.buf, r.cursor) == rest
  {
    var i := SpanFrom(b, p, delims);
    var j := BreakFrom(b, i, delims);
    if b[j] == NUL {
      EndsAt(b, i, j);
    } else {
      CutAt(b, i, j, n);
    }
  }

  /** Otherwise strtok returns the first token, NUL-terminated, and the cursor points at the rest. */
  lemma StepAtToken(b: seq<char>, p: nat, delims: set<char>)
    requires IsCBuffer(b) && p < |b| && NUL !in delims
    requires FirstToken(CStrAt(b, p), delims).Some?
    ensures var r, sp := Step(b, p, delims), FirstToken(CStrAt(b, p), delims).value;
      && r.tok.Some? && p <= r.tok.value && r.tok.value + |sp.token| <= r.cursor
      && Terminated(r.buf, r.tok.value, sp.token)
      && CStrAt(r.buf, r.cursor) == sp.rest
  {
    TokenInBuffer(b, p, delims);
    StepFinds(b, p, delims, p + |CStrAt(b, p)|, FirstToken(CStrAt(b, p), delims).value.rest);
  }

  /**
   * One strtok call in terms of strings: it returns a token exactly when the C
   * string at its starting point holds one, and afterwards the cursor points at
   * the text after that token's delimiter (or at an empty string).
   */
  lemma StepMeaning(b: seq<char>, p: nat, delims: set<char>)
    requires IsCBuffer(b) && p < |b| && NUL !in delims
    ensures var r, ft := Step(b, p, delims), FirstToken(CStrAt(b, p), delims);
      && (r.tok.Some? <==> ft.Some?)
      && CStrAt(r.buf, r.cursor) == (if ft.Some? then ft.value.rest else [])
      && (ft.Some? ==> p <= r.tok.value && r.tok.value + |ft.value.token| <= r.cursor
                       && Terminated(r.buf, r.tok.value, ft.value.token))
  {
    if FirstToken(CStrAt(b, p), delims).Some? {
      StepAtToken(b, p, delims);
    } else {
      StepAtEnd(b, p, delims);
    }
  }

  /** A token strtok returned earlier survives later calls that start after it. */
  lemma StepKeeps(b: seq<char>, p: nat, delims: set<char>, i: nat, str: string)
    requires IsCBuffer(b) && p < |b|
    requires Terminated(b, i, str) && i + |str| <= p
    ensures Terminated(Step(b, p, delims).buf, i, str)
  {
    StepFrame(b, p, delims);
    KeepsTerminated(b, Step(b, p, delims).buf, p, i, str);
  }

  /**
   * The state strtok keeps: the buffer it tokenises in place (a strdup'd copy,
   * so it ends with NUL) and its saved position, shared by every call that
   * passes NULL.
   */
  class Tokenizer {
    var buf: array<char>
    var cursor: nat

    ghost predicate Valid()
      reads this, buf
    {
      IsCBuffer(buf[..]) && cursor < buf.Length
    }

    /** strdup: a fresh buffer holding the C string `text` and its terminator. */
    constructor (text: string)
      requires NUL !in text
      ensures Valid() && fresh(buf)
      ensures buf[..] == text + [NUL]
      ensures CStrAt(buf[..], 0) == text
    {
      buf := new char[|text| + 1](i requires 0 <= i <= |text| => if i < |text| then text[i] else NUL);
      cursor := |text|;
      new;
      assert buf[..] == text + [NUL];
      CStrAtOfStretch(buf[..], 0, |text|);
    }

    /** strspn, from position `p` of the buffer. */
    method Span(p: nat, delims: set<char>) returns (i: nat)
      requires Valid() && p < buf.Length
      ensures i == SpanFrom(buf[..], p, delims)
    {
      i := p;
      while buf[i] != NUL && buf[i] in delims
        invariant p <= i < buf.Length
        invariant SpanFrom(buf[..], i, delims) == SpanFrom(buf[..], p, delims)
        decreases buf.Length - i
      {
        i := i + 1;
      }
    }

    /** strpbrk, from position `p` of the buffer (the NUL when no delimiter follows). */
    method Break(p: nat, delims: set<char>) returns (j: nat)
      requires Valid() && p < buf.Length
      ensures j == BreakFrom(buf[..], p, delims)
    {
      j := p;
      while buf[j] != NUL && buf[j] !in delims
        invariant p <= j < buf.Length
        invariant BreakFrom(buf[..], j, delims) == BreakFrom(buf[..], p, delims)
        decreases buf.Length - j
      {
        j := j + 1;
      }
    }

    /**
     * strtok(s, delims); `start` is `s`, None standing for NULL (resume at the cursor).
     * StepAtEnd and StepAtToken say what the call returns in terms of strings.
     */
    method Next(start: Option<nat>, delims: set<char>) returns (tok: Option<nat>)
      requires Valid()
      requires start.Some? ==> start.value < buf.Length
      modifies this, buf
      ensures Valid() && buf == old(buf)
      ensures var r := Step(old(buf[..]), if start.Some? then start.value else old(cursor), delims);
        tok == r.tok && buf[..] == r.buf && cursor == r.cursor
    {
      var p := if start.Some? then start.value else cursor;
      var i := Span(p, delims);
      if buf[i] == NUL {
        cursor := i;
        tok := None;
        return;
      }
      var j := Break(i, delims);
      tok := Some(i);
      if buf[j] == NUL {
        cursor := j;
      } else {
        buf[j] := NUL;
        cursor := j + 1;
      }
    }
  }
}
