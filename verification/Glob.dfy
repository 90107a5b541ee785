/** The glob matcher of mongoose (`mg_globmatch`): a loop that remembers only the
    last wildcard it passed, against a declarative meaning of patterns. */
module Glob {

  predicate IsWild(c: char) {
    c == '*' || c == '#'
  }

  /** Which runs of text a wildcard may stand for: `*` stays inside one path segment. */
  predicate Absorbs(c: char, run: string) {
    c == '#' || '/' !in run
  }

  /** What a pattern means: `?` is any one byte, a wildcard any run it absorbs. */
  ghost predicate Matches(p: string, t: string)
    decreases |p|
  {
    if p == [] then t == []
    else if IsWild(p[0]) then
      exists k :: 0 <= k <= |t| && Absorbs(p[0], t[..k]) && Matches(p[1..], t[k..])
    else
      t != [] && (p[0] == '?' || p[0] == t[0]) && Matches(p[1..], t[1..])
  }

  // ----- The loop as a transition system -----

  /** The four loop variables: position in pattern and text, and where to resume. */
  datatype Config = Config(i: nat, j: nat, ni: nat, nj: nat)

  datatype Outcome = Go(c: Config) | Return(matched: bool)

  const START := Config(0, 0, 0, 0)

  /** The loop may look at the byte just past the text; `past` is that byte. */
  function At(t: string, past: char, j: nat): char {
    if j < |t| then t[j] else past
  }

  predicate Sane(p: string, t: string, c: Config) {
    && c.i <= |p| && c.j <= |t| && c.ni <= c.i && c.nj <= |t| + 1
    && (c.nj > 0 ==> c.ni < |p| && IsWild(p[c.ni]))
  }

  function Step(p: string, t: string, past: char, c: Config): (o: Outcome)
    requires Sane(p, t, c)
    ensures o.Go? ==> Sane(p, t, o.c)
  {
    var n1, n2 := |p|, |t|;
    if !(c.i < n1 || c.j < n2) then Return(true)
    else if c.i < n1 && c.j < n2 && (p[c.i] == '?' || t[c.j] == p[c.i]) then
      Go(c.(i := c.i + 1, j := c.j + 1))
    else if c.i < n1 && IsWild(p[c.i]) then
      Go(Config(c.i + 1, c.j, c.i, c.j + 1))
    else if c.nj > 0 && c.nj <= n2 && (p[c.i - 1] == '#' || At(t, past, c.j) != '/') then
      Go(c.(i := c.ni, j := c.nj))
    else Return(false)
  }

  datatype Result = Running | Answer(matched: bool)

  function Run(p: string, t: string, past: char, c: Config, steps: nat): Result
    requires Sane(p, t, c)
    decreases steps
  {
    if steps == 0 then Running
    else
      match Step(p, t, past, c)
      case Return(b) => Answer(b)
      case Go(d) => Run(p, t, past, d, steps - 1)
  }

  /** The call returns, and returns `b`. */
  ghost predicate Returns(p: string, t: string, past: char, b: bool) {
    exists steps: nat :: Run(p, t, past, START, steps) == Answer(b)
  }

  /** The call comes to an end. */
  ghost predicate Ends(p: string, t: string, past: char) {
    Returns(p, t, past, true) || Returns(p, t, past, false)
  }

  lemma {:induction false} RunMore(p: string, t: string, past: char, c: Config, steps: nat, more: nat)
    requires Sane(p, t, c) && Run(p, t, past, c, steps).Answer? && steps <= more
    ensures Run(p, t, past, c, more) == Run(p, t, past, c, steps)
    decreases steps
  {
    var o := Step(p, t, past, c);
    if o.Go? {
      RunMore(p, t, past, o.c, steps - 1, more - 1);
    }
  }

  lemma ReturnsOneAnswer(p: string, t: string, past: char, a: bool, b: bool)
    requires Returns(p, t, past, a) && Returns(p, t, past, b)
    ensures a == b
  {
    var m: nat :| Run(p, t, past, START, m) == Answer(a);
    var n: nat :| Run(p, t, past, START, n) == Answer(b);
    if m <= n { RunMore(p, t, past, START, m, n); } else { RunMore(p, t, past, START, n, m); }
  }

  lemma AnswerIsUnique(p: string, t: string, past: char, steps: nat, b: bool)
    requires Run(p, t, past, START, steps) == Answer(b)
    ensures Returns(p, t, past, b) && !Returns(p, t, past, !b)
  {
    if Returns(p, t, past, !b) { ReturnsOneAnswer(p, t, past, b, !b); }
  }

  // ----- Facts about the meaning of patterns -----

  predicate Plain(t: string) {
    '*' !in t && '#' !in t
  }

  predicate Clean(t: string) {
    Plain(t) && '/' !in t
  }

  /** A wildcard absorbs nothing, or one more byte and stays. */
  lemma WildUnfold(p: string, t: string)
    requires p != [] && IsWild(p[0]) && '/' !in t
    ensures Matches(p, t) <==> Matches(p[1..], t) || (t != [] && Matches(p, t[1..]))
  {
    assert t[0..] == t;
    if Matches(p[1..], t) { assert Absorbs(p[0], t[..0]); }
    if Matches(p, t) {
      var k :| 0 <= k <= |t| && Absorbs(p[0], t[..k]) && Matches(p[1..], t[k..]);
      if k > 0 { assert t[1..][k - 1..] == t[k..]; }
    }
    if t != [] && Matches(p, t[1..]) {
      var k :| 0 <= k <= |t[1..]| && Absorbs(p[0], t[1..][..k]) && Matches(p[1..], t[1..][k..]);
      assert t[1..][k..] == t[k + 1..];
      assert Absorbs(p[0], t[..k + 1]);
    }
  }

  lemma {:induction false} WildAbsorbs(p: string, t: string, k: nat)
    requires p != [] && IsWild(p[0]) && '/' !in t && k <= |t| && Matches(p, t[k..])
    ensures Matches(p, t)
    decreases k
  {
    if k == 0 {
      assert t[0..] == t;
    } else {
      assert t[k - 1..][1..] == t[k..];
      WildUnfold(p, t[k - 1..]);
      WildAbsorbs(p, t, k - 1);
    }
  }

  /** A run of `n` non-wildcards at the front takes exactly `n` bytes. */
  lemma {:induction false} LiteralsTake(p: string, t: string, n: nat)
    requires n <= |p| && Matches(p, t) && forall k :: 0 <= k < n ==> !IsWild(p[k])
    ensures n <= |t| && Matches(p[n..], t[n..])
    decreases n
  {
    if n == 0 {
      assert p[0..] == p && t[0..] == t;
    } else {
      LiteralsTake(p[1..], t[1..], n - 1);
      assert p[1..][n - 1..] == p[n..] && t[1..][n - 1..] == t[n..];
    }
  }

  // ----- Why remembering one wildcard is enough -----

  /** Since the last wildcard the loop has walked pattern and text in step. */
  ghost predicate Aligned(p: string, t: string, c: Config)
    requires Sane(p, t, c)
  {
    if c.nj == 0 then true
    else if c.i == c.ni then c.j == c.nj
    else
      && c.i - c.ni == c.j - c.nj + 2
      && forall k :: c.ni < k < c.i ==> !IsWild(p[k])
  }

  /** The text matches from here, or from the remembered wildcard one byte on. */
  ghost predicate Hope(p: string, t: string, c: Config)
    requires Sane(p, t, c)
  {
    || Matches(p[c.i..], t[c.j..])
    || (0 < c.nj <= |t| && Matches(p[c.ni..], t[c.nj..]))
  }

  /** Whatever a wildcard absorbs, the literals behind it take as many bytes as they are. */
  lemma WildThenLiterals(q: string, u: string, n: nat) returns (k: nat)
    requires n < |q| && IsWild(q[0]) && Matches(q, u) && forall m :: 0 < m <= n ==> !IsWild(q[m])
    ensures k + n <= |u| && Matches(q[n + 1..], u[k + n..])
  {
    k :| 0 <= k <= |u| && Absorbs(q[0], u[..k]) && Matches(q[1..], u[k..]);
    LiteralsTake(q[1..], u[k..], n);
    assert q[1..][n..] == q[n + 1..] && u[k..][n..] == u[k + n..];
  }

  /** Anything the older wildcard could still reach, a newer one at `c.i` reaches too. */
  lemma NewerWildSubsumes(p: string, t: string, c: Config)
    requires Sane(p, t, c) && Aligned(p, t, c) && Clean(t)
    requires c.i < |p| && IsWild(p[c.i]) && 0 < c.nj <= |t| && Matches(p[c.ni..], t[c.nj..])
    ensures Matches(p[c.i..], t[c.j..])
  {
    if c.i > c.ni {
      var q, u, n := p[c.ni..], t[c.nj..], c.i - c.ni - 1;
      var k := WildThenLiterals(q, u, n);
      assert q[n + 1..] == p[c.i..] && u[k + n..] == t[c.j..][k + 1..];
      WildAbsorbs(p[c.i..], t[c.j..], k + 1);
    }
  }

  /** When the text has run out before a literal, the remembered wildcard is hopeless too. */
  lemma NothingLeft(p: string, t: string, c: Config)
    requires Sane(p, t, c) && Aligned(p, t, c)
    requires c.i < |p| && !IsWild(p[c.i]) && c.j == |t| && 0 < c.nj <= |t|
    ensures !Matches(p[c.ni..], t[c.nj..])
  {
    if Matches(p[c.ni..], t[c.nj..]) {
      var q, u, n := p[c.ni..], t[c.nj..], c.i - c.ni;
      var k := WildThenLiterals(q, u, n);
    }
  }

  lemma StepAdvance(p: string, t: string, c: Config)
    requires Sane(p, t, c) && c.i < |p| && c.j < |t| && !IsWild(p[c.i])
    ensures Matches(p[c.i..], t[c.j..]) <==>
            (p[c.i] == '?' || t[c.j] == p[c.i]) && Matches(p[c.i + 1..], t[c.j + 1..])
  {
    assert p[c.i..][1..] == p[c.i + 1..] && t[c.j..][1..] == t[c.j + 1..];
  }

  lemma StepWild(p: string, t: string, c: Config)
    requires Sane(p, t, c) && Aligned(p, t, c) && Clean(t) && c.i < |p| && IsWild(p[c.i])
    ensures Hope(p, t, c) <==> Hope(p, t, Config(c.i + 1, c.j, c.i, c.j + 1))
  {
    assert p[c.i..][1..] == p[c.i + 1..];
    WildUnfold(p[c.i..], t[c.j..]);
    if c.j < |t| { assert t[c.j..][1..] == t[c.j + 1..]; }
    if 0 < c.nj <= |t| && Matches(p[c.ni..], t[c.nj..]) { NewerWildSubsumes(p, t, c); }
  }

  /** One iteration on clean text keeps the alignment and neither gains nor loses a match. */
  lemma StepKeepsHope(p: string, t: string, past: char, c: Config)
    requires Sane(p, t, c) && Aligned(p, t, c) && Clean(t)
    ensures var o := Step(p, t, past, c);
            && (o.Go? ==> Aligned(p, t, o.c) && (Hope(p, t, o.c) <==> Hope(p, t, c)))
            && (o.Return? ==> (o.matched <==> Hope(p, t, c)))
  {
    if c.i < |p| && IsWild(p[c.i]) {
      StepWild(p, t, c);
    } else if c.i < |p| && c.j < |t| {
      StepAdvance(p, t, c);
    } else if c.i < |p| && 0 < c.nj <= |t| {
      NothingLeft(p, t, c);
    }
  }

  // ----- Termination -----

  /** A wildcard byte in the text behind a different byte: a wildcard of the pattern may be
      resumed on it and take it literally, again and again. */
  predicate Trap(t: string, u: nat) {
    0 < u < |t| && IsWild(t[u]) && t[u - 1] != t[u]
  }

  /** Nothing but `/` from position `u` on, the byte past the text included. */
  predicate OnlySlashes(t: string, past: char, u: nat) {
    forall b :: u <= b <= |t| ==> At(t, past, b) == '/'
  }

  /** No trap but a `*` with only slashes behind it, at which the loop gives up. */
  predicate Settles(t: string, past: char) {
    forall u :: 0 < u < |t| && Trap(t, u) ==> t[u] == '*' && OnlySlashes(t, past, u + 1)
  }

  /** The wildcard was resumed on a byte that looks like it, and took it literally. */
  predicate Rereading(c: Config) {
    c.nj > 0 && c.i > c.ni && c.j == c.nj + (c.i - c.ni)
  }

  function RankBack(t: string, c: Config): int {
    3 * (|t| + 2 - c.nj) - if c.nj > 0 && c.i == c.ni then 1 else if Rereading(c) then 2 else 0
  }

  /** On text that settles every iteration comes closer to the end. */
  ghost predicate Closer(p: string, t: string, c: Config, d: Config)
    requires Sane(p, t, c) && Sane(p, t, d)
  {
    || c.ni < d.ni
    || (c.ni == d.ni && RankBack(t, d) < RankBack(t, c))
    || (c.ni == d.ni && RankBack(t, d) == RankBack(t, c) && c.i < d.i)
  }

  /** What the loop keeps: it resumes in step, the byte before the place to resume was not
      taken for the wildcard, and while rereading only slashes are left to come. */
  ghost predicate InStep(p: string, t: string, past: char, c: Config)
    requires Sane(p, t, c)
  {
    && (c.nj > 0 && c.i == c.ni ==> c.j == c.nj)
    && (0 < c.nj <= |t| ==> t[c.nj - 1] != p[c.ni])
    && (Rereading(c) ==> OnlySlashes(t, past, c.nj + 1) && p[c.i - 1] != '#')
  }

  lemma StepComesCloser(p: string, t: string, past: char, c: Config)
    requires Sane(p, t, c) && InStep(p, t, past, c) && Settles(t, past)
    ensures var o := Step(p, t, past, c); o.Go? ==> InStep(p, t, past, o.c) && Closer(p, t, c, o.c)
  {
    if c.nj > 0 && c.i == c.ni && c.j < |t| && t[c.j] == p[c.i] {
      assert Trap(t, c.nj);
    }
    if Rereading(c) {
      assert At(t, past, c.j) == '/';
    }
  }

  lemma {:induction false} RunAnswers(p: string, t: string, past: char, c: Config) returns (steps: nat)
    requires Sane(p, t, c) && InStep(p, t, past, c) && Settles(t, past)
    ensures Run(p, t, past, c, steps).Answer?
    decreases |p| - c.ni, RankBack(t, c), |p| - c.i
  {
    StepComesCloser(p, t, past, c);
    var o := Step(p, t, past, c);
    if o.Go? {
      var rest := RunAnswers(p, t, past, o.c);
      steps := rest + 1;
    } else {
      steps := 1;
    }
  }

  lemma {:induction false} RunOnClean(p: string, t: string, past: char, c: Config, steps: nat)
    requires Sane(p, t, c) && Aligned(p, t, c) && Clean(t) && Run(p, t, past, c, steps).Answer?
    ensures Run(p, t, past, c, steps).matched <==> Hope(p, t, c)
    decreases steps
  {
    StepKeepsHope(p, t, past, c);
    var o := Step(p, t, past, c);
    if o.Go? { RunOnClean(p, t, past, o.c, steps - 1); }
  }

  /** Clean text: for every pattern the call returns the declared answer,
      whatever byte follows the text. */
  lemma CleanTextIsExact(p: string, t: string, past: char)
    requires Clean(t)
    ensures Returns(p, t, past, Matches(p, t))
  {
    var steps := RunAnswers(p, t, past, START);
    RunOnClean(p, t, past, START, steps);
    assert p[0..] == p && t[0..] == t;
    assert Run(p, t, past, START, steps) == Answer(Matches(p, t));
  }

  lemma EndsAfter(p: string, t: string, past: char) returns (steps: nat)
    requires Settles(t, past) || Ends(p, t, past)
    ensures Run(p, t, past, START, steps).Answer?
  {
    if Settles(t, past) {
      steps := RunAnswers(p, t, past, START);
    } else if Returns(p, t, past, true) {
      var n: nat :| Run(p, t, past, START, n) == Answer(true);
      steps := n;
    } else {
      var n: nat :| Run(p, t, past, START, n) == Answer(false);
      steps := n;
    }
  }

  /** The loop of the source, on every text on which it returns whatever the pattern, and on
      every other call that comes to an end. */
  method GlobMatch(p: string, t: string, past: char) returns (r: bool)
    requires Settles(t, past) || Ends(p, t, past)
    ensures Returns(p, t, past, r)
    ensures Clean(t) ==> r == Matches(p, t)
  {
    if Clean(t) { CleanTextIsExact(p, t, past); }
    var i, j, ni, nj := 0, 0, 0, 0;
    ghost var all := EndsAfter(p, t, past);
    ghost var left := all;
    while i < |p| || j < |t|
      invariant Sane(p, t, Config(i, j, ni, nj))
      invariant Run(p, t, past, START, all) == Run(p, t, past, Config(i, j, ni, nj), left)
      decreases left
    {
      if i < |p| && j < |t| && (p[i] == '?' || t[j] == p[i]) {
        i, j := i + 1, j + 1;
      } else if i < |p| && IsWild(p[i]) {
        ni, nj, i := i, j + 1, i + 1;
      } else if nj > 0 && nj <= |t| && (p[i - 1] == '#' || At(t, past, j) != '/') {
        i, j := ni, nj;
      } else {
        AnswerIsUnique(p, t, past, all, false);
        return false;
      }
      left := left - 1;
    }
    AnswerIsUnique(p, t, past, all, true);
    return true;
  }

  // ----- Exactly which texts are matched correctly -----

  /** `n` question marks. */
  function Anys(n: nat): (q: string)
    ensures |q| == n && forall k :: 0 <= k < n ==> q[k] == '?'
  {
    seq(n, _ => '?')
  }

  lemma {:induction false} AnysMatch(n: nat, t: string)
    ensures Matches(Anys(n), t) <==> |t| == n
    decreases n
  {
    if n > 0 && t != [] {
      assert Anys(n)[1..] == Anys(n - 1);
      AnysMatch(n - 1, t[1..]);
    }
  }

  lemma {:induction false} AnysThen(n: nat, p: string, t: string)
    ensures Matches(Anys(n) + p, t) <==> n <= |t| && Matches(p, t[n..])
    decreases n
  {
    if n == 0 {
      assert Anys(n) + p == p && t[0..] == t;
    } else if t != [] {
      assert (Anys(n) + p)[1..] == Anys(n - 1) + p;
      AnysThen(n - 1, p, t[1..]);
      if n <= |t| { assert t[1..][n - 1..] == t[n..]; }
    }
  }

  /** Characters that match just advance both indices. */
  lemma {:induction false} WalkMatches(p: string, t: string, past: char, c: Config, n: nat, steps: nat)
    requires Sane(p, t, c) && c.i + n <= |p| && c.j + n <= |t|
    requires forall k :: c.i <= k < c.i + n ==> p[k] == '?' || p[k] == t[k - c.i + c.j]
    ensures Run(p, t, past, c, n + steps) == Run(p, t, past, c.(i := c.i + n, j := c.j + n), steps)
    decreases n
  {
    if n > 0 {
      WalkMatches(p, t, past, c.(i := c.i + 1, j := c.j + 1), n - 1, steps);
    }
  }

  lemma RunStep(p: string, t: string, past: char, c: Config, steps: nat)
    requires Sane(p, t, c) && steps > 0 && Step(p, t, past, c).Go?
    ensures Run(p, t, past, c, steps) == Run(p, t, past, Step(p, t, past, c).c, steps - 1)
  {
  }

  lemma WildInTextRun(t: string, past: char, p: string, u: nat)
    requires u < |t| && |p| == |t| + 1 && p[u] == t[u]
    requires forall k :: 0 <= k < |p| && k != u ==> p[k] == '?'
    ensures Run(p, t, past, START, |t| + 1) == Answer(false)
  {
    var n := |t|;
    WalkMatches(p, t, past, START, u, n - u + 1);
    RunStep(p, t, past, Config(u, u, 0, 0), n - u + 1);
    WalkMatches(p, t, past, Config(u + 1, u + 1, 0, 0), n - u - 1, 1);
  }

  /** A wildcard byte in the text is taken literally and cannot be re-read. */
  lemma WildInTextFails(t: string, past: char, u: nat) returns (p: string)
    requires u < |t| && IsWild(t[u])
    ensures Matches(p, t) && Returns(p, t, past, false)
  {
    var n := |t| - u;
    var q := [t[u]] + Anys(n);
    p := Anys(u) + q;
    assert q[1..] == Anys(n) && t[u..][0..] == t[u..];
    AnysMatch(n, t[u..]);
    assert Absorbs(q[0], t[u..][..0]);
    AnysThen(u, q, t);
    WildInTextRun(t, past, p, u);
  }

  lemma HashStarMatchesSlash()
    ensures Matches("#*", "/")
  {
    assert "/"[1..] == "" && "#*"[1..] == "*" && "*"[1..] == "" && ""[0..] == "";
    assert Absorbs('*', ""[..0]) && Absorbs('#', "/"[..1]);
    assert Matches("*", "");
  }

  lemma TrailingSlashRun(t: string, past: char, p: string, u: nat)
    requires u + 1 == |t| && t[u] == '/' && p == Anys(u) + "#*"
    ensures Run(p, t, past, START, u + 3) == Answer(false)
  {
    WalkMatches(p, t, past, START, u, 3);
    RunStep(p, t, past, Config(u, u, 0, 0), 3);
    RunStep(p, t, past, Config(u + 1, u, u, u + 1), 2);
  }

  /** A trailing `/` defeats `#*`: the loop asks the wrong wildcard about it. */
  lemma TrailingSlashFails(t: string, past: char) returns (p: string)
    requires t != [] && t[|t| - 1] == '/'
    ensures Matches(p, t) && Returns(p, t, past, false)
  {
    var u := |t| - 1;
    p := Anys(u) + "#*";
    AnysThen(u, "#*", t);
    assert t[u..] == "/";
    HashStarMatchesSlash();
    TrailingSlashRun(t, past, p, u);
  }

  /** `?` up to a `*`, which the loop passes. */
  lemma RunsToStar(t: string, past: char, p: string, u: nat, steps: nat)
    requires u < |t| && t[u] != '*' && u < |p| && p[u] == '*' && forall k :: 0 <= k < u ==> p[k] == '?'
    ensures Run(p, t, past, START, u + (1 + steps)) == Run(p, t, past, Config(u + 1, u, u, u + 1), steps)
  {
    WalkMatches(p, t, past, START, u, 1 + steps);
    RunStep(p, t, past, Config(u, u, 0, 0), 1 + steps);
  }

  /** The pattern is used up one byte early; the `*` is read again one byte further. */
  lemma RunsToStarAgain(t: string, past: char, p: string, u: nat, m: nat, steps: nat)
    requires |p| == |t| == u + 1 + m && m > 0 && p[u] == '*' && t[u + 1] != '*' && t[|t| - 1] != '/'
    requires forall k :: u < k < |p| ==> p[k] == '?'
    ensures Run(p, t, past, Config(u + 1, u, u, u + 1), m + (2 + steps))
         == Run(p, t, past, Config(u + 1, u + 1, u, u + 2), steps)
  {
    WalkMatches(p, t, past, Config(u + 1, u, u, u + 1), m, 2 + steps);
    var c := Config(u + 1 + m, u + m, u, u + 1);
    RunStep(p, t, past, c, 2 + steps);
    RunStep(p, t, past, Config(u, u + 1, u, u + 1), 1 + steps);
  }

  lemma InnerSlashRun(t: string, past: char, p: string, u: nat)
    requires u < |t| - 1 && Plain(t) && t[u] == '/' && t[|t| - 1] != '/'
    requires |p| == |t| && p[u] == '*' && forall k :: 0 <= k < |p| && k != u ==> p[k] == '?'
    ensures Run(p, t, past, START, 2 * |t| - u + 2) == Answer(true)
  {
    var m := |t| - u - 1;
    RunsToStar(t, past, p, u, m + (2 + (m + 1)));
    RunsToStarAgain(t, past, p, u, m, m + 1);
    WalkMatches(p, t, past, Config(u + 1, u + 1, u, u + 2), m, 1);
    assert u + (1 + (m + (2 + (m + 1)))) == 2 * |t| - u + 2;
  }

  /** An inner `/` slips under a `*`: the loop only looks at the byte where it stopped. */
  lemma InnerSlashFails(t: string, past: char, u: nat) returns (p: string)
    requires u < |t| - 1 && Plain(t) && t[u] == '/' && t[|t| - 1] != '/'
    ensures !Matches(p, t) && Returns(p, t, past, true)
  {
    var n := |t| - u - 1;
    var q := ['*'] + Anys(n);
    p := Anys(u) + q;
    AnysThen(u, q, t);
    assert q[1..] == Anys(n);
    if Matches(q, t[u..]) {
      var k :| 0 <= k <= |t[u..]| && Absorbs('*', t[u..][..k]) && Matches(q[1..], t[u..][k..]);
      assert t[u..][0] == '/';
      AnysMatch(n, t[u..][k..]);
    }
    InnerSlashRun(t, past, p, u);
  }

  ghost predicate ExactFor(t: string, past: char) {
    forall p :: Returns(p, t, past, Matches(p, t))
  }

  /** The matcher returns the declared answer for every pattern exactly when the
      text holds none of `*`, `#` and `/`. */
  lemma ExactIffClean(t: string, past: char)
    ensures ExactFor(t, past) <==> Clean(t)
  {
    if Clean(t) {
      forall p ensures Returns(p, t, past, Matches(p, t)) { CleanTextIsExact(p, t, past); }
    } else {
      var p;
      if u :| 0 <= u < |t| && IsWild(t[u]) {
        p := WildInTextFails(t, past, u);
      } else if t[|t| - 1] == '/' {
        p := TrailingSlashFails(t, past);
      } else {
        var u :| 0 <= u < |t| && t[u] == '/';
        p := InnerSlashFails(t, past, u);
      }
      if Returns(p, t, past, Matches(p, t)) {
        ReturnsOneAnswer(p, t, past, Matches(p, t), !Matches(p, t));
      }
    }
  }
}
