/** Exactly when `mg_globmatch` returns whatever the pattern: for every other text a pattern on
    which the loop goes round for ever. */
module GlobReturns {
  import opened Glob

  ghost predicate AlwaysReturns(t: string, past: char) {
    forall p :: Ends(p, t, past)
  }

  // ----- Going round -----

  /** From `c` the loop comes back to `c`. */
  ghost predicate Cycle(p: string, t: string, past: char, c: Config, k: nat)
    requires Sane(p, t, c)
  {
    k > 0 && forall m: nat :: Run(p, t, past, c, k + m) == Run(p, t, past, c, m)
  }

  lemma {:induction false} CycleNeverAnswers(p: string, t: string, past: char, c: Config, k: nat, m: nat)
    requires Sane(p, t, c) && Cycle(p, t, past, c, k)
    ensures Run(p, t, past, c, m) == Running
    decreases m
  {
    if m >= k {
      CycleNeverAnswers(p, t, past, c, k, m - k);
      assert Run(p, t, past, c, k + (m - k)) == Run(p, t, past, c, m - k);
    } else {
      assert Run(p, t, past, c, k + 0) == Run(p, t, past, c, 0);
      if Run(p, t, past, c, m).Answer? {
        RunMore(p, t, past, c, m, k);
      }
    }
  }

  /** A run that leads into a cycle never returns. */
  lemma LeadsIntoCycle(p: string, t: string, past: char, c: Config, lead: nat, k: nat, b: bool)
    requires Sane(p, t, c) && Cycle(p, t, past, c, k)
    requires forall m: nat :: Run(p, t, past, START, lead + m) == Run(p, t, past, c, m)
    ensures !Returns(p, t, past, b)
  {
    forall steps: nat ensures Run(p, t, past, START, steps) != Answer(b) {
      if Run(p, t, past, START, steps) == Answer(b) {
        RunMore(p, t, past, START, steps, lead + steps);
        assert Run(p, t, past, START, lead + steps) == Run(p, t, past, c, steps);
        CycleNeverAnswers(p, t, past, c, k, steps);
      }
    }
  }

  // ----- A pattern that never returns -----

  /** At `i` the pattern has no wildcard and does not match the byte at `j`, and the loop
      resumes from here. */
  predicate Stuck(p: string, t: string, past: char, i: nat, j: nat) {
    && 0 < i < |p| && j <= |t| && !IsWild(p[i]) && (j < |t| ==> p[i] != '?' && p[i] != t[j])
    && (p[i - 1] == '#' || At(t, past, j) != '/')
  }

  predicate Follows(p: string, t: string, i: nat, j: nat, n: nat) {
    i + n <= |p| && j + n <= |t| && forall k :: i <= k < i + n ==> p[k] == '?' || p[k] == t[k - i + j]
  }

  /** The wildcard at `u - 1` is passed at the byte before the trap and resumed on the trap. Both
      times the pattern behind it follows the text for a while and gets stuck. */
  predicate GoesRound(p: string, t: string, past: char, u: nat, first: nat, again: nat) {
    && Trap(t, u) && u < |p| && p[u - 1] == t[u] && (forall k :: 0 <= k < u - 1 ==> p[k] == '?')
    && Follows(p, t, u, u - 1, first) && Stuck(p, t, past, u + first, u - 1 + first)
    && Follows(p, t, u, u + 1, again) && Stuck(p, t, past, u + again, u + 1 + again)
  }

  lemma RunsToWild(p: string, t: string, past: char, u: nat, m: nat)
    requires Trap(t, u) && u < |p| && p[u - 1] == t[u] && forall k :: 0 <= k < u - 1 ==> p[k] == '?'
    ensures Run(p, t, past, START, u + m) == Run(p, t, past, Config(u, u - 1, u - 1, u), m)
  {
    WalkMatches(p, t, past, START, u - 1, 1 + m);
    RunStep(p, t, past, Config(u - 1, u - 1, 0, 0), 1 + m);
  }

  lemma StuckResumes(p: string, t: string, past: char, i: nat, j: nat, u: nat)
    requires 0 < u <= i && u <= |t| && Stuck(p, t, past, i, j) && IsWild(p[u - 1])
    ensures Step(p, t, past, Config(i, j, u - 1, u)) == Go(Config(u - 1, u, u - 1, u))
  {
  }

  /** Behind the wildcard the pattern follows the text for `n` bytes, gets stuck and resumes. */
  lemma RunsBack(p: string, t: string, past: char, u: nat, j: nat, n: nat, m: nat)
    requires 0 < u < |p| && IsWild(p[u - 1]) && u <= |t|
    requires Follows(p, t, u, j, n) && Stuck(p, t, past, u + n, j + n)
    ensures Run(p, t, past, Config(u, j, u - 1, u), n + 1 + m) == Run(p, t, past, Config(u - 1, u, u - 1, u), m)
  {
    var c, d := Config(u, j, u - 1, u), Config(u + n, j + n, u - 1, u);
    StuckResumes(p, t, past, u + n, j + n, u);
    assert Run(p, t, past, c, n + (1 + m)) == Run(p, t, past, d, 1 + m) by {
      WalkMatches(p, t, past, c, n, 1 + m);
      assert c.(i := u + n, j := j + n) == d;
    }
    RunStep(p, t, past, d, 1 + m);
  }

  lemma RunsToTrap(p: string, t: string, past: char, u: nat, first: nat, again: nat, m: nat)
    requires GoesRound(p, t, past, u, first, again)
    ensures Run(p, t, past, START, u + first + 1 + m) == Run(p, t, past, Config(u - 1, u, u - 1, u), m)
  {
    RunsToWild(p, t, past, u, first + 1 + m);
    RunsBack(p, t, past, u, u - 1, first, m);
  }

  lemma RunsRound(p: string, t: string, past: char, u: nat, first: nat, again: nat, m: nat)
    requires GoesRound(p, t, past, u, first, again)
    ensures var c := Config(u - 1, u, u - 1, u); Run(p, t, past, c, again + 2 + m) == Run(p, t, past, c, m)
  {
    RunStep(p, t, past, Config(u - 1, u, u - 1, u), again + 2 + m);
    RunsBack(p, t, past, u, u + 1, again, m);
  }

  lemma NeverReturns(p: string, t: string, past: char, u: nat, first: nat, again: nat, b: bool)
    requires GoesRound(p, t, past, u, first, again)
    ensures !Returns(p, t, past, b)
  {
    var c := Config(u - 1, u, u - 1, u);
    forall m: nat ensures Run(p, t, past, START, u + first + 1 + m) == Run(p, t, past, c, m) {
      RunsToTrap(p, t, past, u, first, again, m);
    }
    forall m: nat ensures Run(p, t, past, c, again + 2 + m) == Run(p, t, past, c, m) {
      RunsRound(p, t, past, u, first, again, m);
    }
    LeadsIntoCycle(p, t, past, c, u + first + 1, again + 2, b);
  }

  /** A letter other than these two. */
  function Other(a: char, b: char): (x: char)
    ensures x != a && x != b && x != '?' && x != '/' && !IsWild(x)
  {
    if a != 'a' && b != 'a' then 'a' else if a != 'b' && b != 'b' then 'b' else 'c'
  }

  /** `#`, or a `*` with another byte than `/` on both sides: one letter gets stuck twice. */
  lemma OneLetter(t: string, past: char, u: nat) returns (p: string)
    requires Trap(t, u)
    requires t[u] == '#' || (t[u - 1] != '/' && At(t, past, u + 1) != '/')
    ensures GoesRound(p, t, past, u, 0, 0)
  {
    p := Anys(u - 1) + [t[u], Other(t[u - 1], At(t, past, u + 1))];
  }

  /** A `*` between `/` and another byte: the slash is followed the first time only. */
  lemma SlashBefore(t: string, past: char, u: nat) returns (p: string)
    requires Trap(t, u) && t[u] == '*' && t[u - 1] == '/' && At(t, past, u + 1) != '/'
    ensures GoesRound(p, t, past, u, 1, 0)
  {
    p := Anys(u - 1) + ['*', '/', 'a'];
  }

  function Slashes(n: nat): (s: string)
    ensures |s| == n && forall k :: 0 <= k < n ==> s[k] == '/'
  {
    seq(n, _ => '/')
  }

  /** A `*` with slashes behind it and another byte at `b`: the slashes are followed the second
      time, and the `*` itself stops the first. */
  lemma SlashesBehind(t: string, past: char, u: nat, b: nat) returns (p: string)
    requires Trap(t, u) && t[u] == '*' && u + 2 <= b <= |t| && At(t, past, b) != '/'
    requires forall k :: u < k < b ==> At(t, past, k) == '/'
    ensures GoesRound(p, t, past, u, 1, b - u - 1)
  {
    forall k | u < k < b ensures t[k] == '/' {
      assert At(t, past, k) == '/';
    }
    p := Anys(u - 1) + ['*', '?'] + Slashes(b - u - 2) + [Other(At(t, past, b), '*')];
  }

  lemma {:induction false} FirstOther(t: string, past: char, u: nat, b: nat) returns (c: nat)
    requires u <= b <= |t| && At(t, past, b) != '/'
    ensures u <= c <= b && At(t, past, c) != '/' && forall k :: u <= k < c ==> At(t, past, k) == '/'
    decreases b - u
  {
    if At(t, past, u) != '/' {
      c := u;
    } else {
      c := FirstOther(t, past, u + 1, b);
    }
  }

  lemma TrapHangs(t: string, past: char, u: nat) returns (p: string, first: nat, again: nat)
    requires Trap(t, u) && !(t[u] == '*' && OnlySlashes(t, past, u + 1))
    ensures GoesRound(p, t, past, u, first, again)
  {
    if t[u] == '#' {
      p := OneLetter(t, past, u);
      first, again := 0, 0;
    } else {
      var other :| u + 1 <= other <= |t| && At(t, past, other) != '/';
      var b := FirstOther(t, past, u + 1, other);
      if b > u + 1 {
        p := SlashesBehind(t, past, u, b);
        first, again := 1, b - u - 1;
      } else if t[u - 1] == '/' {
        p := SlashBefore(t, past, u);
        first, again := 1, 0;
      } else {
        p := OneLetter(t, past, u);
        first, again := 0, 0;
      }
    }
  }

  /** The call returns for every pattern if and only if the text has no trap but a `*` with only
      slashes behind it, up to and with the byte past the text. */
  lemma ReturnsIff(t: string, past: char)
    ensures AlwaysReturns(t, past) <==> Settles(t, past)
  {
    if Settles(t, past) {
      forall p ensures Ends(p, t, past) {
        var steps := RunAnswers(p, t, past, START);
        assert Run(p, t, past, START, steps) == Answer(Run(p, t, past, START, steps).matched);
      }
    } else {
      var u: nat :| Trap(t, u) && !(t[u] == '*' && OnlySlashes(t, past, u + 1));
      var p, first, again := TrapHangs(t, past, u);
      NeverReturns(p, t, past, u, first, again, true);
      NeverReturns(p, t, past, u, first, again, false);
      assert !Ends(p, t, past);
    }
  }

  /** Wildcard bytes only in a run of one of them at the front. */
  predicate Front(t: string) {
    forall u :: 0 < u < |t| && IsWild(t[u]) ==> t[u - 1] == t[u]
  }

  /** Then every pattern returns, whatever slashes there are and whatever follows. */
  lemma FrontReturns(t: string, past: char)
    requires Front(t)
    ensures AlwaysReturns(t, past)
  {
    ReturnsIff(t, past);
  }

  lemma EndIsNoSlash(t: string, past: char, u: nat)
    requires past != '/' && u <= |t|
    ensures !OnlySlashes(t, past, u)
  {
    assert At(t, past, |t|) == past;
  }

  /** Without slashes that is exactly when. */
  lemma NoSlashReturnsIff(t: string, past: char)
    requires '/' !in t && past != '/'
    ensures AlwaysReturns(t, past) <==> Front(t)
  {
    ReturnsIff(t, past);
    forall u | 0 < u < |t| ensures Trap(t, u) ==> !OnlySlashes(t, past, u + 1) {
      EndIsNoSlash(t, past, u + 1);
    }
    FrontIsNoTrap(t);
  }

  lemma FrontIsNoTrap(t: string)
    ensures Front(t) <==> forall u :: 0 < u < |t| ==> !Trap(t, u)
  {
    if !Front(t) {
      var u :| 0 < u < |t| && IsWild(t[u]) && t[u - 1] != t[u];
      assert Trap(t, u);
    }
  }

  /** On `*b` against `a*c` the call never returns. */
  lemma LoopsForever(past: char, b: bool)
    ensures !Returns("*b", "a*c", past, b)
  {
    NeverReturns("*b", "a*c", past, 1, 0, 0, b);
  }
}
