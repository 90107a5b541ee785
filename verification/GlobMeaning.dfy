/** What the declared meaning of patterns amounts to: each byte of a pattern by itself, and one
    pattern behind another. Together these fix it for every pattern. */
module GlobMeaning {
  import opened Glob

  /** A pattern of one byte. */
  lemma OneMeans(c: char, t: string)
    ensures Matches([c], t) <==>
      if c == '*' then '/' !in t
      else if c == '#' then true
      else |t| == 1 && (c == '?' || t[0] == c)
  {
    assert [c][1..] == [];
    if c == '*' || c == '#' {
      assert t[..|t|] == t && t[|t|..] == [];
      if Matches([c], t) {
        var k :| 0 <= k <= |t| && Absorbs(c, t[..k]) && Matches([], t[k..]);
        assert t[..k] == t;
      } else {
        assert Matches([], t[|t|..]) && !Absorbs(c, t[..|t|]);
      }
    } else if t != [] {
      assert t[1..] == [] <==> |t| == 1;
    }
  }

  ghost predicate SplitAt(p: string, q: string, t: string, k: nat) {
    k <= |t| && Matches(p, t[..k]) && Matches(q, t[k..])
  }

  lemma SplitJoins(p: string, q: string, t: string, k: nat)
    requires SplitAt(p, q, t, k)
    ensures Matches(p + q, t)
    decreases |p|
  {
    if p == [] {
      assert p + q == q && t[..k] == [] && t[k..] == t;
    } else {
      assert (p + q)[0] == p[0] && (p + q)[1..] == p[1..] + q;
      if IsWild(p[0]) {
        var j :| 0 <= j <= |t[..k]| && Absorbs(p[0], t[..k][..j]) && Matches(p[1..], t[..k][j..]);
        Slices(t, k, j);
        SplitJoins(p[1..], q, t[j..], k - j);
        assert Absorbs(p[0], t[..j]);
      } else {
        Slices(t, k, 1);
        SplitJoins(p[1..], q, t[1..], k - 1);
      }
    }
  }

  lemma Slices(t: string, k: nat, j: nat)
    requires j <= k <= |t|
    ensures t[..k][..j] == t[..j] && t[..k][j..] == t[j..][..k - j] && t[k..] == t[j..][k - j..]
  {
  }

  lemma JoinSplits(p: string, q: string, t: string) returns (k: nat)
    requires Matches(p + q, t)
    ensures SplitAt(p, q, t, k)
    decreases |p|
  {
    if p == [] {
      k := 0;
      assert p + q == q && t[..0] == [] && t[0..] == t;
    } else {
      assert (p + q)[0] == p[0] && (p + q)[1..] == p[1..] + q;
      if IsWild(p[0]) {
        var j :| 0 <= j <= |t| && Absorbs(p[0], t[..j]) && Matches(p[1..] + q, t[j..]);
        var m := JoinSplits(p[1..], q, t[j..]);
        k := j + m;
        Slices(t, k, j);
        assert Absorbs(p[0], t[..k][..j]);
      } else {
        var m := JoinSplits(p[1..], q, t[1..]);
        k := m + 1;
        Slices(t, k, 1);
      }
    }
  }

  /** One pattern behind another matches the texts that split into a match of each. */
  lemma BehindMeans(p: string, q: string, t: string)
    ensures Matches(p + q, t) <==> exists k :: 0 <= k <= |t| && Matches(p, t[..k]) && Matches(q, t[k..])
  {
    if Matches(p + q, t) { var k := JoinSplits(p, q, t); }
    if k :| 0 <= k <= |t| && Matches(p, t[..k]) && Matches(q, t[k..]) { SplitJoins(p, q, t, k); }
  }
}
