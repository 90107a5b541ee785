/** The packed command history of the line editor: NUL-separated lines, newest
    first, in a fixed array (`embedded_cli_get_history`, `embedded_cli_extend_history`). */
module CliHistory {
  import opened Prelude

  const NUL: char := '\0'
  const HISTORY_LEN: nat := 512
  const MAX_LINE: nat := 120

  predicate Clean(s: string) {
    NUL !in s
  }

  /** A line as the history stores it: not empty, free of NUL, short enough for the buffer. */
  predicate IsEntry(s: string) {
    s != "" && Clean(s) && |s| < MAX_LINE
  }

  predicate AreEntries(es: seq<string>) {
    forall k :: 0 <= k < |es| ==> IsEntry(es[k])
  }

  /** Bytes the entries take, each with its NUL. */
  function Used(es: seq<string>): nat {
    if es == [] then 0 else |es[0]| + 1 + Used(es[1..])
  }

  ghost predicate Fits(es: seq<string>, n: nat) {
    AreEntries(es) && Used(es) <= n
  }

  function Nuls(n: nat): (s: string)
    ensures |s| == n
  {
    seq(n, _ => NUL)
  }

  /** The array of `n` bytes that holds these entries. */
  ghost function Image(es: seq<string>, n: nat): (s: string)
    requires Used(es) <= n
    ensures |s| == n
  {
    if es == [] then Nuls(n)
    else es[0] + [NUL] + Image(es[1..], n - |es[0]| - 1)
  }

  // ----- What the history means -----

  /** The entries that fit into `n` bytes; the oldest is cut or dropped. */
  function Fit(es: seq<string>, n: nat): seq<string> {
    if es == [] || n <= 1 then []
    else if |es[0]| + 1 <= n then [es[0]] + Fit(es[1..], n - |es[0]| - 1)
    else [es[0][..n - 1]]
  }

  /** Accepting a line: newest first, no immediate repetition, no empty line. */
  function Accept(es: seq<string>, line: string): seq<string> {
    if line == "" || (es != [] && es[0] == line) then es
    else Fit([line] + es, HISTORY_LEN)
  }

  /** Entry `k`; one past the last reads as an empty line while there is room for its NUL. */
  function Lookup(es: seq<string>, k: int): Option<string> {
    if k < 0 || k > |es| then None
    else if k < |es| then Some(es[k])
    else if Used(es) < HISTORY_LEN then Some("")
    else None
  }

  // ----- C strings inside an array -----

  /** The string from `pos` up to the first NUL. */
  function CString(s: string, pos: nat): string
    requires pos <= |s|
    decreases |s| - pos
  {
    if pos == |s| || s[pos] == NUL then "" else [s[pos]] + CString(s, pos + 1)
  }

  lemma {:induction false} CStringIs(s: string, pos: nat, t: string)
    requires pos + |t| < |s| && s[pos..pos + |t|] == t && s[pos + |t|] == NUL && Clean(t)
    ensures CString(s, pos) == t
    decreases |t|
  {
    if t != "" {
      assert s[pos] == t[0];
      assert s[pos + 1..pos + |t|] == s[pos..pos + |t|][1..] == t[1..];
      CStringIs(s, pos + 1, t[1..]);
    }
  }

  method StrLen(a: array<char>, pos: nat) returns (n: nat)
    requires pos < a.Length && a[a.Length - 1] == NUL
    ensures pos + n < a.Length && n == |CString(a[..], pos)|
    ensures a[pos..pos + n] == CString(a[..], pos) && Clean(a[pos..pos + n]) && a[pos + n] == NUL
  {
    n := 0;
    while a[pos + n] != NUL
      invariant pos + n < a.Length && Clean(a[pos..pos + n])
      decreases a.Length - pos - n
    {
      assert a[pos..pos + n + 1] == a[pos..pos + n] + [a[pos + n]];
      n := n + 1;
    }
    CStringIs(a[..], pos, a[pos..pos + n]);
  }

  // ----- Reading the image -----

  /** From `pos` on, the array holds the image of these entries. */
  ghost predicate At(s: string, es: seq<string>, pos: nat) {
    pos <= |s| && Used(es) <= |s| - pos && s[pos..] == Image(es, |s| - pos)
  }

  lemma DropDrop(s: string, i: nat, j: nat)
    requires i + j <= |s|
    ensures s[i..][j..] == s[i + j..]
  {
  }

  lemma CStringAt(s: string, pos: nat, tail: string, t: string)
    requires pos <= |s| && s[pos..] == tail && Clean(t) && |t| < |tail| && tail[..|t|] == t && tail[|t|] == NUL
    ensures CString(s, pos) == t
  {
    assert s[pos..pos + |t|] == s[pos..][..|t|];
    assert s[pos + |t|] == s[pos..][|t|];
    CStringIs(s, pos, t);
  }

  /** The first entry is read there, and the rest follows behind its NUL. */
  lemma NextEntry(s: string, es: seq<string>, pos: nat)
    requires At(s, es, pos) && es != [] && Clean(es[0])
    ensures CString(s, pos) == es[0] && At(s, es[1..], pos + |es[0]| + 1)
  {
    CStringAt(s, pos, s[pos..], es[0]);
    DropDrop(s, pos, |es[0]| + 1);
  }

  lemma NoEntry(s: string, pos: nat)
    requires At(s, [], pos) && pos < |s|
    ensures CString(s, pos) == ""
  {
    assert s[pos..][0] == s[pos];
  }

  lemma {:induction false} ImageEndsInNul(es: seq<string>, n: nat)
    requires Used(es) <= n && n > 0
    ensures Image(es, n)[n - 1] == NUL
    decreases |es|
  {
    if es != [] {
      var m := n - |es[0]| - 1;
      if m > 0 { ImageEndsInNul(es[1..], m); }
    }
  }

  /** `embedded_cli_get_history`: never reads outside the array. */
  method GetHistory(history: array<char>, historyPos: int, ghost es: seq<string>) returns (line: Option<string>)
    requires history.Length == HISTORY_LEN && Fits(es, HISTORY_LEN)
    requires history[..] == Image(es, HISTORY_LEN)
    ensures line == Lookup(es, historyPos)
  {
    if historyPos < 0 { return None; }
    ImageEndsInNul(es, HISTORY_LEN);
    var pos: nat, i: nat := 0, 0;
    assert es[0..] == es && history[..][0..] == history[..];
    while i < historyPos
      invariant i <= historyPos && pos < HISTORY_LEN && Reads(history[..], es, i, pos)
    {
      ReadsNext(history[..], es, i, pos);
      var len := StrLen(history, pos);
      if len == 0 { return None; }
      pos := pos + len + 1;
      i := i + 1;
      if pos == HISTORY_LEN { return None; }
    }
    ReadsNext(history[..], es, i, pos);
    var n := StrLen(history, pos);
    line := Some(history[pos..pos + n]);
  }

  /** The walk stands at the start of entry `i`, or behind the last. */
  ghost predicate Reads(s: string, es: seq<string>, i: nat, pos: nat) {
    AreEntries(es) && i <= |es| && At(s, es[i..], pos) && pos + Used(es[i..]) == Used(es)
  }

  lemma ReadsNext(s: string, es: seq<string>, i: nat, pos: nat)
    requires Reads(s, es, i, pos) && pos < |s|
    ensures CString(s, pos) == if i < |es| then es[i] else ""
    ensures i < |es| ==> Reads(s, es, i + 1, pos + |es[i]| + 1)
    ensures i == |es| ==> pos == Used(es)
    ensures i + 1 == |es| && pos + |es[i]| + 1 == |s| ==> Used(es) == |s|
    ensures i + 1 < |es| ==> pos + |es[i]| + 1 < |s|
  {
    if i < |es| {
      NextEntry(s, es[i..], pos);
      assert es[i..][1..] == es[i + 1..];
    } else {
      NoEntry(s, pos);
    }
  }

  lemma FirstLine(es: seq<string>)
    requires Fits(es, HISTORY_LEN)
    ensures CString(Image(es, HISTORY_LEN), 0) == if es == [] then "" else es[0]
  {
    var s := Image(es, HISTORY_LEN);
    assert s[0..] == s;
    if es != [] { NextEntry(s, es, 0); } else { NoEntry(s, 0); }
  }

  // ----- Accepting a line -----

  lemma {:induction false} FitKeepsEntries(es: seq<string>, n: nat)
    requires AreEntries(es)
    ensures Fits(Fit(es, n), n)
    decreases |es|
  {
    if es != [] && n > 1 && |es[0]| + 1 <= n {
      FitKeepsEntries(es[1..], n - |es[0]| - 1);
    }
  }

  /** Cutting the image short and forcing its last byte to NUL cuts the oldest entries. */
  lemma {:induction false} CutImage(es: seq<string>, n: nat, m: nat)
    requires Fits(es, n) && 1 <= m <= n
    ensures Fits(Fit(es, m), m)
    ensures Image(es, n)[..m][m - 1 := NUL] == Image(Fit(es, m), m)
    decreases |es|
  {
    FitKeepsEntries(es, m);
    if es != [] && m > 1 {
      var size := |es[0]| + 1;
      if size < m {
        CutImage(es[1..], n - size, m - size);
        var rest := Image(es[1..], n - size)[..m - size];
        assert Image(es, n)[..m] == es[0] + [NUL] + rest;
        assert Image(es, n)[..m][m - 1 := NUL] == es[0] + [NUL] + rest[m - size - 1 := NUL];
      }
    }
  }

  lemma AcceptShifts(es: seq<string>, line: string)
    requires Fits(es, HISTORY_LEN) && IsEntry(line)
    ensures var m := HISTORY_LEN - |line| - 1;
            && Fits(Fit([line] + es, HISTORY_LEN), HISTORY_LEN)
            && line + [NUL] + Image(es, HISTORY_LEN)[..m][m - 1 := NUL]
               == Image(Fit([line] + es, HISTORY_LEN), HISTORY_LEN)
  {
    var m := HISTORY_LEN - |line| - 1;
    CutImage(es, HISTORY_LEN, m);
    assert ([line] + es)[1..] == es;
    assert Fit([line] + es, HISTORY_LEN) == [line] + Fit(es, m);
    assert ([line] + Fit(es, m))[1..] == Fit(es, m);
  }

  /** `strcmp(a, b) == 0` */
  method SameString(a: array<char>, b: array<char>) returns (same: bool)
    requires a.Length > 0 && a[a.Length - 1] == NUL && b.Length > 0 && b[b.Length - 1] == NUL
    ensures same <==> CString(a[..], 0) == CString(b[..], 0)
  {
    var m := StrLen(a, 0);
    var n := StrLen(b, 0);
    same := a[0..m] == b[0..n];
  }

  /** `memmove` inside one array. */
  method MemMove(a: array<char>, to: nat, from: nat, count: nat)
    requires to + count <= a.Length && from + count <= a.Length
    modifies a
    ensures a[..] == old(a[..to]) + old(a[from..from + count]) + old(a[to + count..])
  {
    ghost var was := a[..];
    forall k | 0 <= k < count { a[to + k] := a[from + k]; }
    assert a[..] == was[..to] + was[from..from + count] + was[to + count..];
  }

  /** `memcpy` from a different array. */
  method MemCopy(a: array<char>, to: nat, b: array<char>, from: nat, count: nat)
    requires to + count <= a.Length && from + count <= b.Length && a != b
    modifies a
    ensures a[..] == old(a[..to]) + b[from..from + count] + old(a[to + count..])
  {
    ghost var was := a[..];
    forall k | 0 <= k < count { a[to + k] := b[from + k]; }
    assert a[..] == was[..to] + b[from..from + count] + was[to + count..];
  }

  /** Makes room for `n` bytes in front. The move of the source is two bytes longer than the
      room there is; the model stops at the end of the array. */
  method MoveUp(history: array<char>, n: nat)
    requires history.Length == HISTORY_LEN && n <= HISTORY_LEN
    modifies history
    ensures history[n..] == old(history[..HISTORY_LEN - n])
  {
    ghost var was := history[..];
    MemMove(history, n, 0, HISTORY_LEN - n);
    ghost var front, back := was[..n], was[..HISTORY_LEN - n];
    assert history[..] == front + back;
    assert (front + back)[n..] == back;
  }

  /** Puts the line with its NUL there, and a NUL at the end of the array. */
  method PutInFront(history: array<char>, buffer: array<char>, len: nat)
    requires history.Length == HISTORY_LEN && buffer.Length == MAX_LINE && history != buffer
    requires len < MAX_LINE && buffer[len] == NUL
    modifies history
    ensures var m := HISTORY_LEN - len - 1;
            history[..] == buffer[..len] + [NUL] + old(history[..m])[m - 1 := NUL]
  {
    ghost var line := buffer[..len] + [NUL];
    MoveUp(history, len + 1);
    ghost var moved := history[len + 1..];
    MemCopy(history, 0, buffer, 0, len + 1);
    assert buffer[0..len + 1] == line;
    assert history[..] == line + moved;
    SetEnd(history);
    LastOfConcat(line, moved);
  }

  method SetEnd(history: array<char>)
    requires history.Length == HISTORY_LEN
    modifies history
    ensures history[..] == old(history[..])[HISTORY_LEN - 1 := NUL]
  {
    history[HISTORY_LEN - 1] := NUL;
  }

  lemma LastOfConcat(a: string, b: string)
    requires b != ""
    ensures (a + b)[|a| + |b| - 1 := NUL] == a + b[|b| - 1 := NUL]
  {
  }

  /** `embedded_cli_extend_history`. */
  method ExtendHistory(history: array<char>, buffer: array<char>, ghost es: seq<string>)
    requires history.Length == HISTORY_LEN && buffer.Length == MAX_LINE && history != buffer
    requires Fits(es, HISTORY_LEN) && history[..] == Image(es, HISTORY_LEN)
    requires buffer[MAX_LINE - 1] == NUL
    modifies history
    ensures Fits(Accept(es, CString(buffer[..], 0)), HISTORY_LEN)
    ensures history[..] == Image(Accept(es, CString(buffer[..], 0)), HISTORY_LEN)
  {
    ImageEndsInNul(es, HISTORY_LEN);
    var len := StrLen(buffer, 0);
    if len > 0 {
      FirstLine(es);
      var same := SameString(buffer, history);
      if !same {
        assert buffer[0..len] == buffer[..len];
        AcceptShifts(es, buffer[..len]);
        PutInFront(history, buffer, len);
      }
    }
  }

  // ----- What accepting does to lookups -----

  /** A nonempty line other than the newest becomes entry 0. */
  lemma NewestFirst(es: seq<string>, line: string)
    requires AreEntries(es) && IsEntry(line)
    ensures Lookup(Accept(es, line), 0) == Some(line)
  {
  }

  lemma {:induction false} FitKeeps(es: seq<string>, n: nat, k: nat)
    requires AreEntries(es) && k < |es| && Used(es[..k + 1]) <= n
    ensures k < |Fit(es, n)| && Fit(es, n)[k] == es[k]
    decreases k
  {
    if k > 0 {
      assert es[..k + 1][1..] == es[1..][..k];
      FitKeeps(es[1..], n - |es[0]| - 1, k - 1);
    }
  }

  /** Every entry that still fits behind the new line moves back by one, unchanged. */
  lemma OthersShift(es: seq<string>, line: string, k: nat)
    requires Fits(es, HISTORY_LEN) && IsEntry(line) && (es == [] || es[0] != line)
    requires k < |es| && |line| + 1 + Used(es[..k + 1]) <= 512
    ensures Lookup(Accept(es, line), k + 1) == Lookup(es, k)
  {
    var all := [line] + es;
    assert all[..k + 2][1..] == es[..k + 1];
    FitKeeps(all, HISTORY_LEN, k + 1);
  }

  /** Only the oldest end is cut: the kept entries are a prefix of the new list but
      for the last one, which may have lost its end. */
  lemma {:induction false} OnlyOldestCut(es: seq<string>, n: nat)
    requires AreEntries(es)
    ensures |Fit(es, n)| <= |es|
    ensures forall k :: 0 <= k < |Fit(es, n)| ==> Fit(es, n)[k] <= es[k]
    ensures forall k :: 0 <= k < |Fit(es, n)| - 1 ==> Fit(es, n)[k] == es[k]
    ensures Used(es) <= n ==> Fit(es, n) == es
    decreases |es|
  {
    if es != [] && n > 1 && |es[0]| + 1 <= n {
      OnlyOldestCut(es[1..], n - |es[0]| - 1);
    }
  }

  /** No more is cut than must be: what is kept leaves at most one byte of the array unused. */
  lemma {:induction false} CutIsFull(es: seq<string>, n: nat)
    requires AreEntries(es) && Used(es) > n
    ensures n <= Used(Fit(es, n)) + 1
    decreases |es|
  {
    if n > 1 && |es[0]| + 1 <= n {
      CutIsFull(es[1..], n - |es[0]| - 1);
    }
  }

  /** An empty line, or the newest one again, changes nothing. */
  lemma AcceptNothing(es: seq<string>)
    ensures Accept(es, "") == es && (es != [] ==> Accept(es, es[0]) == es)
  {
  }
}
