/** Key by key, what the line editor makes of text and cursor, with every key by its code. */
module EditorKeys {
  import opened CliHistory
  import opened Prelude
  import opened LineEditor
  import opened EditorLaws

  /** The text in front of the cursor and behind it. */
  predicate Shows(e: Editor, left: string, right: string) {
    e.left == left && e.right == right
  }

  /** Nothing of an escape sequence or a search is left over, and no line was completed. */
  ghost predicate Ready(e: Editor, s: string) {
    && Plain(e) && e.counter == 0
    && (forall k :: 0 <= k < |s| ==> Ordinary(s[k]))
    && |e.left| + |e.right| + |s| < MAX_LINE
  }

  lemma KeyThenType(e: Editor, keys: string, f: Editor, s: string)
    requires Keys(e, keys) == f && Plain(f) && |f.left| + |f.right| + |s| < MAX_LINE
    requires forall k :: 0 <= k < |s| ==> Ordinary(s[k])
    ensures Shows(Keys(e, keys + s), f.left + s, f.right)
  {
    KeysSplit(e, keys, s);
    TypingInserts(f, s);
  }

  /** The final key of an escape sequence without digits. */
  lemma EscapeKey(e: Editor, ch: char)
    requires Plain(e) && e.counter == 0 && !('0' <= ch <= '9') && ch != '\n'
    ensures Keys(e, [27 as char, '[', ch])
         == CsiMove(e.(counter := 1, escape := true, csi := true), ch, 1).(csi := false, escape := false, counter := 0)
  {
    var lead := [ESC] + "[";
    CsiLead(e);
    KeysSplit(e, lead, [ch]);
    assert lead + [ch] == [27 as char, '[', ch];
    var f := e.(escape := true, csi := true, counter := 0);
    KeysOne(f, ch);
    assert f.(line := None) == f;
  }

  /** Ctrl-A and ESC [ H: what is typed next comes in front of everything. */
  lemma HomeThenType(e: Editor, s: string)
    requires Ready(e, s)
    ensures Shows(Keys(e, [1 as char] + s), s, e.left + e.right)
    ensures Shows(Keys(e, [27 as char, '[', 'H'] + s), s, e.left + e.right)
  {
    var f := e.(left := "", right := e.left + e.right);
    KeysOne(e, 1 as char);
    KeyThenType(e, [1 as char], f, s);
    EscapeKey(e, 'H');
    KeyThenType(e, [27 as char, '[', 'H'], f, s);
    assert "" + s == s;
  }

  /** Ctrl-E and ESC [ F: what is typed next comes behind everything. */
  lemma EndThenType(e: Editor, s: string)
    requires Ready(e, s)
    ensures Shows(Keys(e, [5 as char] + s), e.left + e.right + s, "")
    ensures Shows(Keys(e, [27 as char, '[', 'F'] + s), e.left + e.right + s, "")
  {
    var f := e.(left := e.left + e.right, right := "");
    KeysOne(e, 5 as char);
    KeyThenType(e, [5 as char], f, s);
    EscapeKey(e, 'F');
    KeyThenType(e, [27 as char, '[', 'F'], f, s);
  }

  /** Ctrl-K leaves the text in front of the cursor, Ctrl-C none. */
  lemma KillAndCancel(e: Editor)
    requires Ready(e, "")
    ensures Shows(Keys(e, [11 as char]), e.left, "")
    ensures Shows(Keys(e, [3 as char]), "", "") && Keys(e, [3 as char]).history == e.history
    ensures Keys(e, [3 as char]).line.None? && Keys(e, [3 as char]).historyPos == -1
  {
    KeysOne(e, 11 as char);
    KeysOne(e, 3 as char);
  }

  lemma BackspaceKey(e: Editor, ch: char)
    requires Ready(e, "") && (ch == 8 as char || ch == 127 as char)
    ensures Keys(e, [ch]) == Backspace(e)
  {
    KeysOne(e, ch);
  }

  lemma DeleteKey(e: Editor)
    requires Ready(e, "")
    ensures Keys(e, [27 as char, '[', '3', '~']) == Delete(e)
  {
    CsiLead(e);
    var lead, f := [ESC] + "[", e.(escape := true, csi := true, counter := 0);
    KeysSplit3(e, lead, "3", "~");
    assert lead + "3" + "~" == [27 as char, '[', '3', '~'];
    KeysOne(f, '3');
    assert f.(line := None) == f;
    KeysOne(f.(counter := 3), '~');
  }

  /** Backspace, which may be 8 or 127, takes the character in front of the cursor, and
      ESC [ 3 ~ the one at it. */
  lemma EraseKeys(e: Editor)
    requires Ready(e, "")
    ensures e.left != "" ==> Shows(Keys(e, [8 as char]), e.left[..|e.left| - 1], e.right)
    ensures e.left == "" ==> Shows(Keys(e, [8 as char]), "", e.right)
    ensures Keys(e, [127 as char]) == Keys(e, [8 as char])
    ensures Shows(Keys(e, [27 as char, '[', '3', '~']), e.left, if e.right == "" then "" else e.right[1..])
  {
    BackspaceKey(e, 8 as char);
    BackspaceKey(e, 127 as char);
    DeleteKey(e);
  }

  lemma IdleKey(e: Editor, ch: char)
    requires Ready(e, "") && (ch == 12 as char || ch == 0 as char)
    ensures Keys(e, [ch]) == e
  {
    KeysOne(e, ch);
  }

  lemma UnknownSequence(e: Editor, ch: char)
    requires Ready(e, "") && !('0' <= ch <= '9') && ch != '\n' && ch !in "ABCDFH"
    ensures Keys(e, [27 as char, '[', ch]) == e
  {
    EscapeKey(e, ch);
    assert ch != 'A' && ch != 'B' && ch != 'C' && ch != 'D' && ch != 'F' && ch != 'H';
  }

  /** Ctrl-L, NUL and the unknown sequences change nothing of the text. */
  lemma IdleKeys(e: Editor, ch: char)
    requires Ready(e, "")
    ensures Shows(Keys(e, [12 as char]), e.left, e.right) && Shows(Keys(e, [0 as char]), e.left, e.right)
    ensures !('0' <= ch <= '9') && ch != '\n' && ch !in "ABCDFH" ==>
              Shows(Keys(e, [27 as char, '[', ch]), e.left, e.right) && Keys(e, [27 as char, '[', ch]).line == None
  {
    IdleKey(e, 12 as char);
    IdleKey(e, 0 as char);
    if !('0' <= ch <= '9') && ch != '\n' && ch !in "ABCDFH" { UnknownSequence(e, ch); }
  }

  /** A line feed ends the line even inside a sequence, a carriage return only the sequence. */
  lemma NewlineInSequence(e: Editor)
    requires Ready(e, "")
    ensures Keys(e, [27 as char, '[', '\n']).line == Some(e.left + e.right)
    ensures Keys(e, [27 as char, '[', '\r']).line == None
  {
    var lead, f := [ESC] + "[", e.(escape := true, csi := true, counter := 0);
    CsiLead(e);
    KeysSplit(e, lead, "\n");
    assert lead + "\n" == [27 as char, '[', '\n'];
    KeysOne(f, '\n');
    EscapeKey(e, '\r');
  }

  /** A full line takes no more characters. */
  lemma FullLine(e: Editor, ch: char)
    requires Plain(e) && Ordinary(ch) && |e.left| + |e.right| == 119
    ensures Shows(Keys(e, [ch]), e.left, e.right)
  {
    KeysOne(e, ch);
  }

  /** The arrows with a count: the cursor moves by as many characters, if there are that many;
      the text stays. No digits, or zeros only, count as one. */
  lemma ArrowMoves(e: Editor, ds: string)
    requires Ready(e, "") && Digits(ds) && Short(ds)
    ensures var n := if Value(ds) == 0 then 1 else Value(ds);
      var l, r := Keys(e, [27 as char, '['] + ds + "D"), Keys(e, [27 as char, '['] + ds + "C");
      && l.left + l.right == r.left + r.right == e.left + e.right
      && |l.left| == (if n <= |e.left| then |e.left| - n else |e.left|)
      && |r.left| == (if n <= |e.right| then |e.left| + n else |e.left|)
  {
    var n := if Value(ds) == 0 then 1 else Value(ds);
    assert [ESC] + "[" == [27 as char, '['];
    CountedKey(e, ds, 'D');
    CountedKey(e, ds, 'C');
    MovesKeepText(e, n);
  }

  /** A line typed into an empty editor is returned at either newline, and becomes the newest
      entry of the history. */
  lemma LineIsReturned(e: Editor, s: string)
    requires Ready(e, s) && e.left == e.right == "" && s != ""
    ensures Keys(e, s + "\r") == Keys(e, s + "\n")
    ensures var f := Keys(e, s + "\n");
      f.line == Some(s) && Shows(f, "", "") && f.history != [] && f.history[0] == s
  {
    TypedLineIsReturned(e, s);
    KeysSplit(e, s, "\n");
    KeysSplit(e, s, "\r");
    TypingInserts(e, s);
    KeysOne(Keys(e, s), '\n');
    KeysOne(Keys(e, s), '\r');
  }

  // ----- Searching -----

  /** `t` stands somewhere in `h`. */
  predicate Has(h: string, t: string) {
    exists i, j :: 0 <= i <= j <= |h| && h[i..j] == t
  }

  lemma HasIff(h: string, t: string)
    ensures Has(h, t) <==> Contains(h, t)
  {
    if Has(h, t) {
      var i, j :| 0 <= i <= j <= |h| && h[i..j] == t;
      assert h[i..][..|t|] == t;
    }
    if Contains(h, t) {
      var i :| 0 <= i <= |h| && t <= h[i..];
      assert h[i..][..|t|] == h[i..i + |t|];
    }
  }

  /** `found` is the newest entry that holds `t`, or nothing if none does. */
  ghost predicate Newest(history: seq<string>, t: string, found: string) {
    if exists k :: 0 <= k < |history| && Has(history[k], t) then
      exists k :: 0 <= k < |history| && history[k] == found && Has(found, t)
        && forall j :: 0 <= j < k ==> !Has(history[j], t)
    else found == ""
  }

  /** The search from entry `k` on, when none of the newer ones holds the text. */
  lemma {:induction false} FoundIsNewest(history: seq<string>, t: string, k: nat)
    requires k <= |history| && forall j :: 0 <= j < k ==> !Has(history[j], t)
    ensures Newest(history, t, match Found(history, t, k) { case Some(h) => h case None => "" })
    decreases |history| - k
  {
    if k < |history| {
      HasIff(history[k], t);
      if Contains(history[k], t) {
        assert Has(history[k], t);
      } else {
        FoundIsNewest(history, t, k + 1);
      }
    } else {
      assert Found(history, t, k + 1) == None;
    }
  }

  lemma SearchTyped(e: Editor, s: string)
    requires Ready(e, s)
    ensures Keys(e, [18 as char] + s) == e.(left := e.left + s, searching := true)
  {
    KeysSplit(e, [18 as char], s);
    KeysOne(e, 18 as char);
    TypingInSearch(e.(searching := true), s);
  }

  lemma {:induction false} TypingInSearch(e: Editor, s: string)
    requires !e.csi && !e.escape && e.line.None? && (forall k :: 0 <= k < |s| ==> Ordinary(s[k]))
    requires |e.left| + |e.right| + |s| < MAX_LINE
    ensures Keys(e, s) == e.(left := e.left + s)
    decreases |s|
  {
    if s == "" {
      assert e.left + s == e.left;
    } else {
      var f := e.(left := e.left + [s[0]]);
      assert Key(e, s[0]) == f;
      TypingInSearch(f, s[1..]);
      assert e.left + [s[0]] + s[1..] == e.left + s;
    }
  }

  /** Ctrl-R, some text, and ESC: the line is the newest entry that holds the text of the line,
      or empty, with the cursor behind it; newline returns that line at once. */
  lemma SearchFinds(e: Editor, s: string)
    requires Ready(e, s)
    ensures var f := Keys(e, [18 as char] + s + [27 as char]);
      Newest(e.history, e.left + s + e.right, f.left) && f.right == "" && !f.searching
    ensures var f := Keys(e, [18 as char] + s + "\n");
      f.line.Some? && Newest(e.history, e.left + s + e.right, f.line.value) && Shows(f, "", "")
  {
    var g := e.(left := e.left + s, searching := true);
    SearchTyped(e, s);
    KeysSplit(e, [18 as char] + s, [27 as char]);
    KeysSplit(e, [18 as char] + s, "\n");
    KeysOne(g, 27 as char);
    KeysOne(g, '\n');
    FoundIsNewest(e.history, e.left + s + e.right, 0);
    var found := match Found(e.history, g.Text(), 0) { case Some(h) => h case None => "" };
    assert g.Text() == e.left + s + e.right && found + "" == found;
  }

  /** Backspace leaves the search as well, and then takes one character. */
  lemma SearchBackspace(e: Editor, s: string) returns (found: string)
    requires Ready(e, s)
    ensures Newest(e.history, e.left + s + e.right, found)
    ensures var front := if found == "" then "" else found[..|found| - 1];
      && Shows(Keys(e, [18 as char] + s + [8 as char]), front, "")
      && Shows(Keys(e, [18 as char] + s + [127 as char]), front, "")
  {
    var g := e.(left := e.left + s, searching := true);
    SearchTyped(e, s);
    KeysSplit(e, [18 as char] + s, [8 as char]);
    KeysSplit(e, [18 as char] + s, [127 as char]);
    KeysOne(g, 8 as char);
    KeysOne(g, 127 as char);
    FoundIsNewest(e.history, e.left + s + e.right, 0);
    found := match Found(e.history, g.Text(), 0) { case Some(h) => h case None => "" };
    assert g.Text() == e.left + s + e.right;
  }

  // ----- The ends of the history -----

  /** One more up arrow than there are entries shows an empty line, and so does the down arrow
      from the newest entry, or with no entry recalled. */
  lemma HistoryEnds(e: Editor)
    requires Ready(e, "") && e.historyPos == -1 && e.history != []
    ensures Shows(Keys(e, Ups(|e.history| + 1)), "", "")
    ensures Shows(Keys(e, Ups(1) + DOWN), "", "") && Keys(e, Ups(1) + DOWN).historyPos == -1
    ensures Shows(Keys(e, DOWN), "", "") && Keys(e, DOWN).historyPos == -1
  {
    var n := |e.history|;
    assert UP == [ESC] + "[" + ['A'] && DOWN == [ESC] + "[" + ['B'];
    UpWalksHistory(e, n);
    KeysSplit(e, Ups(n), UP);
    ArrowKey(Keys(e, Ups(n)), 'A');
    UpWalksHistory(e, 1);
    KeysSplit(e, Ups(1), DOWN);
    ArrowKey(Keys(e, Ups(1)), 'B');
    ArrowKey(e, 'B');
  }

  lemma OneMoreUp(e: Editor)
    requires Plain(e) && e.counter == 0 && |e.history| - 1 <= e.historyPos <= |e.history|
    ensures Keys(e, UP) == e.(left := "", right := "", historyPos :=
      if e.historyPos == |e.history| - 1 && Used(e.history) < 512 then |e.history| else e.historyPos)
  {
    assert UP == [ESC] + "[" + ['A'];
    ArrowKey(e, 'A');
  }

  /** Up arrows beyond the oldest entry go no further than one entry past it, and only that far
      when there is room for an empty entry. */
  lemma {:induction false} UpsPast(e: Editor, m: nat)
    requires Plain(e) && e.counter == 0 && e.historyPos == -1 && e.history != [] && m > 0
    ensures var n := |e.history|;
      Keys(e, Ups(n + m)) == e.(left := "", right := "", historyPos := if Used(e.history) < 512 then n else n - 1)
    decreases m
  {
    var n := |e.history|;
    var f := Keys(e, Ups(n + m - 1));
    if m > 1 { UpsPast(e, m - 1); } else { UpWalksHistory(e, n); }
    KeysSplit(e, Ups(n + m - 1), UP);
    OneMoreUp(f);
  }

  /** However many up arrows went past the oldest entry, one down arrow shows it again, unless the
      entries fill their array to the last byte: then it shows the one in front of it. */
  lemma DownFromThePast(e: Editor, m: nat)
    requires Ready(e, "") && e.historyPos == -1 && e.history != [] && m > 0
    ensures var f, n := Keys(e, Ups(|e.history| + m) + DOWN), |e.history|;
      Shows(f, if Used(e.history) < 512 then e.history[n - 1] else if n > 1 then e.history[n - 2] else "", "")
  {
    assert DOWN == [ESC] + "[" + ['B'];
    UpsPast(e, m);
    KeysSplit(e, Ups(|e.history| + m), DOWN);
    ArrowKey(Keys(e, Ups(|e.history| + m)), 'B');
  }
}
