/** What a user of the line editor can rely on, proved of the keys. */
module EditorLaws {
  import opened CliHistory
  import opened Prelude
  import opened LineEditor

  /** A key that stands for itself outside escape sequences. */
  predicate Ordinary(ch: char) {
    && ch != NUL && ch != '\r' && ch != '\n' && !EndsSearch(ch)
    && ch != CTRL_A && ch != CTRL_C && ch != CTRL_E && ch != CTRL_K && ch != CTRL_L && ch != CTRL_R
  }

  /** No escape sequence and no search is under way. */
  predicate Plain(e: Editor) {
    !e.csi && !e.escape && !e.searching && e.line.None?
  }

  lemma {:induction false} KeysSplit(e: Editor, a: string, b: string)
    ensures Keys(e, a + b) == Keys(Keys(e, a), b)
    decreases |a|
  {
    if a == "" {
      assert a + b == b;
    } else {
      assert (a + b)[1..] == a[1..] + b;
      KeysSplit(Key(e, a[0]), a[1..], b);
    }
  }

  lemma KeysSplit3(e: Editor, a: string, b: string, c: string)
    ensures Keys(e, a + b + c) == Keys(Keys(Keys(e, a), b), c)
  {
    KeysSplit(e, a + b, c);
    KeysSplit(e, a, b);
  }

  lemma KeysOne(e: Editor, ch: char)
    ensures Keys(e, [ch]) == Key(e, ch)
  {
    assert [ch][1..] == "";
    assert Keys(Key(e, ch), "") == Key(e, ch);
  }

  /** Typing ordinary characters puts them in front of the cursor, in order. */
  lemma {:induction false} TypingInserts(e: Editor, s: string)
    requires Plain(e) && (forall k :: 0 <= k < |s| ==> Ordinary(s[k]))
    requires |e.left| + |e.right| + |s| < MAX_LINE
    ensures Keys(e, s) == e.(left := e.left + s)
    decreases |s|
  {
    if s == "" {
      assert e.left + s == e.left;
    } else {
      var f := e.(left := e.left + [s[0]]);
      assert Key(e, s[0]) == f;
      TypingInserts(f, s[1..]);
      assert e.left + [s[0]] + s[1..] == e.left + s;
    }
  }

  /** A typed line is returned unchanged at the newline, and the editor starts afresh. */
  lemma TypedLineIsReturned(e: Editor, s: string)
    requires Plain(e) && e.Text() == "" && (forall k :: 0 <= k < |s| ==> Ordinary(s[k])) && |s| < MAX_LINE
    ensures Keys(e, s + "\n") == ResetLine(e).(line := Some(s), history := Accept(e.history, s))
  {
    KeysSplit(e, s, "\n");
    TypingInserts(e, s);
    KeysOne(Keys(e, s), '\n');
    assert e.left == "" && e.right == "" && "" + s + "" == s;
  }

  /** Backspace undoes one typed character, wherever the cursor is. */
  lemma BackspaceUndoes(e: Editor, ch: char)
    requires Plain(e) && Ordinary(ch) && |e.left| + |e.right| < MAX_LINE - 1
    ensures Key(Key(e, ch), BACKSPACE) == e
  {
    assert (e.left + [ch])[..|e.left|] == e.left;
  }

  /** Left, then delete, undoes it as well. */
  lemma BackDeleteUndoes(e: Editor, ch: char)
    requires |e.left| + |e.right| < MAX_LINE - 1
    ensures Delete(Back(Insert(e, ch), 1)) == e
  {
    assert (e.left + [ch])[..|e.left|] == e.left && ([ch] + e.right)[1..] == e.right;
  }

  /** Moving never changes the text. */
  lemma MovesKeepText(e: Editor, n: nat)
    ensures Forward(e, n).Text() == Back(e, n).Text() == Home(e).Text() == End(e).Text() == e.Text()
  {
    if n <= |e.left| {
      var k := |e.left| - n;
      assert e.left[..k] + (e.left[k..] + e.right) == e.left + e.right;
    }
    if n <= |e.right| { assert e.left + e.right[..n] + e.right[n..] == e.left + e.right; }
  }

  /** Moving back and forward by the same count returns to the same place exactly
      when there was room to move back, or none to move forward. */
  lemma BackThenForward(e: Editor, n: nat)
    requires n > 0
    ensures Forward(Back(e, n), n) == e <==> n <= |e.left| || n > |e.right|
  {
    if n <= |e.left| {
      var b := Back(e, n);
      assert b.left + b.right[..n] == e.left && b.right[n..] == e.right;
    } else if n <= |e.right| {
      assert |Forward(e, n).left| == |e.left| + n;
    }
  }

  // ----- Counts in control sequences -----

  predicate Digits(ds: string) {
    forall k :: 0 <= k < |ds| ==> '0' <= ds[k] <= '9'
  }

  /** The number decimal digits stand for. */
  function Value(ds: string): nat
    requires Digits(ds)
  {
    if ds == "" then 0 else Value(ds[..|ds| - 1]) * 10 + (ds[|ds| - 1] as int - '0' as int)
  }

  /** Before every digit the number so far is below a hundred. */
  predicate Short(ds: string)
    requires Digits(ds)
  {
    forall k :: 0 <= k < |ds| ==> Value(ds[..k]) < 100
  }

  lemma ShortFront(ds: string)
    requires Digits(ds) && ds != ""
    ensures Short(ds) <==> Short(ds[..|ds| - 1]) && Value(ds[..|ds| - 1]) < 100
  {
    var front := ds[..|ds| - 1];
    assert forall k :: 0 <= k < |front| ==> front[..k] == ds[..k];
  }

  lemma {:induction false} DigitsCount(e: Editor, ds: string)
    requires e.csi && e.line.None? && e.counter == 0 && Digits(ds) && Short(ds)
    ensures Keys(e, ds) == e.(counter := Value(ds))
    decreases |ds|
  {
    if ds != "" {
      var front, last := ds[..|ds| - 1], ds[|ds| - 1];
      ShortFront(ds);
      DigitsCount(e, front);
      KeysSplit(e, front, [last]);
      assert front + [last] == ds;
      KeysOne(e.(counter := Value(front)), last);
    }
  }

  lemma {:induction false} DigitsStayOutside(e: Editor, ds: string)
    requires !e.csi && Digits(ds)
    ensures !Keys(e, ds).csi
    decreases |ds|
  {
    if ds != "" {
      DigitsStayOutside(Key(e, ds[0]), ds[1..]);
    }
  }

  /** A control sequence takes in all the digits of its count exactly when the number is below
      a hundred before each of them; leading zeros may be as many as one likes. */
  lemma {:induction false} DigitsAbsorbedIff(e: Editor, ds: string)
    requires e.csi && e.line.None? && e.counter == 0 && Digits(ds)
    ensures Keys(e, ds).csi <==> Short(ds)
    decreases |ds|
  {
    if Short(ds) {
      DigitsCount(e, ds);
    } else {
      var front, last := ds[..|ds| - 1], ds[|ds| - 1];
      ShortFront(ds);
      KeysSplit(e, front, [last]);
      assert front + [last] == ds;
      KeysOne(Keys(e, front), last);
      if Short(front) {
        DigitsCount(e, front);
      } else {
        DigitsAbsorbedIff(e, front);
        DigitsStayOutside(Keys(e, front), [last]);
      }
    }
  }

  lemma CsiLead(e: Editor)
    requires Plain(e)
    ensures Keys(e, [ESC] + "[") == e.(escape := true, csi := true, counter := 0)
  {
    assert [ESC] + "[" == [ESC] + ['['];
    KeysSplit(e, [ESC], ['[']);
    KeysOne(e, ESC);
    KeysOne(Key(e, ESC), '[');
  }

  function Moved(e: Editor, ch: char, n: nat): Editor {
    if ch == 'C' then Forward(e, if n == 0 then 1 else n) else Back(e, if n == 0 then 1 else n)
  }

  lemma CountedMove(e: Editor, n: nat, ch: char)
    requires e.csi && (ch == 'C' || ch == 'D') && e.counter == n
    ensures CsiKey(e, ch) == Moved(e, ch, n).(csi := false, escape := false, counter := 0)
  {
  }

  lemma CountedEnd(e: Editor, n: nat, ch: char)
    requires e.csi && e.line.None? && (ch == 'C' || ch == 'D') && e.counter == n
    ensures Keys(e, [ch]) == Moved(e, ch, n).(csi := false, escape := false, counter := 0)
  {
    KeysOne(e, ch);
    CountedMove(e, n, ch);
    assert e.(line := None) == e;
  }

  lemma MovedFlags(e: Editor, ch: char, n: nat)
    requires Plain(e)
    ensures Moved(e.(escape := true, csi := true, counter := n), ch, n).(csi := false, escape := false, counter := 0)
         == Moved(e, ch, n).(counter := 0)
  {
  }

  /** ESC [ digits and a final key act with the count the digits write; none means one. */
  lemma CountedKey(e: Editor, ds: string, ch: char)
    requires Plain(e) && Digits(ds) && Short(ds)
    requires ch == 'C' || ch == 'D'
    ensures Keys(e, [ESC] + "[" + ds + [ch]) == Moved(e, ch, Value(ds)).(counter := 0)
  {
    var lead, n := [ESC] + "[", Value(ds);
    var f := e.(escape := true, csi := true, counter := 0);
    CsiLead(e);
    KeysSplit3(e, lead, ds, [ch]);
    DigitsCount(f, ds);
    CountedEnd(f.(counter := n), n, ch);
    MovedFlags(e, ch, n);
  }

  // ----- History keys -----

  const UP: string := [ESC] + "[A"
  const DOWN: string := [ESC] + "[B"

  lemma ArrowKey(e: Editor, ch: char)
    requires Plain(e) && (ch == 'A' || ch == 'B')
    ensures Keys(e, [ESC] + "[" + [ch]) ==
            (if ch == 'A' then Recall(e, e.historyPos + 1, e.historyPos)
             else Recall(e, e.historyPos - 1, -1)).(counter := 0)
  {
    var lead := [ESC] + "[";
    CsiLead(e);
    KeysSplit(e, lead, [ch]);
    KeysOne(e.(escape := true, csi := true, counter := 0), ch);
  }

  /** `k` times the up arrow. */
  function Ups(k: nat): string {
    if k == 0 then "" else Ups(k - 1) + UP
  }

  /** The up arrow walks back through the history, newest entry first. */
  lemma {:induction false} UpWalksHistory(e: Editor, k: nat)
    requires Plain(e) && e.historyPos == -1 && 0 < k <= |e.history|
    ensures Keys(e, Ups(k)) == e.(left := e.history[k - 1], right := "", historyPos := k - 1, counter := 0)
    decreases k
  {
    KeysSplit(e, Ups(k - 1), UP);
    assert UP == [ESC] + "[" + ['A'];
    if k > 1 {
      UpWalksHistory(e, k - 1);
      ArrowKey(Keys(e, Ups(k - 1)), 'A');
    } else {
      ArrowKey(e, 'A');
    }
  }

  /** The down arrow undoes the up arrow, entry by entry. */
  lemma DownUndoesUp(e: Editor, k: nat)
    requires Plain(e) && e.historyPos == -1 && 0 < k < |e.history|
    ensures Keys(e, Ups(k + 1) + DOWN) == Keys(e, Ups(k))
  {
    UpWalksHistory(e, k + 1);
    UpWalksHistory(e, k);
    KeysSplit(e, Ups(k + 1), DOWN);
    assert DOWN == [ESC] + "[" + ['B'];
    ArrowKey(Keys(e, Ups(k + 1)), 'B');
  }

  /** A line just entered is what the up arrow brings back, and entering it again
      returns it and leaves the history as it is. */
  lemma EnteredLineComesBack(e: Editor, s: string)
    requires Plain(e) && e.Ok() && e.Text() == ""
    requires s != "" && |s| < MAX_LINE && forall k :: 0 <= k < |s| ==> Ordinary(s[k])
    ensures var f := Keys(e, s + "\n");
            var g := Keys(f.(line := None), UP + "\n");
            g.line == Some(s) && g.history == f.history
  {
    TypedLineIsReturned(e, s);
    var f := Keys(e, s + "\n").(line := None);
    assert IsEntry(s);
    NewestFirst(e.history, s);
    KeysSplit(f, UP, "\n");
    assert UP == [ESC] + "[" + ['A'];
    ArrowKey(f, 'A');
    KeysOne(Keys(f, UP), '\n');
  }
}
