/** What the embedded line editor means: the text before and behind the cursor, a
    history, and the keys that change them. */
module LineEditor {
  import opened CliHistory
  import opened Prelude

  const CTRL_A: char := 1 as char
  const CTRL_C: char := 3 as char
  const CTRL_E: char := 5 as char
  const BACKSPACE: char := 8 as char
  const CTRL_K: char := 11 as char
  const CTRL_L: char := 12 as char
  const CTRL_R: char := 18 as char
  const ESC: char := 27 as char
  const DEL: char := 127 as char

  /** `line` is the line returned by the last key, if it completed one. */
  datatype Editor = Editor(left: string, right: string, line: Option<string>,
                           escape: bool, csi: bool, counter: nat,
                           historyPos: int, searching: bool, history: seq<string>)
  {
    function Text(): string { left + right }

    predicate Ok() {
      Clean(left) && Clean(right) && |left| + |right| < MAX_LINE && Used(history) <= HISTORY_LEN && AreEntries(history)
    }
  }

  const FRESH := Editor("", "", None, false, false, 0, -1, false, [])

  function ResetLine(e: Editor): Editor {
    e.(left := "", right := "", counter := 0, csi := false, escape := false, historyPos := -1, searching := false)
  }

  function Insert(e: Editor, ch: char): Editor {
    if |e.left| + |e.right| >= MAX_LINE - 1 then e else e.(left := e.left + [ch])
  }

  function Backspace(e: Editor): Editor {
    if e.left == "" then e else e.(left := e.left[..|e.left| - 1])
  }

  function Delete(e: Editor): Editor {
    if e.right == "" then e else e.(right := e.right[1..])
  }

  function Home(e: Editor): Editor { e.(left := "", right := e.Text()) }
  function End(e: Editor): Editor { e.(left := e.Text(), right := "") }
  function Kill(e: Editor): Editor { e.(right := "") }

  /** Moves by `n` if there is that much text on the side, else stays. */
  function Forward(e: Editor, n: nat): Editor {
    if n <= |e.right| then e.(left := e.left + e.right[..n], right := e.right[n..]) else e
  }

  function Back(e: Editor, n: nat): Editor {
    if n <= |e.left| then
      var k := |e.left| - n;
      e.(left := e.left[..k], right := e.left[k..] + e.right)
    else e
  }

  /** Entry `k` of the history becomes the line; without one the line is cleared and
      the position in the history becomes `otherwise`. */
  function Recall(e: Editor, k: int, otherwise: int): Editor {
    match Lookup(e.history, k)
    case Some(l) => e.(left := l, right := "", historyPos := k)
    case None => ResetLine(e).(historyPos := otherwise)
  }

  predicate Contains(h: string, t: string) {
    exists i :: 0 <= i <= |h| && t <= h[i..]
  }

  /** The newest entry from `k` on that contains `t`. */
  function Found(es: seq<string>, t: string, k: nat): Option<string>
    decreases |es| + 1 - k
  {
    match Lookup(es, k)
    case None => None
    case Some(h) => if Contains(h, t) then Some(h) else Found(es, t, k + 1)
  }

  function StopSearch(e: Editor): Editor {
    e.(left := match Found(e.history, e.Text(), 0) { case Some(h) => h case None => "" },
       right := "", searching := false)
  }

  function StopAnySearch(e: Editor): Editor {
    if e.searching then StopSearch(e) else e
  }

  /** A digit counts as one while the count is below a hundred. */
  predicate IsDigit(e: Editor, ch: char) {
    '0' <= ch <= '9' && e.counter < 100
  }

  /** The key that ends a control sequence with count `n`. */
  function CsiMove(e: Editor, ch: char, n: nat): Editor {
    if ch == 'A' then Recall(e, e.historyPos + 1, e.historyPos)
    else if ch == 'B' then Recall(e, e.historyPos - 1, -1)
    else if ch == 'C' then Forward(e, n)
    else if ch == 'D' then Back(e, n)
    else if ch == 'F' then End(e)
    else if ch == 'H' then Home(e)
    else if ch == '~' && n == 3 then Delete(e)
    else e
  }

  /** A key inside a control sequence. */
  function CsiKey(e: Editor, ch: char): Editor {
    if IsDigit(e, ch) then
      e.(counter := e.counter * 10 + (ch as int - '0' as int))
    else
      var f := e.(counter := if e.counter == 0 then 1 else e.counter);
      CsiMove(f, ch, f.counter).(csi := false, escape := false, counter := 0)
  }

  /** The keys that leave search mode before they act. */
  predicate EndsSearch(ch: char) {
    ch == BACKSPACE || ch == DEL || ch == ESC
  }

  function StoppedKey(e: Editor, ch: char): Editor {
    if ch == ESC then e.(csi := false, escape := true, counter := 0) else Backspace(e)
  }

  /** A key outside a control sequence; newline is dealt with by `Enter`. */
  function PlainKey(e: Editor, ch: char): Editor {
    if ch == NUL || ch == CTRL_L || ch == '\r' || ch == '\n' then e
    else if ch == CTRL_A then Home(e)
    else if ch == CTRL_C then ResetLine(e)
    else if ch == CTRL_E then End(e)
    else if ch == CTRL_K then Kill(e)
    else if EndsSearch(ch) then StoppedKey(StopAnySearch(e), ch)
    else if ch == CTRL_R then e.(searching := true)
    else if ch == '[' && e.escape then e.(csi := true)
    else Insert(e, ch)
  }

  /** The line is complete: it goes to the caller and into the history. */
  function Enter(e: Editor): Editor {
    var text := StopAnySearch(e).Text();
    ResetLine(e).(line := Some(text), history := Accept(e.history, text))
  }

  /** One key. A carriage return counts as a newline, except inside a control sequence. */
  function Key(e: Editor, ch: char): Editor {
    var e := e.(line := None);
    var r := if e.csi then CsiKey(e, ch) else PlainKey(e, ch);
    if ch == '\n' || (ch == '\r' && !e.csi) then Enter(r) else r
  }

  function Keys(e: Editor, keys: string): Editor
    decreases |keys|
  {
    if keys == "" then e else Keys(Key(e, keys[0]), keys[1..])
  }

  // ----- The bounds hold in every run -----

  lemma LookupIsEntry(es: seq<string>, k: int)
    requires AreEntries(es) && Lookup(es, k).Some?
    ensures var l := Lookup(es, k).value; Clean(l) && |l| < MAX_LINE
  {
  }

  lemma {:induction false} FoundIsEntry(es: seq<string>, t: string, k: nat)
    requires AreEntries(es) && Found(es, t, k).Some?
    ensures var l := Found(es, t, k).value; Clean(l) && |l| < MAX_LINE && Contains(l, t)
    decreases |es| + 1 - k
  {
    LookupIsEntry(es, k);
    if !Contains(Lookup(es, k).value, t) { FoundIsEntry(es, t, k + 1); }
  }

  lemma StopSearchOk(e: Editor)
    requires e.Ok()
    ensures StopSearch(e).Ok() && StopAnySearch(e).Ok()
  {
    if Found(e.history, e.Text(), 0).Some? { FoundIsEntry(e.history, e.Text(), 0); }
  }

  lemma RecallOk(e: Editor, k: int, otherwise: int)
    requires e.Ok()
    ensures Recall(e, k, otherwise).Ok()
  {
    if Lookup(e.history, k).Some? { LookupIsEntry(e.history, k); }
  }

  lemma AcceptOk(es: seq<string>, line: string)
    requires AreEntries(es) && Used(es) <= HISTORY_LEN && Clean(line) && |line| < MAX_LINE
    ensures AreEntries(Accept(es, line)) && Used(Accept(es, line)) <= HISTORY_LEN
  {
    if line != "" { FitKeepsEntries([line] + es, HISTORY_LEN); }
  }

  lemma ForwardOk(e: Editor, n: nat)
    requires e.Ok()
    ensures Forward(e, n).Ok()
  {
  }

  lemma BackOk(e: Editor, n: nat)
    requires e.Ok()
    ensures Back(e, n).Ok()
  {
  }

  lemma EditsOk(e: Editor)
    requires e.Ok()
    ensures Home(e).Ok() && End(e).Ok() && Kill(e).Ok() && Backspace(e).Ok() && Delete(e).Ok()
  {
  }

  lemma OkIsAboutTexts(e: Editor, f: Editor)
    requires e.Ok() && f.left == e.left && f.right == e.right && f.history == e.history
    ensures f.Ok()
  {
  }

  lemma CsiMoveOk(e: Editor, ch: char, n: nat)
    requires e.Ok()
    ensures CsiMove(e, ch, n).Ok()
  {
    if ch == 'A' { RecallOk(e, e.historyPos + 1, e.historyPos); }
    else if ch == 'B' { RecallOk(e, e.historyPos - 1, -1); }
    else if ch == 'C' { ForwardOk(e, n); }
    else if ch == 'D' { BackOk(e, n); }
    else { EditsOk(e); }
  }

  lemma CsiKeyOk(e: Editor, ch: char)
    requires e.Ok()
    ensures CsiKey(e, ch).Ok()
  {
    var f := e.(counter := if e.counter == 0 then 1 else e.counter);
    OkIsAboutTexts(e, f);
    CsiMoveOk(f, ch, f.counter);
    OkIsAboutTexts(if IsDigit(e, ch) then e else CsiMove(f, ch, f.counter), CsiKey(e, ch));
  }

  lemma InsertOk(e: Editor, ch: char)
    requires e.Ok() && ch != NUL
    ensures Insert(e, ch).Ok()
  {
  }

  lemma StoppedKeyOk(e: Editor, ch: char)
    requires e.Ok()
    ensures StoppedKey(e, ch).Ok()
  {
    if ch == ESC { OkIsAboutTexts(e, StoppedKey(e, ch)); } else { EditsOk(e); }
  }

  lemma PlainKeyOk(e: Editor, ch: char)
    requires e.Ok()
    ensures PlainKey(e, ch).Ok()
  {
    if EndsSearch(ch) { StopSearchOk(e); StoppedKeyOk(StopAnySearch(e), ch); }
    else if ch == CTRL_A || ch == CTRL_E || ch == CTRL_K { EditsOk(e); }
    else if ch == CTRL_R || (ch == '[' && e.escape) { OkIsAboutTexts(e, PlainKey(e, ch)); }
    else if ch != NUL { InsertOk(e, ch); }
  }

  lemma KeyOk(e: Editor, ch: char)
    requires e.Ok()
    ensures Key(e, ch).Ok()
  {
    var f := e.(line := None);
    CsiKeyOk(f, ch);
    PlainKeyOk(f, ch);
    var r := if f.csi then CsiKey(f, ch) else PlainKey(f, ch);
    StopSearchOk(r);
    AcceptOk(r.history, StopAnySearch(r).Text());
  }

  /** For every sequence of keys the text stays shorter than the buffer and free of
      NUL, and the history within its array. */
  lemma {:induction false} KeysOk(e: Editor, keys: string)
    requires e.Ok()
    ensures Keys(e, keys).Ok()
    decreases |keys|
  {
    if keys != "" {
      KeyOk(e, keys[0]);
      KeysOk(Key(e, keys[0]), keys[1..]);
    }
  }
}
