/** `struct embedded_cli` and the functions that edit it in place, each proved to do
    to the struct what `LineEditor` does to the editor it stands for. */
module Cli {
  import opened CliHistory
  import opened Prelude
  import CliArgs
  import L = LineEditor

  class EmbeddedCli {
    const buffer: array<char>
    const history: array<char>
    var searching: bool
    var historyPos: int
    var len: nat
    var cursor: nat
    var done: bool
    var haveEscape: bool
    var haveCsi: bool
    var counter: nat
    /** The entries the history array holds. */
    ghost var entries: seq<string>

    ghost predicate Sizes() {
      buffer.Length == MAX_LINE && history.Length == HISTORY_LEN && buffer != history
    }

    ghost predicate HistoryOk()
      reads this, history
    {
      history.Length == HISTORY_LEN && Fits(entries, HISTORY_LEN) && history[..] == Image(entries, HISTORY_LEN)
    }

    /** The text is where `len` and `cursor` say, and is a C string. */
    ghost predicate Open()
      reads this, buffer
    {
      && buffer.Length == MAX_LINE && cursor <= len < MAX_LINE
      && buffer[len] == NUL && buffer[MAX_LINE - 1] == NUL && Clean(buffer[..len])
    }

    /** Between two keys. After a completed line the buffer still holds that line. */
    ghost predicate Valid()
      reads this, buffer, history
    {
      && Sizes() && HistoryOk()
      && if done then len == cursor == 0 && buffer[MAX_LINE - 1] == NUL else Open()
    }

    /** The editor this struct stands for. */
    ghost function Abs(): L.Editor
      requires Sizes() && cursor <= len < MAX_LINE
      reads this, buffer
    {
      L.Editor(buffer[..cursor], buffer[cursor..len], if done then Some(CString(buffer[..], 0)) else None,
               haveEscape, haveCsi, counter, historyPos, searching, entries)
    }

    /** embedded_cli_init, without prompt and output. */
    constructor ()
      ensures Valid() && Abs() == L.FRESH && fresh(buffer) && fresh(history)
    {
      buffer := new char[MAX_LINE](_ => NUL);
      history := new char[HISTORY_LEN](_ => NUL);
      searching, historyPos, len, cursor, done := false, -1, 0, 0, false;
      haveEscape, haveCsi, counter := false, false, 0;
      entries := [];
    }

    ghost predicate Ready()
      reads this, buffer, history
    {
      Sizes() && HistoryOk() && Open() && !done
    }

    /** embedded_cli_reset_line followed by clearing the buffer, as Ctrl-C does. */
    method ClearLine()
      requires Ready()
      modifies this, buffer
      ensures Ready() && Abs() == L.ResetLine(old(Abs())) && entries == old(entries)
    {
      ResetLine();
      buffer[0] := NUL;
    }

    method ResetLine()
      modifies this`len, this`cursor, this`counter, this`haveCsi, this`haveEscape, this`historyPos, this`searching
      ensures len == cursor == 0 && counter == 0 && !haveCsi && !haveEscape && historyPos == -1 && !searching
    {
      len, cursor, counter, haveCsi, haveEscape, historyPos, searching := 0, 0, 0, false, false, -1, false;
    }

    method InsertDefaultChar(ch: char)
      requires Ready() && ch != NUL
      modifies this`len, this`cursor, buffer
      ensures Ready() && Abs() == L.Insert(old(Abs()), ch)
    {
      if len >= MAX_LINE - 1 { return; }
      ghost var was := buffer[..];
      OpenGap(ch);
      len := len + 1;
      Gap(was, buffer[..], cursor, len - 1, ch);
      cursor := cursor + 1;
    }

    /** The memmove of the insertion and the two bytes it sets. */
    method OpenGap(ch: char)
      requires buffer.Length == MAX_LINE && cursor <= len < MAX_LINE - 1
      modifies buffer
      ensures buffer[..] == (old(buffer[..cursor + 1]) + old(buffer[cursor..len]) + old(buffer[len + 1..]))
                            [cursor := ch][len + 1 := NUL]
    {
      MemMove(buffer, cursor + 1, cursor, len - cursor);
      ghost var moved := buffer[..];
      buffer[cursor] := ch;
      buffer[len + 1] := NUL;
      assert buffer[..] == moved[cursor := ch][len + 1 := NUL];
    }

    static lemma Gap(was: string, now: string, cursor: nat, len: nat, ch: char)
      requires cursor <= len < |was| - 1 && ch != NUL && Clean(was[..len])
      requires now == (was[..cursor + 1] + was[cursor..len] + was[len + 1..])[cursor := ch][len + 1 := NUL]
      ensures |now| == |was| && now[len + 1] == NUL
      ensures was[|was| - 1] == NUL ==> now[|was| - 1] == NUL
      ensures now[..cursor + 1] == was[..cursor] + [ch] && now[cursor + 1..len + 1] == was[cursor..len]
      ensures Clean(now[..len + 1])
    {
      assert now[..len + 1] == was[..cursor] + [ch] + was[cursor..len];
      assert was[..len] == was[..cursor] + was[cursor..len];
    }

    /** The memmove of backspace. */
    method EraseBefore()
      requires Ready()
      modifies this`len, this`cursor, buffer
      ensures Ready() && Abs() == L.Backspace(old(Abs()))
    {
      if cursor > 0 {
        ghost var was := buffer[..];
        MemMove(buffer, cursor - 1, cursor, len - cursor + 1);
        cursor := cursor - 1;
        len := len - 1;
        assert buffer[..len + 1] == was[..cursor] + was[cursor + 1..len + 2];
        assert buffer[..len] == was[..cursor] + was[cursor + 1..len + 1];
      }
    }

    /** The memmove of the delete key. */
    method EraseAt()
      requires Ready()
      modifies this`len, buffer
      ensures Ready() && Abs() == L.Delete(old(Abs()))
    {
      if cursor < len {
        ghost var was := buffer[..];
        MemMove(buffer, cursor, cursor + 1, len - cursor);
        len := len - 1;
        assert buffer[..len + 1] == was[..cursor] + was[cursor + 1..len + 2];
        assert buffer[..len] == was[..cursor] + was[cursor + 1..len + 1];
      }
    }

    /** `strncpy` of a whole line into the buffer, cursor at its end. */
    method SetLine(line: string)
      requires Ready() && Clean(line) && |line| < MAX_LINE
      modifies this`len, this`cursor, buffer
      ensures Ready() && Abs() == old(Abs()).(left := line, right := "")
    {
      forall k | 0 <= k < MAX_LINE { buffer[k] := if k < |line| then line[k] else NUL; }
      buffer[MAX_LINE - 1] := NUL;
      len, cursor := |line|, |line|;
      assert buffer[..len] == line;
    }

    /** embedded_cli_get_history_search: the newest entry that contains the buffer. */
    method GetHistorySearch() returns (h: Option<string>)
      requires Ready()
      ensures h == L.Found(entries, Abs().Text(), 0)
    {
      var text := buffer[..len];
      assert text == Abs().Text();
      var i := 0;
      while true
        invariant 0 <= i <= |entries| + 1
        invariant L.Found(entries, text, 0) == L.Found(entries, text, i)
        decreases |entries| + 2 - i
      {
        h := GetHistory(history, i, entries);
        if h.None? { return; }
        if L.Contains(h.value, text) { return; }
        i := i + 1;
      }
    }

    method StopSearch()
      requires Ready()
      modifies this`len, this`cursor, this`searching, buffer
      ensures Ready() && Abs() == L.StopSearch(old(Abs()))
    {
      var h := GetHistorySearch();
      if h.Some? {
        L.FoundIsEntry(entries, Abs().Text(), 0);
        SetLine(h.value);
      } else {
        SetLine("");
      }
      searching := false;
    }

    method StopAnySearch()
      requires Ready()
      modifies this`len, this`cursor, this`searching, buffer
      ensures Ready() && Abs() == L.StopAnySearch(old(Abs()))
    {
      if searching { StopSearch(); }
    }

    /** The up and down arrows; without an entry the line is cleared. */
    method Recall(k: int, otherwise: int)
      requires Ready()
      modifies this, buffer
      ensures Ready() && entries == old(entries) && Abs() == L.Recall(old(Abs()), k, otherwise)
    {
      var line := GetHistory(history, k, entries);
      if line.Some? {
        L.LookupIsEntry(entries, k);
        SetLine(line.value);
        historyPos := k;
      } else {
        ClearLine();
        historyPos := otherwise;
      }
    }

    method MoveForward(n: nat)
      requires Ready()
      modifies this`cursor
      ensures Ready() && Abs() == L.Forward(old(Abs()), n)
    {
      if cursor <= len - n {
        cursor := cursor + n;
        assert buffer[..cursor] == buffer[..cursor - n] + buffer[cursor - n..len][..n];
      }
    }

    method MoveBack(n: nat)
      requires Ready()
      modifies this`cursor
      ensures Ready() && Abs() == L.Back(old(Abs()), n)
    {
      if cursor >= n {
        cursor := cursor - n;
        assert buffer[cursor..len] == buffer[..cursor + n][cursor..] + buffer[cursor + n..len];
      }
    }

    method MoveHome()
      requires Ready()
      modifies this`cursor
      ensures Ready() && Abs() == L.Home(old(Abs()))
    {
      assert buffer[..cursor] + buffer[cursor..len] == buffer[0..len];
      cursor := 0;
    }

    method MoveEnd()
      requires Ready()
      modifies this`cursor
      ensures Ready() && Abs() == L.End(old(Abs()))
    {
      assert buffer[..cursor] + buffer[cursor..len] == buffer[..len];
      cursor := len;
    }

    /** The final byte of a control sequence. */
    method CsiMove(ch: char, n: nat)
      requires Ready()
      modifies this, buffer
      ensures Ready() && entries == old(entries) && Abs() == L.CsiMove(old(Abs()), ch, n)
    {
      if ch == 'A' {
        Recall(historyPos + 1, historyPos);
      } else if ch == 'B' {
        Recall(historyPos - 1, -1);
      } else if ch == 'C' {
        MoveForward(n);
      } else if ch == 'D' {
        MoveBack(n);
      } else if ch == 'F' {
        MoveEnd();
      } else if ch == 'H' {
        MoveHome();
      } else if ch == '~' {
        if n == 3 { EraseAt(); }
      }
    }

    method CsiKey(ch: char)
      requires Ready()
      modifies this, buffer
      ensures Ready() && entries == old(entries) && Abs() == L.CsiKey(old(Abs()), ch)
    {
      if '0' <= ch <= '9' && counter < 100 {
        counter := counter * 10 + (ch as int - '0' as int);
      } else {
        if counter == 0 { counter := 1; }
        CsiMove(ch, counter);
        haveCsi, haveEscape, counter := false, false, 0;
      }
    }

    /** Ctrl-K. */
    method KillToEnd()
      requires Ready()
      modifies this`len, buffer
      ensures Ready() && Abs() == L.Kill(old(Abs()))
    {
      ghost var left := buffer[..cursor];
      assert buffer[..len][..cursor] == left;
      buffer[cursor] := NUL;
      len := cursor;
      assert buffer[..cursor] == left;
    }

    method StoppedKey(ch: char)
      requires Ready() && L.EndsSearch(ch)
      modifies this, buffer
      ensures Ready() && entries == old(entries) && Abs() == L.StoppedKey(L.StopAnySearch(old(Abs())), ch)
    {
      StopAnySearch();
      if ch == L.ESC {
        haveCsi, haveEscape, counter := false, true, 0;
      } else {
        EraseBefore();
      }
    }

    method PlainKey(ch: char)
      requires Ready()
      modifies this, buffer
      ensures Ready() && entries == old(entries) && Abs() == L.PlainKey(old(Abs()), ch)
    {
      if ch == NUL || ch == L.CTRL_L || ch == '\r' || ch == '\n' {
      } else if ch == L.CTRL_A {
        MoveHome();
      } else if ch == L.CTRL_C {
        ClearLine();
      } else if ch == L.CTRL_E {
        MoveEnd();
      } else if ch == L.CTRL_K {
        KillToEnd();
      } else if L.EndsSearch(ch) {
        StoppedKey(ch);
      } else if ch == L.CTRL_R {
        searching := true;
      } else if ch == '[' && haveEscape {
        haveCsi := true;
      } else {
        InsertDefaultChar(ch);
      }
    }

    /** What `insert_char` does once a newline was read. */
    method Enter()
      requires Ready()
      modifies this, buffer, history
      ensures Valid() && done && Abs() == L.Enter(old(Abs()))
    {
      StopAnySearch();
      ghost var e := Abs();
      assert buffer[..len] == e.Text();
      CStringIs(buffer[..], 0, buffer[..len]);
      ExtendHistory(history, buffer, entries);
      entries := Accept(entries, e.Text());
      done := true;
      ResetLine();
    }

    /** embedded_cli_insert_char: one key, exactly as the editor reads it; the result
        says whether a line is complete. */
    method InsertChar(ch: char) returns (complete: bool)
      requires Valid()
      modifies this, buffer, history
      ensures Valid() && Abs() == L.Key(old(Abs()), ch)
      ensures complete == done == Abs().line.Some?
    {
      if done {
        buffer[0] := NUL;
        done := false;
      }
      var newline := ch == '\n' || (ch == '\r' && !haveCsi);
      if haveCsi { CsiKey(ch); } else { PlainKey(ch); }
      if newline { Enter(); }
      complete := newline;
    }

    /** embedded_cli_get_line. */
    method GetLine() returns (line: Option<string>)
      requires Valid()
      ensures line == Abs().line
    {
      if !done { return None; }
      var n := StrLen(buffer, 0);
      line := Some(buffer[0..n]);
    }

    /** Every sequence of keys: the struct does what the editor does. */
    method Type(keys: string)
      requires Valid()
      modifies this, buffer, history
      ensures Valid() && Abs() == L.Keys(old(Abs()), keys)
    {
      for k := 0 to |keys|
        invariant Valid() && L.Keys(Abs(), keys[k..]) == L.Keys(old(Abs()), keys)
      {
        assert keys[k..][1..] == keys[k + 1..];
        var _ := InsertChar(keys[k]);
      }
    }

    /** embedded_cli_argc: after a completed line, the arguments it splits into, as C
        strings in the buffer; before that none. `front0` is the byte in front of the buffer. */
    method Argc(front0: char) returns (argc: nat, argv: seq<nat>, front: char)
      requires Valid()
      modifies buffer
      ensures !done ==> argc == 0 && Abs() == old(Abs()) && front == front0
      ensures done ==>
                var line := old(Abs()).line.value;
                if CliArgs.FromBackslash(line) != "" && CliArgs.IsQuote(front0) then
                  argc == 1 && argv == [0] && CliArgs.Strayed(buffer[..], front, CliArgs.FromBackslash(line))
                else CliArgs.Splits(buffer[..], argc, argv, CliArgs.Args(line)) && front == front0
      ensures Valid()
    {
      argc, argv, front := 0, [], front0;
      if !done { return; }
      argc, argv, front := CliArgs.Argc(buffer, front0);
    }
  }
}
