/** The argument splitter `embedded_cli_argc`: quotes, backslashes and whitespace are
    taken out of the line by moving the rest of the buffer down over them. */
module CliArgs {
  import opened CliHistory

  const MAX_ARGC: nat := 10

  predicate IsWhitespace(ch: char) {
    ch == ' ' || ch == '\t' || ch == '\n' || ch == '\r'
  }

  predicate IsQuote(ch: char) {
    ch == '\'' || ch == '\"'
  }

  /** What the loop has settled, what is still to be read, where the arguments begin. */
  datatype Split = Split(out: string, rest: string, starts: seq<nat>, inArg: bool, inEscape: bool, inString: char)

  const NOTHING: char := NUL

  /** A backslash is absorbed. The next test then looks at the character before it: a
      quote there that was itself escaped opens a string and is absorbed as well. While
      nothing is settled that character is the byte in front of the buffer (`Strays`). */
  function Backslash(s: Split): Split
    requires s.rest != ""
  {
    var t := s.(rest := s.rest[1..], inEscape := true);
    var n := |s.out|;
    if n > 0 && IsQuote(s.out[n - 1]) then t.(out := s.out[..n - 1], inString := s.out[n - 1]) else t
  }

  /** The byte in front of the buffer is read: an unescaped, unquoted backslash comes while
      nothing is settled. If a quote stands there the loop moves the text onto it and ends. */
  predicate Strays(s: Split, front: char) {
    s.rest != "" && s.out == "" && !s.inEscape && s.inString == NOTHING && s.rest[0] == '\\' && IsQuote(front)
  }

  /** A line from its first backslash on, if there is nothing in front of it but empty quotes. */
  function FromBackslash(line: string): (r: string)
    ensures r != "" ==> r[0] == '\\' && |r| <= |line|
  {
    if line != "" && line[0] == '\\' then line
    else if |line| >= 2 && IsQuote(line[0]) && line[1] == line[0] then FromBackslash(line[2..])
    else ""
  }

  predicate Full(s: Split) {
    && s.rest != "" && !s.inEscape && s.inString == NOTHING && !IsWhitespace(s.rest[0])
    && !s.inArg && |s.starts| >= MAX_ARGC
  }

  /** One turn of the loop. */
  function Step(s: Split): (t: Split)
    requires s.rest != "" && !Full(s)
    ensures t.rest == s.rest[1..]
  {
    var ch := s.rest[0];
    var next := s.(rest := s.rest[1..]);
    var keep := next.(out := s.out + [ch]);
    if s.inEscape then keep.(inEscape := false)
    else if s.inString != NOTHING then
      if ch == s.inString then next.(inString := NOTHING) else keep
    else if IsWhitespace(ch) then
      next.(out := s.out + [if s.inArg then NUL else ch], inArg := false)
    else
      var starts := if s.inArg then s.starts else s.starts + [|s.out|];
      if ch == '\\' then Backslash(s).(starts := starts, inArg := true)
      else if IsQuote(ch) then next.(starts := starts, inArg := true, inString := ch)
      else keep.(starts := starts, inArg := true)
  }

  function Run(s: Split): Split
    decreases |s.rest|
  {
    if s.rest == "" || Full(s) then s else Run(Step(s))
  }

  /** How many of the arguments found are reported; the last slot is for the NULL. */
  function Reported(n: nat): nat {
    if n >= MAX_ARGC then n - 1 else n
  }

  function Begin(line: string): Split {
    Split("", line, [], false, false, NOTHING)
  }

  /** An argument begins inside the settled part, and never right behind a quote. */
  predicate GoodStart(out: string, k: nat) {
    k <= |out| && (k > 0 ==> !IsQuote(out[k - 1]))
  }

  predicate Sane(s: Split) {
    && |s.starts| <= MAX_ARGC
    && (forall k :: 0 <= k < |s.starts| ==> GoodStart(s.out, s.starts[k]))
    && (!s.inArg ==> !s.inEscape && s.inString == NOTHING && GoodStart(s.out, |s.out|))
  }

  lemma StepSane(s: Split)
    requires Sane(s) && s.rest != "" && !Full(s)
    ensures Sane(Step(s))
  {
    var t := Step(s);
    forall k | 0 <= k < |t.starts| ensures GoodStart(t.out, t.starts[k]) {
      assert GoodStart(s.out, t.starts[k]);
    }
  }

  lemma {:induction false} RunSane(s: Split)
    requires Sane(s)
    ensures Sane(Run(s))
    decreases |s.rest|
  {
    if s.rest != "" && !Full(s) {
      StepSane(s);
      RunSane(Step(s));
    }
  }

  /** The arguments as C strings in the buffer the loop leaves. */
  function ArgsAt(s: Split): (args: seq<string>)
    requires Sane(s)
  {
    var b := s.out + s.rest + [NUL];
    seq(Reported(|s.starts|), k requires 0 <= k < Reported(|s.starts|) =>
      assert GoodStart(s.out, s.starts[k]); CString(b, s.starts[k]))
  }

  /** The arguments a line splits into. */
  function Args(line: string): seq<string> {
    RunSane(Begin(line));
    ArgsAt(Run(Begin(line)))
  }

  // ----- The buffer -----

  /** The buffer holds the settled part, then the unread part and a NUL. */
  ghost predicate Holds(b: string, s: Split) {
    && |b| == MAX_LINE && b[MAX_LINE - 1] == NUL && Clean(s.rest)
    && s.out + s.rest + [NUL] <= b
  }

  /** memmove of everything behind `i` down by one. */
  method Absorb(buffer: array<char>, i: nat)
    requires buffer.Length == MAX_LINE && i < MAX_LINE
    modifies buffer
    ensures buffer[..] == old(buffer[..i]) + old(buffer[i + 1..]) + old(buffer[MAX_LINE - 1..])
  {
    ghost var was := buffer[..];
    MemMove(buffer, i, i + 1, MAX_LINE - i - 1);
    assert buffer[..] == was[..i] + was[i + 1..] + was[MAX_LINE - 1..];
  }

  lemma HoldsNext(b: string, s: Split)
    requires Holds(b, s)
    ensures |s.out| + |s.rest| < MAX_LINE
    ensures s.rest == "" <==> b[|s.out|] == NUL
    ensures s.rest != "" ==> b[|s.out|] == s.rest[0]
    ensures s.out != "" ==> b[|s.out| - 1] == s.out[|s.out| - 1]
  {
    assert b[|s.out|] == (s.out + s.rest + [NUL])[|s.out|];
    if s.out != "" { assert b[|s.out| - 1] == (s.out + s.rest + [NUL])[|s.out| - 1]; }
  }

  /** Absorbing a character removes it from the unread part. */
  lemma HoldsAbsorbed(b: string, s: Split, c: string)
    requires Holds(b, s) && s.rest != ""
    requires c == b[..|s.out|] + b[|s.out| + 1..] + b[MAX_LINE - 1..]
    ensures Holds(c, s.(rest := s.rest[1..]))
  {
    var t := s.out + s.rest + [NUL];
    assert Clean(s.rest[1..]);
    assert s.out + s.rest[1..] + [NUL] == t[..|s.out|] + t[|s.out| + 1..];
    assert b[..|t|] == t;
    assert c[..|t| - 1] == b[..|s.out|] + b[|s.out| + 1..|t|];
  }

  /** Absorbing the last settled character. */
  lemma HoldsShortened(b: string, s: Split, c: string)
    requires Holds(b, s) && s.out != ""
    requires c == b[..|s.out| - 1] + b[|s.out|..] + b[MAX_LINE - 1..]
    ensures Holds(c, s.(out := s.out[..|s.out| - 1]))
  {
    var t, n := s.out + s.rest + [NUL], |s.out| - 1;
    assert s.out[..n] + s.rest + [NUL] == t[..n] + t[n + 1..];
    assert b[..|t|] == t;
    assert c[..|t| - 1] == b[..n] + b[n + 1..|t|];
  }

  /** Settling a character, possibly changed to `ch`. */
  lemma HoldsKept(b: string, s: Split, ch: char)
    requires Holds(b, s) && s.rest != ""
    ensures Holds(b[|s.out| := ch], s.(out := s.out + [ch], rest := s.rest[1..]))
    ensures b[|s.out|] == ch ==> b[|s.out| := ch] == b
  {
    var t := s.out + s.rest + [NUL];
    assert s.out + [ch] + s.rest[1..] + [NUL] == t[|s.out| := ch];
  }

  // ----- The loop -----

  /** The concrete variables stand for the state `s` of the split. */
  ghost predicate Stands(buffer: string, i: int, argv: seq<nat>, inArg: bool, inEscape: bool, inString: char,
                         s: Split) {
    && Holds(buffer, s) && Sane(s)
    && i == |s.out| && argv == s.starts
    && inArg == s.inArg && inEscape == s.inEscape && inString == s.inString
  }

  /** Takes out the character at `i`, the first unread one. */
  method TakeNext(buffer: array<char>, i: nat, ghost s: Split)
    requires buffer.Length == MAX_LINE && Holds(buffer[..], s) && s.rest != "" && i == |s.out|
    modifies buffer
    ensures Holds(buffer[..], s.(rest := s.rest[1..]))
  {
    HoldsNext(buffer[..], s);
    ghost var was := buffer[..];
    Absorb(buffer, i);
    HoldsAbsorbed(was, s, buffer[..]);
  }

  /** Takes out the character at `i`, the last settled one. */
  method TakeLast(buffer: array<char>, i: nat, ghost s: Split)
    requires buffer.Length == MAX_LINE && Holds(buffer[..], s) && s.out != "" && i == |s.out| - 1
    modifies buffer
    ensures Holds(buffer[..], s.(out := s.out[..|s.out| - 1]))
  {
    HoldsNext(buffer[..], s);
    ghost var was := buffer[..];
    Absorb(buffer, i);
    HoldsShortened(was, s, buffer[..]);
  }

  /** What the loop leaves when a quote stands in front of the buffer: the escaped character
      goes there, and the text behind it is the only argument. */
  ghost predicate Strayed(b: string, front: char, rest: string)
    requires rest != ""
  {
    && |b| == MAX_LINE && b[MAX_LINE - 1] == NUL
    && front == (rest + [NUL])[1]
    && (|rest| > 1 ==> CString(b, 0) == rest[2..])
  }

  /** A quote in front of the buffer: the whole buffer is moved onto it. */
  method MoveInFront(buffer: array<char>, ghost t: Split) returns (front: char)
    requires buffer.Length == MAX_LINE && Holds(buffer[..], t) && t.out == ""
    modifies buffer
    ensures |buffer[..]| == MAX_LINE && buffer[MAX_LINE - 1] == NUL && front == (t.rest + [NUL])[0]
    ensures t.rest != "" ==> CString(buffer[..], 0) == t.rest[1..]
  {
    HoldsNext(buffer[..], t);
    front := buffer[0];
    if buffer[0] != NUL {
      TakeNext(buffer, 0, t);
      ghost var rest := t.rest[1..];
      assert "" + rest + [NUL] == rest + [NUL];
      CStringIs(buffer[..], 0, rest);
    } else {
      Absorb(buffer, 0);
    }
  }

  /** A backslash at `i`: absorbed, and with it a quote in front of it. `j` below zero is an
      index past the end of the array, as the source counts without a sign. */
  method AbsorbBackslash(buffer: array<char>, i: nat, front0: char, ghost s: Split)
    returns (j: int, inString: char, front: char)
    requires buffer.Length == MAX_LINE && Holds(buffer[..], s) && i == |s.out|
    requires s.rest != "" && s.rest[0] == '\\' && s.inString == NOTHING
    modifies buffer
    ensures if s.out == "" && IsQuote(front0) then j == -2 && Strayed(buffer[..], front, s.rest)
      else
        && Holds(buffer[..], Backslash(s)) && j + 1 == |Backslash(s).out| && inString == Backslash(s).inString
        && front == front0
  {
    TakeNext(buffer, i, s);
    ghost var t := s.(rest := s.rest[1..]);
    HoldsNext(buffer[..], t);
    j, inString, front := i - 1, NOTHING, front0;
    if j >= 0 && IsQuote(buffer[j]) {
      inString := buffer[j];
      TakeLast(buffer, j, t);
      j := j - 1;
    } else if j < 0 && IsQuote(front) {
      inString := front;
      front := MoveInFront(buffer, t);
      j := j - 1;
    }
  }

  /** The body of the loop for a character that is neither escaped, nor inside a
      string, nor whitespace, once an argument is open. */
  method Special(buffer: array<char>, i: nat, front0: char, ghost s: Split)
    returns (j: int, inEscape: bool, inString: char, front: char)
    requires buffer.Length == MAX_LINE && Holds(buffer[..], s) && i == |s.out|
    requires s.rest != "" && s.inArg && !s.inEscape && s.inString == NOTHING && !IsWhitespace(s.rest[0])
    modifies buffer
    ensures if Strays(s, front0) then j == -2 && Strayed(buffer[..], front, s.rest)
      else
        var t := Step(s);
        && Holds(buffer[..], t) && j + 1 == |t.out| && inEscape == t.inEscape && inString == t.inString
        && front == front0
  {
    HoldsNext(buffer[..], s);
    j, inEscape, inString, front := i, false, NOTHING, front0;
    if buffer[i] == '\\' {
      inEscape := true;
      j, inString, front := AbsorbBackslash(buffer, i, front, s);
    } else if IsQuote(buffer[i]) {
      inString := buffer[i];
      TakeNext(buffer, i, s);
      j := i - 1;
    } else {
      HoldsKept(buffer[..], s, buffer[i]);
    }
  }

  /** The body of the loop. It breaks off before an argument too many. */
  method Turn(buffer: array<char>, i0: int, argv0: seq<nat>, inArg0: bool, inEscape0: bool, inString0: char,
              front0: char, ghost s: Split)
    returns (stop: bool, i: int, argv: seq<nat>, inArg: bool, inEscape: bool, inString: char, front: char)
    requires buffer.Length == MAX_LINE && s.rest != ""
    requires Stands(buffer[..], i0, argv0, inArg0, inEscape0, inString0, s)
    modifies buffer
    ensures stop <==> Full(s)
    ensures stop ==> buffer[..] == old(buffer[..]) && i == i0 && argv == argv0 && front == front0
    ensures stop ==> inArg == inArg0 && inEscape == inEscape0 && inString == inString0
    ensures !stop && !Strays(s, front0) ==>
      Stands(buffer[..], i, argv, inArg, inEscape, inString, Step(s)) && front == front0
    ensures !stop && Strays(s, front0) ==>
      i == -1 && argv == Opened(s).starts && Strayed(buffer[..], front, s.rest)
  {
    stop, i, argv, inArg, inEscape, inString := false, i0, argv0, inArg0, inEscape0, inString0;
    front := front0;
    HoldsNext(buffer[..], s);
    if !Full(s) { StepSane(s); }
    if inEscape {
      inEscape := false;
      HoldsKept(buffer[..], s, buffer[i]);
    } else if inString != NOTHING {
      if buffer[i] == inString {
        TakeNext(buffer, i, s);
        inString := NOTHING;
        i := i - 1;
      } else {
        HoldsKept(buffer[..], s, buffer[i]);
      }
    } else if IsWhitespace(buffer[i]) {
      HoldsKept(buffer[..], s, if inArg then NUL else buffer[i]);
      if inArg { SetNul(buffer, i); }
      inArg := false;
    } else {
      if !inArg {
        if |argv| >= MAX_ARGC { return true, i0, argv0, inArg0, inEscape0, inString0, front0; }
        argv := argv + [i];
        inArg := true;
      }
      OpenSteps(s);
      i, inEscape, inString, front := Special(buffer, i, front, Opened(s));
    }
    i := i + 1;
  }

  method SetNul(buffer: array<char>, i: nat)
    requires i < buffer.Length
    modifies buffer
    ensures buffer[..] == old(buffer[..])[i := NUL]
  {
    buffer[i] := NUL;
  }

  /** Where a run over `line` stands with a quote in front of the buffer: as long as nothing is
      settled, what was read are empty quotes, and one that may be opening. */
  ghost predicate Trail(s: Split, line: string, front: char) {
    IsQuote(front) ==>
      if s.out == "" && !s.inEscape then
        && s.starts == (if s.inArg then [0] else [])
        && (s.inString != NOTHING ==> s.inArg && IsQuote(s.inString))
        && FromBackslash(line) == FromBackslash(if s.inString == NOTHING then s.rest else [s.inString] + s.rest)
      else FromBackslash(line) == ""
  }

  lemma TrailStep(s: Split, line: string, front: char)
    requires Trail(s, line, front) && s.rest != "" && !Full(s) && !Strays(s, front)
    ensures Trail(Step(s), line, front)
  {
    var ch, more := s.rest[0], s.rest[1..];
    assert [ch] + more == s.rest;
    assert ([s.inString] + s.rest)[2..] == more;
  }

  /** Whether the byte in front is read can be told from the line. */
  lemma TrailStrays(s: Split, line: string, front: char)
    requires Trail(s, line, front) && IsQuote(front)
    ensures Strays(s, front) ==> FromBackslash(line) == s.rest && Opened(s).starts == [0]
    ensures s.rest == "" || Full(s) ==> FromBackslash(line) == ""
  {
  }

  /** What `embedded_cli_argc` leaves of a line when it does not read the byte in front of the
      buffer, or finds no quote there. */
  ghost predicate Splits(b: string, argc: nat, argv: seq<nat>, args: seq<string>) {
    && |b| == MAX_LINE && argc == |args| <= |argv|
    && forall k :: 0 <= k < argc ==> argv[k] < MAX_LINE && CString(b, argv[k]) == args[k]
  }

  /** embedded_cli_argc on a completed line: the pointers it returns are the arguments the line
      splits into, each a C string in the edited buffer. Only a line that begins with a backslash,
      but for empty quotes, depends on the byte in front of the buffer: with a quote there the
      line becomes one argument without its backslash and the character behind it, which is
      written in front of the buffer. */
  method Argc(buffer: array<char>, front0: char) returns (argc: nat, argv: seq<nat>, front: char)
    requires buffer.Length == MAX_LINE && buffer[MAX_LINE - 1] == NUL
    modifies buffer
    ensures buffer[MAX_LINE - 1] == NUL
    ensures var line := CString(old(buffer[..]), 0);
      if FromBackslash(line) != "" && IsQuote(front0) then
        argc == 1 && argv == [0] && Strayed(buffer[..], front, FromBackslash(line))
      else Splits(buffer[..], argc, argv, Args(line)) && front == front0
  {
    var i: int := 0;
    var inArg, inEscape, inString := false, false, NOTHING;
    argv, front := [], front0;
    ghost var line := CString(buffer[..], 0);
    ghost var s := Begin(line);
    BeginHolds(buffer[..]);
    HoldsNext(buffer[..], s);
    while 0 <= i < MAX_LINE && buffer[i] != NUL
      invariant -1 <= i < MAX_LINE
      invariant i >= 0 ==> OnCourse(buffer[..], i, argv, inArg, inEscape, inString, s, line, front0) && front == front0
      invariant i < 0 ==> IsQuote(front0) && argv == [0]
      invariant i < 0 ==> FromBackslash(line) != "" && Strayed(buffer[..], front, FromBackslash(line))
      decreases |s.rest|, i
    {
      var stop;
      HoldsNext(buffer[..], s);
      stop, i, argv, inArg, inEscape, inString, front := Turn(buffer, i, argv, inArg, inEscape, inString, front, s);
      if stop { break; }
      if Strays(s, front0) {
        TrailStrays(s, line, front0);
      } else {
        TrailStep(s, line, front0);
        s := Step(s);
        HoldsNext(buffer[..], s);
      }
    }
    argc := Reported(|argv|);
    if i >= 0 {
      HoldsNext(buffer[..], s);
      CourseEnds(buffer[..], i, argv, inArg, inEscape, inString, s, line, front0);
    }
  }

  /** The loop stands at `s` in the run over `line`. */
  ghost predicate OnCourse(b: string, i: int, argv: seq<nat>, inArg: bool, inEscape: bool, inString: char,
                           s: Split, line: string, front: char) {
    && Stands(b, i, argv, inArg, inEscape, inString, s)
    && Run(s) == Run(Begin(line))
    && Trail(s, line, front)
  }

  lemma CourseEnds(b: string, i: int, argv: seq<nat>, inArg: bool, inEscape: bool, inString: char,
                   s: Split, line: string, front: char)
    requires OnCourse(b, i, argv, inArg, inEscape, inString, s, line, front) && (s.rest == "" || Full(s))
    ensures Splits(b, Reported(|argv|), argv, Args(line))
    ensures IsQuote(front) ==> FromBackslash(line) == ""
  {
    Report(b, s);
    if IsQuote(front) { TrailStrays(s, line, front); }
  }

  lemma Report(b: string, s: Split)
    requires Holds(b, s) && Sane(s)
    ensures forall k :: 0 <= k < Reported(|s.starts|) ==>
              s.starts[k] < MAX_LINE && CString(b, s.starts[k]) == ArgsAt(s)[k]
  {
    HoldsNext(b, s);
    forall k | 0 <= k < Reported(|s.starts|) ensures s.starts[k] < MAX_LINE && CString(b, s.starts[k]) == ArgsAt(s)[k] {
      assert GoodStart(s.out, s.starts[k]);
      CStringInside(b, s.out + s.rest + [NUL], s.starts[k]);
    }
  }

  /** The state with an argument open at the next character. */
  function Opened(s: Split): Split {
    s.(starts := if s.inArg then s.starts else s.starts + [|s.out|], inArg := true)
  }

  lemma OpenSteps(s: Split)
    requires s.rest != "" && !Full(s) && !s.inEscape && s.inString == NOTHING && !IsWhitespace(s.rest[0])
    ensures Step(Opened(s)) == Step(s)
  {
  }

  lemma BeginHolds(b: string)
    requires |b| == MAX_LINE && b[MAX_LINE - 1] == NUL
    ensures Holds(b, Begin(CString(b, 0))) && Sane(Begin(CString(b, 0)))
  {
    CStringFront(b, 0);
    var line := CString(b, 0);
    assert "" + line + [NUL] == b[..|line| + 1];
  }

  lemma {:induction false} CStringEnds(b: string, pos: nat)
    requires pos < |b| && b[|b| - 1] == NUL
    ensures var t := CString(b, pos);
            && pos + |t| < |b| && b[pos + |t|] == NUL
            && forall k :: 0 <= k < |t| ==> b[pos + k] == t[k] != NUL
    decreases |b| - pos
  {
    if b[pos] != NUL {
      CStringEnds(b, pos + 1);
      var u := CString(b, pos + 1);
      forall k | 0 <= k < |u| + 1 ensures b[pos + k] == ([b[pos]] + u)[k] != NUL {
        if k > 0 { assert b[pos + 1 + (k - 1)] == u[k - 1]; }
      }
    }
  }

  lemma CStringFront(b: string, pos: nat)
    requires pos < |b| && b[|b| - 1] == NUL
    ensures var t := CString(b, pos);
            pos + |t| < |b| && b[pos..pos + |t|] == t && b[pos + |t|] == NUL && Clean(t)
  {
    CStringEnds(b, pos);
  }

  /** A C string that ends inside the front of a buffer is read the same from both. */
  lemma CStringInside(b: string, t: string, pos: nat)
    requires t <= b && pos < |t| && t[|t| - 1] == NUL
    ensures CString(b, pos) == CString(t, pos)
  {
    CStringFront(t, pos);
    var u := CString(t, pos);
    assert b[pos..pos + |u|] == t[pos..pos + |u|];
    CStringIs(b, pos, u);
  }
}
