/** What command lines split into: words of plain, escaped and quoted pieces, with any whitespace
    between them. */
module CliWords {
  import opened CliHistory
  import opened CliArgs

  // ----- Words and lines -----

  /** A stretch of an argument as it is written. */
  datatype Piece = Plain(c: char) | Escaped(c: char) | Single(s: string) | Double(s: string)

  type Word = seq<Piece>

  function Written(p: Piece): (s: string)
    ensures s != ""
  {
    match p
    case Plain(c) => [c]
    case Escaped(c) => ['\\', c]
    case Single(s) => "'" + s + "'"
    case Double(s) => "\"" + s + "\""
  }

  function Meant(p: Piece): string {
    match p
    case Plain(c) => [c]
    case Escaped(c) => [c]
    case Single(s) => s
    case Double(s) => s
  }

  function AllWritten(w: Word): string {
    if w == [] then "" else Written(w[0]) + AllWritten(w[1..])
  }

  function AllMeant(w: Word): string {
    if w == [] then "" else Meant(w[0]) + AllMeant(w[1..])
  }

  predicate GoodPiece(p: Piece) {
    match p
    case Plain(c) => c != NUL && c !in " \t\n\r'\"\\"
    case Escaped(c) => c != NUL
    case Single(s) => Clean(s) && '\'' !in s
    case Double(s) => Clean(s) && '\"' !in s
  }

  predicate EndsInQuote(s: string) {
    s != "" && IsQuote(s[|s| - 1])
  }

  /** No backslash comes right behind a quote that is part of the argument, `out` being what is
      in front: there the source takes that quote for an opening one. */
  predicate Smooth(out: string, w: Word)
    decreases |w|
  {
    w == [] || ((w[0].Escaped? ==> !EndsInQuote(out)) && Smooth(out + Meant(w[0]), w[1..]))
  }

  predicate GoodWord(w: Word) {
    w != [] && (forall k :: 0 <= k < |w| ==> GoodPiece(w[k])) && Smooth("", w)
  }

  predicate IsGap(g: string) {
    forall k :: 0 <= k < |g| ==> g[k] in " \t\n\r"
  }

  /** Whitespace everywhere around words, and some between any two. */
  predicate GoodLine(words: seq<Word>, gaps: seq<string>) {
    && |gaps| == |words| + 1
    && (forall k :: 0 <= k < |words| ==> GoodWord(words[k]))
    && (forall k :: 0 <= k < |gaps| ==> IsGap(gaps[k]))
    && (forall k :: 0 < k < |gaps| - 1 ==> gaps[k] != "")
  }

  function Line(words: seq<Word>, gaps: seq<string>): string
    requires |gaps| == |words| + 1
    decreases |words|, 1
  {
    gaps[0] + Behind(words, gaps[1..])
  }

  /** The words, each with the gap behind it. */
  function Behind(words: seq<Word>, gaps: seq<string>): string
    requires |gaps| == |words|
    decreases |words|, 0
  {
    if words == [] then "" else AllWritten(words[0]) + Line(words[1..], gaps)
  }

  function MeantBy(words: seq<Word>): (args: seq<string>)
    ensures |args| == |words|
  {
    seq(|words|, k requires 0 <= k < |words| => AllMeant(words[k]))
  }

  lemma {:induction false} SmoothBehind(front: string, out: string, w: Word)
    requires Smooth(out, w) && !EndsInQuote(front)
    ensures Smooth(front + out, w)
    decreases |w|
  {
    if w != [] {
      assert front + out + Meant(w[0]) == front + (out + Meant(w[0]));
      SmoothBehind(front, out + Meant(w[0]), w[1..]);
    }
  }

  lemma {:induction false} MeantIsClean(w: Word)
    requires forall k :: 0 <= k < |w| ==> GoodPiece(w[k])
    ensures Clean(AllMeant(w))
  {
    if w != [] {
      MeantIsClean(w[1..]);
      assert GoodPiece(w[0]);
    }
  }

  // ----- Running over the parts of a line -----

  predicate Between(s: Split) {
    !s.inArg && !s.inEscape && s.inString == NOTHING
  }

  /** Inside an argument, outside quotes. */
  predicate Within(s: Split) {
    s.inArg && !s.inEscape && s.inString == NOTHING
  }

  /** Inside a string everything up to its closing quote is kept, backslashes too. */
  lemma {:induction false} StringIsKept(s: Split, a: string, tail: string)
    requires s.inString != NOTHING && !s.inEscape && s.rest == a + tail && s.inString !in a
    ensures Run(s) == Run(s.(out := s.out + a, rest := tail))
    decreases |a|
  {
    if a == "" {
      assert a + tail == tail && s.out + a == s.out;
    } else {
      var t := s.(out := s.out + [a[0]], rest := a[1..] + tail);
      assert s.rest[1..] == a[1..] + tail;
      assert Step(s) == t;
      StringIsKept(t, a[1..], tail);
      assert s.out + [a[0]] + a[1..] == s.out + a;
    }
  }

  lemma QuotedRuns(s: Split, q: char, a: string, tail: string)
    requires Within(s) && IsQuote(q) && q !in a && s.rest == [q] + a + [q] + tail
    ensures Run(s) == Run(s.(out := s.out + a, rest := tail))
  {
    var closing := [q] + tail;
    var inside := s.(inString := q, rest := a + closing);
    assert s.rest[0] == q && s.rest[1..] == a + closing;
    assert Step(s) == inside;
    StringIsKept(inside, a, closing);
    var t := inside.(out := s.out + a, rest := closing);
    assert closing[1..] == tail;
    assert Step(t) == s.(out := s.out + a, rest := tail);
  }

  lemma EscapedRuns(s: Split, c: char, tail: string)
    requires Within(s) && !EndsInQuote(s.out) && s.rest == ['\\', c] + tail
    ensures Run(s) == Run(s.(out := s.out + [c], rest := tail))
  {
    assert s.rest[0] == '\\' && s.rest[1..] == [c] + tail && ([c] + tail)[1..] == tail;
    var t := s.(rest := [c] + tail, inEscape := true);
    assert Step(s) == t;
    assert Step(t) == s.(out := s.out + [c], rest := tail);
  }

  lemma PieceRuns(s: Split, p: Piece, tail: string)
    requires Within(s) && GoodPiece(p) && (p.Escaped? ==> !EndsInQuote(s.out)) && s.rest == Written(p) + tail
    ensures Run(s) == Run(s.(out := s.out + Meant(p), rest := tail))
  {
    match p
    case Plain(c) =>
      assert s.rest[0] == c && s.rest[1..] == tail;
      assert Step(s) == s.(out := s.out + [c], rest := tail);
    case Escaped(c) => EscapedRuns(s, c, tail);
    case Single(a) => QuotedRuns(s, '\'', a, tail);
    case Double(a) => QuotedRuns(s, '\"', a, tail);
  }

  lemma Grouped(a: string, b: string, c: string)
    ensures a + b + c == a + (b + c)
  {
  }

  lemma {:induction false} WordRuns(s: Split, w: Word, tail: string)
    requires Within(s) && Smooth(s.out, w) && s.rest == AllWritten(w) + tail
    requires forall k :: 0 <= k < |w| ==> GoodPiece(w[k])
    ensures Run(s) == Run(s.(out := s.out + AllMeant(w), rest := tail))
    decreases |w|
  {
    if w == [] {
      assert AllWritten(w) + tail == tail && s.out + AllMeant(w) == s.out;
    } else {
      var more := AllWritten(w[1..]) + tail;
      Grouped(Written(w[0]), AllWritten(w[1..]), tail);
      PieceRuns(s, w[0], more);
      WordRuns(s.(out := s.out + Meant(w[0]), rest := more), w[1..], tail);
      Grouped(s.out, Meant(w[0]), AllMeant(w[1..]));
    }
  }

  lemma {:induction false} GapRuns(s: Split, g: string, tail: string)
    requires Between(s) && IsGap(g) && s.rest == g + tail
    ensures Run(s) == Run(s.(out := s.out + g, rest := tail))
    decreases |g|
  {
    if g == "" {
      assert g + tail == tail && s.out + g == s.out;
    } else {
      assert s.rest[0] == g[0] && s.rest[1..] == g[1..] + tail;
      var t := s.(out := s.out + [g[0]], rest := g[1..] + tail);
      assert Step(s) == t;
      GapRuns(t, g[1..], tail);
      assert s.out + [g[0]] + g[1..] == s.out + g;
    }
  }

  lemma FirstOfWord(w: Word)
    requires GoodWord(w)
    ensures AllWritten(w) != "" && !IsWhitespace(AllWritten(w)[0])
  {
    assert GoodPiece(w[0]);
  }

  /** A word begins an argument and is read to its end. */
  lemma ArgumentRuns(s: Split, w: Word, tail: string)
    requires Between(s) && |s.starts| < MAX_ARGC && GoodWord(w) && !EndsInQuote(s.out)
    requires s.rest == AllWritten(w) + tail
    ensures Run(s) == Run(s.(out := s.out + AllMeant(w), rest := tail, starts := s.starts + [|s.out|], inArg := true))
  {
    FirstOfWord(w);
    OpenSteps(s);
    assert Run(s) == Run(Opened(s));
    assert s.out + "" == s.out;
    SmoothBehind(s.out, "", w);
    WordRuns(Opened(s), w, tail);
  }

  // ----- What is split -----

  function Min(a: nat, b: nat): nat { if a <= b then a else b }

  /** `r` holds these arguments from its start number `n` on. */
  ghost predicate HoldsArgs(r: Split, n: nat, args: seq<string>) {
    && |r.starts| == Min(MAX_ARGC, n + |args|)
    && forall k :: n <= k < |r.starts| ==>
         r.starts[k] <= |r.out| && CString(r.out + r.rest + [NUL], r.starts[k]) == args[k - n]
  }

  /** Running from `s` adds exactly these arguments, as far as there is room. */
  ghost predicate SplitsInto(s: Split, args: seq<string>) {
    var r := Run(s);
    s.out <= r.out && s.starts <= r.starts && HoldsArgs(r, |s.starts|, args)
  }

  lemma ReadsBack(b: string, out: string, a: string)
    requires out + a + [NUL] <= b && Clean(a)
    ensures CString(b, |out|) == a
  {
    var t := out + a + [NUL];
    assert b[..|t|] == t;
    assert b[|out|..|out| + |a|] == t[|out|..|out| + |a|] == a;
    assert b[|out| + |a|] == t[|out| + |a|];
    CStringIs(b, |out|, a);
  }

  lemma FirstArgument(r: Split, s: Split, a: string, more: seq<string>)
    requires s.out + a + [NUL] <= r.out && s.starts + [|s.out|] <= r.starts && Clean(a)
    requires |s.starts| < MAX_ARGC && HoldsArgs(r, |s.starts| + 1, more)
    ensures s.out <= r.out && s.starts <= r.starts && HoldsArgs(r, |s.starts|, [a] + more)
  {
    ReadsBack(r.out + r.rest + [NUL], s.out, a);
    assert r.starts[|s.starts|] == (s.starts + [|s.out|])[|s.starts|];
    assert r.out[..|s.out|] == (s.out + a + [NUL])[..|s.out|];
    assert r.starts[..|s.starts|] == (s.starts + [|s.out|])[..|s.starts|];
  }

  lemma LastArgument(s: Split, w: Word)
    requires Between(s) && |s.starts| < MAX_ARGC && GoodWord(w) && !EndsInQuote(s.out) && s.rest == AllWritten(w)
    ensures SplitsInto(s, [AllMeant(w)])
  {
    var a := AllMeant(w);
    assert s.rest == AllWritten(w) + "";
    ArgumentRuns(s, w, "");
    MeantIsClean(w);
    var t := s.(out := s.out + a, rest := "", starts := s.starts + [|s.out|], inArg := true);
    assert Run(t) == t;
    ReadsBack(t.out + t.rest + [NUL], s.out, a);
  }

  /** An argument with whitespace behind it. */
  lemma NextArgument(s: Split, w: Word, space: char, tail: string, more: seq<string>)
    requires Between(s) && |s.starts| < MAX_ARGC && GoodWord(w) && !EndsInQuote(s.out)
    requires IsWhitespace(space) && s.rest == AllWritten(w) + ([space] + tail)
    requires SplitsInto(s.(out := s.out + AllMeant(w) + [NUL], rest := tail, starts := s.starts + [|s.out|]), more)
    ensures SplitsInto(s, [AllMeant(w)] + more)
  {
    var a := AllMeant(w);
    ArgumentRuns(s, w, [space] + tail);
    var t := s.(out := s.out + a, rest := [space] + tail, starts := s.starts + [|s.out|], inArg := true);
    assert t.rest[1..] == tail;
    assert Step(t) == t.(out := t.out + [NUL], rest := tail, inArg := false);
    MeantIsClean(w);
    FirstArgument(Run(s), s, a, more);
  }

  /** The gap in front of a line adds nothing. */
  lemma BehindGap(s: Split, g: string, tail: string, args: seq<string>)
    requires Between(s) && IsGap(g) && s.rest == g + tail
    requires SplitsInto(s.(out := s.out + g, rest := tail), args)
    ensures SplitsInto(s, args)
  {
    GapRuns(s, g, tail);
    var r := Run(s);
    assert r.out[..|s.out|] == (s.out + g)[..|s.out|];
  }

  lemma GapEndsInNoQuote(out: string, g: string)
    requires IsGap(g) && !EndsInQuote(out)
    ensures !EndsInQuote(out + g)
  {
    if g != "" { assert (out + g)[|out + g| - 1] == g[|g| - 1]; }
  }

  /** No gap in front, and the arguments to come. */
  lemma {:induction false} LineSplits(s: Split, words: seq<Word>, gaps: seq<string>)
    requires Between(s) && |s.starts| <= MAX_ARGC && !EndsInQuote(s.out)
    requires GoodLine(words, gaps) && s.rest == Line(words, gaps)
    ensures SplitsInto(s, MeantBy(words))
    decreases |words|
  {
    var g, tail := gaps[0], Behind(words, gaps[1..]);
    GapEndsInNoQuote(s.out, g);
    var t := s.(out := s.out + g, rest := tail);
    if words == [] {
      assert Run(t) == t;
    } else {
      WordsSplitOn(t, words, gaps);
    }
    BehindGap(s, g, tail, MeantBy(words));
  }

  lemma {:induction false} WordsSplitOn(s: Split, words: seq<Word>, gaps: seq<string>)
    requires words != [] && GoodLine(words, gaps)
    requires Between(s) && |s.starts| <= MAX_ARGC && !EndsInQuote(s.out)
    requires s.rest == AllWritten(words[0]) + Line(words[1..], gaps[1..])
    ensures SplitsInto(s, MeantBy(words))
    decreases |words|, 0
  {
    var w, more := words[0], words[1..];
    MeantFront(words);
    FirstOfWord(w);
    if |s.starts| == MAX_ARGC {
      NoRoomLeft(s, MeantBy(words));
    } else if gaps[1] == "" {
      LastGap(words, gaps);
      LastArgument(s, w);
    } else {
      var rest := GapBegun(words, gaps);
      var t := s.(out := s.out + AllMeant(w) + [NUL], rest := Line(more, rest), starts := s.starts + [|s.out|]);
      LineSplits(t, more, rest);
      NextArgument(s, w, gaps[1][0], Line(more, rest), MeantBy(more));
    }
  }

  lemma MeantFront(words: seq<Word>)
    requires words != []
    ensures MeantBy(words) == [AllMeant(words[0])] + MeantBy(words[1..])
  {
  }

  lemma NoRoomLeft(s: Split, args: seq<string>)
    requires |s.starts| == MAX_ARGC && Full(s)
    ensures SplitsInto(s, args)
  {
  }

  lemma LastGap(words: seq<Word>, gaps: seq<string>)
    requires words != [] && GoodLine(words, gaps) && gaps[1] == ""
    ensures words == [words[0]] && MeantBy(words) == [AllMeant(words[0])]
    ensures AllWritten(words[0]) + Line(words[1..], gaps[1..]) == AllWritten(words[0])
  {
    assert |words| == 1;
  }

  /** The gap behind the first word without its first character. */
  lemma GapBegun(words: seq<Word>, gaps: seq<string>) returns (rest: seq<string>)
    requires words != [] && GoodLine(words, gaps) && gaps[1] != ""
    ensures GoodLine(words[1..], rest) && IsWhitespace(gaps[1][0])
    ensures Line(words[1..], gaps[1..]) == [gaps[1][0]] + Line(words[1..], rest)
  {
    rest := [gaps[1][1..]] + gaps[2..];
    GapsGoOn(words, gaps);
    GapShortened(words[1..], gaps[1..]);
    assert gaps[1..][1..] == gaps[2..];
  }

  lemma GapsGoOn(words: seq<Word>, gaps: seq<string>)
    requires words != [] && GoodLine(words, gaps) && gaps[1] != ""
    ensures GoodLine(words[1..], [gaps[1][1..]] + gaps[2..])
  {
    var rest := [gaps[1][1..]] + gaps[2..];
    forall k | 0 <= k < |rest| ensures IsGap(rest[k]) {
      assert k > 0 ==> rest[k] == gaps[k + 1];
    }
    forall k | 0 < k < |rest| - 1 ensures rest[k] != "" { assert rest[k] == gaps[k + 1]; }
  }

  lemma GapShortened(words: seq<Word>, gaps: seq<string>)
    requires |gaps| == |words| + 1 && gaps[0] != ""
    ensures Line(words, gaps) == [gaps[0][0]] + Line(words, [gaps[0][1..]] + gaps[1..])
  {
    var g, tail := gaps[0], Behind(words, gaps[1..]);
    assert g == [g[0]] + g[1..];
    Grouped([g[0]], g[1..], tail);
    assert ([g[1..]] + gaps[1..])[1..] == gaps[1..];
  }

  /** Whatever the whitespace: a line splits into what its words mean, up to nine of them. */
  lemma WordsSplit(words: seq<Word>, gaps: seq<string>)
    requires GoodLine(words, gaps)
    ensures Args(Line(words, gaps)) == MeantBy(words)[..Min(9, |words|)]
  {
    var s := Begin(Line(words, gaps));
    RunSane(s);
    LineSplits(s, words, gaps);
    var got := ArgsAt(Run(s));
    forall k | 0 <= k < |got| ensures got[k] == MeantBy(words)[k] {
      assert got[k] == CString(Run(s).out + Run(s).rest + [NUL], Run(s).starts[k]);
    }
  }

  // ----- Words without quotes -----

  predicate IsPlain(w: string) {
    w != "" && forall k :: 0 <= k < |w| ==> GoodPiece(Plain(w[k]))
  }

  function PlainWord(w: string): (p: Word)
    ensures |p| == |w|
  {
    seq(|w|, k requires 0 <= k < |w| => Plain(w[k]))
  }

  lemma {:induction false} PlainIsItself(w: string)
    ensures AllWritten(PlainWord(w)) == AllMeant(PlainWord(w)) == w
  {
    if w != "" {
      assert PlainWord(w)[1..] == PlainWord(w[1..]);
      PlainIsItself(w[1..]);
    }
  }

  lemma {:induction false} PlainIsSmooth(out: string, w: string)
    ensures Smooth(out, PlainWord(w))
    decreases |w|
  {
    if w != "" {
      assert PlainWord(w)[1..] == PlainWord(w[1..]);
      PlainIsSmooth(out + [w[0]], w[1..]);
    }
  }

  /** Words with whitespace in front of, between and behind them. */
  function Spaced(ws: seq<string>, gaps: seq<string>): string
    requires |gaps| == |ws| + 1
  {
    if ws == [] then gaps[0] else gaps[0] + (ws[0] + Spaced(ws[1..], gaps[1..]))
  }

  function PlainWords(ws: seq<string>): (words: seq<Word>)
    ensures |words| == |ws|
  {
    seq(|ws|, k requires 0 <= k < |ws| => PlainWord(ws[k]))
  }

  lemma {:induction false} SpacedIsLine(ws: seq<string>, gaps: seq<string>)
    requires |gaps| == |ws| + 1
    ensures Line(PlainWords(ws), gaps) == Spaced(ws, gaps)
    decreases |ws|
  {
    if ws == [] {
      assert gaps[0] + "" == gaps[0];
    } else {
      PlainIsItself(ws[0]);
      SpacedIsLine(ws[1..], gaps[1..]);
      assert PlainWords(ws)[1..] == PlainWords(ws[1..]);
    }
  }

  /** Unquoted words, however spaced, come out as they are, up to nine of them. */
  lemma PlainWordsSplit(ws: seq<string>, gaps: seq<string>)
    requires |gaps| == |ws| + 1 && forall k :: 0 <= k < |ws| ==> IsPlain(ws[k])
    requires forall k :: 0 <= k < |gaps| ==> IsGap(gaps[k])
    requires forall k :: 0 < k < |gaps| - 1 ==> gaps[k] != ""
    ensures Args(Spaced(ws, gaps)) == ws[..Min(9, |ws|)]
  {
    var words := PlainWords(ws);
    forall k | 0 <= k < |ws| ensures GoodWord(words[k]) && AllMeant(words[k]) == ws[k] {
      PlainIsItself(ws[k]);
      PlainIsSmooth("", ws[k]);
    }
    SpacedIsLine(ws, gaps);
    WordsSplit(words, gaps);
    assert MeantBy(words) == ws;
  }

  // ----- Words in quotes -----

  /** Each argument in double quotes, joined by single spaces. */
  function Quoted(args: seq<string>): string
    decreases |args|, 0
  {
    if args == [] then ""
    else "\"" + args[0] + "\"" + Joined(args[1..])
  }

  function Joined(args: seq<string>): string
    decreases |args|, 1
  {
    if args == [] then "" else " " + Quoted(args)
  }

  predicate Quotable(args: seq<string>) {
    forall k :: 0 <= k < |args| ==> Clean(args[k]) && '\"' !in args[k]
  }

  function QuotedWords(args: seq<string>): (words: seq<Word>)
    ensures |words| == |args|
  {
    seq(|args|, k requires 0 <= k < |args| => [Double(args[k])])
  }

  /** Single spaces between `n` words. */
  function Spaces(n: nat, first: string): (gaps: seq<string>)
    ensures |gaps| == n + 1
  {
    if n == 0 then [""] else [first] + Spaces(n - 1, " ")
  }

  lemma OneQuoted(a: string)
    ensures AllWritten([Double(a)]) == "\"" + a + "\"" && AllMeant([Double(a)]) == a
  {
    assert [Double(a)][1..] == [];
    assert AllWritten([Double(a)]) == Written(Double(a)) + AllWritten([]);
    assert AllMeant([Double(a)]) == a + AllMeant([]);
  }

  lemma {:induction false} QuotedIsLine(args: seq<string>, first: string)
    ensures Line(QuotedWords(args), Spaces(|args|, first)) == (if args == [] then "" else first + Quoted(args))
    decreases |args|
  {
    var words, gaps := QuotedWords(args), Spaces(|args|, first);
    if args == [] {
      assert gaps == [""] && Behind(words, gaps[1..]) == "";
    } else {
      var more := Spaces(|args| - 1, " ");
      OneQuoted(args[0]);
      QuotedIsLine(args[1..], " ");
      assert words[1..] == QuotedWords(args[1..]) && gaps == [first] + more && gaps[1..] == more;
      assert Behind(words, more) == AllWritten(words[0]) + Line(words[1..], more);
    }
  }

  lemma {:induction false} SpacesAreGaps(n: nat, first: string)
    requires IsGap(first)
    ensures forall k :: 0 <= k <= n ==> IsGap(Spaces(n, first)[k])
    ensures forall k :: 0 < k < n ==> Spaces(n, first)[k] != ""
    ensures n > 0 ==> Spaces(n, first)[0] == first
    decreases n
  {
    if n > 0 { SpacesAreGaps(n - 1, " "); }
  }

  /** Splitting a quoted list gives the list back, up to nine arguments; the rest is lost. */
  lemma QuotedSplitsBack(args: seq<string>)
    requires Quotable(args)
    ensures Args(Quoted(args)) == args[..Min(9, |args|)]
  {
    var words, gaps := QuotedWords(args), Spaces(|args|, "");
    forall k | 0 <= k < |args| ensures GoodWord(words[k]) && AllMeant(words[k]) == args[k] {
      OneQuoted(args[k]);
    }
    SpacesAreGaps(|args|, "");
    QuotedIsLine(args, "");
    WordsSplit(words, gaps);
    assert MeantBy(words) == args && "" + Quoted(args) == Quoted(args);
  }

  /** So the list survives exactly when it has at most nine arguments. */
  lemma QuotingRoundTripsIff(args: seq<string>)
    requires Quotable(args)
    ensures Args(Quoted(args)) == args <==> |args| <= 9
  {
    QuotedSplitsBack(args);
  }

  // ----- A backslash behind a quote -----

  lemma ReopenedRuns(s: Split, front: string, q: char, c: char, a: string)
    requires Within(s) && s.out == front + [q] && IsQuote(q) && q !in a
    requires s.rest == ['\\', c] + (a + [q])
    ensures Run(s) == s.(out := front + [c] + a, rest := "")
  {
    assert s.rest[0] == '\\' && s.rest[1..] == [c] + (a + [q]) && s.out[..|s.out| - 1] == front;
    var t := s.(out := front, rest := [c] + (a + [q]), inEscape := true, inString := q);
    assert Step(s) == t;
    var u := t.(out := front + [c], rest := a + [q], inEscape := false);
    assert t.rest[1..] == a + [q];
    assert Step(t) == u;
    StringIsKept(u, a, [q]);
    var v := u.(out := front + [c] + a, rest := [q]);
    assert [q][1..] == "";
    assert Step(v) == v.(rest := "", inString := NOTHING);
  }

  /** A quote that is part of an argument is taken back by a backslash behind it and opens a
      string; the character behind the backslash is kept. */
  lemma QuoteReopens(w: Word, front: string, q: char, c: char, a: string)
    requires GoodWord(w) && AllMeant(w) == front + [q] && IsQuote(q)
    requires Clean(front) && c != NUL && Clean(a) && q !in a
    ensures Args(AllWritten(w) + (['\\', c] + (a + [q]))) == [front + [c] + a]
  {
    var tail, line := ['\\', c] + (a + [q]), AllWritten(w) + (['\\', c] + (a + [q]));
    var s, t := Begin(line), Split(front + [q], tail, [0], true, false, NOTHING);
    assert s.out + AllMeant(w) == front + [q] && s.starts + [|s.out|] == [0];
    ArgumentRuns(s, w, tail);
    assert s.(out := s.out + AllMeant(w), rest := tail, starts := s.starts + [|s.out|], inArg := true) == t;
    assert Run(s) == Run(t);
    ReopenedRuns(t, front, q, c, a);
    RunSane(s);
    OnlyArgument(t.(out := front + [c] + a, rest := ""), front + [c] + a);
  }

  lemma OnlyArgument(r: Split, a: string)
    requires Sane(r) && r.out == a && r.rest == "" && r.starts == [0] && Clean(a)
    ensures ArgsAt(r) == [a]
  {
    var b := r.out + r.rest + [NUL];
    assert b == "" + a + [NUL];
    ReadsBack(b, "", a);
  }
}
