/** WebSocket framing of mongoose: `ws_process`, `mg_ws_send` and the receive loop
    of an established connection. */
module WebSocket {
  import opened Octets
  import opened Prelude
  import IoBuf
  import StreamLoop

  const LOW32: nat := 0x1_0000_0000
  /** Lengths are 64 bits wide. */
  const SIZE: nat := 0x1_0000_0000_0000_0000

  /** `struct ws_msg`. */
  datatype Msg = Msg(flags: Octet, headerLen: nat, dataLen: nat)

  function MaskLen(b: Bytes): nat
    requires |b| >= 2
  {
    if b[1] >= 128 then 4 else 0
  }

  /** The header fields. Of a 64-bit length only the low 32 bits are kept: the high
      word is shifted as 64 bits but then narrowed to an `int`. */
  function Header(b: Bytes): Msg {
    if |b| < 2 then Msg(0, 0, 0)
    else
      var n, mask := b[1] % 128, MaskLen(b);
      if n < 126 && |b| >= mask then Msg(b[0], 2 + mask, n)
      else if n == 126 && |b| >= 4 + mask then Msg(b[0], 4 + mask, U16(b, 2))
      else if |b| >= 10 + mask then Msg(b[0], 10 + mask, U32(b, 6))
      else Msg(b[0], 0, 0)
  }

  /** What the header announces: its own length and that of the payload. */
  function Announced(b: Bytes): nat {
    Header(b).headerLen + Header(b).dataLen
  }

  /** The size of the frame in front, or 0 when it is not complete. */
  function Size(b: Bytes): (n: nat)
    ensures n <= |b|
  {
    if Announced(b) > |b| then 0 else Announced(b)
  }

  // ----- Where `size_t` is too narrow for the sum -----

  /** A machine whose `size_t` counts to `word`: the length field itself always fits. */
  predicate GoodWord(word: nat) {
    word >= LOW32
  }

  /** `x + y` in `size_t`. */
  function Plus(x: nat, y: nat, word: nat): nat
    requires x < word && y < word
  {
    if x + y < word then x + y else x + y - word
  }

  /** What `ws_process` returns. */
  function Returned(b: Bytes, word: nat): nat
    requires GoodWord(word)
  {
    var n := Plus(Header(b).headerLen, Header(b).dataLen, word);
    if n > |b| then 0 else n
  }

  lemma HeaderFits(b: Bytes)
    ensures Header(b).headerLen <= |b| || Header(b).headerLen <= 6
    ensures Header(b).headerLen <= 14 && Header(b).dataLen < LOW32
    ensures Header(b).dataLen >= 126 ==> Header(b).headerLen <= |b|
  {
  }

  /** The test of the source is the size of the frame, exactly when the sum does not pass
      `word`: past it a frame of gigabytes is taken for a few bytes. */
  lemma ReturnedIff(b: Bytes, word: nat)
    requires GoodWord(word) && |b| < word
    ensures Returned(b, word) == Size(b) <==> Announced(b) <= word
  {
    HeaderFits(b);
  }

  lemma SizeCases(b: Bytes, word: nat)
    requires GoodWord(word) && |b| < word
    ensures Announced(b) < word ==> Returned(b, word) == Size(b)
    ensures Announced(b) >= word ==> Size(b) == 0
  {
    HeaderFits(b);
  }

  /** With 32 bits these ten bytes are a frame of nine; no frame at all is complete. */
  lemma TenBytesReturnNine()
    ensures var b: Bytes := [130, 127, 0, 0, 0, 0, 255, 255, 255, 255];
      Header(b) == Msg(130, 10, LOW32 - 1) && Returned(b, LOW32) == 9 && Size(b) == 0
  {
    var b: Bytes := [130, 127, 0, 0, 0, 0, 255, 255, 255, 255];
    assert U16(b, 6) == 65535 && U16(b, 8) == 65535;
  }

  /** Whether the frame has a mask; the payload is unmasked where it stands. */
  predicate HasMask(b: Bytes) {
    |b| >= 2 && MaskLen(b) > 0
  }

  function Masked(p: Bytes, mask: Bytes): (r: Bytes)
    requires |mask| == 4
    ensures |r| == |p|
  {
    seq(|p|, i requires 0 <= i < |p| => Xor(p[i], mask[i % 4]))
  }

  lemma MaskedTwice(p: Bytes, mask: Bytes)
    requires |mask| == 4
    ensures Masked(Masked(p, mask), mask) == p
  {
    forall i | 0 <= i < |p| ensures Masked(Masked(p, mask), mask)[i] == p[i] {
      XorTwice(p[i], mask[i % 4]);
    }
  }

  function Payload(b: Bytes): (p: Bytes)
    requires Size(b) > 0
    ensures |p| == Header(b).dataLen
  {
    var m := Header(b);
    var h := m.headerLen;
    var raw := b[h..h + m.dataLen];
    if MaskLen(b) > 0 then Masked(raw, b[h - 4..h]) else raw
  }

  /** The header part of `ws_process`; it only reads. */
  method ReadHeader(buf: array<Octet>, len: nat) returns (msg: Msg, mask: nat)
    requires len <= buf.Length
    ensures msg == Header(buf[..len])
    ensures mask == if len >= 2 then MaskLen(buf[..len]) else 0
  {
    msg, mask := Msg(0, 0, 0), 0;
    if len >= 2 {
      var k := buf[1] % 128;
      mask := if buf[1] >= 128 then 4 else 0;
      msg := msg.(flags := buf[0]);
      if k < 126 && len >= mask {
        msg := msg.(dataLen := k, headerLen := 2 + mask);
      } else if k == 126 && len >= 4 + mask {
        msg := msg.(headerLen := 4 + mask, dataLen := U16(buf[..len], 2));
      } else if len >= 10 + mask {
        msg := msg.(headerLen := 10 + mask, dataLen := U32(buf[..len], 6));
      }
    }
  }

  /** The buffer after the payload of its first frame was unmasked. */
  function Unmasked(b: Bytes): (r: Bytes)
    ensures |r| == |b|
  {
    var n := Size(b);
    if n == 0 then b else b[..Header(b).headerLen] + Payload(b) + b[n..]
  }

  /** `ws_process` over the in-place buffer: the payload is unmasked once the frame is
      complete, and nothing is touched before. `inside` is false where the source would
      write behind the buffer, on a masked frame whose size passes `word`; the model stops. */
  method Process(buf: array<Octet>, len: nat, word: nat) returns (n: nat, msg: Msg, inside: bool)
    requires len <= buf.Length && len < word && GoodWord(word)
    modifies buf
    ensures msg == Header(old(buf[..len])) && n == Returned(old(buf[..len]), word)
    ensures inside <==> HasMask(old(buf[..len])) ==> Announced(old(buf[..len])) < word
    ensures buf[..len] == Unmasked(old(buf[..len])) && buf[len..] == old(buf[len..])
  {
    ghost var b := buf[..len];
    var mask;
    msg, mask := ReadHeader(buf, len);
    HeaderFits(b);
    SizeCases(b, word);
    inside := mask == 0 || msg.headerLen + msg.dataLen < word;
    n := Plus(msg.headerLen, msg.dataLen, word);
    if n > len {
      return 0, msg, inside;
    }
    if inside && mask > 0 && n > 0 {
      UnmaskFront(buf, len, msg);
    } else {
      NothingToUnmask(b);
    }
  }

  /** The second half of `ws_process`, on a complete frame with a mask. */
  method UnmaskFront(buf: array<Octet>, len: nat, msg: Msg)
    requires len <= buf.Length && msg == Header(buf[..len]) && HasMask(buf[..len]) && Size(buf[..len]) > 0
    modifies buf
    ensures buf[..len] == Unmasked(old(buf[..len])) && buf[len..] == old(buf[len..])
  {
    ghost var was := buf[..];
    assert was[..len] == buf[..len] && was[len..] == buf[len..];
    UnmaskedIs(was, len);
    UnmaskInPlace(buf, msg.headerLen, msg.dataLen);
    assert buf[..len] == buf[..][..len] && buf[len..] == buf[..][len..];
  }

  lemma NothingToUnmask(b: Bytes)
    requires Size(b) == 0 || !HasMask(b)
    ensures Unmasked(b) == b
  {
    if Size(b) > 0 {
      var h, n := Header(b).headerLen, Size(b);
      assert b == b[..h] + b[h..n] + b[n..];
    }
  }

  /** `s` with the payload at `at` unmasked by the four bytes before it. */
  function UnmaskedAt(s: Bytes, at: nat, count: nat): Bytes
    requires 4 <= at && at + count <= |s|
  {
    s[..at] + Masked(s[at..at + count], s[at - 4..at]) + s[at + count..]
  }

  /** `now` is `front` up to `len`, and `was` behind. */
  predicate Replaced(now: Bytes, front: Bytes, was: Bytes, len: nat) {
    len <= |now| == |was| && now[..len] == front && now[len..] == was[len..]
  }

  lemma UnmaskedIs(was: Bytes, len: nat)
    requires len <= |was| && Size(was[..len]) > 0 && HasMask(was[..len])
    ensures var m := Header(was[..len]);
      Replaced(UnmaskedAt(was, m.headerLen, m.dataLen), Unmasked(was[..len]), was, len)
  {
    var b := was[..len];
    var h, n := Header(b).headerLen, Size(b);
    UnmaskedWith(b, was[h..n], was[h - 4..h]) by {
      SliceOfTake(was, len, h, n);
      SliceOfTake(was, len, h - 4, h);
    }
    Splice(was, Masked(was[h..n], was[h - 4..h]), h, n, len);
  }

  lemma UnmaskedWith(b: Bytes, raw: Bytes, mask: Bytes)
    requires Size(b) > 0 && MaskLen(b) > 0
    requires var h, n := Header(b).headerLen, Size(b); b[h..n] == raw && b[h - 4..h] == mask
    ensures Unmasked(b) == b[..Header(b).headerLen] + Masked(raw, mask) + b[Size(b)..]
  {
  }

  lemma SliceOfTake(s: Bytes, len: nat, i: nat, j: nat)
    requires i <= j <= len <= |s|
    ensures s[..len][i..j] == s[i..j]
  {
  }

  lemma SliceOfConcat(s: Bytes, t: Bytes, i: nat, j: nat)
    requires i <= j <= |s|
    ensures (s + t)[i..j] == s[i..j]
  {
  }

  lemma Splice(was: Bytes, p: Bytes, h: nat, n: nat, len: nat)
    requires h + |p| == n <= len <= |was|
    ensures var r := was[..h] + p + was[n..];
            r[..len] == was[..len][..h] + p + was[..len][n..] && r[len..] == was[len..]
  {
  }

  /** `p[i] ^= m[i & 3]` over the payload behind the mask. */
  method UnmaskInPlace(buf: array<Octet>, at: nat, count: nat)
    requires 4 <= at && at + count <= buf.Length
    modifies buf
    ensures buf[..] == UnmaskedAt(old(buf[..]), at, count)
  {
    ghost var was := buf[..];
    ghost var mask := was[at - 4..at];
    ghost var body := Masked(was[at..at + count], mask);
    for i := 0 to count
      invariant forall j :: 0 <= j < at || at + i <= j < buf.Length ==> buf[j] == was[j]
      invariant forall j :: at <= j < at + i ==> buf[j] == body[j - at]
    {
      assert buf[at - 4 + i % 4] == mask[i % 4];
      buf[at + i] := Xor(buf[at + i], buf[at - 4 + i % 4]);
    }
    assert buf[at..at + count] == body;
    assert buf[..] == was[..at] + body + was[at + count..];
  }

  // ----- The receive loop -----

  datatype Event = Event(flags: Octet, payload: Bytes)

  const CLOSE: nat := 8

  predicate IsClose(e: Event) {
    e.flags % 16 == CLOSE
  }

  /** What `ws_process` and the dispatch on the opcode make of the front of the buffer,
      where the size of the frame fits `size_t`. */
  function Parse(b: Bytes): StreamLoop.Verdict<Event> {
    var n := Size(b);
    if n == 0 then StreamLoop.More
    else
      var e := Event(Header(b).flags, Payload(b));
      StreamLoop.Item(e, n, IsClose(e))
  }

  /** The same on a machine of width `word`. Where the size does not fit, the source hands out
      a payload that is not in the buffer; nothing is promised from there on. */
  function Read(b: Bytes, word: nat): StreamLoop.Verdict<Event> {
    if Announced(b) >= word then StreamLoop.Bad else Parse(b)
  }

  function Reader(word: nat): Bytes -> StreamLoop.Verdict<Event> {
    b => Read(b, word)
  }

  /** A `size_t` with room for the longest header beside the longest payload never wraps, and
      no other never does. */
  lemma ReadIsParseIff(word: nat)
    requires GoodWord(word)
    ensures (forall b :: |b| < word ==> Read(b, word) == Parse(b)) <==> word >= LOW32 + 14
  {
    if word >= LOW32 + 14 {
      forall b | |b| < word ensures Read(b, word) == Parse(b) {
        HeaderFits(b);
      }
    } else {
      var b: Bytes := [130, 255, 0, 0, 0, 0, 255, 255, 255, 255, 0, 0, 0, 0];
      assert U16(b, 6) == 65535 && U16(b, 8) == 65535;
      assert Header(b) == Msg(130, 14, LOW32 - 1);
      assert Read(b, word) == StreamLoop.Bad && Parse(b) == StreamLoop.More;
    }
  }

  /** The header fields, once read, do not depend on what follows. */
  lemma FieldsStand(b: Bytes, more: Bytes)
    requires Header(b).headerLen > 0
    ensures Header(b + more) == Header(b)
  {
  }

  lemma HeaderStands(b: Bytes, more: Bytes)
    requires Size(b) > 0
    ensures Header(b + more) == Header(b) && Size(b + more) == Size(b) && Payload(b + more) == Payload(b)
  {
    var h := Header(b).headerLen;
    FieldsStand(b, more);
    SliceOfConcat(b, more, h, h + Header(b).dataLen);
    if MaskLen(b) > 0 { SliceOfConcat(b, more, h - 4, h); }
  }

  /** The header fields do not depend on what follows the frame. */
  lemma HeaderOfPrefix(b: Bytes, n: nat)
    requires n == Size(b) > 0
    ensures Header(b[..n]) == Header(b)
  {
    var f := b[..n];
    assert f[0] == b[0] && f[1] == b[1];
    if n >= 4 { assert U16(f, 2) == U16(b, 2); }
    if n >= 10 { assert f[6] == b[6] && f[7] == b[7] && f[8] == b[8] && f[9] == b[9]; }
  }

  lemma FrameAlone(b: Bytes)
    requires Size(b) > 0
    ensures Parse(b[..Size(b)]) == Parse(b) && Announced(b[..Size(b)]) == Announced(b)
  {
    var f := b[..Size(b)];
    HeaderOfPrefix(b, Size(b));
    assert b == f + b[Size(b)..];
    HeaderStands(f, b[Size(b)..]);
  }

  lemma ReadStands(b: Bytes, more: Bytes, word: nat)
    requires !Read(b, word).More? && word > 0
    ensures Read(b + more, word) == Read(b, word)
  {
    FieldsStand(b, more);
    if Size(b) > 0 { HeaderStands(b, more); }
  }

  /** On every machine a verdict other than "wait" stands, and a frame is read from its own
      bytes alone. */
  lemma ReadIsFraming(word: nat)
    requires GoodWord(word)
    ensures StreamLoop.Framing(Reader(word))
  {
    var parse := Reader(word);
    assert forall b :: parse(b) == Read(b, word);
    forall b | parse(b).Item? ensures StreamLoop.Alone(parse, b) == parse(b) { FrameAlone(b); }
    forall b: Bytes, more: Bytes | !parse(b).More? ensures parse(b + more) == parse(b) { ReadStands(b, more, word); }
  }

  /** Looks at the front of the receive buffer; a complete frame is unmasked and read. */
  method Look(recv: IoBuf.Buffer, word: nat) returns (v: StreamLoop.Verdict<Event>)
    requires recv.Valid() && recv.len < word && GoodWord(word)
    modifies recv.buf
    ensures v == Read(old(recv.Contents()), word) && recv.Contents() == Unmasked(old(recv.Contents()))
  {
    var n, msg, inside := Process(recv.buf, recv.len, word);
    ReturnedIff(old(recv.Contents()), word);
    if msg.headerLen + msg.dataLen >= word {
      v := StreamLoop.Bad;
    } else if n == 0 {
      v := StreamLoop.More;
    } else {
      var e := Event(msg.flags, recv.buf[msg.headerLen..n]);
      UnmaskedPayload(old(recv.Contents()));
      assert recv.buf[..recv.len][msg.headerLen..n] == recv.buf[msg.headerLen..n];
      v := StreamLoop.Item(e, n, IsClose(e));
    }
  }

  lemma UnmaskedPayload(b: Bytes)
    requires Size(b) > 0
    ensures Unmasked(b)[Header(b).headerLen..Size(b)] == Payload(b)
  {
  }

  lemma UnmaskedRest(b: Bytes)
    requires Size(b) > 0
    ensures Unmasked(b)[Size(b)..] == b[Size(b)..]
  {
  }

  lemma DrainLook(b: Bytes, word: nat)
    requires StreamLoop.Framing(Reader(word)) && |b| < word
    ensures var d, v := StreamLoop.Drain(Reader(word), b), Read(b, word);
            if v.Item? && v.halt then d == StreamLoop.Drained([v.event], b, true)
            else if v.Item? then
              && Unmasked(b)[v.size..] == b[v.size..]
              && d == Behind([v.event], StreamLoop.Drain(Reader(word), b[v.size..]))
            else d == StreamLoop.Drained([], b, v.Bad?) && Unmasked(b) == b
  {
    assert Reader(word)(b) == Read(b, word);
    if Size(b) > 0 {
      UnmaskedRest(b);
    }
  }

  ghost function Behind(events: seq<Event>, d: StreamLoop.Drained<Event>): StreamLoop.Drained<Event> {
    d.(events := events + d.events)
  }

  lemma BehindMore(events: seq<Event>, e: Event, d: StreamLoop.Drained<Event>)
    ensures Behind(events, Behind([e], d)) == Behind(events + [e], d)
  {
    assert events + ([e] + d.events) == events + [e] + d.events;
  }

  /** One turn of the loop: a complete frame is delivered and, unless it is CLOSE,
      deleted from the buffer. */
  method Deliver(recv: IoBuf.Buffer, word: nat) returns (v: StreamLoop.Verdict<Event>)
    requires recv.Valid() && recv.len < word && GoodWord(word) && StreamLoop.Framing(Reader(word))
    modifies recv, recv.buf
    ensures recv.Valid() && recv.buf == old(recv.buf) && recv.len <= old(recv.len)
    ensures Turned(StreamLoop.Drain(Reader(word), old(recv.Contents())), v, old(recv.Contents()), recv.Contents(), word)
    ensures v.Item? && !v.halt ==> recv.len < old(recv.len)
  {
    DrainLook(recv.Contents(), word);
    v := Look(recv, word);
    if v.Item? && !v.halt { var _ := recv.Delete(v.size); }
  }

  /** What one turn that found `v` leaves of the buffer `b`, when draining `b` gives `d`. */
  ghost predicate Turned(d: StreamLoop.Drained<Event>, v: StreamLoop.Verdict<Event>, b: Bytes, left: Bytes, word: nat)
    requires StreamLoop.Framing(Reader(word))
  {
    && v == Read(b, word)
    && if v.Item? && v.halt then d == StreamLoop.Drained([v.event], b, true) && left == Unmasked(b)
       else if v.Item? then d == Behind([v.event], StreamLoop.Drain(Reader(word), left))
       else d == StreamLoop.Drained([], b, v.Bad?) && left == b
  }

  /** How the loop ends: no complete frame is left, CLOSE, or a frame too big for `size_t`. */
  datatype End = Waiting | Closed | Oversize

  /** The loop of `mg_ws_cb` on an established connection. On CLOSE it returns at once and
      leaves the frame, unmasked, in the buffer of a connection marked for closing. */
  method Receive(recv: IoBuf.Buffer, word: nat) returns (events: seq<Event>, end: End)
    requires recv.Valid() && recv.len < word && GoodWord(word)
    modifies recv, recv.buf
    ensures recv.Valid() && recv.buf == old(recv.buf)
    ensures StreamLoop.Framing(Reader(word))
    ensures Ended(StreamLoop.Drain(Reader(word), old(recv.Contents())), events, end, recv.Contents(), word)
  {
    ReadIsFraming(word);
    ghost var all := StreamLoop.Drain(Reader(word), recv.Contents());
    events := [];
    while true
      invariant recv.Valid() && recv.buf == old(recv.buf) && recv.len < word
      invariant all == Behind(events, StreamLoop.Drain(Reader(word), recv.Contents()))
      decreases recv.len
    {
      ghost var b := recv.Contents();
      var v := Deliver(recv, word);
      TurnedMore(all, events, v, b, recv.Contents(), word);
      if v.More? { return events, Waiting; }
      if v.Bad? { return events, Oversize; }
      events := events + [v.event];
      if v.halt { return events, Closed; }
    }
  }

  /** What the loop has delivered and left, when draining everything gives `d`. */
  ghost predicate Ended(d: StreamLoop.Drained<Event>, events: seq<Event>, end: End, left: Bytes, word: nat) {
    && events == d.events && (d.stop <==> !end.Waiting?)
    && left == (if end.Closed? then Unmasked(d.rest) else d.rest)
    && (end.Closed? ==> events != [] && IsClose(events[|events| - 1]))
    && (end.Oversize? ==> Announced(d.rest) >= word)
  }

  lemma TurnedMore(all: StreamLoop.Drained<Event>, events: seq<Event>, v: StreamLoop.Verdict<Event>, b: Bytes,
                   left: Bytes, word: nat)
    requires StreamLoop.Framing(Reader(word))
    requires all == Behind(events, StreamLoop.Drain(Reader(word), b))
    requires Turned(StreamLoop.Drain(Reader(word), b), v, b, left, word)
    ensures v.More? ==> Ended(all, events, Waiting, left, word)
    ensures v.Bad? ==> Ended(all, events, Oversize, left, word)
    ensures v.Item? && v.halt ==> Ended(all, events + [v.event], Closed, left, word)
    ensures v.Item? && !v.halt ==> all == Behind(events + [v.event], StreamLoop.Drain(Reader(word), left))
  {
    if v.Item? && !v.halt {
      BehindMore(events, v.event, StreamLoop.Drain(Reader(word), left));
    }
  }

  // ----- Sending -----

  datatype Role = Server | Client(mask: Bytes)

  ghost predicate GoodRole(r: Role) {
    r.Client? ==> |r.mask| == 4
  }

  /** `op | WEBSOCKET_FLAGS_MASK_FIN` as a byte. */
  function WithFin(op: Octet): Octet {
    if op < 128 then op + 128 else op
  }

  function LengthField(n: nat): (b: Bytes)
    requires n < SIZE
    ensures |b| == if n < 126 then 1 else if n < 65536 then 3 else 9
    ensures b[0] < 128
  {
    if n < 126 then [n]
    else if n < 65536 then [126] + Put16(n)
    else [127] + Put32(n / LOW32) + Put32(n % LOW32)
  }

  function HeaderSize(role: Role, n: nat): nat {
    (if n < 126 then 2 else if n < 65536 then 4 else 10) + if role.Client? then 4 else 0
  }

  /** The header of a frame, with its mask when a client sends it. */
  function Lead(op: Octet, role: Role, n: nat): (b: Bytes)
    requires n < SIZE && GoodRole(role)
    ensures |b| == HeaderSize(role, n)
  {
    var len := LengthField(n);
    match role
    case Server => [WithFin(op)] + len
    case Client(mask) => [WithFin(op)] + [128 + len[0]] + len[1..] + mask
  }

  function Body(role: Role, payload: Bytes): (b: Bytes)
    requires GoodRole(role)
    ensures |b| == |payload|
  {
    match role
    case Server => payload
    case Client(mask) => Masked(payload, mask)
  }

  /** What one `mg_ws_send` appends to the send buffer. */
  function Frame(op: Octet, role: Role, payload: Bytes): Bytes
    requires |payload| < SIZE && GoodRole(role)
  {
    Lead(op, role, |payload|) + Body(role, payload)
  }

  /** A length field with the masking flag of a client. */
  function Flagged(len: Bytes, client: bool): (b: Bytes)
    requires len != [] && len[0] < 128
    ensures |b| == |len|
  {
    if client then [128 + len[0]] + len[1..] else len
  }

  /** The second header byte and the bytes copied behind it. */
  method PutLength(header: array<Octet>, first: Octet, field: Bytes) returns (size: nat)
    requires 2 + |field| <= header.Length
    modifies header
    ensures size == 2 + |field| && header[1..size] == [first] + field && header[0] == old(header[0])
  {
    header[1] := first;
    forall k | 0 <= k < |field| { header[2 + k] := field[k]; }
    size := 2 + |field|;
  }

  method FillLength(header: array<Octet>, n: nat) returns (size: nat)
    requires n < SIZE && header.Length == 10
    modifies header
    ensures 2 <= size <= 10 && header[1..size] == LengthField(n) && header[0] == old(header[0])
  {
    if n < 126 {
      size := PutLength(header, n, []);
    } else if n < 65536 {
      size := PutLength(header, 126, Put16(n));
    } else {
      assert LengthField(n) == [127] + (Put32(n / LOW32) + Put32(n % LOW32));
      size := PutLength(header, 127, Put32(n / LOW32) + Put32(n % LOW32));
    }
  }

  /** The header array of `mg_ws_send`. */
  method FillHeader(op: Octet, n: nat, client: bool) returns (header: Bytes)
    requires n < SIZE
    ensures header == [WithFin(op)] + Flagged(LengthField(n), client)
  {
    var bytes := new Octet[10];
    bytes[0] := WithFin(op);
    var size := FillLength(bytes, n);
    ghost var len := LengthField(n);
    assert bytes[1] == bytes[1..size][0] == len[0];
    if client {
      SetFlag(bytes, size, len);
    }
    header := bytes[..size];
    assert header == [bytes[0]] + bytes[1..size];
  }

  /** `header[1] |= 1 << 7` */
  method SetFlag(bytes: array<Octet>, size: nat, ghost len: Bytes)
    requires 2 <= size <= bytes.Length && bytes[1..size] == len && bytes[1] < 128
    modifies bytes
    ensures bytes[1..size] == [128 + len[0]] + len[1..] && bytes[0] == old(bytes[0])
  {
    assert bytes[2..size] == len[1..];
    bytes[1] := bytes[1] + 128;
    assert bytes[1..size] == [bytes[1]] + bytes[2..size];
  }

  /** `p[i] ^= mask[i & 3]` over the payload just appended. */
  method MaskInPlace(buf: array<Octet>, at: nat, count: nat, mask: Bytes)
    requires at + count <= buf.Length && |mask| == 4
    modifies buf
    ensures buf[..at] == old(buf[..at]) && buf[at..at + count] == Masked(old(buf[at..at + count]), mask)
  {
    ghost var body := Masked(buf[at..at + count], mask);
    for i := 0 to count
      invariant forall j :: 0 <= j < at || at + i <= j < buf.Length ==> buf[j] == old(buf[j])
      invariant forall j :: at <= j < at + i ==> buf[j] == body[j - at]
    {
      buf[at + i] := Xor(buf[at + i], mask[i % 4]);
    }
    assert buf[at..at + count] == body;
  }

  lemma ServerFrame(op: Octet, p: Bytes)
    requires |p| < SIZE
    ensures Frame(op, Server, p) == [WithFin(op)] + Flagged(LengthField(|p|), false) + p
  {
  }

  lemma ClientFrame(op: Octet, mask: Bytes, p: Bytes)
    requires |p| < SIZE && |mask| == 4
    ensures Frame(op, Client(mask), p) == [WithFin(op)] + Flagged(LengthField(|p|), true) + mask + Masked(p, mask)
  {
    var len := LengthField(|p|);
    assert [WithFin(op)] + ([128 + len[0]] + len[1..]) == [WithFin(op)] + [128 + len[0]] + len[1..];
  }

  /** Which of the allocations for header, mask and payload would succeed. */
  datatype Memory = Memory(header: bool, mask: bool, payload: bool)

  /** The sends of one `mg_ws_send`. */
  function Pieces(op: Octet, role: Role, payload: Bytes, memory: Memory): seq<IoBuf.Piece>
    requires |payload| < SIZE && GoodRole(role)
  {
    var header := IoBuf.Piece([WithFin(op)] + Flagged(LengthField(|payload|), role.Client?), memory.header);
    var body := IoBuf.Piece(payload, memory.payload);
    match role
    case Server => [header, body]
    case Client(mask) => [header, IoBuf.Piece(mask, memory.mask), body]
  }

  /** What the loop at the end of `mg_ws_send` makes of a queue: a client's mask goes over the
      last `n` bytes, whatever they are. */
  function LastMasked(role: Role, queued: Bytes, n: nat): (b: Bytes)
    requires GoodRole(role)
    ensures |b| == |queued|
  {
    if role.Client? && n <= |queued| then
      var at := |queued| - n;
      queued[..at] + Masked(queued[at..], role.mask)
    else queued
  }

  /** `mg_ws_send`: behind whatever is queued already, the queue holds exactly the frame if and
      only if every piece fits the room the queue has before the call. In every case the queue
      is the pieces that fitted behind what was queued before, with a client's mask over as
      many bytes at the end as the payload has: bytes queued before are masked when the payload
      did not fit. `inside` is false where the source would mask bytes in front of the buffer;
      the model stops. */
  method Send(send: IoBuf.Buffer, payload: Bytes, op: Octet, role: Role, memory: Memory)
    returns (n: nat, inside: bool)
    requires send.Valid() && |payload| < SIZE && GoodRole(role)
    modifies send, send.buf
    ensures send.Valid() && (send.buf == old(send.buf) || fresh(send.buf))
    ensures var space, pieces := old(send.Room()), Pieces(op, role, payload, memory);
      var queued := old(send.Contents()) + IoBuf.Taken(space, pieces);
      && (send.Contents() == old(send.Contents()) + Frame(op, role, payload) <==> IoBuf.AllFit(space, pieces))
      && send.Room() == IoBuf.After(space, pieces)
      && send.Contents() == LastMasked(role, queued, |payload|)
      && (inside <==> role.Server? || send.Room().size == 0 || |payload| <= |queued|)
    ensures n == |Frame(op, role, payload)|
  {
    ghost var space, was := send.Room(), send.Contents();
    var header := FillHeader(op, |payload|, role.Client?);
    FrameIffAllFit(op, role, payload, memory, space, was);
    match role
    case Server =>
      n := Queue(send, header, payload, memory);
      inside := true;
    case Client(mask) =>
      n, inside := QueueMasked(send, header, mask, payload, memory);
  }

  lemma MaskBehind(was: Bytes, front: Bytes, payload: Bytes, mask: Bytes)
    requires |mask| == 4
    ensures LastMasked(Client(mask), was + (front + payload), |payload|) == was + (front + Masked(payload, mask))
  {
    var all := was + (front + payload);
    var at := |all| - |payload|;
    assert all[..at] == was + front && all[at..] == payload;
  }

  /** When all of them fit, the pieces of a frame make up the frame once the mask is applied. */
  lemma PiecesMakeFrame(op: Octet, role: Role, payload: Bytes, memory: Memory, was: Bytes)
    requires |payload| < SIZE && GoodRole(role)
    ensures var whole := IoBuf.Whole(Pieces(op, role, payload, memory));
      && |whole| == |Frame(op, role, payload)|
      && LastMasked(role, was + whole, |payload|) == was + Frame(op, role, payload)
  {
    var pieces := Pieces(op, role, payload, memory);
    if role.Server? {
      IoBuf.WholeOfTwo(pieces[0], pieces[1]);
      ServerFrame(op, payload);
    } else {
      IoBuf.WholeOfThree(pieces[0], pieces[1], pieces[2]);
      ClientFrame(op, role.mask, payload);
      MaskBehind(was, pieces[0].data + role.mask, payload, role.mask);
    }
  }

  /** The queue ends up with exactly one frame more if and only if every piece fits. */
  lemma FrameIffAllFit(op: Octet, role: Role, payload: Bytes, memory: Memory, space: IoBuf.Space, was: Bytes)
    requires |payload| < SIZE && GoodRole(role)
    ensures var pieces := Pieces(op, role, payload, memory);
      LastMasked(role, was + IoBuf.Taken(space, pieces), |payload|) == was + Frame(op, role, payload)
      <==> IoBuf.AllFit(space, pieces)
  {
    var pieces := Pieces(op, role, payload, memory);
    IoBuf.WholeIff(space, pieces);
    PiecesMakeFrame(op, role, payload, memory, was);
    var got, frame := LastMasked(role, was + IoBuf.Taken(space, pieces), |payload|), was + Frame(op, role, payload);
    if !IoBuf.AllFit(space, pieces) {
      assert |got| < |frame|;
    }
  }

  method Queue(send: IoBuf.Buffer, header: Bytes, payload: Bytes, memory: Memory) returns (n: nat)
    requires send.Valid()
    modifies send, send.buf
    ensures send.Valid() && (send.buf == old(send.buf) || fresh(send.buf)) && n == |header| + |payload|
    ensures var pieces := [IoBuf.Piece(header, memory.header), IoBuf.Piece(payload, memory.payload)];
      && send.Room() == IoBuf.After(old(send.Room()), pieces)
      && send.Contents() == old(send.Contents()) + IoBuf.Taken(old(send.Room()), pieces)
  {
    ghost var space, was := send.Room(), send.Contents();
    var h, p := IoBuf.Piece(header, memory.header), IoBuf.Piece(payload, memory.payload);
    ghost var pieces := [h, p];
    IoBuf.NothingSent(send, pieces);
    IoBuf.SendPair(send, h, p, space, was, pieces, 0);
    n := |header| + |payload|;
    assert pieces[..2] == pieces;
  }

  method QueueThree(send: IoBuf.Buffer, a: IoBuf.Piece, b: IoBuf.Piece, c: IoBuf.Piece)
    requires send.Valid()
    modifies send, send.buf
    ensures send.Valid() && (send.buf == old(send.buf) || fresh(send.buf))
    ensures send.Room() == IoBuf.After(old(send.Room()), [a, b, c])
    ensures send.Contents() == old(send.Contents()) + IoBuf.Taken(old(send.Room()), [a, b, c])
  {
    ghost var space, was, pieces := send.Room(), send.Contents(), [a, b, c];
    IoBuf.NothingSent(send, pieces);
    IoBuf.SendPair(send, a, b, space, was, pieces, 0);
    IoBuf.SendPiece(send, c, space, was, pieces, 2);
    assert pieces[..3] == pieces;
  }

  method QueueMasked(send: IoBuf.Buffer, header: Bytes, mask: Bytes, payload: Bytes, memory: Memory)
    returns (n: nat, inside: bool)
    requires send.Valid() && |mask| == 4
    modifies send, send.buf
    ensures send.Valid() && (send.buf == old(send.buf) || fresh(send.buf))
    ensures n == |header| + 4 + |payload|
    ensures var pieces := [IoBuf.Piece(header, memory.header), IoBuf.Piece(mask, memory.mask),
                           IoBuf.Piece(payload, memory.payload)];
      var queued := old(send.Contents()) + IoBuf.Taken(old(send.Room()), pieces);
      && send.Room() == IoBuf.After(old(send.Room()), pieces)
      && send.Contents() == LastMasked(Client(mask), queued, |payload|)
      && (inside <==> send.Room().size == 0 || |payload| <= |queued|)
  {
    QueueThree(send, IoBuf.Piece(header, memory.header), IoBuf.Piece(mask, memory.mask),
               IoBuf.Piece(payload, memory.payload));
    inside := MaskQueued(send, |payload|, mask);
    n := |header| + 4 + |payload|;
  }

  /** When neither a client's header nor its mask nor its payload fits, the mask still goes
      over what was queued before. */
  lemma RefusedStillMasks(was: Bytes, op: Octet, mask: Bytes, payload: Bytes, memory: Memory, space: IoBuf.Space)
    requires |payload| < SIZE && |mask| == 4 && 0 < |payload| <= |was|
    requires IoBuf.Taken(space, Pieces(op, Client(mask), payload, memory)) == []
    ensures var queued := was + IoBuf.Taken(space, Pieces(op, Client(mask), payload, memory));
      var at := |was| - |payload|;
      LastMasked(Client(mask), queued, |payload|) == was[..at] + Masked(was[at..], mask)
  {
    assert was + [] == was;
  }

  /** The loop over the end of the queue, when there is a queue. */
  method MaskQueued(send: IoBuf.Buffer, count: nat, mask: Bytes) returns (inside: bool)
    requires send.Valid() && |mask| == 4
    modifies send.buf
    ensures send.Valid() && |send.Contents()| == |old(send.Contents())|
    ensures inside <==> send.buf.Length == 0 || count <= send.len
    ensures send.Contents() == LastMasked(Client(mask), old(send.Contents()), count)
  {
    inside := send.buf.Length == 0 || count <= send.len;
    if send.buf.Length > 0 && inside {
      MaskLast(send, count, mask);
    }
  }

  /** The last `count` bytes of the queue, whatever they are, are masked. */
  method MaskLast(send: IoBuf.Buffer, count: nat, mask: Bytes)
    requires send.Valid() && count <= send.len && |mask| == 4
    modifies send.buf
    ensures send.Valid()
    ensures var at := send.len - count;
      send.Contents() == old(send.Contents())[..at] + Masked(old(send.Contents())[at..], mask)
  {
    var at := send.len - count;
    ghost var was := send.Contents();
    assert send.buf[..at] == was[..at] && send.buf[at..send.len] == was[at..];
    MaskInPlace(send.buf, at, count, mask);
    assert send.Contents() == send.buf[..at] + send.buf[at..send.len];
  }

  /** What the parser reads when a length field follows the flags byte. */
  lemma HeaderReads(b: Bytes, mask: nat, n: nat)
    requires n < SIZE && (mask == 0 || mask == 4)
    requires var len := LengthField(n);
             && |b| >= 1 + |len| + mask
             && b[1] == len[0] + (if mask == 4 then 128 else 0)
             && b[2..1 + |len|] == len[1..]
    ensures Header(b) == Msg(b[0], 1 + |LengthField(n)| + mask, n % LOW32)
  {
    if n < 126 {
      assert n % LOW32 == n;
    } else if n < 65536 {
      assert LengthField(n)[1..] == Put16(n) && n % LOW32 == n;
      MediumReads(b, mask, n, Put16(n));
    } else {
      var field := Put32(n / LOW32) + Put32(n % LOW32);
      assert LengthField(n)[1..] == field;
      LongReads(b, mask, field);
      LowWord(n / LOW32, n % LOW32);
    }
  }

  lemma MediumReads(b: Bytes, mask: nat, n: nat, field: Bytes)
    requires (mask == 0 || mask == 4) && |b| >= 4 + mask && b[1] == 126 + (if mask == 4 then 128 else 0)
    requires b[2..4] == field && U16(field, 0) == n
    ensures Header(b) == Msg(b[0], 4 + mask, n)
  {
    assert b[2] == b[2..4][0] && b[3] == b[2..4][1];
  }

  lemma LongReads(b: Bytes, mask: nat, field: Bytes)
    requires (mask == 0 || mask == 4) && |b| >= 10 + mask && b[1] == 127 + (if mask == 4 then 128 else 0)
    requires |field| == 8 && b[2..10] == field
    ensures Header(b) == Msg(b[0], 10 + mask, U32(field, 4))
  {
    forall k | 0 <= k < 8 ensures b[2 + k] == field[k] { assert b[2..10][k] == b[2 + k]; }
    assert U16(b, 6) == U16(field, 4) && U16(b, 8) == U16(field, 6);
  }

  lemma LowWord(high: nat, low: nat)
    requires low < LOW32
    ensures U32(Put32(high) + Put32(low), 4) == low
  {
    var b, l := Put32(high) + Put32(low), Put32(low);
    assert b[4..] == l;
    forall k | 0 <= k < 4 ensures b[4 + k] == l[k] { assert b[4..][k] == b[4 + k]; }
    assert U16(b, 4) == U16(l, 0) && U16(b, 6) == U16(l, 2);
  }

  /** The header that leads a frame, as the parser reads it. */
  lemma FrameHeader(op: Octet, role: Role, n: nat, b: Bytes)
    requires n < SIZE && GoodRole(role)
    requires HeaderSize(role, n) <= |b| && b[..HeaderSize(role, n)] == Lead(op, role, n)
    ensures Header(b) == Msg(WithFin(op), HeaderSize(role, n), n % LOW32)
    ensures MaskLen(b) > 0 <==> role.Client?
  {
    var f, h, len := Lead(op, role, n), HeaderSize(role, n), LengthField(n);
    assert b[0] == f[0] && b[1] == f[1];
    assert f[2..1 + |len|] == len[1..];
    SliceOfTake(b, h, 2, 1 + |len|);
    HeaderReads(b, if role.Client? then 4 else 0, n);
  }

  lemma LeadEndsInMask(op: Octet, role: Role, n: nat)
    requires n < SIZE && GoodRole(role) && role.Client?
    ensures var f, h := Lead(op, role, n), HeaderSize(role, n); f[h - 4..h] == role.mask
  {
  }

  /** A payload behind a header of known size is what the parser returns. */
  lemma ReadFrame(b: Bytes, lead: Bytes, body: Bytes, more: Bytes, p: Bytes, mask: Bytes)
    requires b == lead + body + more && |body| == |p|
    requires |lead| >= 2 && Header(b).headerLen == |lead| && Header(b).dataLen == |p|
    requires if MaskLen(b) > 0 then |mask| == 4 <= |lead| && lead[|lead| - 4..] == mask && body == Masked(p, mask)
             else body == p
    ensures Size(b) == |lead| + |body| && Payload(b) == p
  {
    var h := |lead|;
    assert b[h..h + |p|] == body;
    if MaskLen(b) > 0 {
      assert b[h - 4..h] == lead[h - 4..];
      MaskedTwice(p, mask);
    }
  }

  lemma FrontHeader(op: Octet, role: Role, n: nat, rest: Bytes)
    requires n < LOW32 && GoodRole(role)
    ensures var lead := Lead(op, role, n);
            && Header(lead + rest) == Msg(WithFin(op), |lead|, n)
            && |lead| >= 2 && |lead + rest| >= 2
            && (MaskLen(lead + rest) > 0 <==> role.Client?)
  {
    var lead := Lead(op, role, n);
    assert n % LOW32 == n && n < SIZE;
    assert (lead + rest)[..|lead|] == lead;
    FrameHeader(op, role, n, lead + rest);
  }

  lemma FramePayload(op: Octet, role: Role, p: Bytes, more: Bytes)
    requires |p| < LOW32 && GoodRole(role)
    ensures var f := Frame(op, role, p);
            Size(f + more) == |f| > 0 && Payload(f + more) == p
  {
    var lead, body := Lead(op, role, |p|), Body(role, p);
    FrontHeader(op, role, |p|, body + more);
    if role.Client? { LeadEndsInMask(op, role, |p|); }
    assert lead + body + more == lead + (body + more);
    ReadFrame(lead + body + more, lead, body, more, p, if role.Client? then role.mask else []);
  }

  /** What a frame should deliver. */
  function Meant(op: Octet, p: Bytes): Event {
    Event(WithFin(op), p)
  }

  ghost predicate RoundTrips(op: Octet, role: Role, p: Bytes, more: Bytes, word: nat)
    requires |p| < SIZE && GoodRole(role)
  {
    var f := Frame(op, role, p);
    Read(f + more, word) == StreamLoop.Item(Meant(op, p), |f|, IsClose(Meant(op, p)))
  }

  lemma FrameAnnounces(op: Octet, role: Role, p: Bytes, more: Bytes)
    requires |p| < SIZE && GoodRole(role)
    ensures |Frame(op, role, p)| == HeaderSize(role, |p|) + |p|
    ensures Header(Frame(op, role, p) + more) == Msg(WithFin(op), HeaderSize(role, |p|), |p| % LOW32)
  {
    var f, h := Frame(op, role, p), HeaderSize(role, |p|);
    assert (f + more)[..h] == Lead(op, role, |p|);
    FrameHeader(op, role, |p|, f + more);
  }

  lemma ReadIs(b: Bytes, word: nat)
    ensures Size(b) > 0 ==> Announced(b) == Size(b)
    ensures Size(b) > 0 && Size(b) < word ==>
      var e := Event(Header(b).flags, Payload(b)); Read(b, word) == StreamLoop.Item(e, Size(b), IsClose(e))
    ensures Read(b, word).Item? ==> |Read(b, word).event.payload| == Header(b).dataLen && Announced(b) < word
  {
  }

  /** A frame is recovered exactly, whatever follows it, if and only if its payload is shorter
      than 2^32 bytes and the frame is shorter than `size_t` can count. */
  lemma RoundTripsIff(op: Octet, role: Role, p: Bytes, more: Bytes, word: nat)
    requires |p| < SIZE && GoodRole(role)
    ensures RoundTrips(op, role, p, more, word) <==> |p| < LOW32 && |Frame(op, role, p)| < word
  {
    FrameAnnounces(op, role, p, more);
    ReadIs(Frame(op, role, p) + more, word);
    if |p| < LOW32 {
      FramePayload(op, role, p, more);
    }
  }

  /** Until the last byte of a frame is there, the parser waits. */
  lemma PrefixWaits(op: Octet, role: Role, p: Bytes, k: nat, word: nat)
    requires |p| < LOW32 && GoodRole(role) && k < |Frame(op, role, p)| < word
    ensures Read(Frame(op, role, p)[..k], word) == StreamLoop.More
  {
    var f := Frame(op, role, p);
    assert f + [] == f;
    FramePayload(op, role, p, []);
    ShorterWaits(f, k);
  }

  lemma ShorterWaits(f: Bytes, k: nat)
    requires Size(f) == |f| && k < |f|
    ensures Size(f[..k]) == 0 && Announced(f[..k]) <= |f|
  {
    assert f[..k] + f[k..] == f;
    if Header(f[..k]).headerLen > 0 { FieldsStand(f[..k], f[k..]); }
  }

  // ----- End to end -----

  datatype Sent = Sent(op: Octet, role: Role, payload: Bytes)

  ghost predicate Fits(m: Sent, word: nat) {
    |m.payload| < LOW32 && GoodRole(m.role) && |Frame(m.op, m.role, m.payload)| < word
  }

  ghost predicate Sendable(msgs: seq<Sent>, word: nat) {
    forall k :: 0 <= k < |msgs| ==> Fits(msgs[k], word)
  }

  ghost function Wire(msgs: seq<Sent>, word: nat): Bytes
    requires Sendable(msgs, word)
  {
    if msgs == [] then []
    else Frame(msgs[0].op, msgs[0].role, msgs[0].payload) + Wire(msgs[1..], word)
  }

  /** The messages up to the first CLOSE and with it. */
  function UpToClose(msgs: seq<Sent>): seq<Event> {
    if msgs == [] then []
    else
      var e := Meant(msgs[0].op, msgs[0].payload);
      [e] + if IsClose(e) then [] else UpToClose(msgs[1..])
  }

  lemma {:induction false} WireDrains(msgs: seq<Sent>, word: nat)
    requires Sendable(msgs, word) && GoodWord(word)
    ensures StreamLoop.Framing(Reader(word))
    ensures StreamLoop.Drain(Reader(word), Wire(msgs, word)).events == UpToClose(msgs)
    decreases |msgs|
  {
    ReadIsFraming(word);
    if msgs != [] {
      var m, rest := msgs[0], Wire(msgs[1..], word);
      assert Fits(m, word);
      var f := Frame(m.op, m.role, m.payload);
      RoundTripsIff(m.op, m.role, m.payload, rest, word);
      WireDrains(msgs[1..], word);
      assert Reader(word)(f + rest) == Read(f + rest, word);
      assert (f + rest)[|f|..] == rest;
    }
  }

  /** Nothing but CLOSE ends a WebSocket connection, and CLOSE ends the loop itself. */
  predicate Never(e: Event) {
    false
  }

  /** For every stream and every cut of it into reads the same events are delivered, up to the
      first CLOSE or the first frame whose size does not fit `size_t`. */
  lemma SegmentationIndependent(parts: seq<Bytes>, word: nat)
    requires GoodWord(word)
    ensures StreamLoop.Framing(Reader(word))
    ensures StreamLoop.Delivered(Reader(word), Never, parts) == StreamLoop.Drain(Reader(word), Flat(parts)).events
  {
    ReadIsFraming(word);
    StreamLoop.CutsAgree(Reader(word), Never, parts);
  }

  /** Whatever is sent, in whichever parts it arrives: the receiver gets exactly
      the messages sent, in order, up to the first CLOSE. */
  lemma EndToEnd(msgs: seq<Sent>, parts: seq<Bytes>, word: nat)
    requires Sendable(msgs, word) && GoodWord(word)
    requires Flat(parts) == Wire(msgs, word)
    ensures StreamLoop.Framing(Reader(word))
    ensures StreamLoop.Delivered(Reader(word), Never, parts) == UpToClose(msgs)
  {
    SegmentationIndependent(parts, word);
    WireDrains(msgs, word);
  }
}
