/** MQTT framing of mongoose: `mg_mqtt_send_header`, `mg_mqtt_pub`, `mg_mqtt_parse`
    and the receive loop `mqtt_cb`. */
module Mqtt {
  import opened Octets
  import opened Prelude
  import IoBuf
  import opened StreamLoop

  const CONNACK: nat := 2
  const PUBLISH: nat := 3
  const UINT32: nat := 0x1_0000_0000
  /** The remaining length must stay below this (section 2.2.3 of MQTT 3.1.1). */
  const LENGTH_LIMIT: nat := 0x1000_0000

  /** `struct mg_mqtt_message`; fields the packet does not carry stay zero or empty. */
  datatype Msg = Msg(cmd: nat, qos: nat, ack: nat, id: nat, topic: Bytes, data: Bytes)

  // ----- Parsing -----

  datatype Length = Wait | TooLong | Len(n: nat, next: nat)

  /** `x << 7 * k` */
  function Shift7(x: nat, k: nat): nat {
    if k == 0 then x else if k == 1 then x * 0x80 else if k == 2 then x * 0x4000 else x * 0x20_0000
  }

  /** The variable-length field from position `p` on, `k` bytes of it being read. */
  function Scan(b: Bytes, p: nat, k: nat, n: nat): (r: Length)
    requires p <= |b|
    ensures r.Len? ==> p < r.next <= |b|
    decreases |b| - p
  {
    if p == |b| then Wait
    else
      var n' := n + Shift7(b[p] % 128, k);
      if b[p] < 128 then Len(n', p + 1)
      else if k + 1 >= 4 then TooLong
      else Scan(b, p + 1, k + 1, n')
  }

  datatype Fields = Malformed | Parsed(msg: Msg)

  /** Topic, packet id when the QoS is not zero, and data of a PUBLISH. */
  function ReadPublish(none: Msg, body: Bytes): Fields {
    if |body| < 2 then Malformed
    else
      var p := 2 + U16(body, 0);
      if p > |body| then Malformed
      else if none.qos > 0 then
        if p + 2 > |body| then Malformed
        else Parsed(none.(topic := body[2..p], id := U16(body, p), data := body[p + 2..]))
      else Parsed(none.(topic := body[2..p], data := body[p..]))
  }

  /** The fields behind the fixed header. */
  function ReadFields(cmd: nat, qos: nat, body: Bytes): Fields {
    var none := Msg(cmd, qos, 0, 0, [], []);
    if cmd == CONNACK then
      if |body| < 2 then Malformed else Parsed(none.(ack := body[1]))
    else if 4 <= cmd <= 9 then
      if |body| < 2 then Malformed else Parsed(none.(id := U16(body, 0)))
    else if cmd == PUBLISH then ReadPublish(none, body)
    else Parsed(none)
  }

  /** `mg_mqtt_parse`. */
  function Parse(b: Bytes): Verdict<Msg> {
    if |b| < 2 then More
    else
      match Scan(b, 1, 0, 0)
      case Wait => More
      case TooLong => Bad
      case Len(n, p) =>
        if p + n > |b| then More
        else Packet(b[0], b[p..p + n], p + n)
  }

  /** What the first byte and the bytes behind the length say. */
  function Packet(first: Octet, body: Bytes, size: nat): Verdict<Msg> {
    Judge(ReadFields(first / 16, first / 2 % 4, body), size)
  }

  function Judge(f: Fields, size: nat): Verdict<Msg> {
    match f
    case Malformed => Bad
    case Parsed(m) => Item(m, size, false)
  }

  /** The parser of the source, with its loop over the length bytes. */
  method ParsePacket(b: Bytes) returns (v: Verdict<Msg>)
    ensures v == Parse(b)
  {
    if |b| < 2 { return More; }
    var cmd, qos := b[0] / 16, b[0] / 2 % 4;
    var p: nat, n: nat, k: nat := 1, 0, 0;
    var lc: Octet := 0;
    var done := false;
    while p < |b| && !done
      invariant 1 <= p <= |b| && k < 4
      invariant if done then Scan(b, 1, 0, 0) == Len(n, p) && lc < 128 else Scan(b, 1, 0, 0) == Scan(b, p, k, n)
      invariant !done && p > 1 ==> lc >= 128
      decreases |b| - p, !done
    {
      lc := b[p];
      p := p + 1;
      n := n + Shift7(lc % 128, k);
      if lc < 128 {
        done := true;
      } else {
        k := k + 1;
        if k >= 4 { return Bad; }
      }
    }
    var end := p + n;
    if lc >= 128 || end > |b| { return More; }
    match ReadFields(cmd, qos, b[p..end]) {
      case Malformed => return Bad;
      case Parsed(m) => return Item(m, end, false);
    }
  }

  // ----- The parser is a framing -----

  lemma {:induction false} ScanStands(b: Bytes, more: Bytes, p: nat, k: nat, n: nat)
    requires p <= |b| && !Scan(b, p, k, n).Wait?
    ensures Scan(b + more, p, k, n) == Scan(b, p, k, n)
    decreases |b| - p
  {
    if b[p] >= 128 && k + 1 < 4 {
      ScanStands(b, more, p + 1, k + 1, n + Shift7(b[p] % 128, k));
    }
  }

  lemma ParseStands(b: Bytes, more: Bytes)
    requires !Parse(b).More?
    ensures Parse(b + more) == Parse(b)
  {
    ScanStands(b, more, 1, 0, 0);
    var r := Scan(b, 1, 0, 0);
    if r.Len? { assert (b + more)[r.next..r.next + r.n] == b[r.next..r.next + r.n]; }
  }

  lemma {:induction false} ScanAlone(b: Bytes, end: nat, p: nat, k: nat, n: nat)
    requires p <= |b| && Scan(b, p, k, n).Len? && Scan(b, p, k, n).next <= end <= |b|
    ensures Scan(b[..end], p, k, n) == Scan(b, p, k, n)
    decreases |b| - p
  {
    if b[p] >= 128 {
      ScanAlone(b, end, p + 1, k + 1, n + Shift7(b[p] % 128, k));
    }
  }

  lemma PacketAlone(b: Bytes)
    requires Parse(b).Item?
    ensures Parse(b[..Parse(b).size]) == Parse(b)
  {
    var r := Scan(b, 1, 0, 0);
    var end := r.next + r.n;
    ScanAlone(b, end, 1, 0, 0);
    assert b[..end][r.next..end] == b[r.next..end];
  }

  lemma ParseIsFraming()
    ensures Framing(Parse)
  {
    forall b | Parse(b).Item? ensures Alone(Parse, b) == Parse(b) { PacketAlone(b); }
    forall b: Bytes, more: Bytes | !Parse(b).More? ensures Parse(b + more) == Parse(b) { ParseStands(b, more); }
  }

  // ----- Sending -----

  /** The length bytes `mg_mqtt_send_header` writes: at most four, `k` being written. */
  function LengthBytes(n: nat, k: nat): (b: Bytes)
    requires k < 4
    ensures 0 < |b| <= 4 - k
    decreases 4 - k
  {
    if n < 128 then [n]
    else [128 + n % 128] + if k + 1 < 4 then LengthBytes(n / 128, k + 1) else []
  }

  /** The do-while loop of `mg_mqtt_send_header`. */
  method SendHeader(cmd: nat, flags: nat, len: nat) returns (b: Bytes)
    requires cmd < 16 && flags < 16
    ensures b == [cmd * 16 + flags] + LengthBytes(len, 0)
  {
    b := [cmd * 16 + flags];
    var n, k := len, 0;
    while true
      invariant k < 4 && [cmd * 16 + flags] + LengthBytes(len, 0) == b + LengthBytes(n, k)
      decreases 4 - k
    {
      var v: Octet := n % 128;
      n := n / 128;
      if n > 0 { v := v + 128; }
      b := b + [v];
      k := k + 1;
      if !(n > 0 && k < 4) { break; }
    }
  }

  /** `++s_id`, skipping zero. */
  function NextId(id: nat): (r: nat)
    ensures 0 < r < 0x1_0000
  {
    var n := (id + 1) % 0x1_0000;
    if n == 0 then 1 else n
  }

  /** What follows the fixed header of a PUBLISH; the topic length is 16 bits wide. */
  function PubBody(topic: Bytes, id: nat, data: Bytes): Bytes {
    Put16(|topic|) + topic + Put16(id) + data
  }

  /** The length field `mg_mqtt_pub` computes in 32 bits. */
  function PubLength(topic: Bytes, data: Bytes): nat {
    (2 + |topic| + |data| + 2) % UINT32
  }

  /** The fixed header that `mg_mqtt_pub` sends. */
  function Fixed(topic: Bytes, data: Bytes): (b: Bytes)
    ensures |b| >= 2 && b[0] == 50
  {
    [PUBLISH * 16 + 2] + LengthBytes(PubLength(topic, data), 0)
  }

  /** What one `mg_mqtt_pub` appends to the send buffer: QoS 1, the next packet id. */
  function Publish(topic: Bytes, id: nat, data: Bytes): Bytes {
    Fixed(topic, data) + PubBody(topic, id, data)
  }

  lemma LengthWraps(t: nat, d: nat)
    ensures (2 + t % UINT32 + d % UINT32 + 2) % UINT32 == (2 + t + d + 2) % UINT32
  {
    var x, y := 2 + t % UINT32 + d % UINT32 + 2, 2 + t + d + 2;
    assert y == x + (t / UINT32 + d / UINT32) * UINT32;
  }

  /** Which of the five allocations of `mg_mqtt_pub` would succeed. */
  datatype Memory = Memory(header: bool, topicLength: bool, topic: bool, id: bool, data: bool)

  /** The sends of `mg_mqtt_pub`. */
  function Pieces(topic: Bytes, id: nat, data: Bytes, memory: Memory): seq<IoBuf.Piece> {
    [IoBuf.Piece(Fixed(topic, data), memory.header),
     IoBuf.Piece(Put16(|topic|), memory.topicLength),
     IoBuf.Piece(topic, memory.topic),
     IoBuf.Piece(Put16(id), memory.id),
     IoBuf.Piece(data, memory.data)]
  }

  lemma PiecesMakePublish(topic: Bytes, id: nat, data: Bytes, memory: Memory)
    ensures IoBuf.Whole(Pieces(topic, id, data, memory)) == Publish(topic, id, data)
  {
    var pieces := Pieces(topic, id, data, memory);
    var fixed := Fixed(topic, data);
    assert pieces[..4][..3] == [pieces[0], pieces[1], pieces[2]];
    IoBuf.WholeOfThree(pieces[0], pieces[1], pieces[2]);
    assert fixed + Put16(|topic|) + topic + Put16(id) + data == fixed + PubBody(topic, id, data);
  }

  /** The queue ends up with exactly one publication more if and only if every piece fits. */
  lemma PublishIffAllFit(topic: Bytes, id: nat, data: Bytes, memory: Memory, space: IoBuf.Space, was: Bytes)
    ensures var pieces := Pieces(topic, id, data, memory);
      was + IoBuf.Taken(space, pieces) == was + Publish(topic, id, data) <==> IoBuf.AllFit(space, pieces)
  {
    var pieces := Pieces(topic, id, data, memory);
    IoBuf.WholeIff(space, pieces);
    PiecesMakePublish(topic, id, data, memory);
    if !IoBuf.AllFit(space, pieces) {
      assert |was + IoBuf.Taken(space, pieces)| < |was + Publish(topic, id, data)|;
    }
  }

  /** `mg_mqtt_pub` with the new value of its static counter: behind whatever is queued already,
      the queue holds the pieces that fitted; it holds exactly the publication if and only if
      every piece fits the room the queue has before the call. */
  method Pub(send: IoBuf.Buffer, topic: Bytes, data: Bytes, counter: nat, memory: Memory) returns (id: nat)
    requires send.Valid()
    modifies send, send.buf
    ensures send.Valid() && (send.buf == old(send.buf) || fresh(send.buf))
    ensures id == NextId(counter)
    ensures var space, pieces := old(send.Room()), Pieces(topic, id, data, memory);
      && send.Room() == IoBuf.After(space, pieces)
      && send.Contents() == old(send.Contents()) + IoBuf.Taken(space, pieces)
      && (send.Contents() == old(send.Contents()) + Publish(topic, id, data) <==> IoBuf.AllFit(space, pieces))
  {
    ghost var space, was := send.Room(), send.Contents();
    LengthWraps(|topic|, |data|);
    var fixed := SendHeader(PUBLISH, 2, (2 + |topic| % UINT32 + |data| % UINT32 + 2) % UINT32);
    id := NextId(counter);
    QueueFive(send, [IoBuf.Piece(fixed, memory.header), IoBuf.Piece(Put16(|topic|), memory.topicLength),
                     IoBuf.Piece(topic, memory.topic), IoBuf.Piece(Put16(id), memory.id),
                     IoBuf.Piece(data, memory.data)]);
    PublishIffAllFit(topic, id, data, memory, space, was);
  }

  /** The five sends behind each other. */
  method QueueFive(send: IoBuf.Buffer, pieces: seq<IoBuf.Piece>)
    requires send.Valid() && |pieces| == 5
    modifies send, send.buf
    ensures send.Valid() && (send.buf == old(send.buf) || fresh(send.buf))
    ensures send.Room() == IoBuf.After(old(send.Room()), pieces)
    ensures send.Contents() == old(send.Contents()) + IoBuf.Taken(old(send.Room()), pieces)
  {
    ghost var space, was := send.Room(), send.Contents();
    IoBuf.NothingSent(send, pieces);
    IoBuf.SendPair(send, pieces[0], pieces[1], space, was, pieces, 0);
    IoBuf.SendPair(send, pieces[2], pieces[3], space, was, pieces, 2);
    IoBuf.SendPiece(send, pieces[4], space, was, pieces, 4);
    assert pieces[..5] == pieces;
  }

  // ----- Round trip -----

  function Limit(k: nat): nat {
    if k == 0 then 0x1000_0000 else if k == 1 then 0x20_0000 else if k == 2 then 0x4000 else 0x80
  }

  lemma ShiftSplit(n: nat, k: nat)
    requires k < 3
    ensures Shift7(n % 128, k) + Shift7(n / 128, k + 1) == Shift7(n, k)
    ensures n < Limit(k) <==> n / 128 < Limit(k + 1)
  {
  }

  /** A length byte with the continuation bit. */
  lemma ScanOn(b: Bytes, p: nat, k: nat, n: nat, low: nat)
    requires p < |b| && low < 128 && b[p] == low + 128
    ensures Scan(b, p, k, n) == if k + 1 < 4 then Scan(b, p + 1, k + 1, n + Shift7(low, k)) else TooLong
  {
    assert b[p] % 128 == low;
  }

  lemma SliceTail(b: Bytes, p: nat, field: Bytes)
    requires field != [] && p + |field| <= |b| && b[p..p + |field|] == field
    ensures b[p] == field[0] && b[p + 1..p + 1 + |field[1..]|] == field[1..]
  {
    assert b[p] == b[p..p + |field|][0];
    assert b[p + 1..p + |field|] == b[p..p + |field|][1..];
  }

  lemma LengthFirst(len: nat, k: nat)
    requires k < 4 && len >= 128
    ensures LengthBytes(len, k)[0] == len % 128 + 128
    ensures k + 1 < 4 ==> LengthBytes(len, k)[1..] == LengthBytes(len / 128, k + 1)
  {
  }

  /** Reading back the length bytes: exact below the limit, an error from there on. */
  lemma {:induction false} ScanLength(b: Bytes, p: nat, k: nat, n: nat, len: nat)
    requires k < 4 && p + |LengthBytes(len, k)| <= |b|
    requires b[p..p + |LengthBytes(len, k)|] == LengthBytes(len, k)
    ensures Scan(b, p, k, n) ==
            if len < Limit(k) then Len(n + Shift7(len, k), p + |LengthBytes(len, k)|) else TooLong
    decreases 4 - k
  {
    SliceTail(b, p, LengthBytes(len, k));
    if len < 128 {
      assert b[p] % 128 == len;
    } else {
      var low, high := len % 128, len / 128;
      LengthFirst(len, k);
      ScanOn(b, p, k, n, low);
      if k + 1 < 4 {
        ScanLength(b, p + 1, k + 1, n + Shift7(low, k), high);
        ShiftSplit(len, k);
      }
    }
  }

  lemma ReadsPubBody(topic: Bytes, id: nat, data: Bytes)
    requires |topic| < 0x1_0000 && id < 0x1_0000
    ensures ReadFields(PUBLISH, 1, PubBody(topic, id, data)) == Parsed(Msg(PUBLISH, 1, 0, id, topic, data))
  {
    var body, p := PubBody(topic, id, data), 2 + |topic|;
    assert body[0] == Put16(|topic|)[0] && body[1] == Put16(|topic|)[1];
    assert body[p] == Put16(id)[0] && body[p + 1] == Put16(id)[1];
    assert body[2..p] == topic && body[p + 2..] == data;
  }

  function Meant(topic: Bytes, id: nat, data: Bytes): Msg {
    Msg(PUBLISH, 1, 0, id, topic, data)
  }

  ghost predicate RoundTrips(topic: Bytes, id: nat, data: Bytes, more: Bytes) {
    var f := Publish(topic, id, data);
    Parse(f + more) == Item(Meant(topic, id, data), |f|, false)
  }

  predicate Encodable(topic: Bytes, data: Bytes) {
    |topic| < 0x1_0000 && 4 + |topic| + |data| < LENGTH_LIMIT
  }

  lemma ScansPublish(topic: Bytes, id: nat, data: Bytes, more: Bytes)
    ensures var f, len := Publish(topic, id, data), PubLength(topic, data);
            Scan(f + more, 1, 0, 0) ==
            if len < LENGTH_LIMIT then Len(len, |f| - |PubBody(topic, id, data)|) else TooLong
  {
    var f, field := Publish(topic, id, data), LengthBytes(PubLength(topic, data), 0);
    assert (f + more)[1..1 + |field|] == field;
    ScanLength(f + more, 1, 0, 0, PubLength(topic, data));
  }

  lemma ParseIs(b: Bytes, len: nat, at: nat)
    requires |b| >= 2 && Scan(b, 1, 0, 0) == Len(len, at) && at + len <= |b|
    ensures Parse(b) == Packet(b[0], b[at..at + len], at + len)
  {
  }

  lemma BodyInside(head: Bytes, body: Bytes, more: Bytes)
    ensures (head + body + more)[|head|..|head| + |body|] == body
  {
  }

  lemma PublishParses(head: Bytes, body: Bytes, more: Bytes, m: Msg)
    requires |head| >= 2 && head[0] == 50 && Scan(head + body + more, 1, 0, 0) == Len(|body|, |head|)
    requires ReadFields(PUBLISH, 1, body) == Parsed(m)
    ensures Parse(head + body + more) == Item(m, |head| + |body|, false)
  {
    BodyInside(head, body, more);
    ParseIs(head + body + more, |body|, |head|);
    assert (head + body + more)[0] == 50;
  }

  lemma FixedScans(topic: Bytes, id: nat, data: Bytes, more: Bytes)
    requires Encodable(topic, data)
    ensures var head, body := Fixed(topic, data), PubBody(topic, id, data);
            Scan(head + body + more, 1, 0, 0) == Len(|body|, |head|)
  {
    ScansPublish(topic, id, data, more);
    assert PubLength(topic, data) == |PubBody(topic, id, data)|;
  }

  lemma PublishRecovered(topic: Bytes, id: nat, data: Bytes, more: Bytes)
    requires id < 0x1_0000 && Encodable(topic, data)
    ensures RoundTrips(topic, id, data, more)
  {
    FixedScans(topic, id, data, more);
    ReadsPubBody(topic, id, data);
    PublishParses(Fixed(topic, data), PubBody(topic, id, data), more, Meant(topic, id, data));
  }

  /** A recovered topic was announced with its true length. */
  lemma TopicLength(cmd: nat, qos: nat, body: Bytes)
    requires cmd == PUBLISH && ReadFields(cmd, qos, body).Parsed?
    ensures |ReadFields(cmd, qos, body).msg.topic| < 0x1_0000
  {
  }

  lemma RecoveredIsEncodable(topic: Bytes, id: nat, data: Bytes, more: Bytes)
    requires RoundTrips(topic, id, data, more)
    ensures Encodable(topic, data)
  {
    var f, len := Publish(topic, id, data), PubLength(topic, data);
    var b := f + more;
    ScansPublish(topic, id, data, more);
    var at := |f| - |PubBody(topic, id, data)|;
    assert Scan(b, 1, 0, 0) == Len(len, at);
    assert b[0] == 50;
    TopicLength(b[0] / 16, b[0] / 2 % 4, b[at..at + len]);
  }

  /** A published packet is recovered exactly, whatever follows it, if and only if
      the topic length fits 16 bits and the packet length fits the four length bytes. */
  lemma RoundTripsIff(topic: Bytes, id: nat, data: Bytes, more: Bytes)
    requires id < 0x1_0000
    ensures RoundTrips(topic, id, data, more) <==> Encodable(topic, data)
  {
    if Encodable(topic, data) { PublishRecovered(topic, id, data, more); }
    if RoundTrips(topic, id, data, more) { RecoveredIsEncodable(topic, id, data, more); }
  }

  lemma StartScans(topic: Bytes, data: Bytes, more: Bytes)
    requires Encodable(topic, data)
    ensures Scan(Fixed(topic, data) + more, 1, 0, 0) == Len(4 + |topic| + |data|, |Fixed(topic, data)|)
  {
    var field := LengthBytes(PubLength(topic, data), 0);
    assert (Fixed(topic, data) + more)[1..1 + |field|] == field;
    ScanLength(Fixed(topic, data) + more, 1, 0, 0, PubLength(topic, data));
  }

  lemma TakesAnnounced(b: Bytes, n: nat, at: nat)
    requires |b| >= 2 && Scan(b, 1, 0, 0) == Len(n, at)
    ensures |b| < at + n ==> Parse(b) == More
    ensures Parse(b).Item? ==> Parse(b).size == at + n
  {
  }

  /** What is queued of a publication whose header fits begins with the header. */
  lemma HeaderFirst(topic: Bytes, id: nat, data: Bytes, memory: Memory, space: IoBuf.Space)
    requires IoBuf.Fits(space, Pieces(topic, id, data, memory)[0])
    ensures Fixed(topic, data) <= IoBuf.Taken(space, Pieces(topic, id, data, memory))
  {
    var pieces := Pieces(topic, id, data, memory);
    IoBuf.FirstTaken(space, pieces);
  }

  /** When the header of a publication is queued but not all the rest, a receiver still takes as
      many bytes as were announced: what is sent next is swallowed. */
  lemma RefusedSwallows(topic: Bytes, id: nat, data: Bytes, memory: Memory, space: IoBuf.Space, more: Bytes)
    requires Encodable(topic, data)
    requires var pieces := Pieces(topic, id, data, memory);
             IoBuf.Fits(space, pieces[0]) && !IoBuf.AllFit(space, pieces)
    ensures var got, size := IoBuf.Taken(space, Pieces(topic, id, data, memory)), |Publish(topic, id, data)|;
            && |got| < size
            && (|got + more| < size ==> Parse(got + more) == More)
            && (Parse(got + more).Item? ==> Parse(got + more).size == size)
  {
    var got, head := IoBuf.Taken(space, Pieces(topic, id, data, memory)), Fixed(topic, data);
    IoBuf.WholeIff(space, Pieces(topic, id, data, memory));
    PiecesMakePublish(topic, id, data, memory);
    HeaderFirst(topic, id, data, memory, space);
    var behind := got[|head|..] + more;
    assert got + more == head + behind;
    StartScans(topic, data, behind);
    TakesAnnounced(head + behind, 4 + |topic| + |data|, |head|);
  }

  /** Until the last byte of a packet is there, the parser waits. */
  lemma PrefixWaits(topic: Bytes, id: nat, data: Bytes, k: nat)
    requires id < 0x1_0000 && Encodable(topic, data) && k < |Publish(topic, id, data)|
    ensures Parse(Publish(topic, id, data)[..k]) == More
  {
    var f := Publish(topic, id, data);
    assert f + [] == f && f[..k] + f[k..] == f;
    RoundTripsIff(topic, id, data, []);
    if !Parse(f[..k]).More? { ParseStands(f[..k], f[k..]); }
  }

  // ----- The receive loop -----

  /** A CONNACK that carries a refusal. */
  predicate Refuses(m: Msg) {
    m.cmd == CONNACK && m.ack != 0
  }

  /** The loop of `mqtt_cb`. After a refused CONNACK it marks the connection for
      closing and goes on; only a malformed or incomplete packet ends it. */
  method Receive(recv: IoBuf.Buffer) returns (events: seq<Msg>, closing: bool)
    requires recv.Valid()
    modifies recv, recv.buf
    ensures recv.Valid() && recv.buf == old(recv.buf)
    ensures Framing(Parse)
    ensures var d := Drain(Parse, old(recv.Contents()));
            && events == d.events && recv.Contents() == d.rest
            && closing == (d.stop || Refused(Refuses, d.events))
  {
    ParseIsFraming();
    ghost var all := Drain(Parse, recv.Contents());
    events, closing := [], false;
    while true
      invariant recv.Valid() && recv.buf == old(recv.buf)
      invariant Progress(all, events, closing, recv.Contents())
      decreases recv.len
    {
      ghost var b := recv.Contents();
      var v := Take(recv);
      ProgressMore(all, events, closing, b);
      if v.More? { return; }
      if v.Bad? { return events, true; }
      closing := closing || Refuses(v.event);
      events := events + [v.event];
    }
  }

  /** One turn of the loop: a complete packet leaves the buffer. */
  method Take(recv: IoBuf.Buffer) returns (v: Verdict<Msg>)
    requires recv.Valid() && Framing(Parse)
    modifies recv, recv.buf
    ensures recv.Valid() && recv.buf == old(recv.buf) && v == Parse(old(recv.Contents()))
    ensures v.Item? ==> recv.len < old(recv.len) && recv.Contents() == old(recv.Contents())[v.size..]
    ensures !v.Item? ==> recv.Contents() == old(recv.Contents())
  {
    v := ParsePacket(recv.buf[..recv.len]);
    if v.Item? {
      var _ := recv.Delete(v.size);
    }
  }

  /** The loop has delivered `events` and has `b` before it. */
  ghost predicate Progress(all: Drained<Msg>, events: seq<Msg>, closing: bool, b: Bytes) {
    && Framing(Parse)
    && closing == Refused(Refuses, events)
    && var d := Drain(Parse, b);
       all == d.(events := events + d.events)
  }

  lemma ProgressMore(all: Drained<Msg>, events: seq<Msg>, closing: bool, b: Bytes)
    requires Progress(all, events, closing, b)
    ensures var v := Parse(b);
            && (v.More? ==> all == Drained(events, b, false))
            && (v.Bad? ==> all == Drained(events, b, true))
            && (v.Item? ==> Progress(all, events + [v.event], closing || Refuses(v.event), b[v.size..]))
  {
    var v := Parse(b);
    if v.Item? {
      var d := Drain(Parse, b[v.size..]);
      assert events + ([v.event] + d.events) == events + [v.event] + d.events;
      RefusedSplit(Refuses, events, [v.event]);
      assert Refused(Refuses, [v.event]) == Refuses([v.event][0]);
    }
  }

  /** For every stream and every cut, the packets up to the first refused CONNACK
      are the same; a malformed packet ends the stream in every cut alike. */
  lemma SegmentationSafe(parts: seq<Bytes>)
    ensures Framing(Parse)
    ensures UpToRefusal(Refuses, Delivered(Parse, Refuses, parts), Drain(Parse, Flat(parts)).events)
  {
    ParseIsFraming();
    CutsAgree(Parse, Refuses, parts);
  }

  /** The packets delivered depend on the cut exactly when one follows a refused CONNACK:
      the loop does not break there, but the connection is not read again. */
  lemma SegmentationIff(s: Bytes)
    ensures Framing(Parse)
    ensures AllCutsAgree(Parse, Refuses, s) <==> OnlyLastRefuses(Refuses, Drain(Parse, s).events)
  {
    ParseIsFraming();
    CutsAgreeIff(Parse, Refuses, s);
  }

  datatype Publication = Publication(topic: Bytes, data: Bytes)

  predicate AllEncodable(pubs: seq<Publication>) {
    forall k :: 0 <= k < |pubs| ==> Encodable(pubs[k].topic, pubs[k].data)
  }

  /** The stream of a run of `mg_mqtt_pub` calls, and what should come of it. */
  function Wire(pubs: seq<Publication>, counter: nat): Bytes {
    if pubs == [] then []
    else
      var id := NextId(counter);
      Publish(pubs[0].topic, id, pubs[0].data) + Wire(pubs[1..], id)
  }

  function AllMeant(pubs: seq<Publication>, counter: nat): seq<Msg> {
    if pubs == [] then []
    else
      var id := NextId(counter);
      [Meant(pubs[0].topic, id, pubs[0].data)] + AllMeant(pubs[1..], id)
  }

  lemma {:induction false} WireDrains(pubs: seq<Publication>, counter: nat)
    requires AllEncodable(pubs)
    ensures Framing(Parse) && Drain(Parse, Wire(pubs, counter)).events == AllMeant(pubs, counter)
    decreases |pubs|
  {
    ParseIsFraming();
    if pubs != [] {
      var id := NextId(counter);
      var f, rest := Publish(pubs[0].topic, id, pubs[0].data), Wire(pubs[1..], id);
      RoundTripsIff(pubs[0].topic, id, pubs[0].data, rest);
      WireDrains(pubs[1..], id);
      assert (f + rest)[|f|..] == rest;
    }
  }

  lemma {:induction false} PublicationsDoNotRefuse(pubs: seq<Publication>, counter: nat)
    ensures !Refused(Refuses, AllMeant(pubs, counter))
    decreases |pubs|
  {
    if pubs != [] {
      PublicationsDoNotRefuse(pubs[1..], NextId(counter));
      var all, rest := AllMeant(pubs, counter), AllMeant(pubs[1..], NextId(counter));
      forall k | 0 <= k < |all| ensures !Refuses(all[k]) {
        if k > 0 { assert all[k] == rest[k - 1]; }
      }
    }
  }

  /** Whatever is published, in whichever parts it arrives: the receiver gets exactly
      the publications, in order, each with its packet id. */
  lemma EndToEnd(pubs: seq<Publication>, counter: nat, parts: seq<Bytes>)
    requires AllEncodable(pubs) && Flat(parts) == Wire(pubs, counter)
    ensures Framing(Parse)
    ensures Delivered(Parse, Refuses, parts) == AllMeant(pubs, counter)
  {
    SegmentationSafe(parts);
    WireDrains(pubs, counter);
    PublicationsDoNotRefuse(pubs, counter);
    var got, all := Delivered(Parse, Refuses, parts), AllMeant(pubs, counter);
    assert forall k :: 0 <= k < |got| ==> got[k] == all[k];
  }
}
