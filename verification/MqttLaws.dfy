/** Packets byte by byte, as sections 2.2, 3.2 and 3.3 of MQTT 3.1.1 lay them out. */
module MqttLaws {
  import opened Octets
  import opened Mqtt
  import opened StreamLoop

  // ----- The remaining length -----

  /** The number the length bytes stand for, least significant group of seven bits first. */
  function Sum(b: Bytes): nat {
    if b == [] then 0 else b[0] % 128 + 128 * Sum(b[1..])
  }

  /** One to four bytes, all but the last with the continuation bit. */
  predicate IsLength(b: Bytes) {
    1 <= |b| <= 4 && forall k :: 0 <= k < |b| ==> (b[k] >= 128 <==> k < |b| - 1)
  }

  lemma {:induction false} LengthWritten(n: nat, k: nat)
    requires k < 4 && n < Limit(k)
    ensures var b := LengthBytes(n, k); IsLength(b) && |b| <= 4 - k && Sum(b) == n
    decreases 4 - k
  {
    var b := LengthBytes(n, k);
    if n < 128 {
      assert b[1..] == [];
    } else {
      ShiftSplit(n, k);
      LengthWritten(n / 128, k + 1);
      assert b[1..] == LengthBytes(n / 128, k + 1);
      assert forall j :: 0 < j < |b| ==> b[j] == b[1..][j - 1];
    }
  }

  lemma {:induction false} LengthRead(b: Bytes, p: nat, k: nat, n: nat, field: Bytes)
    requires IsLength(field) && k + |field| <= 4 && p + |field| <= |b| && b[p..p + |field|] == field
    ensures Scan(b, p, k, n) == Len(n + Shift7(Sum(field), k), p + |field|)
    decreases |field|
  {
    SliceTail(b, p, field);
    var rest := field[1..];
    if rest == [] {
      assert Sum(field) == field[0] % 128 && field[0] % 128 == field[0];
    } else {
      assert forall j :: 0 <= j < |rest| ==> rest[j] == field[j + 1];
      ScanOn(b, p, k, n, field[0] - 128);
      LengthRead(b, p + 1, k + 1, n + Shift7(field[0] - 128, k), rest);
      ShiftAdds(field[0] - 128, Sum(rest), k);
    }
  }

  lemma ShiftAdds(low: nat, high: nat, k: nat)
    requires k < 3
    ensures Shift7(low, k) + Shift7(high, k + 1) == Shift7(low + 128 * high, k)
  {
  }

  /** The examples of table 2.4. */
  lemma LengthExamples()
    ensures LengthBytes(127, 0) == [0x7f] && LengthBytes(128, 0) == [0x80, 0x01]
    ensures LengthBytes(16383, 0) == [0xff, 0x7f] && LengthBytes(16384, 0) == [0x80, 0x80, 0x01]
    ensures LengthBytes(2097151, 0) == [0xff, 0xff, 0x7f] && LengthBytes(2097152, 0) == [0x80, 0x80, 0x80, 0x01]
    ensures LengthBytes(268435455, 0) == [0xff, 0xff, 0xff, 0x7f]
  {
  }

  // ----- What is sent -----

  lemma PublishIs(topic: Bytes, id: nat, data: Bytes)
    requires Encodable(topic, data)
    ensures Publish(topic, id, data)
         == [0x32] + LengthBytes(4 + |topic| + |data|, 0) + (Put16(|topic|) + topic + Put16(id) + data)
  {
    assert PubLength(topic, data) == 4 + |topic| + |data| by { LengthFits(|topic|, |data|); }
  }

  lemma LengthFits(t: nat, d: nat)
    requires 4 + t + d < LENGTH_LIMIT
    ensures (2 + t + d + 2) % UINT32 == 4 + t + d
  {
  }

  /** A publication: type 3 and QoS 1, the length of what follows, the topic behind its length,
      the packet id, and the data. */
  lemma PublishLayout(topic: Bytes, id: nat, data: Bytes) returns (field: Bytes)
    requires id < 0x1_0000 && Encodable(topic, data)
    ensures IsLength(field) && Sum(field) == 4 + |topic| + |data|
    ensures var f, at := Publish(topic, id, data), 1 + |field|;
      && |f| == at + 4 + |topic| + |data|
      && f[0] == 0x32 && f[1..at] == field
      && Two(f[at], f[at + 1]) == |topic| && f[at + 2..at + 2 + |topic|] == topic
      && Two(f[at + 2 + |topic|], f[at + 3 + |topic|]) == id && f[at + 4 + |topic|..] == data
  {
    field := LengthBytes(4 + |topic| + |data|, 0);
    LengthWritten(4 + |topic| + |data|, 0);
    WholeHalf(|topic|);
    WholeHalf(id);
    PublishIs(topic, id, data);
    Parts([0x32] + field, Put16(|topic|), topic, Put16(id), data);
    assert ([0x32] + field)[1..] == field;
  }

  lemma Parts(a: Bytes, b: Bytes, c: Bytes, d: Bytes, e: Bytes)
    requires |a| > 0 && |b| == |d| == 2
    ensures var f, at := a + (b + c + d + e), |a|;
      && f[0] == a[0] && f[1..at] == a[1..] && f[at] == b[0] && f[at + 1] == b[1] && f[at + 2..at + 2 + |c|] == c
      && f[at + 2 + |c|] == d[0] && f[at + 3 + |c|] == d[1] && f[at + 4 + |c|..] == e
  {
  }

  /** Packet ids count up from 1 to 65535 and around, never 0. */
  lemma IdsCountUp(id: nat)
    requires id < 0x1_0000
    ensures NextId(id) == if id == 65535 then 1 else id + 1
  {
  }

  // ----- What is received -----

  /** A packet with its length written in any way, with anything behind it. */
  function PacketBytes(first: Octet, field: Bytes, body: Bytes, more: Bytes): Bytes {
    [first] + field + body + more
  }

  lemma PacketParts(first: Octet, field: Bytes, body: Bytes, more: Bytes)
    ensures var b, at := PacketBytes(first, field, body, more), 1 + |field|;
      at + |body| <= |b| && b[0] == first && b[1..at] == field && b[at..at + |body|] == body
  {
  }

  lemma PacketRead(first: Octet, field: Bytes, body: Bytes, more: Bytes)
    requires IsLength(field) && Sum(field) == |body|
    ensures Parse(PacketBytes(first, field, body, more)) == Packet(first, body, 1 + |field| + |body|)
  {
    var b := PacketBytes(first, field, body, more);
    PacketParts(first, field, body, more);
    LengthInFront(b, field);
    ParseIs(b, |body|, 1 + |field|);
  }

  lemma LengthInFront(b: Bytes, field: Bytes)
    requires IsLength(field) && 1 + |field| <= |b| && b[1..1 + |field|] == field
    ensures Scan(b, 1, 0, 0) == Len(Sum(field), 1 + |field|)
  {
    LengthRead(b, 1, 0, 0, field);
  }

  /** A publication of any QoS, with or without the flags for repetition and retaining. */
  lemma PublicationRead(dup: nat, qos: nat, retain: nat, field: Bytes, topic: Bytes, id: Bytes, data: Bytes,
                        more: Bytes)
    requires dup < 2 && qos < 4 && retain < 2 && |topic| < 0x1_0000 && |id| == if qos == 0 then 0 else 2
    requires IsLength(field) && Sum(field) == 2 + |topic| + |id| + |data|
    ensures Parse(PacketBytes(48 + 8 * dup + 2 * qos + retain, field, Put16(|topic|) + topic + id + data, more))
         == Item(Msg(3, qos, 0, if qos == 0 then 0 else Two(id[0], id[1]), topic, data),
                 3 + |field| + |topic| + |id| + |data|, false)
  {
    var first, body := 48 + 8 * dup + 2 * qos + retain, Put16(|topic|) + topic + id + data;
    PacketRead(first, field, body, more);
    FirstByte(dup, qos, retain);
    PublishFields(qos, topic, id, data);
  }

  lemma FirstByte(dup: nat, qos: nat, retain: nat)
    requires dup < 2 && qos < 4 && retain < 2
    ensures var first := 48 + 8 * dup + 2 * qos + retain;
      first < 256 && first / 16 == 3 && first / 2 % 4 == qos
  {
  }

  lemma PublishFields(qos: nat, topic: Bytes, id: Bytes, data: Bytes)
    requires qos < 4 && |topic| < 0x1_0000 && |id| == if qos == 0 then 0 else 2
    ensures ReadFields(3, qos, Put16(|topic|) + topic + id + data)
         == Parsed(Msg(3, qos, 0, if qos == 0 then 0 else Two(id[0], id[1]), topic, data))
  {
    var n, p := Put16(|topic|), 2 + |topic|;
    var body := n + topic + id + data;
    WholeHalf(|topic|);
    BodyParts(n, topic, id, data);
    assert U16(body, 0) == |topic|;
    if qos == 0 { assert id == []; }
  }

  lemma BodyParts(n: Bytes, topic: Bytes, id: Bytes, data: Bytes)
    requires |n| == 2
    ensures var body, p := n + topic + id + data, 2 + |topic|;
      && |body| == p + |id| + |data| && body[0] == n[0] && body[1] == n[1] && body[2..p] == topic
      && body[p + |id|..] == data && forall k :: 0 <= k < |id| ==> body[p + k] == id[k]
  {
  }

  /** The other packets: the second byte of a CONNACK is its return code, and a code other than 0
      a refusal; acknowledgements carry an id; the rest have no fields. */
  lemma OthersRead(first: Octet, field: Bytes, body: Bytes, more: Bytes)
    requires first / 16 != 3 && IsLength(field) && Sum(field) == |body|
    ensures IsOther(Parse(PacketBytes(first, field, body, more)), first / 16, body, 1 + |field| + |body|)
  {
    PacketRead(first, field, body, more);
    FieldsOfOthers(first / 16, first / 2 % 4, body, 1 + |field| + |body|);
  }

  /** The verdict on a packet of type `cmd` that is no publication. */
  predicate IsOther(v: Verdict<Msg>, cmd: nat, body: Bytes, size: nat) {
    if (cmd == 2 || 4 <= cmd <= 9) && |body| < 2 then v == Bad
    else
      && v.Item? && v.size == size && !v.halt
      && v.event.cmd == cmd && v.event.topic == v.event.data == []
      && v.event.ack == (if cmd == 2 then body[1] else 0)
      && v.event.id == (if 4 <= cmd <= 9 then Two(body[0], body[1]) else 0)
      && (Refuses(v.event) <==> cmd == 2 && body[1] != 0)
  }

  lemma FieldsOfOthers(cmd: nat, qos: nat, body: Bytes, size: nat)
    requires cmd != 3
    ensures IsOther(Judge(ReadFields(cmd, qos, body), size), cmd, body, size)
  {
  }

  /** A publication too short for its fields is refused. */
  lemma ShortPublicationRefused(first: Octet, field: Bytes, body: Bytes, more: Bytes)
    requires first / 16 == 3 && IsLength(field) && Sum(field) == |body|
    requires |body| < 2 || |body| < 2 + Two(body[0], body[1]) + if first / 2 % 4 > 0 then 2 else 0
    ensures Parse(PacketBytes(first, field, body, more)) == Bad
  {
    PacketRead(first, field, body, more);
  }

  /** Four length bytes that all ask for another are refused; fewer are waited for. */
  lemma EndlessLength(first: Octet, field: Bytes, more: Bytes)
    requires |field| <= 4 && forall k :: 0 <= k < |field| ==> field[k] >= 128
    ensures |field| == 4 ==> Parse([first] + field + more) == Bad
    ensures |field| < 4 ==> Parse([first] + field) == More
  {
    var b := [first] + field + more;
    assert forall k :: 0 <= k < |field| ==> b[1 + k] == field[k];
    var c := [first] + field;
    assert forall k :: 0 <= k < |field| ==> c[1 + k] == field[k];
    if |field| == 4 {
      ScanOn(b, 1, 0, 0, b[1] - 128);
      ScanOn(b, 2, 1, Shift7(b[1] - 128, 0), b[2] - 128);
      ScanOn(b, 3, 2, Shift7(b[1] - 128, 0) + Shift7(b[2] - 128, 1), b[3] - 128);
    } else {
      ContinuedWaits(c, 1, 0, 0);
    }
  }

  lemma {:induction false} ContinuedWaits(b: Bytes, p: nat, k: nat, n: nat)
    requires p <= |b| && k + (|b| - p) < 4 && forall j :: p <= j < |b| ==> b[j] >= 128
    ensures Scan(b, p, k, n) == Wait
    decreases |b| - p
  {
    if p < |b| { ContinuedWaits(b, p + 1, k + 1, n + Shift7(b[p] % 128, k)); }
  }
}
