/** The growable I/O buffer of mongoose and the send queue of a TCP connection. */
module IoBuf {
  import opened Octets

  /** What a buffer holds and what it has room for. */
  datatype Space = Space(len: nat, size: nat)

  /** The size `mg_iobuf_append` asks for: the first multiple of `chunk` above `len`. */
  function Rounded(len: nat, chunk: nat): (size: nat)
    requires chunk > 0
    ensures len < size <= len + chunk
  {
    len + chunk - (len + chunk) % chunk
  }

  /** It is a multiple of `chunk`, and the first above `len`. */
  lemma RoundedIsMultiple(len: nat, chunk: nat)
    requires chunk > 0
    ensures exists k: nat :: Rounded(len, chunk) == k * chunk && (k - 1) * chunk <= len
  {
    var x := len + chunk;
    var k := x / chunk;
    Division(x, chunk);
    assert Rounded(len, chunk) == k * chunk && (k - 1) * chunk <= len;
  }

  lemma Division(x: nat, chunk: nat)
    requires chunk > 0
    ensures x - x % chunk == x / chunk * chunk && (x / chunk - 1) * chunk == x / chunk * chunk - chunk
  {
  }

  /** Whether a buffer takes `n` more bytes; `memory` says whether an allocation would succeed. */
  predicate Takes(s: Space, n: nat, chunk: nat, memory: bool)
    requires chunk > 0
  {
    memory || n == 0 || Rounded(s.len + n, chunk) == s.size
  }

  function Grown(s: Space, n: nat, chunk: nat, memory: bool): Space
    requires chunk > 0
  {
    Space(if Takes(s, n, chunk, memory) then s.len + n else s.len,
          if memory then Rounded(s.len + n, chunk) else s.size)
  }

  /** `struct mg_iobuf`; the source's `size` is the length of `buf`. */
  class Buffer {
    var buf: array<Octet>
    var len: nat

    ghost predicate Valid()
      reads this
    {
      len <= buf.Length
    }

    ghost function Contents(): Bytes
      requires Valid()
      reads this, buf
    {
      buf[..len]
    }

    function Room(): Space
      reads this
    {
      Space(len, buf.Length)
    }

    constructor ()
      ensures Valid() && Contents() == [] && buf.Length == 0 && fresh(buf)
    {
      buf := new Octet[0];
      len := 0;
    }

    /** mg_iobuf_resize; `memory` says whether an allocation would succeed. The length is not
        adjusted: a buffer shrunk below what it holds is no longer in order. */
    method Resize(newSize: nat, memory: bool) returns (ok: bool)
      requires Valid()
      modifies this
      ensures buf == old(buf) || fresh(buf)
      ensures ok <==> newSize == 0 || newSize == old(buf.Length) || memory
      ensures ok ==> buf.Length == newSize
      ensures !ok ==> buf == old(buf)
      ensures len == if newSize == 0 then 0 else old(len)
      ensures forall k :: 0 <= k < buf.Length && k < old(buf.Length) ==> buf[k] == old(buf[k])
      ensures Valid() <==> newSize == 0 || !ok || old(len) <= newSize
      ensures Valid() ==> Contents() == if newSize == 0 then [] else old(Contents())
    {
      ok := true;
      if newSize == 0 {
        buf := new Octet[0];
        len := 0;
      } else if newSize != buf.Length {
        if memory {
          var p := new Octet[newSize];
          var n := if buf.Length < newSize then buf.Length else newSize;
          forall k | 0 <= k < n { p[k] := buf[k]; }
          buf := p;
        } else {
          ok := false;
        }
      }
    }

    /** mg_iobuf_append: all of `data` goes in, or nothing does; it goes in if and only if there
        is memory for the rounded size, or the buffer has that very size already, or there is
        no data. */
    method Append(data: Bytes, chunk: nat, memory: bool) returns (n: nat)
      requires Valid() && chunk > 0
      modifies this, buf
      ensures Valid() && (buf == old(buf) || fresh(buf))
      ensures n == if Takes(old(Room()), |data|, chunk, memory) then |data| else 0
      ensures n == |data| <==> memory || data == [] || Rounded(old(len) + |data|, chunk) == old(buf.Length)
      ensures Contents() == old(Contents()) + data[..n]
      ensures buf.Length == if memory then Rounded(old(len) + |data|, chunk) else old(buf.Length)
      ensures Room() == Grown(old(Room()), |data|, chunk, memory)
    {
      n := |data|;
      var newSize := Rounded(len + n, chunk);
      if newSize != buf.Length { var _ := Resize(newSize, memory); }
      if newSize != buf.Length { n := 0; }
      var at, room := len, buf;
      forall k | 0 <= k < n { room[at + k] := data[k]; }
      len := len + n;
    }

    /** mg_iobuf_delete: drops the first `n` bytes by moving the rest down. */
    method Delete(n: nat) returns (done: nat)
      requires Valid()
      modifies this`len, buf
      ensures Valid() && done == (if n > old(len) then 0 else n)
      ensures Contents() == old(Contents())[done..]
    {
      done := if n > len then 0 else n;
      var count, room := len - done, buf;
      forall k | 0 <= k < count { room[k] := room[done + k]; }
      len := len - done;
    }
  }

  const IO_SIZE: nat := 512

  lemma MovedOut(written: Bytes, queued: Bytes, n: nat)
    requires n <= |queued|
    ensures written + queued[..n] + queued[n..] == written + queued
  {
    assert queued[..n] + queued[n..] == queued;
  }

  /** What can happen to the send side of a connection. */
  datatype Event =
    | Send(data: Bytes, memory: bool)
    | Write(rc: int)

  /** The send side of a TCP connection, with a history of what went in and out. */
  class Queue {
    const send: Buffer
    ghost var accepted: Bytes
    ghost var written: Bytes

    ghost predicate Valid()
      reads this, send, send.buf
    {
      send.Valid() && written + send.Contents() == accepted
    }

    constructor ()
      ensures Valid() && accepted == [] && written == []
      ensures fresh(send) && fresh(send.buf)
    {
      send := new Buffer();
      accepted, written := [], [];
    }

    /** mg_send on a TCP connection. */
    method Send(data: Bytes, memory: bool) returns (n: nat)
      requires Valid()
      modifies this`accepted, send, send.buf
      ensures Valid() && (send.buf == old(send.buf) || fresh(send.buf))
      ensures n == if Takes(old(send.Room()), |data|, 512, memory) then |data| else 0
      ensures send.Room() == Grown(old(send.Room()), |data|, 512, memory)
      ensures accepted == old(accepted) + data[..n]
    {
      n := send.Append(data, IO_SIZE, memory);
      accepted := accepted + data[..n];
    }

    /** write_conn; `rc` is what the operating system reports, at most what it was offered. */
    method Write(rc: int)
      requires Valid() && rc <= send.len
      modifies this`written, send, send.buf
      ensures Valid() && (send.buf == old(send.buf) || fresh(send.buf))
      ensures written == old(written) + old(send.Contents())[..if rc > 0 then rc else 0]
      ensures send.buf.Length == if 0 < rc == old(send.len) then 0 else old(send.buf.Length)
    {
      if rc > 0 {
        ghost var queued, out := send.Contents(), written;
        written := out + queued[..rc];
        var _ := send.Delete(rc);
        MovedOut(out, queued, rc);
        if send.len == 0 { var _ := send.Resize(0, true); }
      }
    }

    method Handle(e: Event) returns (taken: bool)
      requires Valid()
      modifies this, send, send.buf
      ensures Valid() && (send.buf == old(send.buf) || fresh(send.buf))
      ensures accepted == old(accepted) + if e.Send? && taken then e.data else []
      ensures old(written) <= written
      ensures e.Send? && e.memory ==> taken
    {
      match e {
        case Send(data, memory) =>
          var n := Send(data, memory);
          taken := n == |data|;
        case Write(rc) =>
          Write(if rc <= send.len then rc else send.len);
          taken := true;
      }
    }

    /** Whatever mix of sends, failed allocations and short writes: the bytes
        written, followed by those still queued, are the accepted sends in order. */
    method Drive(events: seq<Event>) returns (taken: seq<bool>)
      requires Valid()
      modifies this, send, send.buf
      ensures Valid() && |taken| == |events|
      ensures accepted == old(accepted) + Accepted(events, taken)
      ensures old(written) <= written
      ensures forall k :: 0 <= k < |events| && events[k].Send? && events[k].memory ==> taken[k]
    {
      taken := [];
      for k := 0 to |events|
        invariant Valid() && (send.buf == old(send.buf) || fresh(send.buf))
        invariant |taken| == k
        invariant accepted == old(accepted) + Accepted(events[..k], taken)
        invariant old(written) <= written
        invariant forall i :: 0 <= i < k && events[i].Send? && events[i].memory ==> taken[i]
      {
        var t := Handle(events[k]);
        assert events[..k + 1] == events[..k] + [events[k]];
        AcceptedMore(events[..k], taken, events[k], t);
        taken := taken + [t];
      }
      assert events[..|events|] == events;
    }
  }

  /** The bytes of the sends that were taken, in order. */
  function Accepted(events: seq<Event>, taken: seq<bool>): Bytes
    requires |events| == |taken|
  {
    if events == [] then []
    else (if events[0].Send? && taken[0] then events[0].data else []) + Accepted(events[1..], taken[1..])
  }

  lemma {:induction false} AcceptedMore(events: seq<Event>, taken: seq<bool>, e: Event, t: bool)
    requires |events| == |taken|
    ensures Accepted(events + [e], taken + [t])
         == Accepted(events, taken) + if e.Send? && t then e.data else []
  {
    if events != [] {
      assert (events + [e])[1..] == events[1..] + [e] && (taken + [t])[1..] == taken[1..] + [t];
      AcceptedMore(events[1..], taken[1..], e, t);
    }
  }

  // ----- Several sends in a row -----

  /** One `mg_send` of several that make up a message. */
  datatype Piece = Piece(data: Bytes, memory: bool)

  function After(s: Space, pieces: seq<Piece>): Space {
    if pieces == [] then s
    else
      var k := |pieces| - 1;
      Grown(After(s, pieces[..k]), |pieces[k].data|, IO_SIZE, pieces[k].memory)
  }

  predicate Fits(s: Space, p: Piece) {
    Takes(s, |p.data|, IO_SIZE, p.memory)
  }

  /** Every piece finds room, starting with the room `s`. */
  predicate AllFit(s: Space, pieces: seq<Piece>) {
    if pieces == [] then true
    else
      var k := |pieces| - 1;
      AllFit(s, pieces[..k]) && Fits(After(s, pieces[..k]), pieces[k])
  }

  /** The pieces that find room, in order. */
  function Taken(s: Space, pieces: seq<Piece>): Bytes {
    if pieces == [] then []
    else
      var k := |pieces| - 1;
      Taken(s, pieces[..k]) + if Fits(After(s, pieces[..k]), pieces[k]) then pieces[k].data else []
  }

  function Whole(pieces: seq<Piece>): Bytes {
    if pieces == [] then []
    else
      var k := |pieces| - 1;
      Whole(pieces[..k]) + pieces[k].data
  }

  /** A message is queued whole if and only if every piece finds room. */
  lemma {:induction false} WholeIff(s: Space, pieces: seq<Piece>)
    ensures |Taken(s, pieces)| <= |Whole(pieces)|
    ensures AllFit(s, pieces) ==> Taken(s, pieces) == Whole(pieces)
    ensures !AllFit(s, pieces) ==> |Taken(s, pieces)| < |Whole(pieces)|
  {
    if pieces != [] {
      WholeIff(s, pieces[..|pieces| - 1]);
    }
  }

  lemma {:induction false} TakenGrows(s: Space, pieces: seq<Piece>, k: nat)
    requires k <= |pieces|
    ensures Taken(s, pieces[..k]) <= Taken(s, pieces)
  {
    if k == |pieces| {
      assert pieces[..k] == pieces;
    } else {
      var most := pieces[..|pieces| - 1];
      assert most[..k] == pieces[..k];
      TakenGrows(s, most, k);
    }
  }

  lemma FirstTaken(s: Space, pieces: seq<Piece>)
    requires pieces != [] && Fits(s, pieces[0])
    ensures pieces[0].data <= Taken(s, pieces)
  {
    TakenGrows(s, pieces, 1);
    var first := pieces[..1];
    assert first[..0] == [] && Taken(s, first) == Taken(s, first[..0]) + pieces[0].data;
  }

  lemma OneMore(s: Space, pieces: seq<Piece>, p: Piece)
    ensures After(s, pieces + [p]) == Grown(After(s, pieces), |p.data|, IO_SIZE, p.memory)
    ensures Taken(s, pieces + [p]) == Taken(s, pieces) + if Fits(After(s, pieces), p) then p.data else []
    ensures Whole(pieces + [p]) == Whole(pieces) + p.data
  {
    assert (pieces + [p])[..|pieces|] == pieces;
  }

  lemma WholeOfTwo(a: Piece, b: Piece)
    ensures Whole([a, b]) == a.data + b.data
  {
    assert [a, b][..1] == [a] && [a][..0] == [];
    assert Whole([a]) == Whole([]) + a.data == a.data;
  }

  lemma WholeOfThree(a: Piece, b: Piece, c: Piece)
    ensures Whole([a, b, c]) == a.data + b.data + c.data
  {
    assert [a, b, c][..2] == [a, b];
    WholeOfTwo(a, b);
  }

  /** The queue has dealt with the first `k` pieces, behind `queued`. */
  ghost predicate Sent(send: Buffer, s: Space, queued: Bytes, pieces: seq<Piece>, k: nat)
    reads send, send.buf
  {
    && send.Valid() && k <= |pieces|
    && send.Room() == After(s, pieces[..k])
    && send.Contents() == queued + Taken(s, pieces[..k])
  }

  /** `mg_send` of piece `k`. */
  method SendPiece(send: Buffer, p: Piece, ghost s: Space, ghost queued: Bytes, ghost pieces: seq<Piece>, ghost k: nat)
    requires Sent(send, s, queued, pieces, k) && k < |pieces| && pieces[k] == p
    modifies send, send.buf
    ensures Sent(send, s, queued, pieces, k + 1) && (send.buf == old(send.buf) || fresh(send.buf))
  {
    assert pieces[..k + 1] == pieces[..k] + [p];
    OneMore(s, pieces[..k], p);
    var n := send.Append(p.data, IO_SIZE, p.memory);
    assert p.data[..n] == if n == 0 then [] else p.data;
  }

  /** `mg_send` of two pieces in a row. */
  method SendPair(send: Buffer, p: Piece, q: Piece, ghost s: Space, ghost queued: Bytes, ghost pieces: seq<Piece>,
                  ghost k: nat)
    requires Sent(send, s, queued, pieces, k) && k + 1 < |pieces| && pieces[k] == p && pieces[k + 1] == q
    modifies send, send.buf
    ensures Sent(send, s, queued, pieces, k + 2) && (send.buf == old(send.buf) || fresh(send.buf))
  {
    SendPiece(send, p, s, queued, pieces, k);
    SendPiece(send, q, s, queued, pieces, k + 1);
  }

  lemma NothingSent(send: Buffer, pieces: seq<Piece>)
    requires send.Valid()
    ensures Sent(send, send.Room(), send.Contents(), pieces, 0)
  {
    assert send.Contents() + [] == send.Contents();
  }
}
