/** The receive loop both protocols of mongoose share: take packets off the front
    of the buffer until none is complete. What a stream delivers should not
    depend on how the network cuts it into reads. */
module StreamLoop {
  import opened Octets
  import opened Prelude

  /** What a parser says about the front of the buffer. */
  datatype Verdict<E> =
    | More
    | Bad
    | Item(event: E, size: nat, halt: bool)

  /** The verdict on the bytes of the first packet alone. */
  ghost function Alone<E(!new)>(parse: Bytes -> Verdict<E>, b: Bytes): Verdict<E> {
    var v := parse(b);
    if v.Item? && v.size <= |b| then parse(b[..v.size]) else v
  }

  /** A parser that needs no second look: a verdict other than "more" stands
      whatever arrives later, and a packet depends on its own bytes only. */
  ghost predicate Framing<E(!new)>(parse: Bytes -> Verdict<E>) {
    && parse([]).More?
    && (forall b {:trigger parse(b)} :: parse(b).Item? ==> 0 < parse(b).size <= |b|)
    && (forall b {:trigger Alone(parse, b)} :: parse(b).Item? ==> Alone(parse, b) == parse(b))
    && (forall b, more {:trigger parse(b), parse(b + more)} :: !parse(b).More? ==> parse(b + more) == parse(b))
  }

  datatype Drained<E> = Drained(events: seq<E>, rest: Bytes, stop: bool)

  /** One run of the loop over the whole buffer. */
  ghost function Drain<E(!new)>(parse: Bytes -> Verdict<E>, b: Bytes): Drained<E>
    requires Framing(parse)
    decreases |b|
  {
    match parse(b)
    case More => Drained([], b, false)
    case Bad => Drained([], b, true)
    case Item(e, n, halt) =>
      if halt then Drained([e], b, true)
      else
        var d := Drain(parse, b[n..]);
        d.(events := [e] + d.events)
  }

  /** A connection: bytes not yet consumed, events delivered, marked for closing.
      A connection marked for closing is closed before it is read again. */
  datatype Conn<E> = Conn(buf: Bytes, events: seq<E>, closed: bool)

  /** One read. `refuses` marks the events after which the handler asks for the
      connection to be closed but keeps looping. */
  ghost function Feed<E(!new)>(parse: Bytes -> Verdict<E>, refuses: E -> bool, c: Conn<E>, chunk: Bytes): Conn<E>
    requires Framing(parse)
  {
    if c.closed then c
    else
      var d := Drain(parse, c.buf + chunk);
      Conn(d.rest, c.events + d.events, d.stop || Refused(refuses, d.events))
  }

  predicate Refused<E>(refuses: E -> bool, events: seq<E>) {
    exists k :: 0 <= k < |events| && refuses(events[k])
  }

  ghost function FeedAll<E(!new)>(parse: Bytes -> Verdict<E>, refuses: E -> bool, c: Conn<E>, parts: seq<Bytes>)
    : Conn<E>
    requires Framing(parse)
    decreases |parts|
  {
    if parts == [] then c else FeedAll(parse, refuses, Feed(parse, refuses, c, parts[0]), parts[1..])
  }

  /** What a stream delivers when it arrives in these parts. */
  ghost function Delivered<E(!new)>(parse: Bytes -> Verdict<E>, refuses: E -> bool, parts: seq<Bytes>): seq<E>
    requires Framing(parse)
  {
    FeedAll(parse, refuses, Conn([], [], false), parts).events
  }

  // ----- Draining in two goes -----

  /** What draining `a`, then what is left of it with `b` behind, gives. */
  ghost predicate TwoGoes<E>(whole: Drained<E>, first: Drained<E>, second: Drained<E>) {
    if first.stop then whole.stop && whole.events == first.events
    else whole == Drained(first.events + second.events, second.rest, second.stop)
  }

  lemma TwoGoesBehind<E>(e: E, whole: Drained<E>, first: Drained<E>, second: Drained<E>)
    requires TwoGoes(whole, first, second)
    ensures TwoGoes(whole.(events := [e] + whole.events), first.(events := [e] + first.events), second)
  {
    assert [e] + (first.events + second.events) == [e] + first.events + second.events;
  }

  lemma {:induction false} DrainMore<E(!new)>(parse: Bytes -> Verdict<E>, a: Bytes, b: Bytes)
    requires Framing(parse)
    ensures TwoGoes(Drain(parse, a + b), Drain(parse, a), Drain(parse, Drain(parse, a).rest + b))
    decreases |a|
  {
    var v := parse(a);
    if v.More? {
      assert [] + Drain(parse, a + b).events == Drain(parse, a + b).events;
    } else {
      assert parse(a + b) == v;
      if v.Item? && !v.halt {
        var t := a[v.size..];
        DrainMore(parse, t, b);
        assert (a + b)[v.size..] == t + b;
        TwoGoesBehind(v.event, Drain(parse, t + b), Drain(parse, t), Drain(parse, Drain(parse, t).rest + b));
      }
    }
  }

  lemma RefusedSplit<E>(refuses: E -> bool, a: seq<E>, b: seq<E>)
    ensures Refused(refuses, a + b) <==> Refused(refuses, a) || Refused(refuses, b)
  {
    if Refused(refuses, a) {
      var k :| 0 <= k < |a| && refuses(a[k]);
      assert refuses((a + b)[k]);
    }
    if Refused(refuses, b) {
      var k :| 0 <= k < |b| && refuses(b[k]);
      assert refuses((a + b)[|a| + k]);
    }
    if Refused(refuses, a + b) {
      var k :| 0 <= k < |a + b| && refuses((a + b)[k]);
      if k < |a| { assert refuses(a[k]); } else { assert refuses(b[k - |a|]); }
    }
  }

  // ----- Segmentation independence -----

  /** `c` is where a connection stands after `seen` arrived, in whatever parts. */
  ghost predicate Tracks<E(!new)>(parse: Bytes -> Verdict<E>, refuses: E -> bool, c: Conn<E>, seen: Bytes)
    requires Framing(parse)
  {
    var d := Drain(parse, seen);
    && (!c.closed ==> !d.stop && c.buf == d.rest && c.events == d.events && !Refused(refuses, d.events))
    && (c.closed ==> UpToRefusal(refuses, c.events, d.events) && (d.stop || Refused(refuses, c.events)))
  }

  /** `got` is a prefix of `all` that leaves nothing out before the first refusal. */
  ghost predicate UpToRefusal<E>(refuses: E -> bool, got: seq<E>, all: seq<E>) {
    got <= all && (Refused(refuses, got) || got == all)
  }

  lemma TracksFeed<E(!new)>(parse: Bytes -> Verdict<E>, refuses: E -> bool, c: Conn<E>, seen: Bytes, chunk: Bytes)
    requires Framing(parse) && Tracks(parse, refuses, c, seen)
    ensures Tracks(parse, refuses, Feed(parse, refuses, c, chunk), seen + chunk)
  {
    DrainMore(parse, seen, chunk);
    var d := Drain(parse, seen);
    if !c.closed {
      var e := Drain(parse, d.rest + chunk);
      RefusedSplit(refuses, d.events, e.events);
    }
  }

  lemma {:induction false} TracksAll<E(!new)>(parse: Bytes -> Verdict<E>, refuses: E -> bool, c: Conn<E>, seen: Bytes,
                                              parts: seq<Bytes>)
    requires Framing(parse) && Tracks(parse, refuses, c, seen)
    ensures Tracks(parse, refuses, FeedAll(parse, refuses, c, parts), seen + Flat(parts))
    decreases |parts|
  {
    if parts == [] {
      assert seen + Flat(parts) == seen;
    } else {
      var c1, seen1 := Feed(parse, refuses, c, parts[0]), seen + parts[0];
      assert seen + Flat(parts) == seen1 + Flat(parts[1..]);
      assert Tracks(parse, refuses, c1, seen1) by { TracksFeed(parse, refuses, c, seen, parts[0]); }
      TracksAll(parse, refuses, c1, seen1, parts[1..]);
    }
  }

  /** For every cut, a stream delivers what one read of all of it delivers, at
      least up to and including the first event that asks for closing. */
  lemma CutsAgree<E(!new)>(parse: Bytes -> Verdict<E>, refuses: E -> bool, parts: seq<Bytes>)
    requires Framing(parse)
    ensures UpToRefusal(refuses, Delivered(parse, refuses, parts), Drain(parse, Flat(parts)).events)
  {
    TracksAll(parse, refuses, Conn([], [], false), [], parts);
    assert [] + Flat(parts) == Flat(parts);
  }

  /** No event but the last asks for closing. */
  predicate OnlyLastRefuses<E>(refuses: E -> bool, events: seq<E>) {
    forall k :: 0 <= k < |events| - 1 ==> !refuses(events[k])
  }

  ghost predicate AllCutsAgree<E(!new)>(parse: Bytes -> Verdict<E>, refuses: E -> bool, s: Bytes)
    requires Framing(parse)
  {
    forall parts: seq<Bytes> :: Flat(parts) == s ==> Delivered(parse, refuses, parts) == Drain(parse, s).events
  }

  /** A packet in front is delivered first. */
  lemma DrainPacket<E(!new)>(parse: Bytes -> Verdict<E>, p: Bytes, b: Bytes)
    requires Framing(parse) && parse(p).Item? && parse(p).size == |p| && !parse(p).halt
    ensures var d := Drain(parse, b);
            Drain(parse, p + b) == d.(events := [parse(p).event] + d.events)
  {
    assert parse(p + b) == parse(p);
    assert (p + b)[|p|..] == b;
  }

  /** There is a cut right behind every packet that is not the last. */
  lemma {:induction false} CutBehind<E(!new)>(parse: Bytes -> Verdict<E>, s: Bytes, k: nat) returns (n: nat)
    requires Framing(parse) && k < |Drain(parse, s).events| - 1
    ensures n <= |s| && Drain(parse, s[..n]) == Drained(Drain(parse, s).events[..k + 1], [], false)
    decreases k
  {
    var v := parse(s);
    var p, t := s[..v.size], s[v.size..];
    assert parse(p) == Alone(parse, s);
    var m := 0;
    if k > 0 { m := CutBehind(parse, t, k - 1); }
    n := v.size + m;
    assert Drain(parse, t[..m]) == Drained(Drain(parse, t).events[..k], [], false);
    assert s[..n] == p + t[..m];
    DrainPacket(parse, p, t[..m]);
  }

  /** Exactly when no packet follows a refusal, every cut of a stream delivers the same. */
  lemma CutsAgreeIff<E(!new)>(parse: Bytes -> Verdict<E>, refuses: E -> bool, s: Bytes)
    requires Framing(parse)
    ensures AllCutsAgree(parse, refuses, s) <==> OnlyLastRefuses(refuses, Drain(parse, s).events)
  {
    var all := Drain(parse, s).events;
    if OnlyLastRefuses(refuses, all) {
      forall parts: seq<Bytes> | Flat(parts) == s ensures Delivered(parse, refuses, parts) == all {
        CutsAgree(parse, refuses, parts);
      }
    } else {
      var k :| 0 <= k < |all| - 1 && refuses(all[k]);
      var n := CutBehind(parse, s, k);
      var parts := [s[..n], s[n..]];
      assert Flat(parts[1..]) == s[n..] + Flat([]);
      assert Flat(parts) == s;
      CutDelivers(parse, refuses, s[..n], s[n..], k);
    }
  }

  lemma CutDelivers<E(!new)>(parse: Bytes -> Verdict<E>, refuses: E -> bool, a: Bytes, b: Bytes, k: nat)
    requires Framing(parse)
    requires k < |Drain(parse, a).events| && refuses(Drain(parse, a).events[k])
    ensures Delivered(parse, refuses, [a, b]) == Drain(parse, a).events
  {
    var c0 := Conn([], [], false);
    assert [] + a == a;
    var c1 := Feed(parse, refuses, c0, a);
    assert c1.closed && c1.events == Drain(parse, a).events;
    assert [a, b][1..] == [b] && [b][1..] == [];
    assert FeedAll(parse, refuses, c1, [b]) == FeedAll(parse, refuses, Feed(parse, refuses, c1, b), []);
  }
}
