/** Erosion and dilation of a set of points inside a frame by the 3x3 square, with
    everything outside the frame taken to be absent. */
module PointSets {
  type Point = (int, int)

  ghost function Frame(w: nat, h: nat): set<Point> {
    set x, y | 0 <= x < w && 0 <= y < h :: (x, y)
  }

  predicate Near(p: Point, q: Point) {
    -1 <= p.0 - q.0 <= 1 && -1 <= p.1 - q.1 <= 1
  }

  ghost function Erosion(s: set<Point>, w: nat, h: nat): set<Point> {
    set p | p in Frame(w, h) && forall q: Point :: Near(p, q) ==> q in s
  }

  ghost function Dilation(s: set<Point>, w: nat, h: nat): set<Point> {
    set p | p in Frame(w, h) && exists q: Point :: q in s && Near(p, q)
  }

  predicate OnBorder(p: Point, w: nat, h: nat) {
    p.0 == 0 || p.1 == 0 || p.0 == w - 1 || p.1 == h - 1
  }

  ghost predicate ClearBorder(s: set<Point>, w: nat, h: nat) {
    forall p :: p in s ==> !OnBorder(p, w, h)
  }

  /** An erosion never reaches the border. */
  lemma ErosionClear(s: set<Point>, w: nat, h: nat)
    requires s <= Frame(w, h)
    ensures ClearBorder(Erosion(s, w, h), w, h)
  {
    forall p | p in Erosion(s, w, h) ensures !OnBorder(p, w, h) {
      var left, up, right, down := (p.0 - 1, p.1), (p.0, p.1 - 1), (p.0 + 1, p.1), (p.0, p.1 + 1);
      assert Near(p, left) && Near(p, up) && Near(p, right) && Near(p, down);
      assert left in Frame(w, h) && up in Frame(w, h) && right in Frame(w, h) && down in Frame(w, h);
    }
  }

  lemma DilationGrows(s: set<Point>, t: set<Point>, w: nat, h: nat)
    requires s <= t
    ensures Dilation(s, w, h) <= Dilation(t, w, h)
  {
  }

  lemma ErosionGrows(s: set<Point>, t: set<Point>, w: nat, h: nat)
    requires s <= t
    ensures Erosion(s, w, h) <= Erosion(t, w, h)
  {
  }

  lemma NearInside(p: Point, q: Point, w: nat, h: nat)
    requires p in Frame(w, h) && !OnBorder(p, w, h) && Near(p, q)
    ensures q in Frame(w, h)
  {
    assert q == (q.0, q.1);
  }

  /** Dilation and erosion are adjoint on sets clear of the border. */
  lemma Adjoint(x: set<Point>, y: set<Point>, w: nat, h: nat)
    requires x <= Frame(w, h) && y <= Frame(w, h) && ClearBorder(x, w, h)
    ensures Dilation(x, w, h) <= y <==> x <= Erosion(y, w, h)
  {
    if Dilation(x, w, h) <= y {
      forall p | p in x ensures p in Erosion(y, w, h) {
        forall q: Point | Near(p, q) ensures q in y {
          NearInside(p, q, w, h);
          assert Near(q, p);
        }
      }
    }
    if x <= Erosion(y, w, h) {
      forall q | q in Dilation(x, w, h) ensures q in y {
        var p: Point :| p in x && Near(q, p);
        assert Near(p, q);
      }
    }
  }

  /** And only on those: a point of the border breaks the adjunction. */
  lemma AdjointIff(x: set<Point>, w: nat, h: nat)
    requires x <= Frame(w, h)
    ensures (forall y :: y <= Frame(w, h) ==> (Dilation(x, w, h) <= y <==> x <= Erosion(y, w, h)))
       <==> ClearBorder(x, w, h)
  {
    if ClearBorder(x, w, h) {
      forall y | y <= Frame(w, h) ensures Dilation(x, w, h) <= y <==> x <= Erosion(y, w, h) {
        Adjoint(x, y, w, h);
      }
    } else {
      var all := Frame(w, h);
      assert Dilation(x, w, h) <= all;
      ErosionClear(all, w, h);
      assert !(x <= Erosion(all, w, h));
    }
  }

  // ----- Opening and closing -----

  ghost function Opening(s: set<Point>, w: nat, h: nat): set<Point> {
    Dilation(Erosion(s, w, h), w, h)
  }

  ghost function Closing(s: set<Point>, w: nat, h: nat): set<Point> {
    Erosion(Dilation(s, w, h), w, h)
  }

  lemma OpeningShrinks(s: set<Point>, w: nat, h: nat)
    requires s <= Frame(w, h)
    ensures Opening(s, w, h) <= s
  {
    ErosionClear(s, w, h);
    Adjoint(Erosion(s, w, h), s, w, h);
  }

  /** Closing keeps a set exactly when the set is clear of the border. */
  lemma ClosingExtends(s: set<Point>, w: nat, h: nat)
    requires s <= Frame(w, h)
    ensures s <= Closing(s, w, h) <==> ClearBorder(s, w, h)
  {
    ErosionClear(Dilation(s, w, h), w, h);
    if ClearBorder(s, w, h) {
      Adjoint(s, Dilation(s, w, h), w, h);
    }
  }

  /** Closing a set does not change its dilation. */
  lemma DilationClosed(s: set<Point>, w: nat, h: nat)
    requires s <= Frame(w, h) && ClearBorder(s, w, h)
    ensures Dilation(Closing(s, w, h), w, h) == Dilation(s, w, h)
  {
    var d := Dilation(s, w, h);
    ClosingExtends(s, w, h);
    DilationGrows(s, Closing(s, w, h), w, h);
    OpeningShrinks(d, w, h);
  }

  lemma OpeningIdempotent(s: set<Point>, w: nat, h: nat)
    requires s <= Frame(w, h)
    ensures Opening(Opening(s, w, h), w, h) == Opening(s, w, h)
  {
    ErosionClear(s, w, h);
    DilationClosed(Erosion(s, w, h), w, h);
  }

  lemma ClosingIdempotent(s: set<Point>, w: nat, h: nat)
    requires s <= Frame(w, h)
    ensures Closing(Closing(s, w, h), w, h) == Closing(s, w, h)
  {
    var c := Closing(s, w, h);
    ErosionClear(Dilation(s, w, h), w, h);
    ClosingExtends(c, w, h);
    OpeningShrinks(Dilation(s, w, h), w, h);
    ErosionGrows(Dilation(c, w, h), Dilation(s, w, h), w, h);
  }
}
