/** The images of `isp.h` as point sets: what the two operators do to the points that
    are on, and the laws this gives for whole images. */
module MorphologyLaws {
  import opened Morphology
  import opened PointSets

  ghost function On(img: seq<Pixel>, w: nat, h: nat): (s: set<Point>)
    requires IsImage(img, w, h)
    ensures s <= Frame(w, h)
  {
    set p | p in Frame(w, h) && ByteAt(img, w, h, p.0, p.1) != 0
  }

  /** Every low byte is 0 or 255: the images the operators are meant for. */
  predicate Binary(img: seq<Pixel>) {
    forall k :: 0 <= k < |img| ==> img[k] & 0xff == 0 || img[k] & 0xff == 0xff
  }

  predicate BlackOrWhite(img: seq<Pixel>) {
    forall k :: 0 <= k < |img| ==> img[k] == BLACK || img[k] == WHITE
  }

  // ----- Windows and neighbours -----

  lemma OrAllOn(v: seq<bv8>)
    requires |v| == 9
    ensures OrAll(v) != 0 <==> exists j :: 0 <= j < 9 && v[j] != 0
  {
    if OrAll(v) != 0 {
      assert v[0] != 0 || v[1] != 0 || v[2] != 0 || v[3] != 0 || v[4] != 0 || v[5] != 0 || v[6] != 0
          || v[7] != 0 || v[8] != 0;
    }
  }

  lemma AndAllOn(v: seq<bv8>)
    requires |v| == 9
    ensures AndAll(v) != 0 ==> forall j :: 0 <= j < 9 ==> v[j] != 0
    ensures (forall j :: 0 <= j < 9 ==> v[j] == 0xff) ==> AndAll(v) != 0
  {
  }

  function EntryOf(p: Point, q: Point): (j: nat)
    requires Near(p, q)
    ensures j < 9 && p.0 + j % 3 - 1 == q.0 && p.1 + j / 3 - 1 == q.1
  {
    (q.0 - p.0 + 1) + (q.1 - p.1 + 1) * 3
  }

  function EntryPoint(p: Point, j: nat): (q: Point)
    requires j < 9
    ensures Near(p, q)
  {
    (p.0 + j % 3 - 1, p.1 + j / 3 - 1)
  }

  /** The window around `p` holds the bytes of the points near `p`. */
  lemma WindowEntryOf(img: seq<Pixel>, w: nat, h: nat, p: Point, q: Point)
    requires IsImage(img, w, h) && Near(p, q)
    ensures WindowOf(img, w, h, p.0, p.1)[EntryOf(p, q)] == ByteAt(img, w, h, q.0, q.1)
  {
  }

  lemma WindowEntryPoint(img: seq<Pixel>, w: nat, h: nat, p: Point, j: nat)
    requires IsImage(img, w, h) && j < 9
    ensures WindowOf(img, w, h, p.0, p.1)[j] == ByteAt(img, w, h, EntryPoint(p, j).0, EntryPoint(p, j).1)
  {
  }

  lemma OnIff(img: seq<Pixel>, w: nat, h: nat, q: Point)
    requires IsImage(img, w, h)
    ensures q in On(img, w, h) <==> ByteAt(img, w, h, q.0, q.1) != 0
  {
    assert q == (q.0, q.1);
  }

  lemma BinaryByte(img: seq<Pixel>, w: nat, h: nat, x: int, y: int)
    requires IsImage(img, w, h) && Binary(img)
    ensures ByteAt(img, w, h, x, y) == 0 || ByteAt(img, w, h, x, y) == 0xff
  {
    if Inside(w, h, x, y) {
      IndexInside(w, h, y);
    }
  }

  lemma ThresholdByte(b: bv8)
    ensures (Threshold(b) & 0xff) as bv8 != 0 <==> b != 0
  {
  }

  // ----- What the operators do to the points that are on -----

  lemma ThresholdOn(r: seq<Pixel>, w: nat, h: nat, p: Point, k: nat, b: bv8)
    requires IsImage(r, w, h) && p in Frame(w, h) && k == p.0 + RowStart(w, p.1) && k < |r| && r[k] == Threshold(b)
    ensures p in On(r, w, h) <==> b != 0
  {
    ThresholdByte(b);
    OnIff(r, w, h, p);
  }

  lemma DilatedPoint(img: seq<Pixel>, w: nat, h: nat, p: Point)
    requires IsImage(img, w, h) && p in Frame(w, h)
    ensures p in On(Dilate(img, w, h), w, h) <==> OrAll(WindowOf(img, w, h, p.0, p.1)) != 0
  {
    var k := p.0 + RowStart(w, p.1);
    DilateAt(img, w, h, p.0, p.1, k);
    ThresholdOn(Dilate(img, w, h), w, h, p, k, OrAll(WindowOf(img, w, h, p.0, p.1)));
  }

  lemma ErodedPoint(img: seq<Pixel>, w: nat, h: nat, p: Point)
    requires IsImage(img, w, h) && p in Frame(w, h)
    ensures p in On(Erode(img, w, h), w, h) <==> AndAll(WindowOf(img, w, h, p.0, p.1)) != 0
  {
    var k := p.0 + RowStart(w, p.1);
    ErodeAt(img, w, h, p.0, p.1, k);
    ThresholdOn(Erode(img, w, h), w, h, p, k, AndAll(WindowOf(img, w, h, p.0, p.1)));
  }

  /** For every image, binary or not. */
  lemma DilateIsDilation(img: seq<Pixel>, w: nat, h: nat)
    requires IsImage(img, w, h)
    ensures On(Dilate(img, w, h), w, h) == Dilation(On(img, w, h), w, h)
  {
    forall p | p in Frame(w, h)
      ensures p in On(Dilate(img, w, h), w, h) <==> p in Dilation(On(img, w, h), w, h)
    {
      var v := WindowOf(img, w, h, p.0, p.1);
      DilatedPoint(img, w, h, p);
      OrAllOn(v);
      if OrAll(v) != 0 {
        var j :| 0 <= j < 9 && v[j] != 0;
        WindowEntryPoint(img, w, h, p, j);
        OnIff(img, w, h, EntryPoint(p, j));
      }
      if p in Dilation(On(img, w, h), w, h) {
        var q: Point :| q in On(img, w, h) && Near(p, q);
        WindowEntryOf(img, w, h, p, q);
        OnIff(img, w, h, q);
      }
    }
  }

  lemma ErodeWithin(img: seq<Pixel>, w: nat, h: nat)
    requires IsImage(img, w, h)
    ensures On(Erode(img, w, h), w, h) <= Erosion(On(img, w, h), w, h)
  {
    forall p | p in On(Erode(img, w, h), w, h) ensures p in Erosion(On(img, w, h), w, h) {
      ErodedPoint(img, w, h, p);
      AndAllOn(WindowOf(img, w, h, p.0, p.1));
      forall q: Point | Near(p, q) ensures q in On(img, w, h) {
        WindowEntryOf(img, w, h, p, q);
        OnIff(img, w, h, q);
      }
    }
  }

  lemma ErodeReaches(img: seq<Pixel>, w: nat, h: nat)
    requires IsImage(img, w, h) && Binary(img)
    ensures Erosion(On(img, w, h), w, h) <= On(Erode(img, w, h), w, h)
  {
    forall p | p in Erosion(On(img, w, h), w, h) ensures p in On(Erode(img, w, h), w, h) {
      var v := WindowOf(img, w, h, p.0, p.1);
      forall j | 0 <= j < 9 ensures v[j] == 0xff {
        var q := EntryPoint(p, j);
        WindowEntryPoint(img, w, h, p, j);
        OnIff(img, w, h, q);
        BinaryByte(img, w, h, q.0, q.1);
      }
      AndAllOn(v);
      ErodedPoint(img, w, h, p);
    }
  }

  /** Erosion of the points that are on, for every binary image. */
  lemma ErodeIsErosion(img: seq<Pixel>, w: nat, h: nat)
    requires IsImage(img, w, h) && Binary(img)
    ensures On(Erode(img, w, h), w, h) == Erosion(On(img, w, h), w, h)
  {
    ErodeWithin(img, w, h);
    ErodeReaches(img, w, h);
  }

  // ----- Images from their points -----

  lemma OutputsAreBlackOrWhite(img: seq<Pixel>, w: nat, h: nat)
    requires IsImage(img, w, h) && w > 0
    ensures BlackOrWhite(Erode(img, w, h)) && BlackOrWhite(Dilate(img, w, h))
  {
  }

  lemma BlackOrWhiteIsBinary(img: seq<Pixel>)
    requires BlackOrWhite(img)
    ensures Binary(img)
  {
  }

  lemma {:induction false} ColumnAndRow(k: nat, w: nat, h: nat)
    requires w > 0 && k < RowStart(w, h)
    ensures Column(k, w) < w && Row(k, w) < h && k == Column(k, w) + RowStart(w, Row(k, w))
  {
    if k >= w {
      ColumnAndRow(k - w, w, h - 1);
    }
  }

  lemma SamePointsSameImage(a: seq<Pixel>, b: seq<Pixel>, w: nat, h: nat)
    requires IsImage(a, w, h) && IsImage(b, w, h) && w > 0
    requires BlackOrWhite(a) && BlackOrWhite(b) && On(a, w, h) == On(b, w, h)
    ensures a == b
  {
    forall k | 0 <= k < |a| ensures a[k] == b[k] {
      ColumnAndRow(k, w, h);
      var p := (Column(k, w), Row(k, w));
      OnIff(a, w, h, p);
      OnIff(b, w, h, p);
      assert ByteAt(a, w, h, p.0, p.1) == (a[k] & 0xff) as bv8;
      assert ByteAt(b, w, h, p.0, p.1) == (b[k] & 0xff) as bv8;
    }
  }

  // ----- Opening and closing whole images -----

  function Open(img: seq<Pixel>, w: nat, h: nat): (r: seq<Pixel>)
    requires IsImage(img, w, h)
    ensures IsImage(r, w, h)
  {
    Dilate(Erode(img, w, h), w, h)
  }

  function Close(img: seq<Pixel>, w: nat, h: nat): (r: seq<Pixel>)
    requires IsImage(img, w, h)
    ensures IsImage(r, w, h)
  {
    Erode(Dilate(img, w, h), w, h)
  }

  /** Opening only turns pixels off, whatever the bytes of the image. */
  lemma OpenOnlyRemoves(img: seq<Pixel>, w: nat, h: nat)
    requires IsImage(img, w, h)
    ensures On(Open(img, w, h), w, h) <= On(img, w, h)
  {
    DilateIsDilation(Erode(img, w, h), w, h);
    ErodeWithin(img, w, h);
    DilationGrows(On(Erode(img, w, h), w, h), Erosion(On(img, w, h), w, h), w, h);
    OpeningShrinks(On(img, w, h), w, h);
  }

  lemma OpenIsOpening(img: seq<Pixel>, w: nat, h: nat)
    requires IsImage(img, w, h) && Binary(img)
    ensures On(Open(img, w, h), w, h) == Opening(On(img, w, h), w, h)
  {
    ErodeIsErosion(img, w, h);
    DilateIsDilation(Erode(img, w, h), w, h);
  }

  /** Opening twice is opening once, pixel for pixel, for every image. */
  lemma OpenTwice(img: seq<Pixel>, w: nat, h: nat)
    requires IsImage(img, w, h)
    ensures Open(Open(img, w, h), w, h) == Open(img, w, h)
  {
    if w > 0 {
      var once, e := Open(img, w, h), Erode(img, w, h);
      OutputsAreBlackOrWhite(e, w, h);
      BlackOrWhiteIsBinary(once);
      OpenIsOpening(once, w, h);
      DilateIsDilation(e, w, h);
      ErodeClear(img, w, h);
      DilationClosed(On(e, w, h), w, h);
      OutputsAreBlackOrWhite(Erode(once, w, h), w, h);
      SamePointsSameImage(Open(once, w, h), once, w, h);
    }
  }

  lemma ErodeClear(img: seq<Pixel>, w: nat, h: nat)
    requires IsImage(img, w, h)
    ensures ClearBorder(On(Erode(img, w, h), w, h), w, h)
  {
    ErodeWithin(img, w, h);
    ErosionClear(On(img, w, h), w, h);
  }

  lemma CloseIsClosing(img: seq<Pixel>, w: nat, h: nat)
    requires IsImage(img, w, h) && w > 0
    ensures On(Close(img, w, h), w, h) == Closing(On(img, w, h), w, h)
  {
    OutputsAreBlackOrWhite(img, w, h);
    BlackOrWhiteIsBinary(Dilate(img, w, h));
    ErodeIsErosion(Dilate(img, w, h), w, h);
    DilateIsDilation(img, w, h);
  }

  /** Closing keeps what was on exactly when nothing was on at the border. */
  lemma CloseKeepsIff(img: seq<Pixel>, w: nat, h: nat)
    requires IsImage(img, w, h) && w > 0
    ensures On(img, w, h) <= On(Close(img, w, h), w, h) <==> ClearBorder(On(img, w, h), w, h)
  {
    CloseIsClosing(img, w, h);
    ClosingExtends(On(img, w, h), w, h);
  }

  lemma CloseTwice(img: seq<Pixel>, w: nat, h: nat)
    requires IsImage(img, w, h)
    ensures Close(Close(img, w, h), w, h) == Close(img, w, h)
  {
    if w > 0 {
      var once := Close(img, w, h);
      CloseIsClosing(img, w, h);
      CloseIsClosing(once, w, h);
      ClosingIdempotent(On(img, w, h), w, h);
      OutputsAreBlackOrWhite(Dilate(img, w, h), w, h);
      OutputsAreBlackOrWhite(Dilate(once, w, h), w, h);
      SamePointsSameImage(Close(once, w, h), once, w, h);
    }
  }

  /** On binary images, dilating `a` stays within `b` exactly when `a` stays within the
      eroded `b`, provided `a` has nothing on at the border. */
  lemma ImagesAdjoint(a: seq<Pixel>, b: seq<Pixel>, w: nat, h: nat)
    requires IsImage(a, w, h) && IsImage(b, w, h) && Binary(b) && ClearBorder(On(a, w, h), w, h)
    ensures On(Dilate(a, w, h), w, h) <= On(b, w, h) <==> On(a, w, h) <= On(Erode(b, w, h), w, h)
  {
    DilateIsDilation(a, w, h);
    ErodeIsErosion(b, w, h);
    Adjoint(On(a, w, h), On(b, w, h), w, h);
  }

  // ----- Why binary images -----

  lemma AndAllDisjoint(v: seq<bv8>, i: nat, j: nat)
    requires |v| == 9 && i < 9 && j < 9 && v[i] & v[j] == 0
    ensures AndAll(v) == 0
  {
    var a, b := v[i], v[j];
    assert AndAll(v) & a == AndAll(v) && AndAll(v) & b == AndAll(v);
    AndTwice(AndAll(v), a, b);
  }

  lemma AndTwice(c: bv8, a: bv8, b: bv8)
    requires c & a == c && c & b == c && a & b == 0
    ensures c == 0
  {
  }

  /** Two nearby bytes with no bit in common turn a point off, even when both are on. */
  lemma DisjointBytesLose(img: seq<Pixel>, w: nat, h: nat, p: Point, q: Point, r: Point)
    requires IsImage(img, w, h) && p in Frame(w, h) && Near(p, q) && Near(p, r)
    requires ByteAt(img, w, h, q.0, q.1) & ByteAt(img, w, h, r.0, r.1) == 0
    ensures p !in On(Erode(img, w, h), w, h)
  {
    WindowEntryOf(img, w, h, p, q);
    WindowEntryOf(img, w, h, p, r);
    AndAllDisjoint(WindowOf(img, w, h, p.0, p.1), EntryOf(p, q), EntryOf(p, r));
    ErodedPoint(img, w, h, p);
  }

  /** Some bits are set in all nine bytes around `p`. */
  ghost predicate ShareBits(img: seq<Pixel>, w: nat, h: nat, p: Point)
    requires IsImage(img, w, h)
  {
    exists m: bv8 :: m != 0 && AllHave(img, w, h, p, m)
  }

  ghost predicate AllHave(img: seq<Pixel>, w: nat, h: nat, p: Point, m: bv8)
    requires IsImage(img, w, h)
  {
    forall q: Point :: Near(p, q) ==> ByteAt(img, w, h, q.0, q.1) & m == m
  }

  lemma AndAllBits(v: seq<bv8>)
    requires |v| == 9
    ensures forall j :: 0 <= j < 9 ==> v[j] & AndAll(v) == AndAll(v)
  {
  }

  lemma BitsSurvive(v: seq<bv8>, m: bv8)
    requires |v| == 9 && m != 0 && forall j :: 0 <= j < 9 ==> v[j] & m == m
    ensures AndAll(v) & m == m
  {
    assert v[0] & m == m && v[1] & m == m && v[2] & m == m && v[3] & m == m && v[4] & m == m;
    assert v[5] & m == m && v[6] & m == m && v[7] & m == m && v[8] & m == m;
  }

  lemma NotAllGone(a: bv8, m: bv8)
    requires m != 0 && a & m == m
    ensures a != 0
  {
  }

  lemma SurvivorsShare(img: seq<Pixel>, w: nat, h: nat, p: Point, m: bv8)
    requires IsImage(img, w, h) && m == AndAll(WindowOf(img, w, h, p.0, p.1))
    ensures AllHave(img, w, h, p, m)
  {
    AndAllBits(WindowOf(img, w, h, p.0, p.1));
    forall q: Point | Near(p, q) ensures ByteAt(img, w, h, q.0, q.1) & m == m {
      WindowEntryOf(img, w, h, p, q);
    }
  }

  lemma SharersSurvive(img: seq<Pixel>, w: nat, h: nat, p: Point, m: bv8)
    requires IsImage(img, w, h) && m != 0 && AllHave(img, w, h, p, m)
    ensures AndAll(WindowOf(img, w, h, p.0, p.1)) != 0
  {
    var v := WindowOf(img, w, h, p.0, p.1);
    WindowHas(img, w, h, p, m);
    BitsSurvive(v, m);
    NotAllGone(AndAll(v), m);
  }

  lemma WindowHas(img: seq<Pixel>, w: nat, h: nat, p: Point, m: bv8)
    requires IsImage(img, w, h) && AllHave(img, w, h, p, m)
    ensures forall j :: 0 <= j < 9 ==> WindowOf(img, w, h, p.0, p.1)[j] & m == m
  {
    forall j | 0 <= j < 9 ensures WindowOf(img, w, h, p.0, p.1)[j] & m == m {
      WindowEntryPoint(img, w, h, p, j);
    }
  }

  lemma SharedBitsSurvive(img: seq<Pixel>, w: nat, h: nat, p: Point)
    requires IsImage(img, w, h)
    ensures AndAll(WindowOf(img, w, h, p.0, p.1)) != 0 <==> ShareBits(img, w, h, p)
  {
    SurvivorsShare(img, w, h, p, AndAll(WindowOf(img, w, h, p.0, p.1)));
    if m: bv8 :| m != 0 && AllHave(img, w, h, p, m) {
      SharersSurvive(img, w, h, p, m);
    }
  }

  /** Erosion of the points that are on, and nothing else, exactly when around every point
      whose neighbours are all on their nine bytes have bits in common. */
  lemma ErodeIsErosionIff(img: seq<Pixel>, w: nat, h: nat)
    requires IsImage(img, w, h)
    ensures On(Erode(img, w, h), w, h) == Erosion(On(img, w, h), w, h)
       <==> forall p :: p in Erosion(On(img, w, h), w, h) ==> ShareBits(img, w, h, p)
  {
    ErodeWithin(img, w, h);
    forall p | p in Frame(w, h)
      ensures p in On(Erode(img, w, h), w, h) <==> ShareBits(img, w, h, p)
    {
      ErodedPoint(img, w, h, p);
      SharedBitsSurvive(img, w, h, p);
    }
  }

  // ----- Pixel by pixel -----

  /** The pixel in column `x` of row `y` is on: its low byte is not zero. Outside nothing is. */
  ghost predicate Lit(img: seq<Pixel>, w: nat, h: nat, x: int, y: int) {
    0 <= x < w && 0 <= y < h && 0 <= y * w + x < |img| && img[y * w + x] & 0xff != 0
  }

  lemma LitIsOn(img: seq<Pixel>, w: nat, h: nat, x: int, y: int)
    requires IsImage(img, w, h)
    ensures Lit(img, w, h, x, y) <==> (x, y) in On(img, w, h)
  {
    OnIff(img, w, h, (x, y));
    if Inside(w, h, x, y) {
      RowStartIsProduct(w, y);
      IndexInside(w, h, y);
    }
  }

  lemma PixelOf(r: seq<Pixel>, w: nat, h: nat, x: nat, y: nat)
    requires IsImage(r, w, h) && x < w && y < h && BlackOrWhite(r)
    ensures y * w + x < |r| && r[y * w + x] == if Lit(r, w, h, x, y) then 0x00ffffff else 0
  {
    RowStartIsProduct(w, y);
    IndexInside(w, h, y);
  }

  ghost predicate SomeLit(img: seq<Pixel>, w: nat, h: nat, x: int, y: int) {
    exists u: int, v: int :: x - 1 <= u <= x + 1 && y - 1 <= v <= y + 1 && Lit(img, w, h, u, v)
  }

  ghost predicate AllLit(img: seq<Pixel>, w: nat, h: nat, x: int, y: int) {
    forall u: int, v: int :: x - 1 <= u <= x + 1 && y - 1 <= v <= y + 1 ==> Lit(img, w, h, u, v)
  }

  lemma SomeLitIsDilation(img: seq<Pixel>, w: nat, h: nat, x: nat, y: nat)
    requires IsImage(img, w, h) && x < w && y < h
    ensures SomeLit(img, w, h, x, y) <==> (x, y) in Dilation(On(img, w, h), w, h)
  {
    var p: Point := (x, y);
    if p in Dilation(On(img, w, h), w, h) {
      var q: Point :| q in On(img, w, h) && Near(p, q);
      LitIsOn(img, w, h, q.0, q.1);
    }
    if SomeLit(img, w, h, x, y) {
      var u: int, v: int :| x - 1 <= u <= x + 1 && y - 1 <= v <= y + 1 && Lit(img, w, h, u, v);
      LitIsOn(img, w, h, u, v);
      assert Near(p, (u, v));
    }
  }

  lemma AllLitIsErosion(img: seq<Pixel>, w: nat, h: nat, x: nat, y: nat)
    requires IsImage(img, w, h) && x < w && y < h
    ensures AllLit(img, w, h, x, y) <==> (x, y) in Erosion(On(img, w, h), w, h)
  {
    var p: Point := (x, y);
    if p in Erosion(On(img, w, h), w, h) {
      forall u: int, v: int | x - 1 <= u <= x + 1 && y - 1 <= v <= y + 1 ensures Lit(img, w, h, u, v) {
        assert Near(p, (u, v));
        LitIsOn(img, w, h, u, v);
      }
    }
    if AllLit(img, w, h, x, y) {
      forall q: Point | Near(p, q) ensures q in On(img, w, h) { LitIsOn(img, w, h, q.0, q.1); }
    }
  }

  /** Dilation: a pixel is white if it or one of its eight neighbours is on, else black. */
  lemma DilatedPixel(img: seq<Pixel>, w: nat, h: nat, x: nat, y: nat)
    requires IsImage(img, w, h) && x < w && y < h
    ensures var r, k := Dilate(img, w, h), y * w + x;
      k < |r| && r[k] == if SomeLit(img, w, h, x, y) then 0x00ffffff else 0
  {
    OutputsAreBlackOrWhite(img, w, h);
    PixelOf(Dilate(img, w, h), w, h, x, y);
    LitIsOn(Dilate(img, w, h), w, h, x, y);
    DilateIsDilation(img, w, h);
    SomeLitIsDilation(img, w, h, x, y);
  }

  /** Erosion of a binary image: a pixel is white if it and its eight neighbours are on, else
      black; at the border a neighbour is missing. */
  lemma ErodedPixel(img: seq<Pixel>, w: nat, h: nat, x: nat, y: nat)
    requires IsImage(img, w, h) && Binary(img) && x < w && y < h
    ensures var r, k := Erode(img, w, h), y * w + x;
      k < |r| && r[k] == if AllLit(img, w, h, x, y) then 0x00ffffff else 0
  {
    OutputsAreBlackOrWhite(img, w, h);
    PixelOf(Erode(img, w, h), w, h, x, y);
    LitIsOn(Erode(img, w, h), w, h, x, y);
    ErodeIsErosion(img, w, h);
    AllLitIsErosion(img, w, h, x, y);
  }
}
