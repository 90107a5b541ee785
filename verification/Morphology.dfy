/** 3x3 erosion and dilation of binary images: the nested loops of `isp.h`, and the
    image each of them should leave in the output array. */
module Morphology {
  type Pixel = bv32
  const WORD: nat := 0x1_0000_0000

  const WHITE: Pixel := 0x00ffffff
  const BLACK: Pixel := 0

  // ----- Row-major images -----

  predicate Inside(w: nat, h: nat, x: int, y: int) {
    0 <= x < w && 0 <= y < h
  }

  /** Where row `y` begins; `RowStart(w, h)` is the number of pixels. */
  function RowStart(w: nat, y: nat): nat {
    if y == 0 then 0 else RowStart(w, y - 1) + w
  }

  lemma {:induction false} RowStartIsProduct(w: nat, y: nat)
    ensures RowStart(w, y) == y * w
  {
    if y > 0 {
      RowStartIsProduct(w, y - 1);
      assert y * w == (y - 1) * w + w;
    }
  }

  lemma {:induction false} IndexInside(w: nat, h: nat, y: nat)
    requires y < h
    ensures RowStart(w, y) + w == RowStart(w, y + 1) <= RowStart(w, h)
  {
    if y + 1 < h {
      IndexInside(w, h - 1, y);
    }
  }

  predicate IsImage(img: seq<Pixel>, w: nat, h: nat) {
    |img| == RowStart(w, h)
  }

  /** The low byte of a pixel; outside the image there are zeros. */
  function ByteAt(img: seq<Pixel>, w: nat, h: nat, x: int, y: int): bv8
    requires IsImage(img, w, h)
  {
    if Inside(w, h, x, y) then
      IndexInside(w, h, y);
      (img[x + RowStart(w, y)] & 0xff) as bv8
    else 0
  }

  /** Entry `j` of the 3x3 window around (x, y). */
  function Neighbour(img: seq<Pixel>, w: nat, h: nat, x: int, y: int, j: nat): bv8
    requires IsImage(img, w, h) && j < 9
  {
    ByteAt(img, w, h, x + j % 3 - 1, y + j / 3 - 1)
  }

  function WindowOf(img: seq<Pixel>, w: nat, h: nat, x: int, y: int): (v: seq<bv8>)
    requires IsImage(img, w, h)
    ensures |v| == 9
  {
    seq(9, j requires 0 <= j < 9 => Neighbour(img, w, h, x, y, j))
  }

  // ----- The images the two operators should produce -----

  function AndAll(v: seq<bv8>): bv8
    requires |v| == 9
  {
    v[0] & v[1] & v[2] & v[3] & v[4] & v[5] & v[6] & v[7] & v[8]
  }

  function OrAll(v: seq<bv8>): bv8
    requires |v| == 9
  {
    v[0] | v[1] | v[2] | v[3] | v[4] | v[5] | v[6] | v[7] | v[8]
  }

  function Threshold(b: bv8): Pixel {
    if b == 0 then BLACK else WHITE
  }

  function Eroded(img: seq<Pixel>, w: nat, h: nat, x: int, y: int): Pixel
    requires IsImage(img, w, h)
  {
    Threshold(AndAll(WindowOf(img, w, h, x, y)))
  }

  function Dilated(img: seq<Pixel>, w: nat, h: nat, x: int, y: int): Pixel
    requires IsImage(img, w, h)
  {
    Threshold(OrAll(WindowOf(img, w, h, x, y)))
  }

  /** The column and the row of index `k` in row-major order. */
  function Column(k: nat, w: nat): nat
    requires w > 0
  {
    if k < w then k else Column(k - w, w)
  }

  function Row(k: nat, w: nat): nat
    requires w > 0
  {
    if k < w then 0 else 1 + Row(k - w, w)
  }

  lemma {:induction false} RowMajor(w: nat, x: nat, y: nat)
    requires x < w
    ensures Column(x + RowStart(w, y), w) == x && Row(x + RowStart(w, y), w) == y
  {
    if y > 0 {
      RowMajor(w, x, y - 1);
    }
  }

  lemma Position(w: nat, h: nat, x: nat, y: nat, k: nat)
    requires x < w && y < h && k == x + RowStart(w, y)
    ensures k < RowStart(w, h) && Column(k, w) == x && Row(k, w) == y
  {
    RowMajor(w, x, y);
    IndexInside(w, h, y);
  }

  function Erode(img: seq<Pixel>, w: nat, h: nat): (r: seq<Pixel>)
    requires IsImage(img, w, h)
    ensures IsImage(r, w, h)
  {
    if w == 0 then img
    else seq(|img|, k requires 0 <= k < |img| => Eroded(img, w, h, Column(k, w), Row(k, w)))
  }

  function Dilate(img: seq<Pixel>, w: nat, h: nat): (r: seq<Pixel>)
    requires IsImage(img, w, h)
    ensures IsImage(r, w, h)
  {
    if w == 0 then img
    else seq(|img|, k requires 0 <= k < |img| => Dilated(img, w, h, Column(k, w), Row(k, w)))
  }

  lemma ErodeAt(img: seq<Pixel>, w: nat, h: nat, x: nat, y: nat, k: nat)
    requires IsImage(img, w, h) && x < w && y < h && k == x + RowStart(w, y)
    ensures k < |img| && Erode(img, w, h)[k] == Eroded(img, w, h, x, y)
  {
    Position(w, h, x, y, k);
  }

  lemma DilateAt(img: seq<Pixel>, w: nat, h: nat, x: nat, y: nat, k: nat)
    requires IsImage(img, w, h) && x < w && y < h && k == x + RowStart(w, y)
    ensures k < |img| && Dilate(img, w, h)[k] == Dilated(img, w, h, x, y)
  {
    Position(w, h, x, y, k);
  }

  // ----- The loops -----

  /** `m + x` in 32-bit unsigned arithmetic. */
  function Wrap(i: int): nat {
    i % WORD
  }

  /** The border test of the source, in which -1 wraps to a large number. */
  lemma WrapFindsBorder(w: nat, h: nat, x: int, y: int)
    requires w < WORD && h < WORD && -1 <= x <= w && -1 <= y <= h
    ensures Inside(w, h, x, y) <==> !(Wrap(x) >= w || Wrap(y) >= h)
  {
  }

  /** Sizes whose indices all fit `unsigned int`. */
  predicate Sized(img: seq<Pixel>, w: nat, h: nat) {
    IsImage(img, w, h) && |img| < WORD && w < WORD && h < WORD
  }

  /** One entry of the window. */
  method WindowEntry(input: array<Pixel>, w: nat, h: nat, x: nat, y: nat, m: int, n: int) returns (b: bv8)
    requires Sized(input[..], w, h) && x < w && y < h && -1 <= m < 2 && -1 <= n < 2
    ensures b == ByteAt(input[..], w, h, x + m, y + n)
  {
    WrapFindsBorder(w, h, x + m, y + n);
    if Wrap(m + x) >= w || Wrap(n + y) >= h {
      b := 0;
    } else {
      RowStartIsProduct(w, y + n);
      IndexInside(w, h, y + n);
      b := (input[(x + m) + (y + n) * w] & 0xff) as bv8;
    }
  }

  /** The two inner loops: the window around (x, y). */
  method FillWindow(input: array<Pixel>, w: nat, h: nat, x: nat, y: nat, window: array<bv8>)
    requires Sized(input[..], w, h) && x < w && y < h && window.Length == 9
    modifies window
    ensures window[..] == WindowOf(input[..], w, h, x, y)
  {
    for n := -1 to 2
      invariant forall j :: 0 <= j < (n + 1) * 3 ==> window[j] == Neighbour(input[..], w, h, x, y, j)
    {
      for m := -1 to 2
        invariant forall j :: 0 <= j < (m + 1) + (n + 1) * 3 ==> window[j] == Neighbour(input[..], w, h, x, y, j)
      {
        window[(m + 1) + (n + 1) * 3] := WindowEntry(input, w, h, x, y, m, n);
      }
    }
  }

  ghost predicate ErodedAt(img: seq<Pixel>, w: nat, h: nat, want: seq<Pixel>, x: nat, y: nat) {
    IsImage(img, w, h) && x + RowStart(w, y) < |want| && want[x + RowStart(w, y)] == Eroded(img, w, h, x, y)
  }

  /** `want` is the erosion of `img`, pixel by pixel. */
  ghost predicate ErosionOf(img: seq<Pixel>, w: nat, h: nat, want: seq<Pixel>) {
    |want| == |img| && forall x: nat, y: nat :: x < w && y < h ==> ErodedAt(img, w, h, want, x, y)
  }

  lemma ErodeIs(img: seq<Pixel>, w: nat, h: nat)
    requires IsImage(img, w, h)
    ensures ErosionOf(img, w, h, Erode(img, w, h))
  {
    forall x: nat, y: nat | x < w && y < h ensures ErodedAt(img, w, h, Erode(img, w, h), x, y) {
      ErodeAt(img, w, h, x, y, x + RowStart(w, y));
    }
  }

  ghost predicate DilatedAt(img: seq<Pixel>, w: nat, h: nat, want: seq<Pixel>, x: nat, y: nat) {
    IsImage(img, w, h) && x + RowStart(w, y) < |want| && want[x + RowStart(w, y)] == Dilated(img, w, h, x, y)
  }

  /** `want` is the dilation of `img`, pixel by pixel. */
  ghost predicate DilationOf(img: seq<Pixel>, w: nat, h: nat, want: seq<Pixel>) {
    |want| == |img| && forall x: nat, y: nat :: x < w && y < h ==> DilatedAt(img, w, h, want, x, y)
  }

  lemma DilateIs(img: seq<Pixel>, w: nat, h: nat)
    requires IsImage(img, w, h)
    ensures DilationOf(img, w, h, Dilate(img, w, h))
  {
    forall x: nat, y: nat | x < w && y < h ensures DilatedAt(img, w, h, Dilate(img, w, h), x, y) {
      DilateAt(img, w, h, x, y, x + RowStart(w, y));
    }
  }

  /** The first `n` pixels are done. */
  ghost predicate Done(out: seq<Pixel>, want: seq<Pixel>, n: nat) {
    n <= |out| == |want| && forall k :: 0 <= k < n ==> out[k] == want[k]
  }

  lemma DoneOneMore(was: seq<Pixel>, out: seq<Pixel>, want: seq<Pixel>, n: nat)
    requires Done(was, want, n) && n < |was| && out == was[n := want[n]]
    ensures Done(out, want, n + 1)
  {
  }

  lemma AllDone(out: seq<Pixel>, want: seq<Pixel>)
    requires Done(out, want, |want|)
    ensures out == want
  {
  }

  /** The body of the two outer loops of `binary_erosion`. */
  method ErodePixel(input: array<Pixel>, output: array<Pixel>, w: nat, h: nat, x: nat, y: nat, window: array<bv8>,
                    ghost want: seq<Pixel>)
    requires Sized(input[..], w, h) && x < w && y < h && window.Length == 9
    requires input != output && input.Length == output.Length && ErosionOf(input[..], w, h, want)
    modifies window, output
    ensures x + RowStart(w, y) < |want|
    ensures output[..] == old(output[..])[x + RowStart(w, y) := want[x + RowStart(w, y)]]
  {
    FillWindow(input, w, h, x, y, window);
    assert ErodedAt(input[..], w, h, want, x, y);
    RowStartIsProduct(w, y);
    var pixel := AndAll(window[..]);
    if pixel == 0 {
      output[x + y * w] := BLACK;
    } else {
      output[x + y * w] := WHITE;
    }
  }

  /** One output row. */
  method BinaryErosionRow(input: array<Pixel>, output: array<Pixel>, w: nat, h: nat, y: nat, window: array<bv8>,
                           ghost want: seq<Pixel>)
    requires Sized(input[..], w, h) && y < h && window.Length == 9
    requires input != output && input.Length == output.Length && ErosionOf(input[..], w, h, want)
    requires Done(output[..], want, RowStart(w, y))
    modifies output, window
    ensures Done(output[..], want, RowStart(w, y + 1))
  {
    for x := 0 to w
      invariant Done(output[..], want, x + RowStart(w, y))
    {
      ghost var was := output[..];
      ErodePixel(input, output, w, h, x, y, window, want);
      DoneOneMore(was, output[..], want, x + RowStart(w, y));
    }
  }

  method BinaryErosionRows(input: array<Pixel>, output: array<Pixel>, w: nat, h: nat, ghost want: seq<Pixel>)
    requires Sized(input[..], w, h) && ErosionOf(input[..], w, h, want)
    requires input != output && input.Length == output.Length
    modifies output
    ensures output[..] == want
  {
    var window := new bv8[9];
    for y := 0 to h
      modifies output, window
      invariant Done(output[..], want, RowStart(w, y))
    {
      BinaryErosionRow(input, output, w, h, y, window, want);
    }
    AllDone(output[..], want);
  }

  /** `binary_erosion`. */
  method BinaryErosion(input: array<Pixel>, output: array<Pixel>, w: nat, h: nat)
    requires Sized(input[..], w, h) && input != output && input.Length == output.Length
    modifies output
    ensures output[..] == Erode(input[..], w, h)
  {
    ErodeIs(input[..], w, h);
    BinaryErosionRows(input, output, w, h, Erode(input[..], w, h));
  }

  /** The body of the two outer loops of `binary_dilation`. */
  method DilatePixel(input: array<Pixel>, output: array<Pixel>, w: nat, h: nat, x: nat, y: nat, window: array<bv8>,
                    ghost want: seq<Pixel>)
    requires Sized(input[..], w, h) && x < w && y < h && window.Length == 9
    requires input != output && input.Length == output.Length && DilationOf(input[..], w, h, want)
    modifies window, output
    ensures x + RowStart(w, y) < |want|
    ensures output[..] == old(output[..])[x + RowStart(w, y) := want[x + RowStart(w, y)]]
  {
    FillWindow(input, w, h, x, y, window);
    assert DilatedAt(input[..], w, h, want, x, y);
    RowStartIsProduct(w, y);
    var pixel := OrAll(window[..]);
    if pixel == 0 {
      output[x + y * w] := BLACK;
    } else {
      output[x + y * w] := WHITE;
    }
  }

  /** One output row. */
  method BinaryDilationRow(input: array<Pixel>, output: array<Pixel>, w: nat, h: nat, y: nat, window: array<bv8>,
                           ghost want: seq<Pixel>)
    requires Sized(input[..], w, h) && y < h && window.Length == 9
    requires input != output && input.Length == output.Length && DilationOf(input[..], w, h, want)
    requires Done(output[..], want, RowStart(w, y))
    modifies output, window
    ensures Done(output[..], want, RowStart(w, y + 1))
  {
    for x := 0 to w
      invariant Done(output[..], want, x + RowStart(w, y))
    {
      ghost var was := output[..];
      DilatePixel(input, output, w, h, x, y, window, want);
      DoneOneMore(was, output[..], want, x + RowStart(w, y));
    }
  }

  method BinaryDilationRows(input: array<Pixel>, output: array<Pixel>, w: nat, h: nat, ghost want: seq<Pixel>)
    requires Sized(input[..], w, h) && DilationOf(input[..], w, h, want)
    requires input != output && input.Length == output.Length
    modifies output
    ensures output[..] == want
  {
    var window := new bv8[9];
    for y := 0 to h
      modifies output, window
      invariant Done(output[..], want, RowStart(w, y))
    {
      BinaryDilationRow(input, output, w, h, y, window, want);
    }
    AllDone(output[..], want);
  }

  /** `binary_dilation`. */
  method BinaryDilation(input: array<Pixel>, output: array<Pixel>, w: nat, h: nat)
    requires Sized(input[..], w, h) && input != output && input.Length == output.Length
    modifies output
    ensures output[..] == Dilate(input[..], w, h)
  {
    DilateIs(input[..], w, h);
    BinaryDilationRows(input, output, w, h, Dilate(input[..], w, h));
  }
}
