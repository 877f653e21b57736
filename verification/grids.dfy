/** Boolean pixel grids: the value form of the numpy masks the refiner works on.
    A grid is a sequence of rows; `At` reads a pixel and treats every pixel
    outside the image as unset, which is how OpenCV's dilation pads borders. */
module Grids {

  datatype Pixel = Pixel(r: int, c: int)

  type Grid<T> = seq<seq<T>>

  /** g has h rows of w columns each (numpy shape (h, w)). */
  predicate IsGrid<T>(g: Grid<T>, h: nat, w: nat) {
    |g| == h && forall r :: 0 <= r < h ==> |g[r]| == w
  }

  predicate InBounds(p: Pixel, h: nat, w: nat) {
    0 <= p.r < h && 0 <= p.c < w
  }

  /** Pixel p of mask m is set; a pixel outside the image is never set. */
  predicate At(m: Grid<bool>, p: Pixel) {
    0 <= p.r < |m| && 0 <= p.c < |m[p.r]| && m[p.r][p.c]
  }

  /** Every pixel position of a grid, as a finite set. */
  function Cells<T>(g: Grid<T>): (s: set<Pixel>)
    ensures forall p :: p in s <==> 0 <= p.r < |g| && 0 <= p.c < |g[p.r]|
  {
    var s := set r, c | 0 <= r < |g| && 0 <= c < |g[r]| :: Pixel(r, c);
    assert forall p: Pixel :: 0 <= p.r < |g| && 0 <= p.c < |g[p.r]| ==> p == Pixel(p.r, p.c) && p in s;
    s
  }

  /** The all-false mask (np.zeros_like(..., dtype=bool)). */
  function Zeros(h: nat, w: nat): (z: Grid<bool>)
    ensures IsGrid(z, h, w)
    ensures forall p :: !At(z, p)
  {
    seq(h, _ => seq(w, _ => false))
  }

  /** Element-wise `a | b`. */
  function Or(a: Grid<bool>, b: Grid<bool>, h: nat, w: nat): (u: Grid<bool>)
    requires IsGrid(a, h, w) && IsGrid(b, h, w)
    ensures IsGrid(u, h, w)
    ensures forall p :: At(u, p) <==> At(a, p) || At(b, p)
  {
    seq(h, r requires 0 <= r < h => seq(w, c requires 0 <= c < w => a[r][c] || b[r][c]))
  }

  /** Element-wise `a & ~b`. */
  function AndNot(a: Grid<bool>, b: Grid<bool>, h: nat, w: nat): (u: Grid<bool>)
    requires IsGrid(a, h, w) && IsGrid(b, h, w)
    ensures IsGrid(u, h, w)
    ensures forall p :: At(u, p) <==> At(a, p) && !At(b, p)
  {
    seq(h, r requires 0 <= r < h => seq(w, c requires 0 <= c < w => a[r][c] && !b[r][c]))
  }

  /** The h-by-w mask whose set pixels are those of S inside the image (`labels == i`). */
  function MaskOf(S: set<Pixel>, h: nat, w: nat): (m: Grid<bool>)
    ensures IsGrid(m, h, w)
    ensures forall p :: At(m, p) <==> InBounds(p, h, w) && p in S
  {
    var m := seq(h, r => seq(w, c => Pixel(r, c) in S));
    assert forall p: Pixel :: InBounds(p, h, w) ==> p == Pixel(p.r, p.c);
    m
  }

  /** Two grids of the same shape that agree on every pixel are equal. */
  lemma GridExt(a: Grid<bool>, b: Grid<bool>, h: nat, w: nat)
    requires IsGrid(a, h, w) && IsGrid(b, h, w)
    requires forall p :: At(a, p) <==> At(b, p)
    ensures a == b
  {
    forall r | 0 <= r < h
      ensures a[r] == b[r]
    {
      forall c | 0 <= c < w
        ensures a[r][c] == b[r][c]
      {
        assert At(a, Pixel(r, c)) <==> At(b, Pixel(r, c));
      }
    }
  }
}
