/** Binary dilation by a k-by-k all-ones kernel, as cv2.dilate computes it with
    its default anchor (the kernel centre, k / 2) and its default border (pixels
    outside the image contribute nothing). */
module Morphology {
  import opened Grids

  /** Side of the square kernel the dilation really uses. `np.ones((0, 0))` is an
      empty kernel, and OpenCV replaces an empty kernel by a 3-by-3 one. */
  function KernelSide(k: nat): (s: nat)
    ensures s >= 1
    ensures k >= 1 ==> s == k
    ensures k == 0 ==> s == 3
  {
    if k == 0 then 3 else k
  }

  /** Default anchor: the kernel centre, rounded down. */
  function Anchor(k: nat): nat {
    KernelSide(k) / 2
  }

  /** Source pixel src lies in the kernel window of output pixel dst:
      src == dst + (i - a, j - a) for some 0 <= i, j < side. */
  predicate InWindow(k: nat, src: Pixel, dst: Pixel) {
    var s, a := KernelSide(k), Anchor(k);
    dst.r - a <= src.r <= dst.r + s - 1 - a &&
    dst.c - a <= src.c <= dst.c + s - 1 - a
  }

  /** The source pixel that kernel cell (i, j) reads for output pixel (r, c). */
  function KernelSource(k: nat, r: int, c: int, i: int, j: int): Pixel {
    Pixel(r + i - Anchor(k), c + j - Anchor(k))
  }

  /** cv2.dilate at (r, c): some kernel cell reads a set in-image pixel. */
  predicate DilatedAt(m: Grid<bool>, k: nat, r: int, c: int) {
    var s := KernelSide(k);
    exists i, j | 0 <= i < s && 0 <= j < s :: At(m, KernelSource(k, r, c, i, j))
  }

  lemma DilatedAtWindow(m: Grid<bool>, k: nat, p: Pixel)
    ensures DilatedAt(m, k, p.r, p.c) <==> exists src :: At(m, src) && InWindow(k, src, p)
  {
    var s, a := KernelSide(k), Anchor(k);
    if DilatedAt(m, k, p.r, p.c) {
      var i, j :| 0 <= i < s && 0 <= j < s && At(m, KernelSource(k, p.r, p.c, i, j));
      assert InWindow(k, KernelSource(k, p.r, p.c, i, j), p);
    }
    if exists src :: At(m, src) && InWindow(k, src, p) {
      var src :| At(m, src) && InWindow(k, src, p);
      var i, j := src.r - p.r + a, src.c - p.c + a;
      assert KernelSource(k, p.r, p.c, i, j) == src;
    }
  }

  /** The dilation of an h-by-w mask by a k-by-k kernel: a pixel is set exactly
      when some set pixel of the input lies in its kernel window. */
  function Dilate(m: Grid<bool>, h: nat, w: nat, k: nat): (d: Grid<bool>)
    requires IsGrid(m, h, w)
    ensures IsGrid(d, h, w)
    ensures forall p :: At(d, p) <==> InBounds(p, h, w) && exists src :: At(m, src) && InWindow(k, src, p)
  {
    var d := seq(h, r => seq(w, c => DilatedAt(m, k, r, c)));
    assert forall p :: At(d, p) <==> InBounds(p, h, w) && DilatedAt(m, k, p.r, p.c);
    forall p | InBounds(p, h, w)
      ensures DilatedAt(m, k, p.r, p.c) <==> exists src :: At(m, src) && InWindow(k, src, p)
    {
      DilatedAtWindow(m, k, p);
    }
    d
  }

  /** Offset 0 is always in the window, so dilation never loses a set pixel. */
  lemma DilateContainsInput(m: Grid<bool>, h: nat, w: nat, k: nat, p: Pixel)
    requires IsGrid(m, h, w)
    requires At(m, p)
    ensures At(Dilate(m, h, w, k), p)
  {
    assert InWindow(k, p, p);
  }
}
