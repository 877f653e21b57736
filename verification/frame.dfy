/** The parts of a pipeline Frame the refiner reads and writes: the depth map and
    three optional boolean masks of the depth map's shape. */
module Frames {
  import opened Grids

  /** A mask attribute of a Frame: not set at all (`hasattr` is false), set to
      None, or holding a mask. */
  datatype Slot = Missing | Null | Mask(grid: Grid<bool>)

  /** A present mask has the depth map's shape. */
  predicate Fits(s: Slot, h: nat, w: nat) {
    s.Mask? ==> IsGrid(s.grid, h, w)
  }

  /** The mask held in s, or the all-false mask of shape (h, w) that
      `np.zeros_like(frame.dpt, dtype=bool)` supplies when there is none. */
  function MaskOrZeros(s: Slot, h: nat, w: nat): (m: Grid<bool>)
    requires Fits(s, h, w)
    ensures IsGrid(m, h, w)
    ensures s.Mask? ==> m == s.grid
    ensures !s.Mask? ==> forall p :: !At(m, p)
  {
    if s.Mask? then s.grid else Zeros(h, w)
  }

  class Frame {
    const height: nat
    const width: nat
    var dpt: Grid<real>
    var sky: Slot
    var inpaint: Slot
    var inpaintWoEdge: Slot

    /** Every mask present has the depth map's shape. */
    ghost predicate Valid()
      reads this
    {
      IsGrid(dpt, height, width) &&
      Fits(sky, height, width) && Fits(inpaint, height, width) && Fits(inpaintWoEdge, height, width)
    }

    constructor (dpt: Grid<real>, height: nat, width: nat, sky: Slot, inpaint: Slot, inpaintWoEdge: Slot)
      requires IsGrid(dpt, height, width)
      requires Fits(sky, height, width) && Fits(inpaint, height, width) && Fits(inpaintWoEdge, height, width)
      ensures Valid()
      ensures this.dpt == dpt && this.height == height && this.width == width
      ensures this.sky == sky && this.inpaint == inpaint && this.inpaintWoEdge == inpaintWoEdge
    {
      this.dpt, this.height, this.width := dpt, height, width;
      this.sky, this.inpaint, this.inpaintWoEdge := sky, inpaint, inpaintWoEdge;
    }
  }
}
