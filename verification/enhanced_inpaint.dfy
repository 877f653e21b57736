/** The Enhanced_Inpaint mask refiner: grows a Frame's inpaint masks around large
    depth holes, and aggressively around the existing mask and depth edges while
    keeping sky pixels out. */
module Inpaint {
  import opened Grids
  import opened Morphology
  import opened Components
  import opened Frames

  /** Side of the square kernel that expand_holes dilates each hole with. */
  const ExpansionPixels: nat := 10
  /** The defaults of the refiner's dilate_kernel_size and hole_min_size,
      used by the WithDefaults constructor. */
  const DefaultDilateKernelSize: int := 5
  const DefaultHoleMinSize: int := 10

  /** Why an operation raises. find_and_expand_holes reads a missing
      inpaint_wo_edge attribute, or ors into the zero-dimensional array that a
      None inpaint becomes; process_frame_aggressive builds a kernel of
      negative side, which np.ones refuses. */
  datatype RefineError = InpaintWoEdgeMissing | InpaintIsNone | NegativeKernelSize

  datatype Outcome = Pass | Fail(error: RefineError)

  /** expand_holes: dilates a mask with an expansionPixels-square kernel. The mask
      only grows, and with the default side 10 a pixel is set exactly when a set
      pixel lies 5 above to 4 below and 5 left to 4 right of it. */
  function ExpandHoles(mask: Grid<bool>, h: nat, w: nat, expansionPixels: nat): (e: Grid<bool>)
    requires IsGrid(mask, h, w)
    ensures IsGrid(e, h, w)
    ensures forall p :: At(mask, p) ==> At(e, p)
    ensures expansionPixels == 10 ==> forall p :: At(e, p) <==>
      InBounds(p, h, w) && exists s :: At(mask, s) && -5 <= s.r - p.r <= 4 && -5 <= s.c - p.c <= 4
  {
    var e := Dilate(mask, h, w, expansionPixels);
    forall p | At(mask, p)
      ensures At(e, p)
    {
      DilateContainsInput(mask, h, w, expansionPixels, p);
    }
    e
  }

  /** A depth hole: at or beyond the sky depth, or no depth at all. */
  predicate IsHoleDepth(d: real, skyValue: real) {
    d >= skyValue || d == 0.0
  }

  /** The depth_holes mask. */
  function DepthHoles(dpt: Grid<real>, h: nat, w: nat, skyValue: real): (holes: Grid<bool>)
    requires IsGrid(dpt, h, w)
    ensures IsGrid(holes, h, w)
    ensures forall p :: At(holes, p) <==> InBounds(p, h, w) && IsHoleDepth(dpt[p.r][p.c], skyValue)
  {
    seq(h, r requires 0 <= r < h => seq(w, c requires 0 <= c < w => IsHoleDepth(dpt[r][c], skyValue)))
  }

  /** x is within the expansion window of some pixel of C. */
  ghost predicate NearSet(C: set<Pixel>, x: Pixel) {
    exists q :: q in C && InWindow(ExpansionPixels, q, x)
  }

  /** x is within the expansion window of a hole pixel whose component's area
      exceeds minSize. */
  ghost predicate NearLargeHole(holes: Grid<bool>, minSize: int, x: Pixel) {
    exists q :: At(holes, q) && |Component(holes, q)| > minSize && InWindow(ExpansionPixels, q, x)
  }

  /** The additional_inpaint mask find_and_expand_holes should add. */
  ghost function AddedMask(holes: Grid<bool>, h: nat, w: nat, minSize: int): (a: Grid<bool>)
    requires IsGrid(holes, h, w)
    ensures IsGrid(a, h, w)
    ensures forall p :: At(a, p) <==> InBounds(p, h, w) && NearLargeHole(holes, minSize, p)
  {
    var a := seq(h, r => seq(w, c => NearLargeHole(holes, minSize, Pixel(r, c))));
    assert forall p: Pixel :: InBounds(p, h, w) ==> p == Pixel(p.r, p.c);
    a
  }

  /** The pixels of a whole component are hole pixels. */
  lemma ComponentPixelsSet(holes: Grid<bool>, C: set<Pixel>, p: Pixel)
    requires IsComponent(holes, C) && p in C
    ensures At(holes, p) && Component(holes, p) == C
  {
    assert p in Component(holes, p);
    ConnectedEnds(holes, p, p);
  }

  /** Over a complete labelling, "near a listed component larger than minSize" and
      "near a hole whose component is larger than minSize" agree. */
  lemma LabellingNearLarge(holes: Grid<bool>, comps: seq<set<Pixel>>, minSize: int, x: Pixel)
    requires forall i :: 0 <= i < |comps| ==> IsComponent(holes, comps[i])
    requires forall p :: At(holes, p) ==> exists i :: 0 <= i < |comps| && p in comps[i]
    ensures NearListedLarge(comps, |comps|, minSize, x) <==> NearLargeHole(holes, minSize, x)
  {
    if NearListedLarge(comps, |comps|, minSize, x) {
      var j :| 0 <= j < |comps| && |comps[j]| > minSize && NearSet(comps[j], x);
      var q :| q in comps[j] && InWindow(ExpansionPixels, q, x);
      ComponentPixelsSet(holes, comps[j], q);
    }
    if NearLargeHole(holes, minSize, x) {
      var q :| At(holes, q) && |Component(holes, q)| > minSize && InWindow(ExpansionPixels, q, x);
      var j :| 0 <= j < |comps| && q in comps[j];
      ComponentPixelsSet(holes, comps[j], q);
      assert NearSet(comps[j], x);
    }
  }

  /** The expansion of the mask of one component C: its set pixels are the
      in-image pixels near C. */
  lemma ExpandedComponent(holes: Grid<bool>, C: set<Pixel>, h: nat, w: nat, x: Pixel)
    requires IsGrid(holes, h, w) && IsComponent(holes, C)
    ensures At(Dilate(MaskOf(C, h, w), h, w, ExpansionPixels), x) <==> InBounds(x, h, w) && NearSet(C, x)
  {
    if NearSet(C, x) && InBounds(x, h, w) {
      ExpandedComponentCovers(holes, C, h, w, x);
    }
  }

  lemma ExpandedComponentCovers(holes: Grid<bool>, C: set<Pixel>, h: nat, w: nat, x: Pixel)
    requires IsGrid(holes, h, w) && IsComponent(holes, C)
    requires NearSet(C, x) && InBounds(x, h, w)
    ensures At(Dilate(MaskOf(C, h, w), h, w, ExpansionPixels), x)
  {
    var m := MaskOf(C, h, w);
    var q :| q in C && InWindow(ExpansionPixels, q, x);
    ComponentPixelsSet(holes, C, q);
    assert At(m, q);
  }

  /** x is near one of the first n listed components whose area exceeds minSize. */
  ghost predicate NearListedLarge(comps: seq<set<Pixel>>, n: nat, minSize: int, x: Pixel)
    requires n <= |comps|
  {
    exists j :: 0 <= j < n && |comps[j]| > minSize && NearSet(comps[j], x)
  }

  lemma NearListedLargeStep(comps: seq<set<Pixel>>, n: nat, minSize: int, x: Pixel)
    requires n < |comps|
    ensures NearListedLarge(comps, n + 1, minSize, x) <==>
      NearListedLarge(comps, n, minSize, x) || (|comps[n]| > minSize && NearSet(comps[n], x))
  {
    if NearListedLarge(comps, n + 1, minSize, x) {
      var j :| 0 <= j < n + 1 && |comps[j]| > minSize && NearSet(comps[j], x);
      if j < n {
        assert NearListedLarge(comps, n, minSize, x);
      }
    }
  }

  /** ops/enhanced_inpaint.py lines 29-39: label the 8-connected hole components, and or together the
      expansions of those whose area exceeds minSize. The result is exactly the
      set of pixels near a large hole. */
  method AdditionalInpaint(holes: Grid<bool>, h: nat, w: nat, minSize: int) returns (acc: Grid<bool>)
    requires IsGrid(holes, h, w)
    ensures acc == AddedMask(holes, h, w, minSize)
  {
    var comps := Label(holes, h, w);
    acc := Zeros(h, w);
    for i := 0 to |comps|
      invariant IsGrid(acc, h, w)
      invariant forall x :: At(acc, x) <==> InBounds(x, h, w) && NearListedLarge(comps, i, minSize, x)
    {
      forall x
        ensures NearListedLarge(comps, i + 1, minSize, x) <==>
          NearListedLarge(comps, i, minSize, x) || (|comps[i]| > minSize && NearSet(comps[i], x))
      {
        NearListedLargeStep(comps, i, minSize, x);
      }
      if |comps[i]| > minSize {
        var holeMask := MaskOf(comps[i], h, w);
        var expanded := ExpandHoles(holeMask, h, w, ExpansionPixels);
        assert expanded == Dilate(holeMask, h, w, ExpansionPixels);
        forall x
          ensures At(expanded, x) <==> InBounds(x, h, w) && NearSet(comps[i], x)
        {
          ExpandedComponent(holes, comps[i], h, w, x);
        }
        acc := Or(acc, expanded, h, w);
      }
    }
    forall x
      ensures At(acc, x) <==> At(AddedMask(holes, h, w, minSize), x)
    {
      LabellingNearLarge(holes, comps, minSize, x);
    }
    GridExt(acc, AddedMask(holes, h, w, minSize), h, w);
  }

  /** When every hole component is at most minSize pixels, nothing is added. */
  lemma SmallHolesAddNothing(holes: Grid<bool>, h: nat, w: nat, minSize: int)
    requires IsGrid(holes, h, w)
    requires forall q :: At(holes, q) ==> |Component(holes, q)| <= minSize
    ensures AddedMask(holes, h, w, minSize) == Zeros(h, w)
  {
    GridExt(AddedMask(holes, h, w, minSize), Zeros(h, w), h, w);
  }

  /** A depth map without holes adds nothing, whatever minSize is. */
  lemma NoHolesAddNothing(dpt: Grid<real>, h: nat, w: nat, skyValue: real, minSize: int)
    requires IsGrid(dpt, h, w)
    requires forall r, c :: 0 <= r < h && 0 <= c < w ==> !IsHoleDepth(dpt[r][c], skyValue)
    ensures AddedMask(DepthHoles(dpt, h, w, skyValue), h, w, minSize) == Zeros(h, w)
  {
    var holes := DepthHoles(dpt, h, w, skyValue);
    forall q
      ensures !At(holes, q)
    {
      if InBounds(q, h, w) {
        assert !IsHoleDepth(dpt[q.r][q.c], skyValue);
      }
    }
    SmallHolesAddNothing(holes, h, w, minSize);
  }

  /** Every pixel of a component larger than minSize, and every in-image pixel in
      the expansion window of one, is added. */
  lemma LargeHoleCovered(holes: Grid<bool>, h: nat, w: nat, minSize: int, q: Pixel)
    requires IsGrid(holes, h, w) && At(holes, q) && |Component(holes, q)| > minSize
    ensures forall s :: s in Component(holes, q) ==> At(AddedMask(holes, h, w, minSize), s)
    ensures forall s, x :: s in Component(holes, q) && InBounds(x, h, w) && InWindow(ExpansionPixels, s, x) ==>
      At(AddedMask(holes, h, w, minSize), x)
  {
    forall s, x | s in Component(holes, q) && InBounds(x, h, w) && InWindow(ExpansionPixels, s, x)
      ensures At(AddedMask(holes, h, w, minSize), x)
    {
      ComponentOfMember(holes, q, s);
      ConnectedEnds(holes, q, s);
    }
    forall s | s in Component(holes, q)
      ensures At(AddedMask(holes, h, w, minSize), s)
    {
      ComponentOfMember(holes, q, s);
      ConnectedEnds(holes, q, s);
      assert InWindow(ExpansionPixels, s, s);
    }
  }

  /** or-ing in an all-false mask changes nothing. */
  lemma OrZeros(m: Grid<bool>, h: nat, w: nat)
    requires IsGrid(m, h, w)
    ensures Or(m, Zeros(h, w), h, w) == m
  {
    GridExt(Or(m, Zeros(h, w), h, w), m, h, w);
  }

  /** ops/enhanced_inpaint.py lines 58-70 as values: the new inpaint mask is the dilated mask or the depth
      edges, minus sky; the mask without edges drops the depth edges from it. */
  function AggressiveMasks(inpaint: Grid<bool>, sky: Grid<bool>, edges: Grid<bool>, h: nat, w: nat, k: nat)
    : (m: (Grid<bool>, Grid<bool>))
    requires IsGrid(inpaint, h, w) && IsGrid(sky, h, w) && IsGrid(edges, h, w)
    ensures IsGrid(m.0, h, w) && IsGrid(m.1, h, w)
    ensures forall p :: At(m.0, p) <==>
      InBounds(p, h, w) && !At(sky, p) && (At(edges, p) || exists s :: At(inpaint, s) && InWindow(k, s, p))
    ensures forall p :: At(sky, p) ==> !At(m.0, p) && !At(m.1, p)
    ensures forall p :: At(m.1, p) <==> At(m.0, p) && !At(edges, p)
    ensures forall p :: At(inpaint, p) && !At(sky, p) ==> At(m.0, p)
    ensures forall p :: At(edges, p) && !At(sky, p) ==> At(m.0, p)
  {
    var dilated := Dilate(inpaint, h, w, k);
    var grown := AndNot(Or(dilated, edges, h, w), sky, h, w);
    forall p | At(inpaint, p)
      ensures At(dilated, p)
    {
      DilateContainsInput(inpaint, h, w, k, p);
    }
    (grown, AndNot(grown, edges, h, w))
  }

  /** What find_and_expand_holes evidently intends: a missing or None mask
      starts all-false, and both masks are or-ed with the added mask. */
  function IntendedMasks(inpaint: Slot, inpaintWoEdge: Slot, added: Grid<bool>, h: nat, w: nat)
    : (m: (Grid<bool>, Grid<bool>))
    requires Fits(inpaint, h, w) && Fits(inpaintWoEdge, h, w) && IsGrid(added, h, w)
    ensures IsGrid(m.0, h, w) && IsGrid(m.1, h, w)
    ensures forall p :: At(m.0, p) <==> (inpaint.Mask? && At(inpaint.grid, p)) || At(added, p)
    ensures forall p :: At(m.1, p) <==> (inpaintWoEdge.Mask? && At(inpaintWoEdge.grid, p)) || At(added, p)
  {
    (Or(MaskOrZeros(inpaint, h, w), added, h, w), Or(MaskOrZeros(inpaintWoEdge, h, w), added, h, w))
  }

  /** Under the intended defaulting, a mask that is missing or None ends up
      exactly the added mask, in each of the four combinations. */
  lemma IntendedDefaults(inpaint: Slot, inpaintWoEdge: Slot, added: Grid<bool>, h: nat, w: nat)
    requires Fits(inpaint, h, w) && Fits(inpaintWoEdge, h, w) && IsGrid(added, h, w)
    ensures !inpaint.Mask? ==> IntendedMasks(inpaint, inpaintWoEdge, added, h, w).0 == added
    ensures !inpaintWoEdge.Mask? ==> IntendedMasks(inpaint, inpaintWoEdge, added, h, w).1 == added
  {
    var m := IntendedMasks(inpaint, inpaintWoEdge, added, h, w);
    if !inpaint.Mask? {
      GridExt(m.0, added, h, w);
    }
    if !inpaintWoEdge.Mask? {
      GridExt(m.1, added, h, w);
    }
  }

  /** When every hole component is at most minSize pixels, or-ing the added mask
      into a mask leaves it as it was. */
  lemma FindAndExpandUnchanged(m: Grid<bool>, holes: Grid<bool>, h: nat, w: nat, minSize: int)
    requires IsGrid(m, h, w) && IsGrid(holes, h, w)
    ensures (forall q :: At(holes, q) ==> |Component(holes, q)| <= minSize) ==>
      Or(m, AddedMask(holes, h, w, minSize), h, w) == m
  {
    if forall q :: At(holes, q) ==> |Component(holes, q)| <= minSize {
      SmallHolesAddNothing(holes, h, w, minSize);
      OrZeros(m, h, w);
    }
  }

  class EnhancedInpaint {
    /** cfg.model.sky.value: depths at or beyond it are sky. */
    const skyValue: real
    const dilateKernelSize: int
    const holeMinSize: int

    constructor (skyValue: real, dilateKernelSize: int, holeMinSize: int)
      ensures this.skyValue == skyValue
      ensures this.dilateKernelSize == dilateKernelSize && this.holeMinSize == holeMinSize
    {
      this.skyValue, this.dilateKernelSize, this.holeMinSize := skyValue, dilateKernelSize, holeMinSize;
    }

    /** The refiner built with the default kernel size and minimum hole area. */
    constructor WithDefaults(skyValue: real)
      ensures this.skyValue == skyValue
      ensures this.dilateKernelSize == DefaultDilateKernelSize && this.holeMinSize == DefaultHoleMinSize
    {
      this.skyValue, this.dilateKernelSize, this.holeMinSize := skyValue, DefaultDilateKernelSize, DefaultHoleMinSize;
    }

    /** find_and_expand_holes: or the expansions of the large depth holes into both
        inpaint masks. A missing inpaint mask starts all-false; a None
        inpaint_wo_edge too. A missing inpaint_wo_edge, or a None inpaint, raises. */
    method FindAndExpandHoles(frame: Frame) returns (outcome: Outcome)
      requires frame.Valid()
      modifies frame
      ensures frame.Valid()
      ensures frame.dpt == old(frame.dpt) && frame.sky == old(frame.sky)
      ensures old(frame.inpaintWoEdge).Missing? ==>
        outcome == Fail(InpaintWoEdgeMissing) &&
        frame.inpaint == old(frame.inpaint) && frame.inpaintWoEdge == old(frame.inpaintWoEdge)
      ensures !old(frame.inpaintWoEdge).Missing? && old(frame.inpaint).Null? ==>
        outcome == Fail(InpaintIsNone) && frame.inpaint == Null &&
        frame.inpaintWoEdge == Mask(MaskOrZeros(old(frame.inpaintWoEdge), frame.height, frame.width))
      ensures !old(frame.inpaintWoEdge).Missing? && !old(frame.inpaint).Null? ==>
        var h, w := frame.height, frame.width;
        var added := AddedMask(DepthHoles(frame.dpt, h, w, skyValue), h, w, holeMinSize);
        outcome == Pass &&
        frame.inpaint == Mask(Or(MaskOrZeros(old(frame.inpaint), h, w), added, h, w)) &&
        frame.inpaintWoEdge == Mask(Or(MaskOrZeros(old(frame.inpaintWoEdge), h, w), added, h, w))
      ensures var h, w := frame.height, frame.width;
        var added := AddedMask(DepthHoles(frame.dpt, h, w, skyValue), h, w, holeMinSize);
        var m := IntendedMasks(old(frame.inpaint), old(frame.inpaintWoEdge), added, h, w);
        outcome == Pass <==> frame.inpaint == Mask(m.0) && frame.inpaintWoEdge == Mask(m.1)
      ensures var holes := DepthHoles(frame.dpt, frame.height, frame.width, skyValue);
        outcome == Pass && (forall q :: At(holes, q) ==> |Component(holes, q)| <= holeMinSize) ==>
        frame.inpaint == Mask(MaskOrZeros(old(frame.inpaint), frame.height, frame.width)) &&
        frame.inpaintWoEdge == Mask(MaskOrZeros(old(frame.inpaintWoEdge), frame.height, frame.width))
      ensures outcome == Pass ==>
        (forall p :: old(frame.inpaint).Mask? && At(old(frame.inpaint).grid, p) ==> At(frame.inpaint.grid, p)) &&
        (forall p :: old(frame.inpaintWoEdge).Mask? && At(old(frame.inpaintWoEdge).grid, p) ==>
           At(frame.inpaintWoEdge.grid, p))
    {
      var h, w := frame.height, frame.width;
      if frame.inpaintWoEdge.Missing? {
        return Fail(InpaintWoEdgeMissing);
      }
      if frame.inpaint.Missing? {
        frame.inpaint := Mask(Zeros(h, w));
      }
      if frame.inpaintWoEdge.Null? {
        frame.inpaintWoEdge := Mask(Zeros(h, w));
      }
      var holes := DepthHoles(frame.dpt, h, w, skyValue);
      var additional := AdditionalInpaint(holes, h, w, holeMinSize);
      if frame.inpaint.Null? {
        return Fail(InpaintIsNone);
      }
      FindAndExpandUnchanged(frame.inpaint.grid, holes, h, w, holeMinSize);
      FindAndExpandUnchanged(frame.inpaintWoEdge.grid, holes, h, w, holeMinSize);
      frame.inpaint := Mask(Or(frame.inpaint.grid, additional, h, w));
      frame.inpaintWoEdge := Mask(Or(frame.inpaintWoEdge.grid, additional, h, w));
      outcome := Pass;
    }

    /** find_and_expand_holes as evidently intended: a missing or None mask
        starts all-false, and both masks are or-ed with the added mask. */
    method FindAndExpandHolesDefaulted(frame: Frame)
      requires frame.Valid()
      modifies frame
      ensures frame.Valid()
      ensures frame.dpt == old(frame.dpt) && frame.sky == old(frame.sky)
      ensures var h, w := frame.height, frame.width;
        var added := AddedMask(DepthHoles(frame.dpt, h, w, skyValue), h, w, holeMinSize);
        var m := IntendedMasks(old(frame.inpaint), old(frame.inpaintWoEdge), added, h, w);
        frame.inpaint == Mask(m.0) && frame.inpaintWoEdge == Mask(m.1)
    {
      var h, w := frame.height, frame.width;
      if !frame.inpaint.Mask? {
        frame.inpaint := Mask(Zeros(h, w));
      }
      if !frame.inpaintWoEdge.Mask? {
        frame.inpaintWoEdge := Mask(Zeros(h, w));
      }
      var holes := DepthHoles(frame.dpt, h, w, skyValue);
      var additional := AdditionalInpaint(holes, h, w, holeMinSize);
      frame.inpaint := Mask(Or(frame.inpaint.grid, additional, h, w));
      frame.inpaintWoEdge := Mask(Or(frame.inpaintWoEdge.grid, additional, h, w));
    }

    /** process_frame_aggressive: missing or None masks start all-false; a
        negative kernel side then raises. Otherwise the new inpaint mask is the
        dilated inpaint mask or the depth edges, minus sky, and inpaint_wo_edge is
        that mask minus the depth edges. The Sobel edge test is supplied as
        depthEdges. */
    method ProcessFrameAggressive(frame: Frame, depthEdges: Grid<bool>) returns (outcome: Outcome)
      requires frame.Valid() && IsGrid(depthEdges, frame.height, frame.width)
      modifies frame
      ensures frame.Valid()
      ensures frame.dpt == old(frame.dpt)
      ensures frame.sky == Mask(MaskOrZeros(old(frame.sky), frame.height, frame.width))
      ensures outcome == Pass <==> dilateKernelSize >= 0
      ensures dilateKernelSize < 0 ==>
        outcome == Fail(NegativeKernelSize) &&
        frame.inpaint == Mask(MaskOrZeros(old(frame.inpaint), frame.height, frame.width)) &&
        frame.inpaintWoEdge == Mask(MaskOrZeros(old(frame.inpaintWoEdge), frame.height, frame.width))
      ensures dilateKernelSize >= 0 ==>
        var h, w := frame.height, frame.width;
        var m := AggressiveMasks(MaskOrZeros(old(frame.inpaint), h, w), frame.sky.grid, depthEdges, h, w,
                                 dilateKernelSize as nat);
        frame.inpaint == Mask(m.0) && frame.inpaintWoEdge == Mask(m.1)
    {
      var h, w := frame.height, frame.width;
      if !frame.sky.Mask? {
        frame.sky := Mask(Zeros(h, w));
      }
      if !frame.inpaint.Mask? {
        frame.inpaint := Mask(Zeros(h, w));
      }
      if !frame.inpaintWoEdge.Mask? {
        frame.inpaintWoEdge := Mask(Zeros(h, w));
      }
      if dilateKernelSize < 0 {
        return Fail(NegativeKernelSize);
      }
      var dilated := Dilate(frame.inpaint.grid, h, w, dilateKernelSize as nat);
      var newInpaint := dilated;
      newInpaint := Or(newInpaint, depthEdges, h, w);
      newInpaint := AndNot(newInpaint, frame.sky.grid, h, w);
      frame.inpaint := Mask(newInpaint);
      frame.inpaintWoEdge := Mask(AndNot(newInpaint, depthEdges, h, w));
      outcome := Pass;
    }
  }

  /** One-pixel frames without holes on which the code as written raises, where
      the intended defaulting gives the all-false mask. */
  method SlotDefaultsCounterexample() returns (missingWoEdge: Outcome, nullInpaint: Outcome, intended: Slot)
    ensures missingWoEdge == Fail(InpaintWoEdgeMissing)
    ensures nullInpaint == Fail(InpaintIsNone)
    ensures intended == Mask([[false]])
  {
    var refiner := new EnhancedInpaint.WithDefaults(100.0);
    var a := new Frame([[1.0]], 1, 1, Missing, Mask([[false]]), Missing);
    missingWoEdge := refiner.FindAndExpandHoles(a);
    var b := new Frame([[1.0]], 1, 1, Missing, Null, Mask([[false]]));
    nullInpaint := refiner.FindAndExpandHoles(b);
    var c := new Frame([[1.0]], 1, 1, Missing, Null, Missing);
    refiner.FindAndExpandHolesDefaulted(c);
    var holes := DepthHoles([[1.0]], 1, 1, 100.0);
    NoHolesAddNothing([[1.0]], 1, 1, 100.0, DefaultHoleMinSize);
    IntendedDefaults(Null, Missing, AddedMask(holes, 1, 1, DefaultHoleMinSize), 1, 1);
    GridExt(Zeros(1, 1), [[false]], 1, 1);
    intended := c.inpaint;
  }
}
