# Enhanced_Inpaint mask refiner, modelled in Dafny

This project models the `Enhanced_Inpaint` class of VistaDream's
`ops/enhanced_inpaint.py`. The class refines the boolean inpaint masks of a
pipeline `Frame` before novel views are synthesized. It has two operations.

- **find_and_expand_holes.** It marks depth holes: pixels whose depth is at or
  beyond the configured sky depth, or is zero. It splits the holes into
  8-connected components. Each component whose area exceeds `hole_min_size`
  is dilated with a 10×10 kernel. The union of those dilations is or-ed into
  both `inpaint` and `inpaint_wo_edge`.
- **process_frame_aggressive.** It dilates `inpaint` with a
  `dilate_kernel_size` square kernel and ors in the depth edges. It then
  removes sky pixels and stores the result in `inpaint`. The same result minus
  the depth edges goes into `inpaint_wo_edge`.

Files:

- `grids.dfy` (module `Grids`): masks as `seq<seq<bool>>` and the element-wise
  operations on them. `At` reads a pixel; a pixel outside the image is unset.
- `morphology.dfy` (module `Morphology`): `cv2.dilate` with an all-ones k×k
  kernel. The anchor is the default `k / 2`, and pixels outside the image
  contribute nothing. An empty kernel (`k = 0`) is replaced by OpenCV's 3×3
  fallback.
- `components.dfy` (module `Components`): 8-connected components as
  reachability along paths. `FloodFill` explores one component with a visited
  array. `Label` scans the image in raster order and returns the components.
  This replaces `cv2.connectedComponentsWithStats`. Only which pixels form a
  component and its area (its size) are modelled.
- `frame.dfy` (module `Frames`): the `Frame` fields the refiner touches. Each
  mask attribute is a `Slot`: `Missing` (the attribute does not exist),
  `Null` (it is `None`) or `Mask(grid)`.
- `enhanced_inpaint.dfy` (module `Inpaint`): the refiner class
  `EnhancedInpaint`, its two operations as methods that update the `Frame`,
  and the functions and lemmas that specify them.

`find_and_expand_holes` is specified against `AddedMask`. A pixel is set in
`AddedMask` exactly when it lies in the 10×10 window of a hole pixel whose
component has more than `hole_min_size` pixels. `AdditionalInpaint` runs the
labelling and the accumulation loop of lines 33-39. It is proved to produce
exactly that mask.

`FindAndExpandHoles` follows the code's handling of missing and None masks,
which raises in two cases; see "## Findings". `FindAndExpandHolesDefaulted`
is the intended behaviour, in which both masks start all-false whenever they
are missing or None.

## Model

| member | source | states |
|---|---|---|
| `Inpaint.EnhancedInpaint.constructor` | ops/enhanced_inpaint.py:6-9 | The refiner keeps the sky depth threshold, the dilation kernel size (any integer, negative included) and the minimum hole area it is given. |
| `Inpaint.EnhancedInpaint.WithDefaults` | ops/enhanced_inpaint.py:6-9 | The refiner built without explicit sizes has kernel size 5 and minimum hole area 10. |
| `Frames.Frame.constructor` | ops/enhanced_inpaint.py:50-56 | A frame holds a depth map of shape (h, w) and the sky, inpaint and inpaint_wo_edge attributes, each missing, None or a mask. It is `Valid`: every present mask has the depth map's shape. |
| `Grids.Zeros` | ops/enhanced_inpaint.py:23-25 | `np.zeros_like(dpt, dtype=bool)`: the mask has the depth map's shape and no pixel is set. |
| `Grids.Or` | ops/enhanced_inpaint.py:45-46 | Element-wise `a \| b`: a pixel is set exactly when it is set in either mask; the shape is kept. |
| `Grids.AndNot` | ops/enhanced_inpaint.py:67-70 | Element-wise `a & ~b`: a pixel is set exactly when it is set in `a` and not in `b`; the shape is kept. |
| `Grids.MaskOf` | ops/enhanced_inpaint.py:37 | `labels == i`: a pixel is set exactly when it is inside the image and belongs to the component. |
| `Inpaint.ExpandHoles` | ops/enhanced_inpaint.py:11-15 | The expanded mask has the input's shape and contains the input. With side 10, a pixel is set exactly when a set input pixel lies 5 before to 4 after it in each direction. |
| `Morphology.Dilate` | ops/enhanced_inpaint.py:58-59 | A pixel of the dilation is set exactly when it is inside the image and a set input pixel lies in its kernel window; the shape is kept. |
| `Morphology.KernelSide` | ops/enhanced_inpaint.py:58 | The kernel side is at least 1. It equals the requested side when that is positive; an empty kernel becomes 3×3. |
| `Morphology.DilatedAtWindow` | ops/enhanced_inpaint.py:14 | Reading the kernel cells around an output pixel is the same as asking for a set source pixel in its window. |
| `Morphology.DilateContainsInput` | ops/enhanced_inpaint.py:58-59 | Every set pixel of the input stays set after dilation, whatever the kernel size. |
| `Inpaint.DepthHoles` | ops/enhanced_inpaint.py:27 | A pixel is a hole exactly when its depth is at least the sky value or is zero; the hole mask has the depth map's shape. |
| `Components.ConnectedSymmetric` | ops/enhanced_inpaint.py:29-31 | If q is 8-connected to p through holes, then p is connected to q. |
| `Components.ConnectedTransitive` | ops/enhanced_inpaint.py:29-31 | Two connections that meet at a pixel join into one. |
| `Components.ComponentOfMember` | ops/enhanced_inpaint.py:29-31 | Every pixel of a component has that same component, so components partition the holes. |
| `Components.PathStaysIn` | ops/enhanced_inpaint.py:29-31 | A path that starts in a set closed under hole adjacency ends in that set. |
| `Components.ClosedReachableIsComponent` | ops/enhanced_inpaint.py:29-31 | A set containing p, closed under hole adjacency and holding only pixels reachable from p, is exactly p's component. |
| `Components.FloodFill` | ops/enhanced_inpaint.py:29-31 | Flood fill from an unvisited hole returns exactly that hole's component. The visited array gains exactly that component, which shares no pixel with what was visited before. |
| `Components.Label` | ops/enhanced_inpaint.py:29-31 | Each returned set is a whole 8-connected component. No two share a pixel, and every hole pixel is in one of them. |
| `Inpaint.ComponentPixelsSet` | ops/enhanced_inpaint.py:37 | Every pixel of a labelled component is a hole, and its component is that one. |
| `Inpaint.ExpandedComponent` | ops/enhanced_inpaint.py:37-38 | The 10×10 expansion of one component's mask is exactly the set of in-image pixels within the window of some pixel of that component. |
| `Inpaint.LabellingNearLarge` | ops/enhanced_inpaint.py:35-37 | Over a complete labelling, "near a listed component with area above the minimum" and "near a hole whose component has area above the minimum" mean the same. |
| `Inpaint.NearListedLargeStep` | ops/enhanced_inpaint.py:35-39 | One more loop iteration adds exactly the pixels near the next component, and only if that component is large. |
| `Inpaint.AdditionalInpaint` | ops/enhanced_inpaint.py:33-39 | The accumulated mask equals `AddedMask`: a pixel is added exactly when it is in the expansion window of a hole whose component area exceeds `hole_min_size`. |
| `Inpaint.AddedMask` | ops/enhanced_inpaint.py:33-39 | The added mask has the depth map's shape, and its set pixels are exactly the in-image pixels near a large hole. |
| `Inpaint.SmallHolesAddNothing` | ops/enhanced_inpaint.py:35-36 | When every hole component has area at most `hole_min_size`, nothing is added. |
| `Inpaint.NoHolesAddNothing` | ops/enhanced_inpaint.py:27 | A depth map with no zero depth and none at or beyond the sky value adds nothing. |
| `Inpaint.LargeHoleCovered` | ops/enhanced_inpaint.py:36-39 | Every pixel of a component larger than `hole_min_size` is added, and so is every in-image pixel in the 10×10 window of one. |
| `Inpaint.FindAndExpandUnchanged` | ops/enhanced_inpaint.py:35-46 | When every hole component has area at most `hole_min_size`, or-ing the added mask into a mask leaves it unchanged. |
| `Inpaint.OrZeros` | ops/enhanced_inpaint.py:45-46 | Or-ing an all-false mask into a mask leaves it unchanged. |
| `Frames.MaskOrZeros` | ops/enhanced_inpaint.py:51-56 | A present mask is used as is; a missing or None one becomes all-false of the depth map's shape. |
| `Inpaint.EnhancedInpaint.FindAndExpandHoles` | ops/enhanced_inpaint.py:17-48 | A missing `inpaint_wo_edge` fails with nothing changed, and a None `inpaint` fails. Otherwise both masks become their old value (all-false if defaulted) or-ed with the same `AddedMask`. Masks only grow, and they are unchanged when every hole component is small. Depth and sky are untouched and all masks keep the depth shape. The call passes exactly when its result equals `IntendedMasks`. |
| `Inpaint.IntendedMasks` | ops/enhanced_inpaint.py:22-25 | Intended result: a pixel of each mask is set exactly when it was set in the old mask (if present) or in the added mask. |
| `Inpaint.IntendedDefaults` | ops/enhanced_inpaint.py:22-25 | Under the intended defaulting, a missing or None mask ends up exactly the added mask, in all four missing/None combinations. |
| `Inpaint.EnhancedInpaint.FindAndExpandHolesDefaulted` | ops/enhanced_inpaint.py:22-46 | Corrected find_and_expand_holes: it never fails, and both masks become `IntendedMasks` of the old masks and `AddedMask`. Depth and sky are untouched. |
| `Inpaint.SlotDefaultsCounterexample` | ops/enhanced_inpaint.py:18-45 | On one-pixel frames without holes, the code as written fails when `inpaint_wo_edge` is missing and when `inpaint` is None. The corrected method yields the all-false mask instead. |
| `Inpaint.AggressiveMasks` | ops/enhanced_inpaint.py:58-70 | A pixel of the new inpaint mask is set exactly when it is not sky and is a depth edge or lies in the dilation window of an old inpaint pixel. No sky pixel is set in either mask. A pixel of the mask without edges is set exactly when it is set in the new mask and is not a depth edge. Every non-sky old inpaint pixel and every non-sky edge pixel is set. |
| `Inpaint.EnhancedInpaint.ProcessFrameAggressive` | ops/enhanced_inpaint.py:50-72 | Missing or None masks become all-false. A negative kernel size then fails (`np.ones` at line 58 refuses it), leaving the defaulted masks. Otherwise the frame's `inpaint` and `inpaint_wo_edge` become the two masks of `AggressiveMasks`, computed from the old inpaint (all-false if missing or None), the sky and the depth edges. The depth map is untouched. |

## Left out

- The Sobel gradients and the 0.5 threshold (lines 61-63) are floating-point numerics. `ProcessFrameAggressive` takes the resulting depth-edge mask as the parameter `depthEdges`, of the depth map's shape.
- The debug `print`s (lines 18-20) are output only. The `np.asarray` casts (lines 42-43) only matter for the None case described above. Masks are modelled as booleans, not numpy dtypes.
- FindAndExpandHoles: when `inpaint` is None, line 42 replaces it with a zero-dimensional array before line 45 raises. The model reports `InpaintIsNone` and leaves `inpaint` as `Null`, because a zero-dimensional array has no counterpart in the model.
- The `cfg` object is reduced to the sky depth `skyValue`, fixed when the refiner is built. The Python default arguments (5 and 10) are the `WithDefaults` constructor.
- ProcessFrameAggressive: an empty depth map (no rows or no columns) gives empty masks in the model. OpenCV's `cv2.dilate` itself rejects an empty input at line 59; OpenCV's own checks are not part of this model.
- OpenCV's checks on the inputs of `cv2.connectedComponentsWithStats` (line 29) are likewise not modelled; an empty depth map adds nothing in the model.
- Depths are `real`. NaN and infinity are not modelled; the hole test uses only `>=` and `== 0`.
- Masks whose shape differs from the depth map are excluded by `Frame.Valid`. numpy broadcasting or errors in that case are not modelled.
- The masks are values. If `inpaint` and `inpaint_wo_edge` were one shared numpy array, the or-ing at lines 45-46 would give that array the same union. The model keeps two copies instead.
- OpenCV's label numbering, bounding boxes and centroids (lines 29-31) are not modelled, only component membership and area. The model visits components in raster order of their first pixel; or-ing is order-free, so the result is the same.
- The `Frame` class itself (`ops/gs/basic`) is not part of this model. Only its depth map and three mask attributes are.
- ops/trajs/rot.py (trajectory sampling and look-at rotations over floats) and demo.py (the pipeline driver) are not modelled.

## Findings

| source | as written | input that shows it | evidently intended | confidence | as-written member | corrected member |
|---|---|---|---|---|---|---|
| ops/enhanced_inpaint.py:18-25,42-45 | `inpaint` defaults only when the attribute is missing (line 22) and `inpaint_wo_edge` only when it is None (line 24). Line 18 reads `inpaint_wo_edge` before any check, and a None `inpaint` becomes a zero-dimensional array at line 42 that the or at line 45 cannot hold. | a frame without an `inpaint_wo_edge` attribute; a frame whose `inpaint` is None | both masks start all-false whenever they are missing or None, as `process_frame_aggressive` does at lines 53-56 | not executed; high from the code text | `Inpaint.EnhancedInpaint.FindAndExpandHoles`, `Inpaint.SlotDefaultsCounterexample` | `Inpaint.EnhancedInpaint.FindAndExpandHolesDefaulted`, `Inpaint.IntendedDefaults` |
