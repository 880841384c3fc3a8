# Dust and scratch removal: blob keep-filter and multi-pass inpaint schedule

This project is a Dafny model of the two parts of `restore_scratches_improved.py` that are
more than calls into OpenCV or scikit-image:

1. **The blob keep-filter and mask painting** of `detect_dust_scratch_mask_improved`.
   The input is a labelled H×W image, where 0 is background, and one region record per connected
   component. A region record holds the component's label and the minor and major axis lengths of
   its best-fit ellipse. The axes are optional, and `None` stands for an ellipse fit that raised.
   A region's area is the number of pixels carrying its label. Its thinness is
   `minor/(major + 1e-6)`, or `1.0` when the major axis is not positive or the fit failed.
   A region is kept when `min_size ≤ area ≤ max_blob_area_ratio·H·W` and also either
   `area ≤ 5000` or `thinness < keep_thinness_ratio`. The mask starts as a fresh H×W array of
   zeros (`array2<int>`). Every pixel of a kept region is set to 255 in place, one region at a time.
2. **The inpaint schedule** of `inpaint_multi_pass`. A grayscale image is first converted to
   three channels. The working mask is a copy of the caller's mask. For each radius in order,
   the image is filled under the working mask with `int(radius)`, and then the working mask is
   eroded once. The foreign primitives are function values in an `Ops` record: the gray test,
   the colour conversion, the fill and the erosion. Results about the schedule that depend on a
   property of those primitives take that property as a hypothesis.

Files:
- `grids.dfy` (module `Grids`): images as `seq<seq<int>>` values, the snapshot of an array, and
  pixel counting.
- `blob_filter.dfy` (module `BlobFilter`): thinness, the keep rule, the painted-label set and the
  two painting methods.
- `inpaint_schedule.dfy` (module `InpaintSchedule`): the pass-by-pass specification, the
  fill-then-recurse reference, the method and the schedule lemmas.

The label image is a value because the code never changes it. `keep_mask` is an array because
`keep_mask[lbl == p.label] = 255` writes into it in place. The painting method is proved against
`KeptLabels`, the set of labels painted after visiting the regions in order. `KeptLabelsOrderFree`
proves that this set equals `KeptSet`, the order-free set of labels of all regions that pass the
filter. The other painting lemmas are derived from that equality.

The caller's mask in `InpaintMultiPass` is an `array2<int>` that no `modifies` clause names.
Dafny therefore guarantees that the method leaves it unchanged. The working mask starts as
`GridOf(mask)`, a value snapshot that models `mask.copy()`.

Where a reader might expect otherwise, the model follows the code:
- Any inpaint method name other than `"telea"` selects Navier-Stokes. The code does not reject
  unknown names.
- Radii are passed through Python's `int()`, which truncates toward zero. They are modelled as
  reals with explicit truncation.
- The code does not check that the radii are increasing, so the model accepts any sequence.
- The thinness test is `major > 0`. A negative major axis therefore also gives `1.0`, not only a
  zero one.

## Model

| member | source | states |
|---|---|---|
| `BlobFilter.Thinness` | restore_scratches_improved.py:55-60 | thinness is exactly 1.0 when the fit failed or the major axis is not positive; otherwise thinness·(major+1e-6) = minor, and 0 ≤ thinness < 1 whenever 0 ≤ minor ≤ major |
| `BlobFilter.Keeps` | restore_scratches_improved.py:50-61 | a kept blob satisfies min_size ≤ area ≤ max_blob_area; inside the bounds, a blob with area ≤ 5000 is always kept, and a blob with area > 5000 is kept exactly when thinness < keep_thinness_ratio |
| `BlobFilter.PaintLabel` | restore_scratches_improved.py:62 | after painting one label, pixels carrying that label are 255 and every other pixel holds its old value |
| `BlobFilter.DetectKeepMask` | restore_scratches_improved.py:43-62 | returns a fresh H×W array; each pixel is 255 if its label is in the painted-label set and 0 otherwise; every pixel is 0 or 255; two pixels with the same label hold the same value |
| `BlobFilter.KeptLabelsOrderFree` | restore_scratches_improved.py:49-62 | the labels painted by the in-order loop are exactly the labels of the regions that pass the keep rule, whatever their order |
| `BlobFilter.KeptLabelsPermutation` | restore_scratches_improved.py:49 | visiting any permutation of the regions paints the same labels |
| `BlobFilter.KeptWithinBounds` | restore_scratches_improved.py:51-54 | every painted label has min_size ≤ area ≤ max_blob_area_ratio·H·W, whatever its thinness |
| `BlobFilter.SmallBlobKept` | restore_scratches_improved.py:61 | a region inside the area bounds with area ≤ 5000 is painted, whatever its thinness |
| `BlobFilter.ThinBlobKept` | restore_scratches_improved.py:61 | a region inside the area bounds whose thinness is below keep_thinness_ratio is painted, whatever its area and without any distinct-labels hypothesis |
| `BlobFilter.LargeBlobKeptIffThin` | restore_scratches_improved.py:61 | with distinct labels, a region inside the area bounds with area > 5000 is painted exactly when thinness < keep_thinness_ratio |
| `BlobFilter.DegenerateLargeBlobDropped` | restore_scratches_improved.py:55-61 | with distinct labels and keep_thinness_ratio ≤ 1, a region with area > 5000 and a failed or zero-major ellipse is never painted |
| `BlobFilter.DiscardedNotKept` | restore_scratches_improved.py:51-62 | with distinct labels, the pixels of a region that fails the keep rule stay 0 |
| `BlobFilter.UnlistedLabelNotKept` | restore_scratches_improved.py:48-62 | a label that no region carries, such as the background label 0, is never painted, so its pixels stay 0 |
| `BlobFilter.AbsentLabelNotKept` | restore_scratches_improved.py:50-52 | with min_size ≥ 1, a label that no pixel carries is never painted |
| `Grids.CountBound` | restore_scratches_improved.py:50 | a blob's area is at most H·W |
| `Grids.CountZeroIff` | restore_scratches_improved.py:50 | a blob's area is 0 exactly when no pixel carries its label |
| `Grids.GridOf` | restore_scratches_improved.py:76 | the copy of an array has the array's H×W shape and its pixel values |
| `InpaintSchedule.FlagFor` | restore_scratches_improved.py:75 | the fast-marching algorithm is chosen exactly when the name is "telea", and Navier-Stokes for every other name |
| `InpaintSchedule.TruncToInt` | restore_scratches_improved.py:78 | the radius passed is the real radius truncated toward zero |
| `InpaintSchedule.InpaintMultiPass` | restore_scratches_improved.py:71-81 | the result is the image after len(radii) passes; pass i fills with radius int(radii[i]) under the caller's mask eroded i times, starting from the colour-converted input; the caller's mask is not modified |
| `InpaintSchedule.ScheduleIsPasses` | restore_scratches_improved.py:77-80 | the pass-by-pass state equals the fill-with-the-first-radius, erode, recurse-on-the-rest reading of the loop |
| `InpaintSchedule.ScheduleAppend` | restore_scratches_improved.py:77-80 | running radii rs1 + rs2 is running rs1 and then rs2 on the mask eroded len(rs1) times, so each radius erodes exactly once |
| `InpaintSchedule.AfterPassesPrefix` | restore_scratches_improved.py:77-78 | the first k passes depend only on the first k radii, which are used in order |
| `InpaintSchedule.NoDefectStable` | restore_scratches_improved.py:77-80 | if filling under a mask changes nothing and eroding the mask gives the same mask, the schedule returns its input image |
| `Grids.CountMarked` | restore_scratches_improved.py:78 | the number of nonzero mask pixels is at most H·W and is 0 exactly when every pixel is 0 |
| `InpaintSchedule.MaskShrinks` | restore_scratches_improved.py:79-80 | if one erosion never adds nonzero pixels, the working mask's nonzero count does not increase from pass to pass |
| `InpaintSchedule.ShapePreserved` | restore_scratches_improved.py:78 | if a fill keeps an image's shape, the image after any number of passes has the shape of the image the passes start from |
| `InpaintSchedule.ErodedKeepsShape` | restore_scratches_improved.py:80 | if one erosion keeps an H×W mask H×W, every working mask is H×W |

## Left out

- The foreign OpenCV primitives are left out, because their code is not available. These are
  `medianBlur`, `cvtColor`, `getStructuringElement`, `morphologyEx` (top-hat, black-hat,
  opening), the saturating `add`, `normalize`, `threshold`, `dilate`, `erode` and `inpaint`.
  The detector steps before the labelling and after the painting are not modelled: the
  dilation and the final median blur at lines 64-68. In the schedule, colour conversion, fill and
  erosion are uninterpreted function values.
- The scikit-image calls `remove_small_objects`, `label` and `regionprops` are left out. The model
  takes the label image and the region list as given. The ellipse axis lengths are inputs, because
  they come from floating-point eigenvalues and square roots. The axes are `None` when the fit
  raised.
- The lemmas that need one region per label take `DistinctLabels` as a hypothesis, which is what
  `regionprops` produces. The painting method and the other lemmas do not need it.
- Floating point is not modelled. `1e-6`, `max_blob_area_ratio·(h·w)` and the thinness ratio are
  exact `real`s, so rounding, NaN and infinities are not captured.
- Pixels are unbounded `int`s. The `uint8` mask holds only 0 and 255, so no wrap-around arises.
- `show_images` (matplotlib display), `process_file` (image reading and writing, printing, path
  derivation) and the command-line block are left out. They are I/O and hold no logic of the core.
- InpaintSchedule.MaskShrinks: states only "non-increasing"; a strict decrease whenever erosion
  changes the mask depends on the foreign erosion.
- Whole-pipeline scenarios (a 3×3 bright speck is detected, a one-pixel diagonal line has
  thinness below 0.25) depend on thresholding, labelling and the ellipse fit, which are foreign
  code. The model proves only the keep-rule half: a small blob inside the bounds is kept
  (`SmallBlobKept`), and a thin blob inside the bounds is kept (`ThinBlobKept`).
- The Python default arguments (`method='telea'` and `radii=(1,2)` at line 71; `min_size=10`,
  `max_blob_area_ratio=0.02` and `keep_thinness_ratio=0.25` at lines 16-23) are not modelled:
  every parameter is explicit, and `process_file` passes every argument (lines 106-115).
