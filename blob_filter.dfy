/**
 * The blob keep-filter of the defect-mask detector and the painting of the
 * kept blobs into a fresh mask.
 *
 * The connected components have already been labelled (an H×W label image,
 * 0 = background). For each component the ellipse fit supplies an optional
 * pair of axis lengths; `None` stands for an ellipse fit that raised.
 * A component's area is the number of pixels carrying its label.
 */
module BlobFilter {
  import opened Grids

  datatype Option<T> = None | Some(value: T)

  /** Minor and major axis lengths of a blob's best-fit ellipse. */
  datatype Axes = Axes(minor: real, major: real)

  /** One connected component as the filter sees it: its label and its ellipse axes. */
  datatype Region = Region(id: int, axes: Option<Axes>)

  /** The detection parameters the filter uses. */
  datatype Params = Params(minSize: int, maxBlobAreaRatio: real, keepThinnessRatio: real)

  /** The guard against division by zero in the thinness ratio. */
  const Eps: real := 0.000001

  /** Blobs up to this area are kept whatever their shape. */
  const SmallBlobArea: int := 5000

  /** The mask value of a defect pixel; background is 0. */
  const Defect: int := 255

  /** The largest area a kept blob may have in an h×w image. */
  function MaxBlobArea(prm: Params, h: nat, w: nat): real
  {
    prm.maxBlobAreaRatio * ((h * w) as real)
  }

  /** No usable ellipse: the fit failed, or its major axis is not positive. */
  predicate Degenerate(axes: Option<Axes>)
  {
    axes.None? || axes.value.major <= 0.0
  }

  /** minor/(major+ε); 1.0 ("not thin") for a degenerate ellipse. */
  function Thinness(axes: Option<Axes>): (t: real)
    ensures Degenerate(axes) ==> t == 1.0
    ensures !Degenerate(axes) ==> t * (axes.value.major + Eps) == axes.value.minor
    ensures !Degenerate(axes) && 0.0 <= axes.value.minor <= axes.value.major ==> 0.0 <= t < 1.0
  {
    match axes
    case None => 1.0
    case Some(a) => if a.major > 0.0 then a.minor / (a.major + Eps) else 1.0
  }

  /**
   * The keep decision for one blob: within the area bounds, and either small
   * or thin.
   */
  function Keeps(prm: Params, maxArea: real, area: int, thinness: real): (keep: bool)
    ensures keep ==> prm.minSize <= area && area as real <= maxArea
    ensures prm.minSize <= area && area as real <= maxArea && area <= SmallBlobArea ==> keep
    ensures prm.minSize <= area && area as real <= maxArea && area > SmallBlobArea ==>
              (keep <==> thinness < prm.keepThinnessRatio)
  {
    if area < prm.minSize then false
    else if area as real > maxArea then false
    else area <= SmallBlobArea || thinness < prm.keepThinnessRatio
  }

  /** The keep decision for region r of label image lbl (h×w). */
  predicate KeepsRegion(lbl: Grid, h: nat, w: nat, prm: Params, r: Region)
  {
    Keeps(prm, MaxBlobArea(prm, h, w), Count(lbl, r.id), Thinness(r.axes))
  }

  /** The labels painted after visiting the regions rs in order. */
  function KeptLabels(lbl: Grid, h: nat, w: nat, prm: Params, rs: seq<Region>): set<int>
  {
    if rs == [] then {}
    else
      var prev := KeptLabels(lbl, h, w, prm, rs[..|rs| - 1]);
      if KeepsRegion(lbl, h, w, prm, rs[|rs| - 1]) then prev + {rs[|rs| - 1].id} else prev
  }

  /** The order-free reference: the labels of all regions that pass the filter. */
  function KeptSet(lbl: Grid, h: nat, w: nat, prm: Params, rs: seq<Region>): set<int>
  {
    set r | r in rs && KeepsRegion(lbl, h, w, prm, r) :: r.id
  }

  /** The mask value of a pixel with label l once the labels in kept are painted. */
  function MaskValue(kept: set<int>, l: int): int
  {
    if l in kept then Defect else 0
  }

  /** The region list holds each label at most once, as the labelling produces it. */
  predicate DistinctLabels(rs: seq<Region>)
  {
    forall a, b :: 0 <= a < b < |rs| ==> rs[a].id != rs[b].id
  }

  /** Sets to the defect value every pixel whose label is `target`; no other pixel changes. */
  method PaintLabel(keep: array2<int>, lbl: Grid, target: int)
    requires IsRect(lbl, keep.Length0, keep.Length1)
    modifies keep
    ensures forall i, j :: 0 <= i < keep.Length0 && 0 <= j < keep.Length1 ==>
              keep[i, j] == (if lbl[i][j] == target then Defect else old(keep[i, j]))
  {
    var i := 0;
    while i < keep.Length0
      invariant 0 <= i <= keep.Length0
      invariant forall a, b :: 0 <= a < i && 0 <= b < keep.Length1 ==>
                  keep[a, b] == (if lbl[a][b] == target then Defect else old(keep[a, b]))
      invariant forall a, b :: i <= a < keep.Length0 && 0 <= b < keep.Length1 ==>
                  keep[a, b] == old(keep[a, b])
    {
      var j := 0;
      while j < keep.Length1
        invariant 0 <= j <= keep.Length1
        invariant forall a, b :: 0 <= a < i && 0 <= b < keep.Length1 ==>
                    keep[a, b] == (if lbl[a][b] == target then Defect else old(keep[a, b]))
        invariant forall b :: 0 <= b < j ==>
                    keep[i, b] == (if lbl[i][b] == target then Defect else old(keep[i, b]))
        invariant forall b :: j <= b < keep.Length1 ==> keep[i, b] == old(keep[i, b])
        invariant forall a, b :: i < a < keep.Length0 && 0 <= b < keep.Length1 ==>
                    keep[a, b] == old(keep[a, b])
      {
        if lbl[i][j] == target {
          keep[i, j] := Defect;
        }
        j := j + 1;
      }
      i := i + 1;
    }
  }

  /**
   * The keep mask: a fresh h×w array of zeros, into which every pixel of each
   * kept region is painted with the defect value, region by region.
   */
  method DetectKeepMask(lbl: Grid, h: nat, w: nat, props: seq<Region>, prm: Params)
    returns (keep: array2<int>)
    requires IsRect(lbl, h, w)
    ensures fresh(keep) && keep.Length0 == h && keep.Length1 == w
    ensures forall i, j :: 0 <= i < h && 0 <= j < w ==>
              keep[i, j] == MaskValue(KeptLabels(lbl, h, w, prm, props), lbl[i][j])
    ensures forall i, j :: 0 <= i < h && 0 <= j < w ==> keep[i, j] == 0 || keep[i, j] == Defect
    ensures forall i, j, i', j' ::
              0 <= i < h && 0 <= j < w && 0 <= i' < h && 0 <= j' < w && lbl[i][j] == lbl[i'][j'] ==>
              keep[i, j] == keep[i', j']
  {
    var maxBlobArea := MaxBlobArea(prm, h, w);
    keep := new int[h, w]((i, j) => 0);
    var k := 0;
    while k < |props|
      invariant 0 <= k <= |props|
      invariant forall i, j :: 0 <= i < h && 0 <= j < w ==>
                  keep[i, j] == MaskValue(KeptLabels(lbl, h, w, prm, props[..k]), lbl[i][j])
    {
      var p := props[k];
      var area := Count(lbl, p.id);
      var thinness := Thinness(p.axes);
      if Keeps(prm, maxBlobArea, area, thinness) {
        PaintLabel(keep, lbl, p.id);
      }
      assert props[..k + 1][..k] == props[..k];
      k := k + 1;
    }
    assert props[..|props|] == props;
  }

  /** The painted labels do not depend on the order in which regions are visited. */
  lemma {:induction false} KeptLabelsOrderFree(lbl: Grid, h: nat, w: nat, prm: Params, rs: seq<Region>)
    ensures KeptLabels(lbl, h, w, prm, rs) == KeptSet(lbl, h, w, prm, rs)
  {
    if rs != [] {
      var init := rs[..|rs| - 1];
      KeptLabelsOrderFree(lbl, h, w, prm, init);
      assert rs == init + [rs[|rs| - 1]];
      assert forall r :: r in rs <==> r in init || r == rs[|rs| - 1];
    }
  }

  /** Visiting the same regions in any order paints the same labels. */
  lemma KeptLabelsPermutation(lbl: Grid, h: nat, w: nat, prm: Params, rs: seq<Region>, rs': seq<Region>)
    requires multiset(rs) == multiset(rs')
    ensures KeptLabels(lbl, h, w, prm, rs) == KeptLabels(lbl, h, w, prm, rs')
  {
    KeptLabelsOrderFree(lbl, h, w, prm, rs);
    KeptLabelsOrderFree(lbl, h, w, prm, rs');
    forall r ensures r in rs <==> r in rs' {
      assert r in rs <==> r in multiset(rs);
      assert r in rs' <==> r in multiset(rs');
    }
  }

  /** Every painted label belongs to a region inside the area bounds. */
  lemma {:induction false} KeptWithinBounds(lbl: Grid, h: nat, w: nat, prm: Params, rs: seq<Region>, l: int)
    requires l in KeptLabels(lbl, h, w, prm, rs)
    ensures prm.minSize <= Count(lbl, l) && Count(lbl, l) as real <= MaxBlobArea(prm, h, w)
  {
    KeptLabelsOrderFree(lbl, h, w, prm, rs);
    var r :| r in rs && KeepsRegion(lbl, h, w, prm, r) && r.id == l;
  }

  /** A small region inside the area bounds is painted whatever its thinness. */
  lemma {:induction false} SmallBlobKept(lbl: Grid, h: nat, w: nat, prm: Params, rs: seq<Region>, r: Region)
    requires r in rs
    requires prm.minSize <= Count(lbl, r.id) <= SmallBlobArea
    requires Count(lbl, r.id) as real <= MaxBlobArea(prm, h, w)
    ensures r.id in KeptLabels(lbl, h, w, prm, rs)
  {
    KeptLabelsOrderFree(lbl, h, w, prm, rs);
  }

  /** A thin region inside the area bounds is painted whatever its area. */
  lemma {:induction false} ThinBlobKept(lbl: Grid, h: nat, w: nat, prm: Params, rs: seq<Region>, r: Region)
    requires r in rs
    requires prm.minSize <= Count(lbl, r.id)
    requires Count(lbl, r.id) as real <= MaxBlobArea(prm, h, w)
    requires Thinness(r.axes) < prm.keepThinnessRatio
    ensures r.id in KeptLabels(lbl, h, w, prm, rs)
  {
    KeptLabelsOrderFree(lbl, h, w, prm, rs);
  }

  /** A large region inside the area bounds is painted exactly when it is thin. */
  lemma LargeBlobKeptIffThin(lbl: Grid, h: nat, w: nat, prm: Params, rs: seq<Region>, k: nat)
    requires DistinctLabels(rs) && k < |rs|
    requires prm.minSize <= Count(lbl, rs[k].id) && Count(lbl, rs[k].id) > SmallBlobArea
    requires Count(lbl, rs[k].id) as real <= MaxBlobArea(prm, h, w)
    ensures rs[k].id in KeptLabels(lbl, h, w, prm, rs) <==>
            Thinness(rs[k].axes) < prm.keepThinnessRatio
  {
    KeptLabelsOrderFree(lbl, h, w, prm, rs);
    OnlyRegionWithLabel(lbl, h, w, prm, rs, k);
  }

  /** A large region with a degenerate ellipse is never painted when the thinness ratio is at most 1. */
  lemma DegenerateLargeBlobDropped(lbl: Grid, h: nat, w: nat, prm: Params, rs: seq<Region>, k: nat)
    requires DistinctLabels(rs) && k < |rs|
    requires Degenerate(rs[k].axes) && prm.keepThinnessRatio <= 1.0
    requires Count(lbl, rs[k].id) > SmallBlobArea
    ensures rs[k].id !in KeptLabels(lbl, h, w, prm, rs)
  {
    KeptLabelsOrderFree(lbl, h, w, prm, rs);
    OnlyRegionWithLabel(lbl, h, w, prm, rs, k);
  }

  /** A region that fails the filter is not painted. */
  lemma DiscardedNotKept(lbl: Grid, h: nat, w: nat, prm: Params, rs: seq<Region>, k: nat)
    requires DistinctLabels(rs) && k < |rs|
    requires !KeepsRegion(lbl, h, w, prm, rs[k])
    ensures rs[k].id !in KeptLabels(lbl, h, w, prm, rs)
  {
    KeptLabelsOrderFree(lbl, h, w, prm, rs);
    OnlyRegionWithLabel(lbl, h, w, prm, rs, k);
  }

  /** A label no region carries (the background among them) is never painted. */
  lemma {:induction false} UnlistedLabelNotKept(lbl: Grid, h: nat, w: nat, prm: Params, rs: seq<Region>, l: int)
    requires forall r :: r in rs ==> r.id != l
    ensures l !in KeptLabels(lbl, h, w, prm, rs)
  {
    KeptLabelsOrderFree(lbl, h, w, prm, rs);
  }

  /** With a positive minimum size, a label that no pixel carries is never painted. */
  lemma AbsentLabelNotKept(lbl: Grid, h: nat, w: nat, prm: Params, rs: seq<Region>, l: int)
    requires prm.minSize >= 1
    requires forall i, j :: 0 <= i < |lbl| && 0 <= j < |lbl[i]| ==> lbl[i][j] != l
    ensures l !in KeptLabels(lbl, h, w, prm, rs)
  {
    CountZeroIff(lbl, l);
    if l in KeptLabels(lbl, h, w, prm, rs) {
      KeptWithinBounds(lbl, h, w, prm, rs, l);
    }
  }

  /** The regions carrying the label of rs[k] are rs[k] alone. */
  lemma OnlyRegionWithLabel(lbl: Grid, h: nat, w: nat, prm: Params, rs: seq<Region>, k: nat)
    requires DistinctLabels(rs) && k < |rs|
    ensures forall r :: r in rs && r.id == rs[k].id ==> r == rs[k]
  {
    forall r | r in rs && r.id == rs[k].id ensures r == rs[k] {
      var a :| 0 <= a < |rs| && rs[a] == r;
      assert a == k;
    }
  }
}
