/**
 * The multi-pass inpainting schedule: one fill and one erosion of the
 * working mask per radius, in the order the radii are given.
 *
 * The image-processing primitives (colour conversion, hole filling,
 * erosion by a 3×3 ellipse) are foreign code; they enter the model as the
 * function values of an `Ops` record, about which nothing is assumed unless
 * a lemma says so.
 */
module InpaintSchedule {
  import opened Grids

  /** The two hole-filling algorithms: fast marching and Navier-Stokes. */
  datatype Flag = Telea | NavierStokes

  /** The foreign primitives the schedule calls, over an image type I. */
  datatype Ops<!I> = Ops(
    isGray: I -> bool,                     // the image has two dimensions
    grayToBgr: I -> I,                     // one channel to three
    inpaint: (I, Grid, int, Flag) -> I,    // fill the nonzero pixels of the mask
    erode: Grid -> Grid                    // one erosion with a 3×3 ellipse
  )

  /** The algorithm chosen by name: "telea" selects fast marching, any other name Navier-Stokes. */
  function FlagFor(name: string): (f: Flag)
    ensures f == Telea <==> name == "telea"
    ensures f == NavierStokes <==> name != "telea"
  {
    if name == "telea" then Telea else NavierStokes
  }

  /** Python's int() of a real: truncation toward zero. */
  function TruncToInt(x: real): (n: int)
    ensures 0.0 <= x ==> n as real <= x < n as real + 1.0
    ensures x < 0.0 ==> n as real - 1.0 < x <= n as real
  {
    if x >= 0.0 then x.Floor else -((-x).Floor)
  }

  /** The image the passes start from: a grayscale input is first converted to three channels. */
  function ColorInput<I>(ops: Ops<I>, img: I): I
  {
    if ops.isGray(img) then ops.grayToBgr(img) else img
  }

  /** The mask eroded k times. */
  function Eroded<I>(ops: Ops<I>, m: Grid, k: nat): Grid
  {
    if k == 0 then m else ops.erode(Eroded(ops, m, k - 1))
  }

  /**
   * The image after the first k passes: pass i (counting from 0) fills with
   * radius int(radii[i]) under the mask eroded i times.
   */
  function AfterPasses<I>(ops: Ops<I>, img: I, mask: Grid, flag: Flag, radii: seq<real>, k: nat): I
    requires k <= |radii|
  {
    if k == 0 then img
    else ops.inpaint(AfterPasses(ops, img, mask, flag, radii, k - 1),
                     Eroded(ops, mask, k - 1), TruncToInt(radii[k - 1]), flag)
  }

  /** The reference reading of the schedule: fill with the first radius, erode, go on with the rest. */
  function Schedule<I>(ops: Ops<I>, img: I, mask: Grid, flag: Flag, radii: seq<real>): I
    decreases |radii|
  {
    if radii == [] then img
    else Schedule(ops, ops.inpaint(img, mask, TruncToInt(radii[0]), flag), ops.erode(mask),
                  flag, radii[1..])
  }

  /**
   * Inpaints img under mask once per radius. The working mask is a copy of
   * mask; mask itself is not in any modifies clause, so it is unchanged.
   */
  method InpaintMultiPass<I>(ops: Ops<I>, img: I, mask: array2<int>, methodName: string, radii: seq<real>)
    returns (res: I)
    ensures res == AfterPasses(ops, ColorInput(ops, img), GridOf(mask), FlagFor(methodName), radii, |radii|)
  {
    var src := img;
    if ops.isGray(src) {
      src := ops.grayToBgr(src);
    }
    res := src;
    var flag := FlagFor(methodName);
    var workingMask := GridOf(mask);
    for i := 0 to |radii|
      invariant res == AfterPasses(ops, src, GridOf(mask), flag, radii, i)
      invariant workingMask == Eroded(ops, GridOf(mask), i)
    {
      res := ops.inpaint(res, workingMask, TruncToInt(radii[i]), flag);
      workingMask := ops.erode(workingMask);
    }
  }

  lemma {:induction false} ErodedShift<I>(ops: Ops<I>, m: Grid, k: nat)
    ensures Eroded(ops, ops.erode(m), k) == Eroded(ops, m, k + 1)
  {
    if k > 0 {
      ErodedShift(ops, m, k - 1);
    }
  }

  lemma {:induction false} AfterPassesShift<I>(ops: Ops<I>, img: I, mask: Grid, flag: Flag, r: real,
                                               radii: seq<real>, k: nat)
    requires k <= |radii|
    ensures AfterPasses(ops, ops.inpaint(img, mask, TruncToInt(r), flag), ops.erode(mask), flag, radii, k)
         == AfterPasses(ops, img, mask, flag, [r] + radii, k + 1)
  {
    if k > 0 {
      AfterPassesShift(ops, img, mask, flag, r, radii, k - 1);
      ErodedShift(ops, mask, k - 1);
      assert ([r] + radii)[k] == radii[k - 1];
    }
  }

  /** The loop's pass-by-pass state agrees with fill-then-erode-then-recurse. */
  lemma {:induction false} ScheduleIsPasses<I>(ops: Ops<I>, img: I, mask: Grid, flag: Flag, radii: seq<real>)
    ensures Schedule(ops, img, mask, flag, radii) == AfterPasses(ops, img, mask, flag, radii, |radii|)
    decreases |radii|
  {
    if radii != [] {
      var first := ops.inpaint(img, mask, TruncToInt(radii[0]), flag);
      ScheduleIsPasses(ops, first, ops.erode(mask), flag, radii[1..]);
      AfterPassesShift(ops, img, mask, flag, radii[0], radii[1..], |radii| - 1);
      assert [radii[0]] + radii[1..] == radii;
    }
  }

  /** Running the radii rs1 + rs2 is running rs1, then rs2 on a mask eroded |rs1| times. */
  lemma {:induction false} ScheduleAppend<I>(ops: Ops<I>, img: I, mask: Grid, flag: Flag,
                                             rs1: seq<real>, rs2: seq<real>)
    ensures Schedule(ops, img, mask, flag, rs1 + rs2)
         == Schedule(ops, Schedule(ops, img, mask, flag, rs1), Eroded(ops, mask, |rs1|), flag, rs2)
    decreases |rs1|
  {
    if rs1 == [] {
      assert rs1 + rs2 == rs2;
    } else {
      var first := ops.inpaint(img, mask, TruncToInt(rs1[0]), flag);
      assert (rs1 + rs2)[0] == rs1[0];
      assert (rs1 + rs2)[1..] == rs1[1..] + rs2;
      ScheduleAppend(ops, first, ops.erode(mask), flag, rs1[1..], rs2);
      ErodedShift(ops, mask, |rs1| - 1);
    }
  }

  /** The first k passes use only the first k radii. */
  lemma {:induction false} AfterPassesPrefix<I>(ops: Ops<I>, img: I, mask: Grid, flag: Flag,
                                                radii: seq<real>, k: nat)
    requires k <= |radii|
    ensures AfterPasses(ops, img, mask, flag, radii, k) == AfterPasses(ops, img, mask, flag, radii[..k], k)
    decreases k
  {
    if k > 0 {
      AfterPassesPrefix(ops, img, mask, flag, radii, k - 1);
      AfterPassesPrefix(ops, img, mask, flag, radii[..k], k - 1);
      assert radii[..k][..k - 1] == radii[..k - 1];
    }
  }

  lemma {:induction false} ErodedFixpoint<I>(ops: Ops<I>, m: Grid, k: nat)
    requires ops.erode(m) == m
    ensures Eroded(ops, m, k) == m
  {
    if k > 0 {
      ErodedFixpoint(ops, m, k - 1);
    }
  }

  /**
   * An empty mask leaves the image as it is: if filling under m changes
   * nothing and eroding m gives m, every schedule returns its input.
   */
  lemma {:induction false} NoDefectStable<I>(ops: Ops<I>, img: I, m: Grid, flag: Flag, radii: seq<real>, k: nat)
    requires k <= |radii|
    requires ops.erode(m) == m
    requires forall x: I, r: int, f: Flag :: ops.inpaint(x, m, r, f) == x
    ensures AfterPasses(ops, img, m, flag, radii, k) == img
  {
    if k > 0 {
      NoDefectStable(ops, img, m, flag, radii, k - 1);
      ErodedFixpoint(ops, m, k - 1);
    }
  }

  /** If one erosion never adds marked pixels, the working mask shrinks pass over pass. */
  lemma {:induction false} MaskShrinks<I>(ops: Ops<I>, m: Grid, i: nat, j: nat)
    requires i <= j
    requires forall g :: Marked(ops.erode(g)) <= Marked(g)
    ensures Marked(Eroded(ops, m, j)) <= Marked(Eroded(ops, m, i))
  {
    if i < j {
      MaskShrinks(ops, m, i, j - 1);
    }
  }

  /** If a fill keeps an image's shape (size, channels), so does the whole schedule. */
  lemma {:induction false} ShapePreserved<I, S>(ops: Ops<I>, shape: I -> S, img: I, mask: Grid, flag: Flag,
                                                radii: seq<real>, k: nat)
    requires k <= |radii|
    requires forall x: I, m: Grid, r: int, f: Flag :: shape(ops.inpaint(x, m, r, f)) == shape(x)
    ensures shape(AfterPasses(ops, img, mask, flag, radii, k)) == shape(img)
  {
    if k > 0 {
      ShapePreserved(ops, shape, img, mask, flag, radii, k - 1);
    }
  }

  /** If one erosion keeps the mask h×w, every pass's working mask is h×w. */
  lemma {:induction false} ErodedKeepsShape<I>(ops: Ops<I>, m: Grid, h: nat, w: nat, k: nat)
    requires IsRect(m, h, w)
    requires forall g :: IsRect(g, h, w) ==> IsRect(ops.erode(g), h, w)
    ensures IsRect(Eroded(ops, m, k), h, w)
  {
    if k > 0 {
      ErodedKeepsShape(ops, m, h, w, k - 1);
    }
  }
}
