/**
 * The deterministic part of `downscale_image` in process_downscale.py: the
 * pore-width field filled cell by cell, the two output buffers allocated at
 * `scale` times the resolution, and the residual porosity of what the
 * rasterisation kernel leaves in them.
 */
module Downscaling {
  import opened Wrappers
  import opened Grids
  import opened PoreMap
  import opened PorosityEstimator

  /** The neighbourhood parameter the source always passes to the kernel. */
  const KernelConnectivity: int := 3

  /** The contents the kernel leaves in the image buffer and the mask buffer. */
  datatype Raster = Raster(imagedown: Grid<int>, maskdown: Grid<int>)

  /**
   * The rasterisation kernel `down.downscale(porewidth, mask, connectivity, imagedown, maskdown)`,
   * seen as a deterministic function of its arguments that yields the new buffer contents.
   */
  type Rasterizer = (Grid<real>, Grid<int>, int, Grid<int>, Grid<int>) -> Raster

  /** The kernel writes into the buffers it is given, so their shapes are kept. */
  ghost predicate FillsInPlace(rasterize: Rasterizer) {
    forall pw, m, c, a, b :: SameShape(a, b) ==>
      SameShape(rasterize(pw, m, c, a, b).imagedown, a) && SameShape(rasterize(pw, m, c, a, b).maskdown, b)
  }

  /** Result of `downscale_image`: the residual alone when rf is true, else the residual and the image. */
  datatype DownscaleResult =
    | Scalar(residual: Option<real>)
    | WithImage(residual: Option<real>, imagedown: Grid<int>)

  /** `df` may be applied to every pixel of the image. */
  predicate RampDefinedOn(image: Grid<real>, x1: real, x2: real) {
    forall i, j :: 0 <= i < |image| && 0 <= j < |image[i]| ==> RampDefined(image[i][j], x1, x2)
  }

  /** The pore-width field: `df` applied to every pixel. */
  function PoreWidthGrid(delta: real, image: Grid<real>, x1: real, x2: real): (pw: Grid<real>)
    requires RampDefinedOn(image, x1, x2)
    ensures |pw| == |image| && forall i :: 0 <= i < |image| ==> |pw[i]| == |image[i]|
    ensures forall i, j :: 0 <= i < |image| && 0 <= j < |image[i]| ==> pw[i][j] == PoreWidth(delta, image[i][j], x1, x2)
  {
    seq(|image|, i requires 0 <= i < |image| =>
      seq(|image[i]|, j requires 0 <= j < |image[i]| => PoreWidth(delta, image[i][j], x1, x2)))
  }

  /**
   * Where no valid pixel is darker than the solid phase, the mean pore width over
   * the valid cells is delta times the porosity: the free parameter scales the
   * porosity estimate into a pore width.
   */
  lemma MeanPoreWidthIsScaledPorosity(delta: real, image: Grid<real>, mask: Grid<int>, x1: real, x2: real)
    requires SameShape(image, mask) && x2 != x1
    requires forall i, j :: 0 <= i < |mask| && 0 <= j < |mask[i]| && mask[i][j] != 0 ==> image[i][j] >= x1
    ensures SameShape(PoreWidthGrid(delta, image, x1, x2), mask)
    ensures |Flatten(PoreWidthGrid(delta, image, x1, x2))| == |Flatten(mask)|
    ensures var mean := MaskedMean(Flatten(PoreWidthGrid(delta, image, x1, x2)), Flatten(mask));
      var p := Porosity(image, mask, x1, x2);
      (mean.None? <==> p.None?) && (p.Some? ==> mean.value == delta * p.value)
  {
    var pw := PoreWidthGrid(delta, image, x1, x2);
    assert |pw| > 0 ==> Width(pw) == Width(image);
    FlattenPoreWidth(delta, image, x1, x2);
    var valid := (x: real, c: int) => c != 0 ==> x >= x1;
    FlattenPairwise(image, mask, valid);
    var u, m := Flatten(image), Flatten(mask);
    assert forall k :: 0 <= k < |m| && m[k] != 0 ==> u[k] >= x1 by {
      forall k | 0 <= k < |m| && m[k] != 0 ensures u[k] >= x1 {
        assert valid(u[k], m[k]);
      }
    }
    ValidWidthsOnRamp(delta, Flatten(pw), u, m, x1, x2);
    MaskedMeanOfScaledFractions(Flatten(pw), u, m, delta, x1, x2);
  }

  /** Flattening the pore-width field gives `df` of every flattened pixel. */
  lemma FlattenPoreWidth(delta: real, image: Grid<real>, x1: real, x2: real)
    requires x2 != x1
    ensures |Flatten(PoreWidthGrid(delta, image, x1, x2))| == |Flatten(image)|
    ensures forall k :: 0 <= k < |Flatten(image)| ==>
      Flatten(PoreWidthGrid(delta, image, x1, x2))[k] == PoreWidth(delta, Flatten(image)[k], x1, x2)
  {
    var width := x => PoreWidth(delta, x, x1, x2);
    GridEquality(PoreWidthGrid(delta, image, x1, x2), MapGrid(image, width));
    FlattenMap(image, width);
  }

  lemma ValidWidthsOnRamp(delta: real, v: seq<real>, u: seq<real>, m: seq<int>, x1: real, x2: real)
    requires |v| == |u| == |m| && x2 != x1
    requires forall k :: 0 <= k < |u| ==> v[k] == PoreWidth(delta, u[k], x1, x2)
    requires forall k :: 0 <= k < |m| && m[k] != 0 ==> u[k] >= x1
    ensures forall k :: 0 <= k < |m| && m[k] != 0 ==> v[k] == delta * Fraction(u[k], x1, x2)
  {
  }

  lemma MaskedMeanOfScaledFractions(v: seq<real>, u: seq<real>, m: seq<int>, c: real, x1: real, x2: real)
    requires |v| == |u| == |m| && x2 != x1
    requires forall k :: 0 <= k < |m| && m[k] != 0 ==> v[k] == c * Fraction(u[k], x1, x2)
    ensures MaskedMean(v, m).None? <==> MaskedMean(Fractions(u, x1, x2), m).None?
    ensures MaskedMean(Fractions(u, x1, x2), m).Some? ==>
      MaskedMean(v, m).value == c * MaskedMean(Fractions(u, x1, x2), m).value
  {
    var f := Fractions(u, x1, x2);
    var w := seq(|f|, k requires 0 <= k < |f| => c * f[k]);
    forall k | 0 <= k < |m| && m[k] != 0 ensures v[k] == w[k] {
      assert f[k] == Fraction(u[k], x1, x2);
    }
    MaskedMeanIgnoresMasked(v, w, m);
    MaskedMeanScale(f, w, m, c);
  }

  /** A larger free parameter never narrows any pore of the field. */
  lemma PoreWidthGridMonotoneInDelta(delta: real, delta': real, image: Grid<real>, x1: real, x2: real)
    requires x2 > x1 && delta <= delta'
    ensures forall i, j :: 0 <= i < |image| && 0 <= j < |image[i]| ==>
      PoreWidthGrid(delta, image, x1, x2)[i][j] <= PoreWidthGrid(delta', image, x1, x2)[i][j]
  {
    forall i, j | 0 <= i < |image| && 0 <= j < |image[i]|
      ensures PoreWidthGrid(delta, image, x1, x2)[i][j] <= PoreWidthGrid(delta', image, x1, x2)[i][j]
    {
      PoreWidthMonotoneInDelta(delta, delta', image[i][j], x1, x2);
    }
  }

  /** Every cell of an integer grid as a real (numpy's mean of an int32 array is a float). */
  function AsReals(g: Grid<int>): (r: Grid<real>)
    ensures |r| == |g| && forall i :: 0 <= i < |g| ==> |r[i]| == |g[i]|
    ensures forall i, j :: 0 <= i < |g| && 0 <= j < |g[i]| ==> r[i][j] == g[i][j] as real
  {
    seq(|g|, i requires 0 <= i < |g| => seq(|g[i]|, j requires 0 <= j < |g[i]| => g[i][j] as real))
  }

  /** Every valid cell of the image is 0 or 1. */
  predicate BinaryOnValid(imagedown: Grid<int>, maskdown: Grid<int>) {
    forall i, j :: 0 <= i < |maskdown| && 0 <= j < |maskdown[i]| && maskdown[i][j] != 0 ==>
      i < |imagedown| && j < |imagedown[i]| && 0 <= imagedown[i][j] <= 1
  }

  /**
   * Lines 105-113: the mean of the image buffer over the cells where the mask buffer
   * is non-zero, minus the target porosity fi; None when no cell is valid (numpy's
   * `masked`, or `nan` when the buffers have no cell).
   */
  function DownscaleResidual(imagedown: Grid<int>, maskdown: Grid<int>, fi: real, rf: bool): (r: DownscaleResult)
    requires SameShape(imagedown, maskdown)
    ensures r.Scalar? <==> rf
    ensures r.WithImage? ==> r.imagedown == imagedown
    ensures r.residual.None? <==> NoValidCell(maskdown)
  {
    FlattenPairwise(AsReals(imagedown), maskdown, (x: real, c: int) => true);
    FlattenAllZero(maskdown);
    var mean := MaskedMean(Flatten(AsReals(imagedown)), Flatten(maskdown));
    var residual := if mean.None? then None else Some(mean.value - fi);
    if rf then Scalar(residual) else WithImage(residual, imagedown)
  }

  /** The residual is the porosity of the upscaled image (with x1 = 0, x2 = 1) minus the target. */
  lemma ResidualIsPorosityShift(imagedown: Grid<int>, maskdown: Grid<int>, fi: real, rf: bool)
    requires SameShape(imagedown, maskdown)
    ensures SameShape(AsReals(imagedown), maskdown)
    ensures var p := Porosity(AsReals(imagedown), maskdown, 0.0, 1.0);
      DownscaleResidual(imagedown, maskdown, fi, rf).residual == if p.None? then None else Some(p.value - fi)
  {
    var g := AsReals(imagedown);
    assert |g| > 0 ==> Width(g) == Width(imagedown);
    FlattenPairwise(g, maskdown, (x: real, c: int) => true);
    var v := Flatten(g);
    assert Fractions(v, 0.0, 1.0) == v;
  }

  /** When the kernel leaves a 0/1 image, the residual lies in [-fi, 1 - fi]. */
  lemma ResidualBounds(imagedown: Grid<int>, maskdown: Grid<int>, fi: real, rf: bool)
    requires SameShape(imagedown, maskdown)
    requires BinaryOnValid(imagedown, maskdown)
    ensures var r := DownscaleResidual(imagedown, maskdown, fi, rf).residual;
      r.Some? ==> -fi <= r.value <= 1.0 - fi
  {
    var g := AsReals(imagedown);
    assert |g| > 0 ==> Width(g) == Width(imagedown);
    var inUnit := (x: real, c: int) => c != 0 ==> 0.0 <= x <= 1.0;
    FlattenPairwise(g, maskdown, inUnit);
    var v, m := Flatten(g), Flatten(maskdown);
    forall k | 0 <= k < |m| && m[k] != 0
      ensures 0.0 <= v[k] <= 1.0
    {
      assert inUnit(v[k], m[k]);
    }
    MaskedMeanBounds(v, m, 0.0, 1.0);
  }

  /**
   * Lines 98-99 before the kernel runs: an all-zero image under an all-ones mask
   * has residual -fi, or None when the buffers have no cell (numpy gives `nan` there).
   */
  lemma ResidualOfFreshBuffers(nRow: nat, nCol: nat, fi: real, rf: bool)
    ensures SameShape(Constant(nRow, nCol, 0), Constant(nRow, nCol, 1))
    ensures DownscaleResidual(Constant(nRow, nCol, 0), Constant(nRow, nCol, 1), fi, rf).residual
      == if nRow * nCol == 0 then None else Some(-fi)
  {
    var image, mask := Constant(nRow, nCol, 0), Constant(nRow, nCol, 1);
    var g := AsReals(image);
    assert |g| > 0 ==> Width(g) == Width(image);
    var isZero := (x: real, c: int) => x == 0.0;
    FlattenPairwise(g, mask, isZero);
    var v, m := Flatten(g), Flatten(mask);
    forall k | 0 <= k < |m| ensures v[k] == 0.0 {
      assert isZero(v[k], m[k]);
    }
    MaskedMeanBounds(v, m, 0.0, 0.0);
    if nRow > 0 && nCol > 0 {
      assert mask[0][0] == 1;
    }
  }

  /** Lines 89-94: the nested loop that fills `porewidth` with `df` of every pixel. */
  method FillPoreWidth(delta: real, image: Grid<real>, x1: real, x2: real) returns (porewidth: array2<real>)
    requires Rectangular(image)
    requires RampDefinedOn(image, x1, x2)
    ensures fresh(porewidth)
    ensures porewidth.Length0 == |image| && porewidth.Length1 == Width(image)
    ensures forall i, j :: 0 <= i < |image| && 0 <= j < Width(image) ==>
      porewidth[i, j] == PoreWidth(delta, image[i][j], x1, x2)
  {
    var nRow, nCol := |image|, Width(image);
    porewidth := new real[nRow, nCol]((i, j) => 0.0);
    for i := 0 to nRow
      invariant forall r, c :: 0 <= r < i && 0 <= c < nCol ==> porewidth[r, c] == PoreWidth(delta, image[r][c], x1, x2)
    {
      for j := 0 to nCol
        invariant forall r, c :: 0 <= r < i && 0 <= c < nCol ==> porewidth[r, c] == PoreWidth(delta, image[r][c], x1, x2)
        invariant forall c :: 0 <= c < j ==> porewidth[i, c] == PoreWidth(delta, image[i][c], x1, x2)
      {
        porewidth[i, j] := PoreWidth(delta, image[i][j], x1, x2);
      }
    }
  }

  /** Lines 98-99: the two output buffers, `scale` times larger in both directions; image all 0, mask all 1. */
  method AllocateDownscaled(nRow: nat, nCol: nat, scale: nat) returns (imagedown: array2<int>, maskdown: array2<int>)
    ensures fresh(imagedown) && fresh(maskdown)
    ensures imagedown.Length0 == maskdown.Length0 == nRow * scale
    ensures imagedown.Length1 == maskdown.Length1 == nCol * scale
    ensures forall i, j :: 0 <= i < nRow * scale && 0 <= j < nCol * scale ==> imagedown[i, j] == 0 && maskdown[i, j] == 1
  {
    maskdown := new int[nRow * scale, nCol * scale]((i, j) => 1);
    imagedown := new int[nRow * scale, nCol * scale]((i, j) => 0);
  }

  /**
   * Lines 55-113: fill the pore-width field, allocate the buffers, let the kernel
   * fill them, and report the residual (and the image when rf is false).
   */
  method DownscaleImage(delta: real, image: Grid<real>, mask: Grid<int>, x1: real, x2: real, fi: real,
                        scale: nat, rf: bool, rasterize: Rasterizer)
    returns (r: DownscaleResult)
    requires SameShape(image, mask)
    requires RampDefinedOn(image, x1, x2)
    requires FillsInPlace(rasterize)
    ensures var nRow, nCol := |image| * scale, Width(image) * scale;
      var out := rasterize(PoreWidthGrid(delta, image, x1, x2), mask, KernelConnectivity,
                           Constant(nRow, nCol, 0), Constant(nRow, nCol, 1));
      SameShape(out.imagedown, out.maskdown) &&
      r == DownscaleResidual(out.imagedown, out.maskdown, fi, rf)
  {
    var nRow, nCol := |image|, Width(image);
    var porewidth := FillPoreWidth(delta, image, x1, x2);
    var imagedown, maskdown := AllocateDownscaled(nRow, nCol, scale);
    ghost var zeros, ones := Constant(nRow * scale, nCol * scale, 0), Constant(nRow * scale, nCol * scale, 1);
    GridEquality(Cells(porewidth), PoreWidthGrid(delta, image, x1, x2));
    GridEquality(Cells(imagedown), zeros);
    GridEquality(Cells(maskdown), ones);
    var out := rasterize(Cells(porewidth), mask, KernelConnectivity, Cells(imagedown), Cells(maskdown));
    assert SameShape(zeros, ones);
    r := DownscaleResidual(out.imagedown, out.maskdown, fi, rf);
  }
}
