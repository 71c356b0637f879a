/**
 * The porosity estimator `porosity` of process_downscale.py: the mean, over the
 * cells whose mask entry is non-zero, of each cell's position between the solid
 * intensity x1 and the void intensity x2.
 */
module PorosityEstimator {
  import opened Wrappers
  import opened Grids
  import opened PoreMap

  /** The solid-to-void position of every value (`(image - x1) / (x2 - x1)`). */
  function Fractions(v: seq<real>, x1: real, x2: real): (f: seq<real>)
    requires x2 != x1
    ensures |f| == |v|
    ensures forall k :: 0 <= k < |v| ==> f[k] == Fraction(v[k], x1, x2)
  {
    seq(|v|, k requires 0 <= k < |v| => Fraction(v[k], x1, x2))
  }

  /** No cell of the mask is valid. */
  predicate NoValidCell(mask: Grid<int>) {
    forall i, j :: 0 <= i < |mask| && 0 <= j < |mask[i]| ==> mask[i][j] == 0
  }

  /**
   * Masked mean of the solid-to-void positions of the image. When no mask cell is
   * valid the result is None: numpy's mean is `masked` when the arrays have cells,
   * and `nan` when they have none.
   */
  function Porosity(image: Grid<real>, mask: Grid<int>, x1: real, x2: real): (r: Option<real>)
    requires SameShape(image, mask)
    requires x2 != x1
    ensures r.None? <==> NoValidCell(mask)
  {
    FlattenAllZero(mask);
    MaskedMean(Fractions(Flatten(image), x1, x2), Flatten(mask))
  }

  lemma {:induction false} FlattenAllZero(m: Grid<int>)
    ensures NoValidCell(m) <==> forall k :: 0 <= k < |Flatten(m)| ==> Flatten(m)[k] == 0
  {
    if |m| > 0 {
      var m', f := m[1..], Flatten(m);
      FlattenAllZero(m');
      assert f == m[0] + Flatten(m');
      assert NoValidCell(m) <==> NoValidCell(m') && forall j :: 0 <= j < |m[0]| ==> m[0][j] == 0 by {
        assert forall i :: 1 <= i < |m| ==> m[i] == m'[i - 1];
      }
      if forall k :: 0 <= k < |f| ==> f[k] == 0 {
        assert forall j :: 0 <= j < |m[0]| ==> m[0][j] == f[j];
        assert forall k :: 0 <= k < |Flatten(m')| ==> Flatten(m')[k] == f[k + |m[0]|];
      }
    }
  }

  /** Changing cells whose mask entry is 0 never changes the porosity. */
  lemma PorosityIgnoresMaskedCells(image: Grid<real>, image': Grid<real>, mask: Grid<int>, x1: real, x2: real)
    requires SameShape(image, mask) && SameShape(image', mask) && x2 != x1
    requires forall i, j :: 0 <= i < |mask| && 0 <= j < |mask[i]| && mask[i][j] != 0 ==> image[i][j] == image'[i][j]
    ensures Porosity(image, mask, x1, x2) == Porosity(image', mask, x1, x2)
  {
    FlattenAgreeUnmasked(image, image', mask);
    MaskedSumIgnoresMasked(Fractions(Flatten(image), x1, x2), Fractions(Flatten(image'), x1, x2), Flatten(mask));
  }

  /** If every valid intensity lies between the solid and void intensities, the porosity lies in [0, 1]. */
  lemma PorosityInUnitInterval(image: Grid<real>, mask: Grid<int>, x1: real, x2: real)
    requires SameShape(image, mask) && x2 > x1
    requires forall i, j :: 0 <= i < |mask| && 0 <= j < |mask[i]| && mask[i][j] != 0 ==> x1 <= image[i][j] <= x2
    ensures Porosity(image, mask, x1, x2).Some? ==> 0.0 <= Porosity(image, mask, x1, x2).value <= 1.0
  {
    var inPhases := (x: real, c: int) => c != 0 ==> x1 <= x <= x2;
    FlattenPairwise(image, mask, inPhases);
    var v, m := Flatten(image), Flatten(mask);
    assert forall k :: 0 <= k < |m| && m[k] != 0 ==> x1 <= v[k] <= x2 by {
      forall k | 0 <= k < |m| && m[k] != 0 ensures x1 <= v[k] <= x2 {
        assert inPhases(v[k], m[k]);
      }
    }
    FractionsInUnitInterval(v, m, x1, x2);
    MaskedMeanBounds(Fractions(v, x1, x2), m, 0.0, 1.0);
  }

  lemma FractionsInUnitInterval(v: seq<real>, m: seq<int>, x1: real, x2: real)
    requires |v| == |m| && x2 > x1
    requires forall k :: 0 <= k < |m| && m[k] != 0 ==> x1 <= v[k] <= x2
    ensures forall k :: 0 <= k < |m| && m[k] != 0 ==> 0.0 <= Fractions(v, x1, x2)[k] <= 1.0
  {
    FractionAtVoid(x1, x2);
    forall k | 0 <= k < |m| && m[k] != 0
      ensures 0.0 <= Fraction(v[k], x1, x2) <= 1.0
    {
      FractionMonotone(x1, v[k], x1, x2);
      FractionMonotone(v[k], x2, x1, x2);
    }
  }

  /** The porosity is the solid-to-void position of the masked mean intensity. */
  lemma PorosityOfMeanIntensity(image: Grid<real>, mask: Grid<int>, x1: real, x2: real)
    requires SameShape(image, mask) && x2 != x1
    ensures |Flatten(image)| == |Flatten(mask)|
    ensures var mean, p := MaskedMean(Flatten(image), Flatten(mask)), Porosity(image, mask, x1, x2);
      (p.None? <==> mean.None?) && (mean.Some? ==> p.value == Fraction(mean.value, x1, x2))
  {
    FlattenPairwise(image, mask, (x: real, c: int) => true);
    MaskedMeanOfFractions(Flatten(image), Flatten(mask), x1, x2);
  }

  lemma MaskedMeanOfFractions(v: seq<real>, m: seq<int>, x1: real, x2: real)
    requires |v| == |m| && x2 != x1
    ensures var mean, p := MaskedMean(v, m), MaskedMean(Fractions(v, x1, x2), m);
      (p.None? <==> mean.None?) && (mean.Some? ==> p.value == Fraction(mean.value, x1, x2))
  {
    if MaskedCount(m) > 0 {
      var n, s, sf := MaskedCount(m) as real, MaskedSum(v, m), MaskedFractionSum(v, m, x1, x2);
      MaskedSumOfFractions(v, m, x1, x2);
      MaskedFractionSumAffine(v, m, x1, x2);
      MeanShift(s, sf, n, x1, x2);
      assert MaskedMean(v, m).value == s / n;
      assert MaskedMean(Fractions(v, x1, x2), m).value == sf / n;
    }
  }

  lemma MeanShift(s: real, sf: real, n: real, x1: real, x2: real)
    requires n > 0.0 && x2 != x1 && sf * (x2 - x1) == s - n * x1
    ensures sf / n == Fraction(s / n, x1, x2)
  {
    var mean, d := s / n, x2 - x1;
    assert s == mean * n;
    assert sf * d == (mean - x1) * n;
    assert sf == (mean - x1) * n / d;
    assert sf / n == (mean - x1) / d;
  }

  /** Sum of the solid-to-void positions of the unmasked values. */
  function MaskedFractionSum(v: seq<real>, m: seq<int>, x1: real, x2: real): real
    requires |v| == |m| && x2 != x1
  {
    if |v| == 0 then 0.0
    else (if m[0] != 0 then Fraction(v[0], x1, x2) else 0.0) + MaskedFractionSum(v[1..], m[1..], x1, x2)
  }

  lemma {:induction false} MaskedSumOfFractions(v: seq<real>, m: seq<int>, x1: real, x2: real)
    requires |v| == |m| && x2 != x1
    ensures MaskedSum(Fractions(v, x1, x2), m) == MaskedFractionSum(v, m, x1, x2)
  {
    if |v| > 0 {
      assert Fractions(v, x1, x2)[1..] == Fractions(v[1..], x1, x2);
      MaskedSumOfFractions(v[1..], m[1..], x1, x2);
    }
  }

  /** Scaled back by the span, the fraction sum is the masked intensity sum less x1 per valid value. */
  lemma {:induction false} MaskedFractionSumAffine(v: seq<real>, m: seq<int>, x1: real, x2: real)
    requires |v| == |m| && x2 != x1
    ensures MaskedFractionSum(v, m, x1, x2) * (x2 - x1) == MaskedSum(v, m) - MaskedCount(m) as real * x1
  {
    if |v| > 0 {
      MaskedFractionSumAffine(v[1..], m[1..], x1, x2);
      var head := if m[0] != 0 then Fraction(v[0], x1, x2) else 0.0;
      FractionTimesSpan(v[0], x1, x2);
      assert head * (x2 - x1) == if m[0] != 0 then v[0] - x1 else 0.0;
      Distribute(head, MaskedFractionSum(v[1..], m[1..], x1, x2), x2 - x1);
    }
  }

  lemma Distribute(a: real, b: real, d: real)
    ensures (a + b) * d == a * d + b * d
  {
  }
}
