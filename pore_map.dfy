/**
 * The intensity-to-pore-width map `df` of process_downscale.py, over the reals.
 * x1 is the intensity of the solid phase, x2 that of the void phase.
 */
module PoreMap {

  /** Position of intensity x on the solid-to-void scale: 0 at x1, 1 at x2. */
  function Fraction(x: real, x1: real, x2: real): real
    requires x2 != x1
  {
    (x - x1) / (x2 - x1)
  }

  /** `df` divides by x2 - x1 only for intensities at or above x1. */
  predicate RampDefined(x: real, x1: real, x2: real) {
    x < x1 || x2 != x1
  }

  /**
   * Pore width for one pixel: nothing below the solid intensity, and from x1
   * upward the free parameter delta scaled by the pixel's solid-to-void position.
   */
  function PoreWidth(delta: real, x: real, x1: real, x2: real): (w: real)
    requires RampDefined(x, x1, x2)
    ensures x < x1 ==> w == 0.0
    ensures x >= x1 ==> w == delta * Fraction(x, x1, x2)
  {
    if x >= x1 then (delta / (x2 - x1)) * (x - x1) else 0.0
  }

  /** The void intensity sits at position 1. */
  lemma FractionAtVoid(x1: real, x2: real)
    requires x2 != x1
    ensures Fraction(x2, x1, x2) == 1.0
  {
    UnitQuotient(x2 - x1);
  }

  /** Multiplying the position back by the span recovers the offset from the solid intensity. */
  lemma FractionTimesSpan(x: real, x1: real, x2: real)
    requires x2 != x1
    ensures Fraction(x, x1, x2) * (x2 - x1) == x - x1
  {
  }

  lemma UnitQuotient(d: real)
    requires d != 0.0
    ensures d / d == 1.0
  {
  }

  /** Zero at the solid intensity and delta at the void intensity. */
  lemma PoreWidthEndpoints(delta: real, x1: real, x2: real)
    requires x2 > x1
    ensures PoreWidth(delta, x1, x1, x2) == 0.0
    ensures PoreWidth(delta, x2, x1, x2) == delta
  {
    FractionAtVoid(x1, x2);
  }

  /** Above x1 the map is affine: a step in intensity changes the width by delta times the step over x2 - x1. */
  lemma PoreWidthLinearAboveSolid(delta: real, x: real, y: real, x1: real, x2: real)
    requires x2 != x1 && x >= x1 && y >= x1
    ensures (PoreWidth(delta, y, x1, x2) - PoreWidth(delta, x, x1, x2)) * (x2 - x1) == delta * (y - x)
  {
    var d := x2 - x1;
    assert Fraction(y, x1, x2) * d == y - x1;
    assert Fraction(x, x1, x2) * d == x - x1;
    calc {
      (delta * Fraction(y, x1, x2) - delta * Fraction(x, x1, x2)) * d;
      delta * (Fraction(y, x1, x2) * d) - delta * (Fraction(x, x1, x2) * d);
      delta * (y - x1) - delta * (x - x1);
    }
  }

  /** With ordered phases and a non-negative parameter the width is non-negative. */
  lemma PoreWidthNonNegative(delta: real, x: real, x1: real, x2: real)
    requires x2 > x1 && delta >= 0.0
    ensures PoreWidth(delta, x, x1, x2) >= 0.0
  {
    if x >= x1 {
      FractionMonotone(x1, x, x1, x2);
    }
  }

  /** With ordered phases and a non-negative parameter, a brighter pixel never gets a narrower pore. */
  lemma PoreWidthMonotoneInIntensity(delta: real, x: real, y: real, x1: real, x2: real)
    requires x2 > x1 && delta >= 0.0 && x <= y
    ensures PoreWidth(delta, x, x1, x2) <= PoreWidth(delta, y, x1, x2)
  {
    PoreWidthNonNegative(delta, y, x1, x2);
    if x >= x1 {
      FractionMonotone(x, y, x1, x2);
      assert delta * Fraction(x, x1, x2) <= delta * Fraction(y, x1, x2);
    }
  }

  /** With ordered phases, a larger parameter never gives a narrower pore at any pixel. */
  lemma PoreWidthMonotoneInDelta(delta: real, delta': real, x: real, x1: real, x2: real)
    requires x2 > x1 && delta <= delta'
    ensures PoreWidth(delta, x, x1, x2) <= PoreWidth(delta', x, x1, x2)
  {
    if x >= x1 {
      FractionMonotone(x1, x, x1, x2);
      assert delta * Fraction(x, x1, x2) <= delta' * Fraction(x, x1, x2);
    }
  }

  lemma FractionMonotone(x: real, y: real, x1: real, x2: real)
    requires x2 > x1 && x <= y
    ensures Fraction(x, x1, x2) <= Fraction(y, x1, x2)
    ensures Fraction(x1, x1, x2) == 0.0
  {
    assert (Fraction(y, x1, x2) - Fraction(x, x1, x2)) * (x2 - x1) == y - x;
  }
}
