/**
 * Intensity normalisation of process_downscale.py (lines 145 and 168):
 * `np.invert` on a 16-bit pixel, divided by the largest 16-bit value, so that
 * the void phase is brighter than the solid phase and intensities lie in [0, 1].
 */
module Intensity {
  import opened Grids

  /** `np.iinfo(np.uint16).max`. */
  const Uint16Max: real := 65535.0

  /** An unsigned 16-bit pixel value. */
  newtype Uint16 = x: int | 0 <= x < 0x1_0000

  function Pow2(n: nat): (p: nat)
    ensures p >= 1
  {
    if n == 0 then 1 else 2 * Pow2(n - 1)
  }

  lemma Pow2Of16()
    ensures Pow2(16) == 0x1_0000
  {
    assert Pow2(4) == 16;
    assert Pow2(8) == 256;
    assert Pow2(12) == 4096;
  }

  /** Bitwise complement of the low `width` bits of x, one bit at a time. */
  function Complement(x: nat, width: nat): nat {
    if width == 0 then 0 else (1 - x % 2) + 2 * Complement(x / 2, width - 1)
  }

  /** Complementing every bit of a width-bit value subtracts it from the all-ones value. */
  lemma {:induction false} ComplementValue(x: nat, width: nat)
    requires x < Pow2(width)
    ensures Complement(x, width) == Pow2(width) - 1 - x
  {
    if width > 0 {
      ComplementValue(x / 2, width - 1);
    }
  }

  /** `np.invert` on an unsigned 16-bit value. */
  function Invert16(raw: Uint16): (r: Uint16)
    ensures r as int == 65535 - raw as int
  {
    Pow2Of16();
    ComplementValue(raw as nat, 16);
    Complement(raw as nat, 16) as Uint16
  }

  /** One pixel of `np.invert(image) / ii16`. */
  function NormalizeIntensity(raw: Uint16): (x: real)
    ensures 0.0 <= x <= 1.0
    ensures x * Uint16Max == (65535 - raw as int) as real
  {
    Invert16(raw) as int as real / Uint16Max
  }

  /** Inversion reverses order: a larger raw value gives a smaller normalised intensity. */
  lemma NormalizeIntensityReversesOrder(a: Uint16, b: Uint16)
    requires a < b
    ensures NormalizeIntensity(b) < NormalizeIntensity(a)
  {
    assert NormalizeIntensity(b) * Uint16Max < NormalizeIntensity(a) * Uint16Max;
  }

  /** The raw extremes map to the ends of [0, 1]. */
  lemma NormalizeIntensityEndpoints()
    ensures NormalizeIntensity(0) == 1.0
    ensures NormalizeIntensity(0xFFFF) == 0.0
  {
  }

  /** Line 168: every pixel of the raw image normalised. */
  function NormalizeImage(raw: Grid<Uint16>): (image: Grid<real>)
    ensures |image| == |raw| && forall i :: 0 <= i < |raw| ==> |image[i]| == |raw[i]|
    ensures forall i, j :: 0 <= i < |raw| && 0 <= j < |raw[i]| ==>
      image[i][j] == NormalizeIntensity(raw[i][j]) && 0.0 <= image[i][j] <= 1.0
  {
    seq(|raw|, i requires 0 <= i < |raw| =>
      seq(|raw[i]|, j requires 0 <= j < |raw[i]| => NormalizeIntensity(raw[i][j])))
  }
}
