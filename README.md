# Porosity-preserving downscaling: a Dafny model

This project models the arithmetic core of `process_downscale.py`. That script turns a
grayscale micro-tomography image of a porous material into a binary image at `scale`
times the resolution, with the same porosity as the grayscale original.

The model works over Dafny's exact `real` numbers instead of machine floats. It covers:

- **`df`, the intensity-to-pore-width map** (module `PoreMap`). It is 0 below the
  solid-phase intensity `x1`. From `x1` upward it is a linear ramp that reaches the free
  parameter `delta` at the void-phase intensity `x2`. When `x2 > x1` it continues past
  `x2` on the same line, rising when `delta > 0`.
- **`porosity`, the masked mean** (modules `Grids`, `PorosityEstimator`). It is the mean
  of `(image - x1) / (x2 - x1)` over the cells whose mask entry is non-zero, taken over
  the row-major flattened arrays as numpy does. Masked cells are left out of the mean.
  They are not counted as zero.
- **The deterministic part of `downscale_image`** (module `Downscaling`):
  - the nested loop that fills the `porewidth` array from `df`;
  - the two output buffers, allocated `scale` times larger (image all 0, mask all 1);
  - the residual: the masked mean of the upscaled image minus the target porosity `fi`;
  - the `rf` flag, which selects the scalar result or the pair (residual, image).

  The compiled rasterisation kernel `down.downscale` is not visible. It becomes a
  function-valued parameter `rasterize` that yields the new buffer contents from
  `(porewidth, mask, 3, imagedown, maskdown)`. The one thing required of it is that it
  writes in place, so the buffer shapes are kept.
- **Area normalisation** (module `Areas`). A buffer of `nreg` doubles is filled so that
  index `i` holds `area[i] / scale²`. The class `AreaBuffer` keeps a ghost record of the
  indices written. Each index may be stored only once, which is the disjoint-write
  discipline the worker pool relies on.
- **Raw-intensity normalisation** (module `Intensity`). `np.invert` on a 16-bit pixel is
  modelled bit by bit as a complement. Dividing by 65535 gives `(65535 - raw) / 65535`.

Where no cell is valid, numpy does not raise: the masked mean has no value. It is
the `masked` constant when the arrays have cells but every one is masked, and `nan`
(with a "Mean of empty slice" warning) when the arrays have no cell at all, because
`masked_where` then yields no mask and `np.mean` falls back to the plain mean. The model
returns `None` in both cases. Division by `x2 - x1` is a precondition only where the
code divides. `df` divides only for intensities at or above `x1`, and `porosity`
divides for every cell.

## Model

| member | source | states |
|---|---|---|
| `PoreMap.PoreWidth` | process_downscale.py:32-35 | width is 0 for every x < x1; from x1 upward it is delta times the pixel's solid-to-void position (x - x1)/(x2 - x1) |
| `PoreMap.PoreWidthEndpoints` | process_downscale.py:32-35 | with x2 > x1 the width is 0 at x = x1 and exactly delta at x = x2 |
| `PoreMap.PoreWidthLinearAboveSolid` | process_downscale.py:32-35 | above x1 the map is affine: the width difference times (x2 - x1) is delta times the intensity difference, so it extrapolates linearly past x2 |
| `PoreMap.PoreWidthNonNegative` | process_downscale.py:32-35 | with x2 > x1 and delta ≥ 0 the width is never negative |
| `PoreMap.PoreWidthMonotoneInIntensity` | process_downscale.py:32-35 | with x2 > x1 and delta ≥ 0, a brighter pixel never gets a narrower pore |
| `PoreMap.PoreWidthMonotoneInDelta` | process_downscale.py:32-35 | with x2 > x1, a larger delta never gives a narrower pore at any pixel |
| `Grids.Flatten` | process_downscale.py:51-52 | row-major flattening of an nRow × nCol grid has nRow·nCol elements |
| `Grids.MaskedMean` | process_downscale.py:53 | the masked mean is undefined exactly when no mask entry is non-zero (numpy's `masked`, or `nan` for empty arrays) |
| `Grids.MaskedMeanBounds` | process_downscale.py:53 | if every unmasked value lies in [lo, hi], so does the masked mean |
| `Grids.MaskedMeanIgnoresMasked` | process_downscale.py:53 | values at masked positions never change the masked mean |
| `Grids.MaskedMeanScale` | process_downscale.py:53 | scaling every value by c scales the masked mean by c and keeps it defined or undefined |
| `PorosityEstimator.Porosity` | process_downscale.py:50-53 | the porosity is undefined exactly when no mask cell is valid |
| `PorosityEstimator.PorosityIgnoresMaskedCells` | process_downscale.py:50-53 | two images that agree on every valid cell have the same porosity, whatever the masked cells hold |
| `PorosityEstimator.PorosityInUnitInterval` | process_downscale.py:50-53 | if every valid intensity lies in [x1, x2] with x2 > x1, the porosity lies in [0, 1] |
| `PorosityEstimator.PorosityOfMeanIntensity` | process_downscale.py:50-53 | the porosity equals (mean − x1)/(x2 − x1), where mean is the masked mean intensity, and it is defined exactly when that mean is |
| `Downscaling.MeanPoreWidthIsScaledPorosity` | process_downscale.py:89-94 | when no valid pixel is darker than x1, the mean pore width over the valid cells is delta times the porosity |
| `Downscaling.PoreWidthGridMonotoneInDelta` | process_downscale.py:89-94 | a larger delta gives a pore-width field that is at least as large in every cell |
| `Downscaling.FillPoreWidth` | process_downscale.py:89-94 | a fresh array; after the nested loop it has the image's shape and cell (i, j) holds `df(delta, image[i, j], x1, x2)` |
| `Downscaling.AllocateDownscaled` | process_downscale.py:98-99 | two fresh buffers of shape (nRow·scale) × (nCol·scale), the image all 0 and the mask all 1 |
| `Downscaling.DownscaleResidual` | process_downscale.py:104-113 | returns the scalar alone exactly when rf is true and the kernel's image otherwise; the residual is undefined exactly when no cell of the upscaled mask is valid |
| `Downscaling.ResidualIsPorosityShift` | process_downscale.py:104-111 | the residual is the porosity of the upscaled image with x1 = 0 and x2 = 1, minus fi |
| `Downscaling.ResidualBounds` | process_downscale.py:104-111 | if the upscaled image is 0/1 on the valid cells, the residual lies in [−fi, 1 − fi] |
| `Downscaling.ResidualOfFreshBuffers` | process_downscale.py:98-111 | on the buffers as allocated (all 0 under an all-1 mask) the residual is −fi, or undefined when the buffers have no cell |
| `Downscaling.DownscaleImage` | process_downscale.py:55-113 | the result is the residual of what the kernel leaves in zero/one buffers of the scaled shape, given the `df` field of the image and the original mask |
| `Areas.NormalizedArea` | process_downscale.py:186 | the normalised area is non-negative and times scale² gives back the pixel area |
| `Areas.NormalizedAreasTotal` | process_downscale.py:179-191 | the sum of the normalised areas times scale² equals the total pixel area of all regions |
| `Areas.AreaBuffer.constructor` | process_downscale.py:180-181 | a fresh buffer of nreg zeros with no index written; every unwritten index holds 0 |
| `Areas.AreaBuffer.Store` | process_downscale.py:186 | stores at one index not yet written, marks it written, and leaves every other entry unchanged |
| `Areas.MeasureArea` | process_downscale.py:185-186 | `measure_area(i)` writes `area[i] / scale²` at index i only |
| `Areas.MeasureAreas` | process_downscale.py:179-191 | a fresh buffer of length nreg; every index in 0..nreg is written exactly once, and it holds `area[i] / scale²` at every i |
| `Intensity.ComplementValue` | process_downscale.py:168 | complementing each of the low `width` bits of x gives 2^width − 1 − x |
| `Intensity.Invert16` | process_downscale.py:168 | `np.invert` on a uint16 value is 65535 − raw |
| `Intensity.NormalizeIntensity` | process_downscale.py:168 | the normalised intensity lies in [0, 1] and times 65535 equals 65535 − raw |
| `Intensity.NormalizeIntensityReversesOrder` | process_downscale.py:168 | a larger raw value gives a strictly smaller normalised intensity |
| `Intensity.NormalizeIntensityEndpoints` | process_downscale.py:145-168 | raw 0 maps to 1 and raw 65535 maps to 0 |
| `Intensity.NormalizeImage` | process_downscale.py:168 | the normalised image has the raw image's shape and each cell is the normalised pixel, in [0, 1] |

## Left out

- The rasterisation kernel `down.downscale` (line 102) is compiled code that is not part of
  this model. It is a function parameter whose only stated property is that it keeps the
  buffer shapes. Nothing is claimed about its output values; `ResidualBounds` therefore
  takes "0/1-valued" as a hypothesis.
- `downscale` (lines 116-142) is not modelled as an operation. Its steps are the porosity
  target, a Brent root search over [0.2, 1.0] with relative tolerance 1e-5, a final
  `downscale_image` call with `rf = False`, labelling, region properties, and a log string.
  `scipy.optimize.brentq` is a library root finder, and its convergence is not part of
  this code. `skimage` `label` and `regionprops` are opaque; `MeasureAreas` takes the
  region areas as input.
- The monotonicity of the calibration objective in delta depends on the kernel.
  Only the monotonicity of `df` and of the pore-width field is proved.
- The `multiprocessing` pool, `mp.Array` and its ctypes view (lines 180-191) are
  concurrency plumbing. The per-index writes are a sequential loop over a pre-sized
  array. The ghost `written` set records that no index is written twice.
- File and image I/O (lines 150, 159, 161-162, 196-202), log strings and `print`
  (lines 135-138, 173-175, 193) and the average printed at line 193 are left out.
- The batch loop `for ii in range(0, 1)` (line 154) is a driver over I/O and is left out.
- IEEE floating point: all arithmetic is on exact reals, so no claim is bit-exact.
- A grid with zero rows has no column count here. numpy keeps the column count of a
  `(0, n)` array; the model reports 0 columns for it. No cell exists either way.
- `porosity` applies the fraction to the 2D array and then flattens it. The model flattens
  first and then applies the fraction, which gives the same sequence.
- A mean with no valid cell is numpy's `masked` constant when cells exist and `nan` when
  there is no cell (a `(0, n)` image in `porosity`, or `nRow * scale * nCol * scale == 0`
  in `downscale_image`). The model returns `None` for both. It does not tell the two
  apart, and it does not model how either flows through the arithmetic into `brentq`.
