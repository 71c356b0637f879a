/**
 * The region-area stage of process_downscale.py (lines 177-191): a shared buffer
 * of nreg doubles, and `measure_area(i)`, which stores the area of region i in
 * pixels of the original image, `area / (scale * scale)`. The worker pool
 * runs `measure_area` once per index; here the indices are visited in order.
 */
module Areas {

  /** Area of one region in original-image pixels. */
  function NormalizedArea(area: nat, scale: int): (a: real)
    requires scale != 0
    ensures a * (scale * scale) as real == area as real
    ensures a >= 0.0
  {
    area as real / (scale * scale) as real
  }

  /** The contents the area buffer is meant to hold once every region is measured. */
  function NormalizedAreas(areas: seq<nat>, scale: int): (s: seq<real>)
    requires scale != 0
    ensures |s| == |areas|
    ensures forall i :: 0 <= i < |areas| ==> s[i] == NormalizedArea(areas[i], scale)
  {
    seq(|areas|, i requires 0 <= i < |areas| => NormalizedArea(areas[i], scale))
  }

  function Sum(s: seq<real>): real {
    if |s| == 0 then 0.0 else s[0] + Sum(s[1..])
  }

  function SumNat(s: seq<nat>): nat {
    if |s| == 0 then 0 else s[0] + SumNat(s[1..])
  }

  /** Scaling the normalised areas back by scale * scale gives the total pixel count of all regions. */
  lemma {:induction false} NormalizedAreasTotal(areas: seq<nat>, scale: int)
    requires scale != 0
    ensures Sum(NormalizedAreas(areas, scale)) * (scale * scale) as real == SumNat(areas) as real
  {
    if |areas| > 0 {
      var k := (scale * scale) as real;
      var s := NormalizedAreas(areas, scale);
      assert s[1..] == NormalizedAreas(areas[1..], scale);
      NormalizedAreasTotal(areas[1..], scale);
      calc {
        Sum(s) * k;
        s[0] * k + Sum(s[1..]) * k;
        areas[0] as real + SumNat(areas[1..]) as real;
      }
    }
  }

  /**
   * The shared array `area_arr` (an `mp.Array` of doubles, zero-initialised). Each
   * index may be written by one worker only; `written` records the indices stored.
   */
  class AreaBuffer {
    const values: array<real>
    ghost var written: set<int>

    /** Only indices of the array are written, and every index not yet written still holds 0. */
    ghost predicate Valid()
      reads this, values
    {
      (forall i :: i in written ==> 0 <= i < values.Length) &&
      (forall i :: 0 <= i < values.Length && i !in written ==> values[i] == 0.0)
    }

    constructor (nreg: nat)
      ensures Valid() && fresh(values)
      ensures values.Length == nreg && written == {}
      ensures forall i :: 0 <= i < nreg ==> values[i] == 0.0
    {
      values := new real[nreg](_ => 0.0);
      written := {};
    }

    /** Store x at index i, which no worker has written yet; nothing else changes. */
    method Store(i: int, x: real)
      requires Valid() && 0 <= i < values.Length && i !in written
      modifies this, values
      ensures Valid()
      ensures written == old(written) + {i}
      ensures values[..] == old(values[..])[i := x]
    {
      values[i] := x;
      written := written + {i};
    }
  }

  /** `measure_area(i)`: store the normalised area of region i at index i. */
  method MeasureArea(buffer: AreaBuffer, areas: seq<nat>, scale: int, i: int)
    requires buffer.Valid() && buffer.values.Length == |areas| && scale != 0
    requires 0 <= i < |areas| && i !in buffer.written
    modifies buffer, buffer.values
    ensures buffer.Valid()
    ensures buffer.written == old(buffer.written) + {i}
    ensures buffer.values[..] == old(buffer.values[..])[i := NormalizedArea(areas[i], scale)]
  {
    buffer.Store(i, areas[i] as real / (scale * scale) as real);
  }

  /**
   * Lines 179-191: size the buffer to the number of regions, then measure every
   * region. Every index is written exactly once, and the buffer ends up holding
   * the normalised areas.
   */
  method MeasureAreas(areas: seq<nat>, scale: int) returns (buffer: AreaBuffer)
    requires scale != 0
    ensures fresh(buffer) && fresh(buffer.values)
    ensures buffer.Valid()
    ensures forall i :: i in buffer.written <==> 0 <= i < |areas|
    ensures buffer.values[..] == NormalizedAreas(areas, scale)
  {
    var nreg := |areas|;
    buffer := new AreaBuffer(nreg);
    for i := 0 to nreg
      invariant buffer.Valid() && buffer.values.Length == nreg
      invariant forall k :: k in buffer.written <==> 0 <= k < i
      invariant buffer.values[..i] == NormalizedAreas(areas, scale)[..i]
    {
      MeasureArea(buffer, areas, scale, i);
    }
  }
}
