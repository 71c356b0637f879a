/**
 * Two-dimensional grids (numpy 2D arrays taken as values), their row-major
 * flattening, and the masked mean that `np.mean(np.ma.masked_where(m == 0, v))`
 * computes over flattened arrays.
 */
module Grids {
  import opened Wrappers

  /** A grid as a sequence of rows. */
  type Grid<T> = seq<seq<T>>

  /** Number of columns (the second entry of numpy's `shape`). */
  function Width<T>(g: Grid<T>): nat {
    if |g| == 0 then 0 else |g[0]|
  }

  /** Every row has the same length. */
  predicate Rectangular<T>(g: Grid<T>) {
    forall i :: 0 <= i < |g| ==> |g[i]| == Width(g)
  }

  predicate SameShape<S, T>(a: Grid<S>, b: Grid<T>) {
    Rectangular(a) && Rectangular(b) && |a| == |b| && Width(a) == Width(b)
  }

  /** The nRow x nCol grid whose every cell is x (`np.zeros`, `np.ones`). */
  function Constant<T>(nRow: nat, nCol: nat, x: T): (g: Grid<T>)
    ensures Rectangular(g) && |g| == nRow && (nRow > 0 ==> Width(g) == nCol)
    ensures forall i, j :: 0 <= i < nRow && 0 <= j < |g[i]| ==> g[i][j] == x
  {
    seq(nRow, _ => seq(nCol, _ => x))
  }

  /** The contents of a two-dimensional array as a grid value. */
  function Cells<T>(a: array2<T>): (g: Grid<T>)
    reads a
    ensures |g| == a.Length0 && forall i :: 0 <= i < |g| ==> |g[i]| == a.Length1
    ensures forall i, j :: 0 <= i < a.Length0 && 0 <= j < a.Length1 ==> g[i][j] == a[i, j]
  {
    seq(a.Length0, i requires 0 <= i < a.Length0 reads a =>
      seq(a.Length1, j requires 0 <= j < a.Length1 reads a => a[i, j]))
  }

  /** Two grids with the same rows lengths and the same cells are equal. */
  lemma GridEquality<T>(a: Grid<T>, b: Grid<T>)
    requires |a| == |b| && forall i :: 0 <= i < |a| ==> |a[i]| == |b[i]|
    requires forall i, j :: 0 <= i < |a| && 0 <= j < |a[i]| ==> a[i][j] == b[i][j]
    ensures a == b
  {
    forall i | 0 <= i < |a| ensures a[i] == b[i] {
      assert a[i] == b[i];
    }
  }

  /** F applied to every element. */
  function MapSeq<S, T>(s: seq<S>, F: S -> T): (r: seq<T>)
    ensures |r| == |s| && forall k :: 0 <= k < |s| ==> r[k] == F(s[k])
  {
    seq(|s|, k requires 0 <= k < |s| => F(s[k]))
  }

  /** F applied to every cell. */
  function MapGrid<S, T>(g: Grid<S>, F: S -> T): (r: Grid<T>)
    ensures |r| == |g| && forall i :: 0 <= i < |g| ==> r[i] == MapSeq(g[i], F)
  {
    seq(|g|, i requires 0 <= i < |g| => MapSeq(g[i], F))
  }

  /** Row-major flattening, as numpy's `flatten` does. */
  function Flatten<T>(g: Grid<T>): (f: seq<T>)
    ensures Rectangular(g) ==> |f| == |g| * Width(g)
  {
    if |g| == 0 then []
    else
      assert Rectangular(g) && |g| > 1 ==> Width(g[1..]) == Width(g);
      g[0] + Flatten(g[1..])
  }

  /** Sum of v[k] over the positions k whose mask entry is non-zero. */
  function MaskedSum(v: seq<real>, m: seq<int>): real
    requires |v| == |m|
  {
    if |v| == 0 then 0.0
    else (if m[0] != 0 then v[0] else 0.0) + MaskedSum(v[1..], m[1..])
  }

  /** Number of positions whose mask entry is non-zero. */
  function MaskedCount(m: seq<int>): nat {
    if |m| == 0 then 0
    else (if m[0] != 0 then 1 else 0) + MaskedCount(m[1..])
  }

  /**
   * Mean of v over the unmasked positions; None when no position is unmasked: numpy's
   * `masked` when positions exist, `nan` when there is none.
   */
  function MaskedMean(v: seq<real>, m: seq<int>): (r: Option<real>)
    requires |v| == |m|
    ensures r.None? <==> forall k :: 0 <= k < |m| ==> m[k] == 0
  {
    MaskedCountZero(m);
    if MaskedCount(m) == 0 then None else Some(MaskedSum(v, m) / MaskedCount(m) as real)
  }

  lemma {:induction false} MaskedCountZero(m: seq<int>)
    ensures MaskedCount(m) == 0 <==> forall k :: 0 <= k < |m| ==> m[k] == 0
  {
    if |m| > 0 {
      MaskedCountZero(m[1..]);
      assert forall k :: 1 <= k < |m| ==> m[k] == m[1..][k - 1];
    }
  }

  /** Mapping every cell and then flattening is flattening and then mapping. */
  lemma {:induction false} FlattenMap<S, T>(g: Grid<S>, F: S -> T)
    ensures Flatten(MapGrid(g, F)) == MapSeq(Flatten(g), F)
  {
    if |g| > 0 {
      assert MapGrid(g, F)[1..] == MapGrid(g[1..], F);
      FlattenMap(g[1..], F);
      assert MapSeq(g[0] + Flatten(g[1..]), F) == MapSeq(g[0], F) + MapSeq(Flatten(g[1..]), F);
    }
  }

  /** A cell-wise relation between two grids of one shape holds position-wise after flattening both. */
  lemma {:induction false} FlattenPairwise<S, T>(a: Grid<S>, b: Grid<T>, P: (S, T) -> bool)
    requires SameShape(a, b)
    requires forall i, j :: 0 <= i < |a| && 0 <= j < |a[i]| ==> P(a[i][j], b[i][j])
    ensures |Flatten(a)| == |Flatten(b)|
    ensures forall k :: 0 <= k < |Flatten(a)| ==> P(Flatten(a)[k], Flatten(b)[k])
  {
    if |a| > 0 {
      var a', b' := a[1..], b[1..];
      assert |a'| > 0 ==> Width(a') == Width(a) && Width(b') == Width(b);
      FlattenPairwise(a', b', P);
      forall k | 0 <= k < |Flatten(a)|
        ensures P(Flatten(a)[k], Flatten(b)[k])
      {
        if k < |a[0]| {
          assert P(a[0][k], b[0][k]);
        } else {
          assert Flatten(a)[k] == Flatten(a')[k - |a[0]|];
          assert Flatten(b)[k] == Flatten(b')[k - |b[0]|];
        }
      }
    }
  }

  /** Two grids that agree on every unmasked cell agree on every unmasked position after flattening. */
  lemma {:induction false} FlattenAgreeUnmasked(a: Grid<real>, b: Grid<real>, m: Grid<int>)
    requires SameShape(a, m) && SameShape(b, m)
    requires forall i, j :: 0 <= i < |m| && 0 <= j < |m[i]| && m[i][j] != 0 ==> a[i][j] == b[i][j]
    ensures |Flatten(a)| == |Flatten(b)| == |Flatten(m)|
    ensures forall k :: 0 <= k < |Flatten(m)| && Flatten(m)[k] != 0 ==> Flatten(a)[k] == Flatten(b)[k]
  {
    if |m| > 0 {
      var a', b', m' := a[1..], b[1..], m[1..];
      assert |m'| > 0 ==> Width(a') == Width(a) && Width(b') == Width(b) && Width(m') == Width(m);
      FlattenAgreeUnmasked(a', b', m');
      forall k | 0 <= k < |Flatten(m)| && Flatten(m)[k] != 0
        ensures Flatten(a)[k] == Flatten(b)[k]
      {
        if k >= |m[0]| {
          assert Flatten(m)[k] == Flatten(m')[k - |m[0]|];
          assert Flatten(a)[k] == Flatten(a')[k - |a[0]|];
          assert Flatten(b)[k] == Flatten(b')[k - |b[0]|];
        }
      }
    }
  }

  /** Values at masked positions never change the masked sum. */
  lemma {:induction false} MaskedSumIgnoresMasked(v: seq<real>, w: seq<real>, m: seq<int>)
    requires |v| == |w| == |m|
    requires forall k :: 0 <= k < |m| && m[k] != 0 ==> v[k] == w[k]
    ensures MaskedSum(v, m) == MaskedSum(w, m)
  {
    if |m| > 0 {
      MaskedSumIgnoresMasked(v[1..], w[1..], m[1..]);
    }
  }

  /** Scaling every value by c scales the masked sum by c. */
  lemma {:induction false} MaskedSumScale(v: seq<real>, w: seq<real>, m: seq<int>, c: real)
    requires |v| == |w| == |m|
    requires forall k :: 0 <= k < |v| ==> w[k] == c * v[k]
    ensures MaskedSum(w, m) == c * MaskedSum(v, m)
  {
    if |v| > 0 {
      MaskedSumScale(v[1..], w[1..], m[1..], c);
    }
  }

  /** Values at masked positions never change the masked mean. */
  lemma MaskedMeanIgnoresMasked(v: seq<real>, w: seq<real>, m: seq<int>)
    requires |v| == |w| == |m|
    requires forall k :: 0 <= k < |m| && m[k] != 0 ==> v[k] == w[k]
    ensures MaskedMean(v, m) == MaskedMean(w, m)
  {
    MaskedSumIgnoresMasked(v, w, m);
  }

  /** Scaling every value by c scales the masked mean by c. */
  lemma MaskedMeanScale(v: seq<real>, w: seq<real>, m: seq<int>, c: real)
    requires |v| == |w| == |m|
    requires forall k :: 0 <= k < |v| ==> w[k] == c * v[k]
    ensures MaskedMean(w, m).None? <==> MaskedMean(v, m).None?
    ensures MaskedMean(v, m).Some? ==> MaskedMean(w, m).value == c * MaskedMean(v, m).value
  {
    MaskedSumScale(v, w, m, c);
    if MaskedCount(m) > 0 {
      var n, sv := MaskedCount(m) as real, MaskedSum(v, m);
      calc {
        MaskedSum(w, m) / n;
        (c * sv) / n;
        { QuotientScale(c, sv, n); }
        c * (sv / n);
      }
    }
  }

  lemma QuotientScale(c: real, s: real, n: real)
    requires n != 0.0
    ensures (c * s) / n == c * (s / n)
  {
    var q := s / n;
    assert s == q * n;
    assert c * s == (c * q) * n;
  }

  /** If every unmasked value lies in [lo, hi], the masked sum lies between lo and hi times the count. */
  lemma {:induction false} MaskedSumBounds(v: seq<real>, m: seq<int>, lo: real, hi: real)
    requires |v| == |m|
    requires forall k :: 0 <= k < |m| && m[k] != 0 ==> lo <= v[k] <= hi
    ensures lo * MaskedCount(m) as real <= MaskedSum(v, m) <= hi * MaskedCount(m) as real
  {
    if |m| > 0 {
      MaskedSumBounds(v[1..], m[1..], lo, hi);
    }
  }

  /** The masked mean of values that all lie in [lo, hi] (where unmasked) lies in [lo, hi]. */
  lemma MaskedMeanBounds(v: seq<real>, m: seq<int>, lo: real, hi: real)
    requires |v| == |m|
    requires forall k :: 0 <= k < |m| && m[k] != 0 ==> lo <= v[k] <= hi
    ensures MaskedMean(v, m).Some? ==> lo <= MaskedMean(v, m).value <= hi
  {
    if MaskedCount(m) > 0 {
      MaskedSumBounds(v, m, lo, hi);
      QuotientBounds(MaskedSum(v, m), MaskedCount(m) as real, lo, hi);
    }
  }

  lemma QuotientBounds(s: real, n: real, lo: real, hi: real)
    requires n > 0.0 && lo * n <= s <= hi * n
    ensures lo <= s / n <= hi
  {
    var q := s / n;
    assert (q - lo) * n == s - lo * n;
    assert (hi - q) * n == hi * n - s;
  }
}
