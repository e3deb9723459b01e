/** What permuting the dimensions of a row-major array does to its cells. */
module Transposition {
  import opened RowMajor
  import opened Strides

  /** `w` holds the cells of `v` with dimension `p[k]` of `d` as dimension `k`. */
  ghost predicate IsTransposed<T>(d: Dims, v: seq<T>, p: seq<nat>, w: seq<T>) {
    && IsPermutation(p, |d|) && |v| == Product(d) && |w| == Product(Apply(p, d))
    && forall i {:trigger Moves(d, v, p, w, i)} | InBounds(i, d) :: Moves(d, v, p, w, i)
  }

  /** The cell at index `i` is where it belongs. */
  ghost predicate Moves<T>(d: Dims, v: seq<T>, p: seq<nat>, w: seq<T>, i: Dims)
    requires IsPermutation(p, |d|) && InBounds(i, d)
  {
    var from, to := Offset(d, i), Target(d, p, i);
    from < |v| && to < |w| && w[to] == v[from]
  }

  lemma TransposedMeaning<T>(d: Dims, v: seq<T>, p: seq<nat>, w: seq<T>)
    requires IsTransposed(d, v, p, w)
    ensures forall i {:trigger InBounds(i, d)} | InBounds(i, d) ::
              var from, to := Offset(d, i), Offset(Apply(p, d), Apply(p, i));
              from < |v| && to < |w| && w[to] == v[from]
  {
    forall i | InBounds(i, d) ensures Moves(d, v, p, w, i) {
    }
  }

  function Target(d: Dims, p: seq<nat>, i: Dims): nat
    requires IsPermutation(p, |d|) && |i| == |d|
  {
    Offset(Apply(p, d), Apply(p, i))
  }

  lemma AppliedInBounds(d: Dims, p: seq<nat>, i: Dims)
    requires IsPermutation(p, |d|) && |i| == |d|
    ensures InBounds(i, d) <==> InBounds(Apply(p, i), Apply(p, d))
  {
    if InBounds(Apply(p, i), Apply(p, d)) {
      forall k: nat | k < |d| ensures i[k] < d[k] {
        var j := PermutationOnto(p, |d|, k);
        assert Apply(p, i)[j] < Apply(p, d)[j];
      }
    }
  }

  lemma TargetDistinct(d: Dims, p: seq<nat>, i: Dims, j: Dims)
    requires IsPermutation(p, |d|) && InBounds(i, d) && InBounds(j, d)
    ensures Target(d, p, i) < Product(Apply(p, d))
    ensures Target(d, p, i) == Target(d, p, j) ==> i == j
  {
    AppliedInBounds(d, p, i);
    AppliedInBounds(d, p, j);
    OffsetBound(Apply(p, d), Apply(p, i));
    if Target(d, p, i) == Target(d, p, j) {
      OffsetInjective(Apply(p, d), Apply(p, i), Apply(p, j));
      forall k: nat | k < |d| ensures i[k] == j[k] {
        var m := PermutationOnto(p, |d|, k);
        assert Apply(p, i)[m] == Apply(p, j)[m];
      }
    }
  }

  /** Transposing by the inverse permutation restores every cell. */
  lemma InverseRestores<T>(d: Dims, v: seq<T>, p: seq<nat>, w: seq<T>, q: seq<nat>, u: seq<T>)
    requires IsTransposed(d, v, p, w) && IsTransposed(Apply(p, d), w, q, u)
    requires forall k | 0 <= k < |d| :: p[q[k]] == k
    ensures Apply(q, Apply(p, d)) == d && u == v
  {
    var e := Apply(p, d);
    assert Apply(q, e) == d;
    forall n | 0 <= n < Product(d) ensures u[n] == v[n] {
      ProductPositive(d);
      var i := Unoffset(d, n);
      OffsetUnoffset(d, n);
      var j := Apply(p, i);
      AppliedInBounds(d, p, i);
      assert Apply(q, j) == i;
      assert Moves(d, v, p, w, i) && Moves(e, w, q, u, j);
    }
  }

  /** Two transpositions of the same cells are the same. */
  lemma TransposedUnique<T>(d: Dims, v: seq<T>, p: seq<nat>, w: seq<T>, x: seq<T>)
    requires IsTransposed(d, v, p, w) && IsTransposed(d, v, p, x)
    ensures w == x
  {
    var e := Apply(p, d);
    forall n | 0 <= n < Product(e) ensures w[n] == x[n] {
      ProductPositive(e);
      OffsetUnoffset(e, n);
      var i := Unapply(p, Unoffset(e, n));
      AppliedInBounds(d, p, i);
      assert Moves(d, v, p, w, i) && Moves(d, v, p, x, i);
    }
  }

  /** The index that `Apply` takes to `j`. */
  lemma Unapply(p: seq<nat>, j: Dims) returns (i: Dims)
    requires IsPermutation(p, |j|)
    ensures |i| == |j| && Apply(p, i) == j
  {
    i := seq(|j|, k requires 0 <= k < |j| => DimensionPlaced(p, |j|, k); j[PositionOf(p, k)]);
    forall k | 0 <= k < |j| ensures Apply(p, i)[k] == j[k] {
      PositionUnique(p, |j|, k);
    }
  }

  // ----- targets as sums over the source index -----

  /** The stride of the result along each source dimension. */
  predicate Aligned(d: Dims, p: seq<nat>, a: Dims)
    requires IsPermutation(p, |d|)
  {
    |a| == |d| && Apply(p, a) == StridesOf(Apply(p, d))
  }

  lemma TargetIsDot(d: Dims, p: seq<nat>, a: Dims, i: Dims)
    requires IsPermutation(p, |d|) && Aligned(d, p, a) && |i| == |d|
    ensures Target(d, p, i) == Dot(i, a)
  {
    OffsetIsDot(Apply(p, d), Apply(p, i));
    DotPermuted(p, i, a);
  }

  /** The sum over the first `k` dimensions. */
  function PrefixDot(i: Dims, a: Dims, k: nat): nat
    requires k <= |i| == |a|
  {
    if k == 0 then 0 else PrefixDot(i, a, k - 1) + i[k - 1] * a[k - 1]
  }

  lemma {:induction false} PrefixDotIsDot(i: Dims, a: Dims, k: nat)
    requires k <= |i| == |a|
    ensures PrefixDot(i, a, k) == Dot(i[..k], a[..k])
  {
    if k > 0 {
      PrefixDotIsDot(i, a, k - 1);
      assert Times(i[..k], a[..k]) == Times(i[..k - 1], a[..k - 1]) + [i[k - 1] * a[k - 1]];
      SumConcat(Times(i[..k - 1], a[..k - 1]), [i[k - 1] * a[k - 1]]);
      SumOne(i[k - 1] * a[k - 1]);
    }
  }

  lemma {:induction false} PrefixDotSame(i: Dims, j: Dims, a: Dims, k: nat)
    requires k <= |i| == |a| == |j| && i[..k] == j[..k]
    ensures PrefixDot(i, a, k) == PrefixDot(j, a, k)
  {
    if k > 0 {
      assert i[..k - 1] == i[..k][..k - 1] && i[k - 1] == i[..k][k - 1] && j[k - 1] == j[..k][k - 1];
      PrefixDotSame(i, j, a, k - 1);
    }
  }

  lemma FullPrefix(i: Dims, a: Dims)
    requires |i| == |a|
    ensures PrefixDot(i, a, |i|) == Dot(i, a)
  {
    PrefixDotIsDot(i, a, |i|);
    assert i[..|i|] == i && a[..|i|] == a;
  }
}
