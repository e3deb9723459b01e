/** Linear and multidimensional indices of a shape with a permuted layout. */
module IndexUtil {
  import opened Arithmetic
  import opened RowMajor
  import opened Strides

  /** The linear index: row-major in physical order. */
  function LinearOf(dims: Dims, minorToMajor: seq<nat>, i: Dims): nat
    requires |i| == |dims| && IsPermutation(minorToMajor, |dims|)
  {
    Offset(Physical(minorToMajor, dims), Physical(minorToMajor, i))
  }

  /** Each in-bounds index has its own linear index, below the number of elements. */
  lemma LinearDistinct(dims: Dims, m: seq<nat>, i: Dims, j: Dims)
    requires IsPermutation(m, |dims|) && InBounds(i, dims) && InBounds(j, dims)
    ensures LinearOf(dims, m, i) < Product(dims)
    ensures LinearOf(dims, m, i) == LinearOf(dims, m, j) ==> i == j
  {
    PhysicalInBounds(m, i, dims);
    PhysicalInBounds(m, j, dims);
    OffsetBound(Physical(m, dims), Physical(m, i));
    PhysicalProduct(m, dims);
    if LinearOf(dims, m, i) == LinearOf(dims, m, j) {
      OffsetInjective(Physical(m, dims), Physical(m, i), Physical(m, j));
      PhysicalInjective(m, i, j);
    }
  }

  /** One term of the linear index: the next more major dimension. */
  method Accumulate(dim: nat, index: nat, scale: nat, linear: nat, ghost d: Dims, ghost x: Dims, ghost k: nat)
    returns (nextScale: nat, nextLinear: nat)
    requires 0 < k < |d| == |x| && dim == d[k] && index == x[k - 1]
    requires scale == Product(d[k + 1..]) && linear == Offset(d[k..], x[k..])
    ensures nextScale == Product(d[k..]) && nextLinear == Offset(d[k - 1..], x[k - 1..])
  {
    OffsetSuffix(d, x, k);
    OffsetSuffix(d, x, k - 1);
    nextScale := scale * dim;
    nextLinear := linear + nextScale * index;
  }

  lemma FirstTerm(d: Dims, x: Dims)
    requires |d| == |x| > 0
    ensures Product(d[|d|..]) == 1 && Offset(d[|d| - 1..], x[|d| - 1..]) == x[|d| - 1]
  {
    assert d[|d| - 1..] == [d[|d| - 1]] && x[|d| - 1..] == [x[|d| - 1]];
    OffsetOne(d[|d| - 1], x[|d| - 1]);
  }

  method MultidimensionalIndexToLinearIndex(dims: Dims, minorToMajor: seq<nat>, multiIndex: Dims) returns (linear: nat)
    requires IsPermutation(minorToMajor, |dims|) && InBounds(multiIndex, dims)
    ensures linear == LinearOf(dims, minorToMajor, multiIndex)
  {
    var n := |minorToMajor|;
    if n == 0 {
      return 0;
    }
    ghost var d, x := Physical(minorToMajor, dims), Physical(minorToMajor, multiIndex);
    linear := multiIndex[minorToMajor[0]];
    var scale: nat := 1;
    FirstTerm(d, x);
    for i := 1 to n
      invariant scale == Product(d[n - i + 1..]) && linear == Offset(d[n - i..], x[n - i..])
    {
      scale, linear := Accumulate(dims[minorToMajor[i - 1]], multiIndex[minorToMajor[i]], scale, linear, d, x, n - i);
    }
    assert d[0..] == d && x[0..] == x;
  }

  /** The `k` most minor dimensions of the index are found, and `divisor` is their size. */
  ghost predicate Peeled(dims: Dims, m: seq<nat>, linear: nat, k: nat, divisor: nat, r: Dims)
    requires IsPermutation(m, |dims|) && k <= |dims| && forall j | 0 <= j < |dims| :: Physical(m, dims)[j] > 0
  {
    var d, n := Physical(m, dims), |dims|;
    && |r| == n && divisor > 0
    && Unoffset(d[..n - k], linear / divisor) == Unoffset(d, linear)[..n - k]
    && Physical(m, r)[n - k..] == Unoffset(d, linear)[n - k..]
  }

  method Peel(dims: Dims, m: seq<nat>, linear: nat, k: nat, divisor: nat, r: Dims) returns (nextDivisor: nat, next: Dims)
    requires IsPermutation(m, |dims|) && k < |dims| && forall j | 0 <= j < |dims| :: Physical(m, dims)[j] > 0
    requires Peeled(dims, m, linear, k, divisor, r)
    ensures Peeled(dims, m, linear, k + 1, nextDivisor, next)
  {
    var n, dimension := |dims|, m[k];
    PeelNext(Physical(m, dims), linear, n - k, divisor);
    var digit := Digit(linear, divisor, dims[dimension]);
    PhysicalUpdate(m, r, n - 1 - k, digit);
    UpdatedTail(Physical(m, r), n - 1 - k, digit);
    next := r[dimension := digit];
    nextDivisor := Scaled(divisor, dims[dimension]);
  }

  /** The inverse of `LinearOf`, both ways. */
  method LinearIndexToMultidimensionalIndex(dims: Dims, minorToMajor: seq<nat>, linear: nat) returns (multiIndex: Dims)
    requires IsPermutation(minorToMajor, |dims|) && linear < Product(dims)
    ensures InBounds(multiIndex, dims) && LinearOf(dims, minorToMajor, multiIndex) == linear
    ensures forall i | InBounds(i, dims) && LinearOf(dims, minorToMajor, i) == linear :: multiIndex == i
  {
    PhysicalProduct(minorToMajor, dims);
    ProductPositive(Physical(minorToMajor, dims));
    ProductPositive(dims);
    multiIndex := seq(|dims|, _ => 0);
    var divisor: nat := 1;
    NothingPeeled(dims, minorToMajor, linear, multiIndex);
    for k := 0 to |dims|
      invariant Peeled(dims, minorToMajor, linear, k, divisor, multiIndex)
    {
      divisor, multiIndex := Peel(dims, minorToMajor, linear, k, divisor, multiIndex);
    }
    InverseIndex(dims, minorToMajor, linear, multiIndex);
  }

  lemma NothingPeeled(dims: Dims, m: seq<nat>, linear: nat, r: Dims)
    requires IsPermutation(m, |dims|) && |r| == |dims| && forall j | 0 <= j < |dims| :: Physical(m, dims)[j] > 0
    ensures Peeled(dims, m, linear, 0, 1, r)
  {
    var d := Physical(m, dims);
    assert d[..|d|] == d && Unoffset(d, linear)[..|d|] == Unoffset(d, linear) && linear / 1 == linear;
  }

  lemma UpdatedTail(x: Dims, k: nat, v: nat)
    requires k < |x|
    ensures x[k := v][k..] == [v] + x[k + 1..]
  {
  }

  lemma InverseIndex(dims: Dims, m: seq<nat>, linear: nat, r: Dims)
    requires IsPermutation(m, |dims|) && |r| == |dims| && linear < Product(dims)
    requires forall k | 0 <= k < |dims| :: Physical(m, dims)[k] > 0
    requires Physical(m, r) == Unoffset(Physical(m, dims), linear)
    ensures InBounds(r, dims) && LinearOf(dims, m, r) == linear
    ensures forall i | InBounds(i, dims) && LinearOf(dims, m, i) == linear :: r == i
  {
    PhysicalProduct(m, dims);
    OffsetUnoffset(Physical(m, dims), linear);
    PhysicalInBounds(m, r, dims);
    forall i | InBounds(i, dims) && LinearOf(dims, m, i) == linear ensures r == i {
      LinearDistinct(dims, m, i, r);
    }
  }

  function Scaled(divisor: nat, dim: nat): (p: nat)
    ensures divisor > 0 && dim > 0 ==> p > 0
  {
    divisor * dim
  }

  function Digit(linear: nat, divisor: nat, dim: nat): nat
    requires divisor > 0 && dim > 0
  {
    (linear / divisor) % dim
  }

  lemma PeelNext(d: Dims, linear: nat, k: nat, divisor: nat)
    requires 0 < k <= |d| && divisor > 0 && forall j | 0 <= j < |d| :: d[j] > 0
    requires Unoffset(d[..k], linear / divisor) == Unoffset(d, linear)[..k]
    ensures Unoffset(d[..k - 1], linear / Scaled(divisor, d[k - 1])) == Unoffset(d, linear)[..k - 1]
    ensures Unoffset(d, linear)[k - 1..] == [Digit(linear, divisor, d[k - 1])] + Unoffset(d, linear)[k..]
  {
    var u := Unoffset(d, linear);
    assert d[..k][..k - 1] == d[..k - 1];
    DivDiv(linear, divisor, d[k - 1]);
    assert u[..k][..k - 1] == u[..k - 1] && u[..k][k - 1] == u[k - 1];
  }

  // ----- strides -----

  /** The product of the dimensions more minor than this one. */
  function Stride(dims: Dims, m: seq<nat>, dimension: nat): nat
    requires IsPermutation(m, |dims|) && dimension < |dims|
  {
    DimensionPlaced(m, |dims|, dimension);
    Product(Physical(m, dims)[|dims| - PositionOf(m, dimension)..])
  }

  function AllStrides(dims: Dims, m: seq<nat>): (s: Dims)
    requires IsPermutation(m, |dims|)
    ensures |s| == |dims|
  {
    seq(|dims|, k requires 0 <= k < |dims| => Stride(dims, m, k))
  }

  function Reversed(m: seq<nat>): (r: seq<nat>)
    ensures |r| == |m| && forall k | 0 <= k < |m| :: r[k] == m[|m| - 1 - k]
  {
    seq(|m|, k requires 0 <= k < |m| => m[|m| - 1 - k])
  }

  lemma PhysicalIsApply<T>(m: seq<nat>, x: seq<T>)
    requires IsPermutation(m, |x|)
    ensures IsPermutation(Reversed(m), |x|) && Physical(m, x) == Apply(Reversed(m), x)
  {
  }

  lemma StridePlaced(dims: Dims, m: seq<nat>, j: nat)
    requires IsPermutation(m, |dims|) && j < |dims|
    ensures Stride(dims, m, m[j]) == Product(Physical(m, dims)[|dims| - j..])
  {
    PositionUnique(m, |dims|, j);
  }

  method GetDimensionStride(dims: Dims, minorToMajor: seq<nat>, dimension: nat) returns (stride: nat)
    requires IsPermutation(minorToMajor, |dims|) && dimension < |dims|
    ensures stride == Stride(dims, minorToMajor, dimension)
  {
    ghost var d := Physical(minorToMajor, dims);
    ghost var position := PermutationOnto(minorToMajor, |dims|, dimension);
    stride := 1;
    for k := 0 to |dims|
      invariant k <= position && stride == Product(d[|dims| - k..])
    {
      if minorToMajor[k] == dimension {
        StridePlaced(dims, minorToMajor, k);
        return;
      }
      OffsetSuffix(d, d, |dims| - k - 1);
      stride := stride * dims[minorToMajor[k]];
    }
  }

  lemma StridesPlaced(dims: Dims, m: seq<nat>)
    requires IsPermutation(m, |dims|)
    ensures Physical(m, AllStrides(dims, m)) == StridesOf(Physical(m, dims))
  {
    forall k | 0 <= k < |dims|
      ensures Physical(m, AllStrides(dims, m))[k] == StridesOf(Physical(m, dims))[k]
    {
      StridePlaced(dims, m, |dims| - 1 - k);
    }
  }

  /** The linear index is the sum of index times stride over the dimensions. */
  lemma LinearIsStrideSum(dims: Dims, m: seq<nat>, i: Dims)
    requires |i| == |dims| && IsPermutation(m, |dims|)
    ensures LinearOf(dims, m, i) == Dot(i, AllStrides(dims, m))
  {
    OffsetIsDot(Physical(m, dims), Physical(m, i));
    StridesPlaced(dims, m);
    PhysicalIsApply(m, i);
    PhysicalIsApply(m, AllStrides(dims, m));
    DotPermuted(Reversed(m), i, AllStrides(dims, m));
  }

  /** Moving along one dimension moves the linear index by its stride. */
  lemma LinearMoves(dims: Dims, m: seq<nat>, i: Dims, dimension: nat, step: nat)
    requires |i| == |dims| && IsPermutation(m, |dims|) && dimension < |dims|
    ensures LinearOf(dims, m, i[dimension := i[dimension] + step]) == LinearOf(dims, m, i) + step * Stride(dims, m, dimension)
  {
    var s, v := AllStrides(dims, m), i[dimension] + step;
    LinearIsStrideSum(dims, m, i);
    LinearIsStrideSum(dims, m, i[dimension := v]);
    DotUpdate(i, s, dimension, v);
    Added(i[dimension], step, s[dimension]);
  }

  lemma Added(x: nat, step: nat, s: nat)
    ensures (x + step) * s == x * s + step * s
  {
  }

  /** Permuting the dimensions keeps the number of elements. */
  lemma {:induction false} ProductPermuted(p: seq<nat>, d: Dims)
    requires IsPermutation(p, |d|)
    ensures Product(Apply(p, d)) == Product(d)
    decreases |d|
  {
    if d != [] {
      var n := |d| - 1;
      var k := PermutationOnto(p, |d|, n);
      var q, y := p[..k] + p[k + 1..], d[..n];
      RemovedIsPermutation(p, |d|, k);
      ProductPermuted(q, y);
      var a, b := Apply(p, d)[..k], Apply(p, d)[k + 1..];
      assert Apply(q, y) == a + b;
      assert Apply(p, d) == a + ([d[n]] + b);
      assert d == y + [d[n]];
      ProductConcat(a, b);
      ProductConcat(a, [d[n]] + b);
      ProductConcat([d[n]], b);
      ProductConcat(y, [d[n]]);
      ProductOne(d[n]);
      Commute(Product(a), d[n], Product(b));
    }
  }

  lemma Commute(a: nat, x: nat, b: nat)
    ensures a * (x * b) == (a * b) * x
  {
  }

  lemma PhysicalProduct(m: seq<nat>, d: Dims)
    requires IsPermutation(m, |d|)
    ensures Product(Physical(m, d)) == Product(d)
  {
    PhysicalIsApply(m, d);
    ProductPermuted(Reversed(m), d);
  }
}
