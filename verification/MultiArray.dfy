/** A dense row-major array of any rank: permuting its dimensions. */
module MultiArray {
  import opened Arithmetic
  import opened RowMajor
  import opened Strides
  import opened Odometer
  import opened Transposition
  import opened WindowCopies
  import opened Options
  import IndexUtil

  class Array<T(0)> {
    var sizes: Dims
    var values: array<T>

    predicate Valid()
      reads this
    {
      values.Length == Product(sizes)
    }

    constructor (sizes: Dims)
      ensures Valid() && this.sizes == sizes && fresh(values)
    {
      this.sizes := sizes;
      values := new T[Product(sizes)];
    }

    /** The row-major offset of an index, dimension by dimension. */
    method CalculateIndex(indexes: Dims) returns (index: nat)
      requires Valid() && |indexes| == |sizes|
      ensures index == Offset(sizes, indexes)
      ensures InBounds(indexes, sizes) ==> index < values.Length
    {
      index := 0;
      assert sizes[..0] == [] && indexes[..0] == [];
      for i := 0 to |sizes|
        invariant index == Offset(sizes[..i], indexes[..i])
      {
        OffsetSnoc(sizes[..i], indexes[..i], sizes[i], indexes[i]);
        assert sizes[..i + 1] == sizes[..i] + [sizes[i]] && indexes[..i + 1] == indexes[..i] + [indexes[i]];
        index := index * sizes[i] + indexes[i];
      }
      assert sizes[..|sizes|] == sizes && indexes[..|sizes|] == indexes;
      if InBounds(indexes, sizes) {
        OffsetBound(sizes, indexes);
      }
    }

    /** The cells at `starts` and below `limits`, consecutively; a result beyond the array starts out
        filled with `outOfBounds`. */
    method Slice(starts: Dims, limits: Dims, outOfBounds: Option<T>) returns (result: Array<T>)
      requires Valid() && |starts| == |limits| == |sizes|
      requires forall k | 0 <= k < |sizes| :: starts[k] <= limits[k]
      requires outOfBounds.None? ==> forall k | 0 <= k < |sizes| :: limits[k] <= sizes[k]
      ensures fresh(result) && result.Valid() && result.sizes == Minus(limits, starts)
      ensures outOfBounds.None? ==> result.values[..] == Sliced(sizes, values[..], starts, limits)
      ensures outOfBounds.Some? ==>
                result.values[..] == SliceResult(sizes, values[..], starts, limits, outOfBounds.value)
      ensures (forall k | 0 <= k < |sizes| :: limits[k] <= sizes[k]) ==>
                forall j {:trigger InBounds(j, Minus(limits, starts))} | InBounds(j, Minus(limits, starts)) ::
                  var from, to := Offset(sizes, Plus(j, starts)), Offset(result.sizes, j);
                  from < values.Length && to < result.values.Length && result.values[..][to] == values[..][from]
    {
      result := SliceConsecutive(starts, limits, outOfBounds);
      if forall k | 0 <= k < |sizes| :: limits[k] <= sizes[k] {
        SliceMeaning(sizes, values[..], starts, limits);
        WholeSlice(sizes, values[..], starts, limits, outOfBounds);
      }
    }

    method SliceConsecutive(starts: Dims, limits: Dims, outOfBounds: Option<T>) returns (result: Array<T>)
      requires Valid() && |starts| == |limits| == |sizes|
      requires forall k | 0 <= k < |sizes| :: starts[k] <= limits[k]
      requires outOfBounds.None? ==> forall k | 0 <= k < |sizes| :: limits[k] <= sizes[k]
      ensures fresh(result) && result.Valid() && result.sizes == Minus(limits, starts)
      ensures outOfBounds.None? ==> result.values[..] == Sliced(sizes, values[..], starts, limits)
      ensures outOfBounds.Some? ==>
                result.values[..] == SliceResult(sizes, values[..], starts, limits, outOfBounds.value)
    {
      result := new Array(Minus(limits, starts));
      ghost var w := Window(sizes, starts, limits);
      ProductWithin(w, result.sizes);
      if result.values.Length == 0 {
        return;
      }
      if outOfBounds.Some? {
        Fill(result.values, outOfBounds.value);
      }
      CopyWindow(sizes, values, starts, limits, result.values);
      assert result.values[..] == result.values[..Product(w)] + result.values[Product(w)..];
      if outOfBounds.None? {
        assert w == result.sizes;
      }
    }

    /** Overwrites the window at `starts` with the cells of `from`, taken consecutively. */
    method UpdateSlice(from: Array<T>, starts: Dims)
      requires Valid() && from.Valid() && |from.sizes| == |starts| == |sizes| && from.values != values
      modifies values
      ensures Valid()
      ensures var limits := Plus(from.sizes, starts);
        && Product(Window(sizes, starts, limits)) <= from.values.Length
        && values[..] == Updated(sizes, old(values[..]), starts, limits, from.values[..])
      ensures (forall k | 0 <= k < |sizes| :: starts[k] + from.sizes[k] <= sizes[k]) ==>
                && (forall j {:trigger InBounds(j, from.sizes)} | InBounds(j, from.sizes) ::
                      var source, target := Offset(from.sizes, j), Offset(sizes, Plus(j, starts));
                      && source < from.values.Length && target < values.Length
                      && values[..][target] == from.values[..][source])
                && (forall i {:trigger InBounds(i, sizes)} |
                      InBounds(i, sizes) && (exists k :: 0 <= k < |i| && !(starts[k] <= i[k] < starts[k] + from.sizes[k])) ::
                      Offset(sizes, i) < values.Length && values[..][Offset(sizes, i)] == old(values[..])[Offset(sizes, i)])
    {
      if forall k | 0 <= k < |sizes| :: starts[k] + from.sizes[k] <= sizes[k] {
        UpdateMeaning(sizes, values[..], starts, from.sizes, from.values[..]);
      }
      var limits := Plus(from.sizes, starts);
      ProductWithin(Window(sizes, starts, limits), from.sizes);
      UpdateWindow(sizes, values, starts, limits, from.values);
    }

    /** Permutes the dimensions: dimension `k` of the result is dimension `permutation[k]`. */
    method TransposeDimensions(permutation: seq<nat>)
      requires Valid() && IsPermutation(permutation, |sizes|)
      modifies this
      ensures Valid() && sizes == Apply(permutation, old(sizes))
      ensures IsTransposed(old(sizes), old(values[..]), permutation, values[..])
      ensures forall i {:trigger InBounds(i, old(sizes))} | InBounds(i, old(sizes)) ::
                var from, to := Offset(old(sizes), i), Offset(sizes, Apply(permutation, i));
                from < old(values.Length) && to < values.Length && values[..][to] == old(values[..])[from]
    {
      ghost var d, v := sizes, values[..];
      Permute(permutation);
      TransposedMeaning(d, v, permutation, values[..]);
    }

    method Permute(permutation: seq<nat>)
      requires Valid() && IsPermutation(permutation, |sizes|)
      modifies this
      ensures Valid() && sizes == Apply(permutation, old(sizes))
      ensures IsTransposed(old(sizes), old(values[..]), permutation, values[..])
    {
      if forall k | 0 <= k < |permutation| :: permutation[k] == k {
        IdentityMoves(sizes, values[..], permutation);
        return;
      }
      var permutedDims := Apply(permutation, sizes);
      IndexUtil.ProductPermuted(permutation, sizes);
      var permuted := new T[Product(permutedDims)];
      if |sizes| == 2 {
        assert permutation == [1, 0];
        Transpose2D(sizes, values, permuted);
      } else {
        Transpose3DOrMore(sizes, values, permutation, permuted);
      }
      sizes, values := permutedDims, permuted;
    }
  }

  lemma WholeSlice<T>(d: Dims, v: seq<T>, starts: Dims, limits: Dims, outside: Option<T>)
    requires |d| == |starts| == |limits| && |v| == Product(d)
    requires forall k | 0 <= k < |d| :: starts[k] <= limits[k] <= d[k]
    ensures outside.Some? ==> SliceResult(d, v, starts, limits, outside.value) == Sliced(d, v, starts, limits)
  {
    assert Window(d, starts, limits) == Minus(limits, starts);
  }

  // ----- visiting all cells in order -----

  /** The index belongs to cell `n`, unless all cells are visited. */
  ghost predicate At(d: Dims, i: Dims, n: nat) {
    n < Product(d) ==> InBounds(i, d) && Offset(d, i) == n
  }

  ghost predicate SeenBefore(d: Dims, starts: Dims, limits: Dims, i: Dims, n: nat, seen: nat)
    requires |d| == |starts| == |limits| == |i|
  {
    var w := Window(d, starts, limits);
    seen == if n < Product(d) then Before(i, starts, limits, w) else Product(w)
  }

  lemma StartVisit(d: Dims, starts: Dims, limits: Dims)
    requires |d| == |starts| == |limits|
    ensures At(d, Zeros(|d|), 0) && SeenBefore(d, starts, limits, Zeros(|d|), 0, 0)
  {
    ProductPositive(d);
    OffsetZeros(d);
    var w := Window(d, starts, limits);
    ProductPositive(w);
    if Product(d) > 0 {
      BeforeZeros(starts, limits, w);
    } else {
      EmptyWindow(d, starts, limits);
    }
  }

  lemma EmptyWindow(d: Dims, starts: Dims, limits: Dims)
    requires |d| == |starts| == |limits| && Product(d) == 0
    ensures Product(Window(d, starts, limits)) == 0
  {
    var w := Window(d, starts, limits);
    ProductPositive(d);
    ProductPositive(w);
    var k :| 0 <= k < |d| && d[k] == 0;
    assert w[k] == 0;
  }

  lemma {:induction false} BeforeZeros(starts: Dims, limits: Dims, w: Dims)
    requires |starts| == |limits| == |w|
    ensures Before(Zeros(|w|), starts, limits, w) == 0
    decreases |w|
  {
    if w != [] {
      var m := |w| - 1;
      assert Zeros(|w|)[..m] == Zeros(m);
      BeforeZeros(starts[..m], limits[..m], w[..m]);
    }
  }

  lemma NextVisit(d: Dims, starts: Dims, limits: Dims, i: Dims, next: Dims, n: nat, seen: nat)
    requires |d| == |starts| == |limits| == |i| == |next| && n < Product(d)
    requires At(d, i, n) && SeenBefore(d, starts, limits, i, n, seen)
    requires LastBelow(d, i) >= 0 ==> next == Bumped(d, i)
    ensures At(d, next, n + 1) && SeenBefore(d, starts, limits, next, n + 1, seen + One(Inside(i, starts, limits)))
  {
    BumpSteps(d, i);
    BeforeStep(d, starts, limits, i);
  }

  /** Whether the index lies in the window. */
  method AllInsideRange(values: array<nat>, starts: Dims, limits: Dims) returns (inside: bool)
    requires values.Length == |starts| == |limits|
    ensures inside == Inside(values[..], starts, limits)
  {
    for i := 0 to values.Length
      invariant forall k | 0 <= k < i :: starts[k] <= values[k] < limits[k]
    {
      if values[i] < starts[i] || values[i] >= limits[i] {
        return false;
      }
    }
    return true;
  }

  method Fill<T>(a: array<T>, x: T)
    modifies a
    ensures a[..] == Repeat(a.Length, x)
  {
    for i := 0 to a.Length
      invariant forall j | 0 <= j < i :: a[j] == x
    {
      a[i] := x;
    }
  }

  /** Visits all cells of the source and writes those of the window consecutively. */
  method CopyWindow<T>(d: Dims, values: array<T>, starts: Dims, limits: Dims, result: array<T>)
    requires |d| == |starts| == |limits| && values.Length == Product(d) && values != result
    requires result.Length >= Product(Window(d, starts, limits))
    modifies result
    ensures var n := Product(Window(d, starts, limits));
      result[..n] == Sliced(d, values[..], starts, limits) && result[n..] == old(result[n..])
  {
    ghost var n := Product(Window(d, starts, limits));
    var index := new nat[|d|](_ => 0);
    var sliceI: nat := 0;
    assert index[..] == Zeros(|d|);
    StartVisit(d, starts, limits);
    for i := 0 to values.Length
      invariant At(d, index[..], i) && SeenBefore(d, starts, limits, index[..], i, sliceI)
      invariant CopiedBefore(d, values[..], starts, limits, result[..], i) && result[n..] == old(result[n..])
    {
      ghost var at, seen := index[..], sliceI;
      var inside := AllInsideRange(index, starts, limits);
      sliceI := CopyCell(d, values, starts, limits, result, inside, i, sliceI, at);
      var _ := NextIndex(d, index);
      NextVisit(d, starts, limits, at, index[..], i, seen);
    }
    AllCopied(d, values[..], starts, limits, result[..]);
  }

  method CopyCell<T>(d: Dims, values: array<T>, starts: Dims, limits: Dims, result: array<T>, inside: bool, i: nat, sliceI: nat,
                     ghost at: Dims)
    returns (next: nat)
    requires |d| == |starts| == |limits| && values.Length == Product(d) && values != result
    requires result.Length >= Product(Window(d, starts, limits)) && i < values.Length
    requires At(d, at, i) && SeenBefore(d, starts, limits, at, i, sliceI) && inside == Inside(at, starts, limits)
    requires CopiedBefore(d, values[..], starts, limits, result[..], i)
    modifies result
    ensures next == sliceI + One(inside)
    ensures CopiedBefore(d, values[..], starts, limits, result[..], i + 1)
    ensures var n := Product(Window(d, starts, limits)); result[n..] == old(result[n..])
  {
    ghost var r := result[..];
    next := sliceI;
    if inside {
      BeforeInside(d, starts, limits, at);
      InsideIsInWindow(d, starts, limits, at);
      OffsetBound(Window(d, starts, limits), Minus(at, starts));
      result[sliceI] := values[i];
      CopyOne(d, values[..], starts, limits, r, result[..], at);
      next := sliceI + 1;
    } else {
      SkipOne(d, values[..], starts, limits, r, at);
    }
  }

  /** The cell `seen` of the update belongs at the visited index, if that is in the window. */
  lemma NextCell<T>(d: Dims, v: seq<T>, starts: Dims, limits: Dims, u: seq<T>, at: Dims, i: nat, seen: nat)
    requires |d| == |starts| == |limits| == |at| && i < |v| == Product(d) && |u| >= Product(Window(d, starts, limits))
    requires At(d, at, i) && SeenBefore(d, starts, limits, at, i, seen)
    ensures var x := Updated(d, v, starts, limits, u);
      if Inside(at, starts, limits) then seen < |u| && x[i] == u[seen] else x[i] == v[i]
  {
    UpdatedAt(d, v, starts, limits, u, at);
    if Inside(at, starts, limits) {
      BeforeInside(d, starts, limits, at);
    }
  }

  /** The first `n` cells are those of `x`, the others those of `v`. */
  ghost predicate Blend<T>(r: seq<T>, x: seq<T>, v: seq<T>, n: nat) {
    |r| == |x| == |v| && forall j | 0 <= j < |r| :: r[j] == if j < n then x[j] else v[j]
  }

  method UpdateCell<T>(values: array<T>, from: array<T>, inside: bool, i: nat, fromI: nat, ghost x: seq<T>, ghost v: seq<T>)
    returns (next: nat)
    requires values != from && i < values.Length && Blend(values[..], x, v, i)
    requires if inside then fromI < from.Length && x[i] == from[fromI] else x[i] == v[i]
    modifies values
    ensures next == fromI + One(inside) && Blend(values[..], x, v, i + 1)
  {
    next := fromI;
    if inside {
      values[i] := from[fromI];
      next := fromI + 1;
    }
  }

  /** Visits all cells of the target and overwrites those of the window with consecutive cells. */
  method UpdateWindow<T>(d: Dims, values: array<T>, starts: Dims, limits: Dims, from: array<T>)
    requires |d| == |starts| == |limits| && values.Length == Product(d) && values != from
    requires from.Length >= Product(Window(d, starts, limits))
    modifies values
    ensures values[..] == Updated(d, old(values[..]), starts, limits, from[..])
  {
    ghost var v, x := values[..], Updated(d, values[..], starts, limits, from[..]);
    var index := new nat[|d|](_ => 0);
    var fromI: nat := 0;
    assert index[..] == Zeros(|d|);
    StartVisit(d, starts, limits);
    for i := 0 to values.Length
      invariant At(d, index[..], i) && SeenBefore(d, starts, limits, index[..], i, fromI)
      invariant Blend(values[..], x, v, i)
    {
      ghost var at, seen := index[..], fromI;
      var inside := AllInsideRange(index, starts, limits);
      NextCell(d, v, starts, limits, from[..], at, i, fromI);
      fromI := UpdateCell(values, from, inside, i, fromI, x, v);
      var _ := NextIndex(d, index);
      NextVisit(d, starts, limits, at, index[..], i, seen);
    }
  }

  lemma IdentityMoves<T>(d: Dims, v: seq<T>, p: seq<nat>)
    requires IsPermutation(p, |d|) && |v| == Product(d) && forall k | 0 <= k < |d| :: p[k] == k
    ensures Apply(p, d) == d && IsTransposed(d, v, p, v)
  {
    assert Apply(p, d) == d;
    forall i | InBounds(i, d) ensures Moves(d, v, p, v, i) {
      assert Apply(p, i) == i;
      OffsetBound(d, i);
    }
  }

  // ----- rank 2 -----

  method Transpose2D<T>(sizes: Dims, values: array<T>, permuted: array<T>)
    requires |sizes| == 2 && values.Length == permuted.Length == Product(sizes) && values != permuted
    modifies permuted
    ensures IsTransposed(sizes, values[..], [1, 0], permuted[..])
  {
    var source: nat := 0;
    var size0, size1 := sizes[0], sizes[1];
    OffsetTwo(sizes, [0, 0]);
    for i0 := 0 to size0
      invariant source == i0 * size1 && PlacedBefore(values[..], permuted[..], size0, size1, i0, 0)
    {
      source := TransposeRow(values, permuted, size0, size1, i0, source);
    }
    AllPlaced(sizes, values[..], permuted[..]);
  }

  method TransposeRow<T>(values: array<T>, permuted: array<T>, size0: nat, size1: nat, i0: nat, start: nat) returns (source: nat)
    requires values.Length == permuted.Length == size0 * size1 && values != permuted
    requires i0 < size0 && start == i0 * size1 && PlacedBefore(values[..], permuted[..], size0, size1, i0, 0)
    modifies permuted
    ensures source == (i0 + 1) * size1 && PlacedBefore(values[..], permuted[..], size0, size1, i0 + 1, 0)
  {
    source := start;
    var target: nat := i0;
    for i1 := 0 to size1
      invariant source == i0 * size1 + i1 && target == i1 * size0 + i0
      invariant PlacedBefore(values[..], permuted[..], size0, size1, i0, i1)
    {
      TwoBounds(size0, size1, i0, i1);
      ghost var w := permuted[..];
      permuted[target] := values[source];
      PlaceNext(values[..], w, permuted[..], size0, size1, i0, i1);
      source := source + 1;
      target := target + size0;
    }
  }

  lemma TwoBounds(size0: nat, size1: nat, i0: nat, i1: nat)
    requires i0 < size0 && i1 < size1
    ensures i0 * size1 + i1 < size0 * size1 && i1 * size0 + i0 < size0 * size1
    ensures (i1 + 1) * size0 == i1 * size0 + size0
  {
    MulBound(i0, size0, i1, size1);
    MulBound(i1, size1, i0, size0);
  }

  /** The cells before row `i0`, column `i1` are placed. */
  ghost predicate PlacedBefore<T>(v: seq<T>, w: seq<T>, size0: nat, size1: nat, i0: nat, i1: nat) {
    forall x: nat, y: nat {:trigger Placed(v, w, size0, size1, x, y)} |
      x < size0 && y < size1 && (x < i0 || (x == i0 && y < i1)) :: Placed(v, w, size0, size1, x, y)
  }

  lemma PlaceNext<T>(v: seq<T>, w: seq<T>, w': seq<T>, size0: nat, size1: nat, i0: nat, i1: nat)
    requires i0 < size0 && i1 < size1 && PlacedBefore(v, w, size0, size1, i0, i1)
    requires i0 * size1 + i1 < |v| && i1 * size0 + i0 < |w| && w' == w[i1 * size0 + i0 := v[i0 * size1 + i1]]
    ensures PlacedBefore(v, w', size0, size1, i0, i1 + 1)
  {
    forall x: nat, y: nat | x < size0 && y < size1 && (x < i0 || (x == i0 && y <= i1))
      ensures Placed(v, w', size0, size1, x, y)
    {
      if x != i0 || y != i1 {
        assert Placed(v, w, size0, size1, x, y);
        DistinctTargets(size0, x, y, i0, i1);
      }
    }
  }

  lemma PlacedMoves<T>(d: Dims, v: seq<T>, w: seq<T>, i: Dims)
    requires |d| == |i| == 2 && InBounds(i, d) && Placed(v, w, d[0], d[1], i[0], i[1])
    ensures IsPermutation([1, 0], 2) && Moves(d, v, [1, 0], w, i)
  {
    OffsetTwo(d, i);
    OffsetTwo([d[1], d[0]], [i[1], i[0]]);
    assert Apply([1, 0], d) == [d[1], d[0]] && Apply([1, 0], i) == [i[1], i[0]];
  }

  lemma SwappedSize(d: Dims)
    requires |d| == 2
    ensures IsPermutation([1, 0], 2) && Product(Apply([1, 0], d)) == Product(d)
  {
    IndexUtil.ProductPermuted([1, 0], d);
  }

  lemma AllPlaced<T>(d: Dims, v: seq<T>, w: seq<T>)
    requires |d| == 2 && |v| == |w| == Product(d) && PlacedBefore(v, w, d[0], d[1], d[0], 0)
    ensures IsTransposed(d, v, [1, 0], w)
  {
    SwappedSize(d);
    forall i: Dims | InBounds(i, d) ensures Moves(d, v, [1, 0], w, i) {
      assert Placed(v, w, d[0], d[1], i[0], i[1]);
      PlacedMoves(d, v, w, i);
    }
  }

  lemma DistinctTargets(size0: nat, x: nat, y: nat, x': nat, y': nat)
    requires x < size0 && x' < size0 && (x != x' || y != y')
    ensures y * size0 + x != y' * size0 + x'
  {
    DivModUnique(y, x, size0);
    DivModUnique(y', x', size0);
  }

  ghost predicate Placed<T>(v: seq<T>, w: seq<T>, size0: nat, size1: nat, x: nat, y: nat) {
    var from, to := x * size1 + y, y * size0 + x;
    from < |v| && to < |w| && w[to] == v[from]
  }

  lemma OffsetTwo(d: Dims, i: Dims)
    requires |d| == |i| == 2
    ensures Offset(d, i) == i[0] * d[1] + i[1] && Product(d) == d[0] * d[1]
  {
    assert d[1..] == [d[1]] && i[1..] == [i[1]];
    OffsetOne(d[1], i[1]);
  }

  // ----- rank 3 and above -----

  /** Row-major strides of the result, minor to major. */
  method ComputeStrides(d: Dims) returns (strides: Dims)
    requires |d| > 0
    ensures strides == StridesOf(d)
  {
    var n := |d|;
    var a := new nat[n];
    a[n - 1] := 1;
    assert d[n..] == [];
    for k := n - 1 downto 0
      invariant forall j | k <= j < n :: a[j] == StridesOf(d)[j]
    {
      OffsetSuffix(d, d, k + 1);
      a[k] := a[k + 1] * d[k + 1];
    }
    strides := a[..];
  }

  method AlignStrides(strides: Dims, permutation: seq<nat>) returns (aligned: Dims)
    requires IsPermutation(permutation, |strides|)
    ensures |aligned| == |strides| && Apply(permutation, aligned) == strides
  {
    var n := |strides|;
    var a := new nat[n];
    for k := 0 to n
      invariant forall j | 0 <= j < k :: permutation[j] < n && a[permutation[j]] == strides[j]
    {
      a[permutation[k]] := strides[k];
    }
    aligned := a[..];
  }

  /** Entry `k` of the stack is the target offset of the first `k + 1` coordinates. */
  ghost predicate Stacked(i: Dims, a: Dims, stack: Dims) {
    |i| == |a| == |stack| && forall k | 0 <= k < |i| :: stack[k] == PrefixDot(i, a, k + 1)
  }

  /** Moves to the next source index, keeping the stack of partial target offsets. */
  method BumpStack(d: Dims, a: Dims, indexes: array<nat>, stack: array<nat>) returns (target: nat)
    requires |d| == |a| == indexes.Length == stack.Length && indexes != stack
    requires LastBelow(d, indexes[..]) >= 0 && Stacked(indexes[..], a, stack[..])
    modifies indexes, stack
    ensures indexes[..] == Bumped(d, old(indexes[..])) && Stacked(indexes[..], a, stack[..])
    ensures target == PrefixDot(indexes[..], a, |d|)
  {
    ghost var i := indexes[..];
    ghost var p := LastBelow(d, i);
    LastBelowMeaning(d, i);
    var k := |d| - 1;
    while indexes[k] + 1 >= d[k]
      invariant p <= k < |d|
      decreases k
    {
      k := k - 1;
    }
    assert k == p;
    ghost var j := Bumped(d, i);
    forall m | 0 <= m < |d| ensures j[m] == if m < p then i[m] else if m == p then i[p] + 1 else 0 {
      BumpedAt(d, i, m);
    }
    PrefixDotBumped(i, j, a, p);
    indexes[k] := indexes[k] + 1;
    target := stack[k] + a[k];
    stack[k] := target;
    for m := k + 1 to |d|
      invariant forall n | 0 <= n < m :: indexes[n] == j[n]
      invariant forall n | 0 <= n < m :: stack[n] == PrefixDot(j, a, n + 1)
      invariant target == PrefixDot(j, a, m)
    {
      indexes[m] := 0;
      stack[m] := target;
    }
    assert indexes[..] == j;
  }

  lemma PrefixDotBumped(i: Dims, j: Dims, a: Dims, p: nat)
    requires |i| == |j| == |a| && p < |i|
    requires j[p] == i[p] + 1 && forall m | 0 <= m < p :: j[m] == i[m]
    ensures forall m | 0 <= m <= p :: PrefixDot(j, a, m) == PrefixDot(i, a, m)
    ensures PrefixDot(j, a, p + 1) == PrefixDot(i, a, p + 1) + a[p]
  {
    forall m | 0 <= m <= p ensures PrefixDot(j, a, m) == PrefixDot(i, a, m) {
      PrefixDotSame(i, j, a, m);
    }
    assert (i[p] + 1) * a[p] == i[p] * a[p] + a[p];
  }

  /** The cells of the source indices before `n` are where they belong. */
  ghost predicate MovedBefore<T>(d: Dims, v: seq<T>, p: seq<nat>, w: seq<T>, n: nat)
    requires IsPermutation(p, |d|)
  {
    forall i {:trigger Moves(d, v, p, w, i)} | InBounds(i, d) && Offset(d, i) < n :: Moves(d, v, p, w, i)
  }

  lemma MoveOne<T>(d: Dims, v: seq<T>, p: seq<nat>, w: seq<T>, w': seq<T>, i: Dims)
    requires IsPermutation(p, |d|) && InBounds(i, d) && |v| == Product(d) && |w| == Product(Apply(p, d))
    requires MovedBefore(d, v, p, w, Offset(d, i))
    requires Offset(d, i) < |v| && Target(d, p, i) < |w| && w' == w[Target(d, p, i) := v[Offset(d, i)]]
    ensures MovedBefore(d, v, p, w', Offset(d, i) + 1)
  {
    forall j | InBounds(j, d) && Offset(d, j) < Offset(d, i) + 1 ensures Moves(d, v, p, w', j) {
      OffsetBound(d, j);
      TargetDistinct(d, p, i, j);
      if Offset(d, j) == Offset(d, i) {
        OffsetInjective(d, i, j);
      } else {
        assert Moves(d, v, p, w, j);
      }
    }
  }

  method Transpose3DOrMore<T>(sizes: Dims, values: array<T>, permutation: seq<nat>, permuted: array<T>)
    requires |sizes| > 0 && IsPermutation(permutation, |sizes|) && values != permuted
    requires values.Length == Product(sizes) && permuted.Length == Product(Apply(permutation, sizes))
    modifies permuted
    ensures IsTransposed(sizes, values[..], permutation, permuted[..])
  {
    if values.Length == 0 {
      if i :| InBounds(i, sizes) {
        OffsetBound(sizes, i);
        assert false;
      }
      return;
    }
    var strides := ComputeStrides(Apply(permutation, sizes));
    var aligned := AlignStrides(strides, permutation);
    var stack := new nat[|sizes|](_ => 0);
    var indexes := new nat[|sizes|](_ => 0);
    ZeroStack(sizes, aligned);
    assert indexes[..] == Zeros(|sizes|) && stack[..] == Zeros(|sizes|);
    var source: nat := 0;
    var target: nat := 0;
    while true
      invariant InBounds(indexes[..], sizes) && Offset(sizes, indexes[..]) == source < values.Length
      invariant Stacked(indexes[..], aligned, stack[..]) && target == PrefixDot(indexes[..], aligned, |sizes|)
      invariant MovedBefore(sizes, values[..], permutation, permuted[..], source)
      decreases values.Length - source
    {
      ghost var i := indexes[..];
      TargetReached(sizes, permutation, aligned, i);
      ghost var w := permuted[..];
      permuted[target] := values[source];
      MoveOne(sizes, values[..], permutation, w, permuted[..], i);
      BumpSteps(sizes, i);
      if source == values.Length - 1 {
        break;
      }
      target := BumpStack(sizes, aligned, indexes, stack);
      source := source + 1;
    }
    forall i | InBounds(i, sizes) ensures Moves(sizes, values[..], permutation, permuted[..], i) {
      OffsetBound(sizes, i);
    }
  }

  lemma TargetReached(d: Dims, p: seq<nat>, a: Dims, i: Dims)
    requires IsPermutation(p, |d|) && Aligned(d, p, a) && InBounds(i, d)
    ensures PrefixDot(i, a, |d|) == Target(d, p, i) < Product(Apply(p, d))
  {
    TargetIsDot(d, p, a, i);
    FullPrefix(i, a);
    TargetDistinct(d, p, i, i);
  }

  lemma {:induction false} ZeroPrefix(n: nat, a: Dims, k: nat)
    requires k <= n == |a|
    ensures PrefixDot(Zeros(n), a, k) == 0
  {
    if k > 0 {
      ZeroPrefix(n, a, k - 1);
    }
  }

  lemma ZeroStack(d: Dims, a: Dims)
    requires |a| == |d| && Product(d) > 0
    ensures InBounds(Zeros(|d|), d) && Offset(d, Zeros(|d|)) == 0
    ensures Stacked(Zeros(|d|), a, Zeros(|d|)) && PrefixDot(Zeros(|d|), a, |d|) == 0
  {
    ProductPositive(d);
    OffsetZeros(d);
    forall k | 0 <= k <= |d| ensures PrefixDot(Zeros(|d|), a, k) == 0 {
      ZeroPrefix(|d|, a, k);
    }
  }
}
