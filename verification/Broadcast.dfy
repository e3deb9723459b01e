/** Broadcasting an array into a larger shape: every result cell takes the source cell that the
    broadcast dimensions select. */
module Broadcast {
  import opened RowMajor
  import opened Odometer
  import opened IndexUtil
  import opened Options

  /** Source and result shapes with their layouts; source dimension `i` becomes result dimension
      `dimensions[i]`. */
  datatype Shapes = Shapes(srcDims: Dims, srcLayout: seq<nat>, resultDims: Dims, resultLayout: seq<nat>, dimensions: seq<nat>) {
    predicate Valid() {
      && IsPermutation(srcLayout, |srcDims|) && IsPermutation(resultLayout, |resultDims|)
      && |dimensions| == |srcDims|
      && (forall k | 0 <= k < |dimensions| :: dimensions[k] < |resultDims|)
      && forall j, k | 0 <= j < k < |dimensions| :: dimensions[j] != dimensions[k]
    }

    predicate Compatible()
      requires Valid()
    {
      forall k | 0 <= k < |dimensions| :: srcDims[k] == resultDims[dimensions[k]]
    }

    /** The source index that a result index reads from. */
    function Select(j: Dims): (i: Dims)
      requires Valid() && |j| == |resultDims|
      ensures |i| == |srcDims| && forall k | 0 <= k < |srcDims| :: i[k] == j[dimensions[k]]
    {
      seq(|srcDims|, k requires 0 <= k < |srcDims| => j[dimensions[k]])
    }

    /** The result shape with every broadcast dimension cut to 1. */
    function Repeats(): (b: Dims)
      requires Valid()
      ensures |b| == |resultDims|
    {
      seq(|resultDims|, k requires 0 <= k < |resultDims| => if k in dimensions then 1 else resultDims[k])
    }

    /** A result index with its source coordinates set to 0. */
    function Clear(j: Dims): (b: Dims)
      requires |j| == |resultDims|
      ensures |b| == |j|
    {
      seq(|j|, k requires 0 <= k < |j| => if k in dimensions then 0 else j[k])
    }
  }

  /** Every result cell holds the selected source cell. */
  ghost predicate IsBroadcast<T>(s: Shapes, u: seq<T>, r: seq<T>)
    requires s.Valid()
  {
    forall j {:trigger Filled(s, u, r, j)} | InBounds(j, s.resultDims) :: Filled(s, u, r, j)
  }

  ghost predicate Filled<T>(s: Shapes, u: seq<T>, r: seq<T>, j: Dims)
    requires s.Valid() && |j| == |s.resultDims|
  {
    var from, to := LinearOf(s.srcDims, s.srcLayout, s.Select(j)), LinearOf(s.resultDims, s.resultLayout, j);
    from < |u| && to < |r| && r[to] == u[from]
  }

  // ----- splitting a result index into source index and repetition -----

  lemma SelectInBounds(s: Shapes, j: Dims)
    requires s.Valid() && s.Compatible() && InBounds(j, s.resultDims)
    ensures InBounds(s.Select(j), s.srcDims) && InBounds(s.Clear(j), s.Repeats())
  {
  }

  lemma SplitUnique(s: Shapes, i: Dims, j: Dims)
    requires s.Valid() && |i| == |j| == |s.resultDims| && s.Select(i) == s.Select(j) && s.Clear(i) == s.Clear(j)
    ensures i == j
  {
    forall k | 0 <= k < |i| ensures i[k] == j[k] {
      if k in s.dimensions {
        var m :| 0 <= m < |s.dimensions| && s.dimensions[m] == k;
        assert s.Select(i)[m] == s.Select(j)[m];
      } else {
        assert s.Clear(i)[k] == s.Clear(j)[k];
      }
    }
  }

  /** Bumping over the cut shape passes the source coordinates by, whatever they are. */
  lemma BumpClear(s: Shapes, j: Dims)
    requires s.Valid() && |j| == |s.resultDims|
    ensures LastBelow(s.Repeats(), j) == LastBelow(s.Repeats(), s.Clear(j))
    ensures s.Clear(Bumped(s.Repeats(), j)) == Bumped(s.Repeats(), s.Clear(j))
  {
    var b, c := s.Repeats(), s.Clear(j);
    var p := LastBelow(b, c);
    LastBelowMeaning(b, c);
    LastBelowIs(b, j, p);
    if p >= 0 {
      forall k | 0 <= k < |j| ensures s.Clear(Bumped(b, j))[k] == Bumped(b, c)[k] {
        BumpedAt(b, j, k);
        BumpedAt(b, c, k);
      }
    }
  }

  // ----- progress -----

  /** Result index `j` is filled once `n` source cells, and `m` repetitions of the next, are done. */
  predicate Done(s: Shapes, n: nat, m: nat, j: Dims)
    requires s.Valid() && |j| == |s.resultDims|
  {
    var at := Offset(s.srcDims, s.Select(j));
    at < n || (at == n && Offset(s.Repeats(), s.Clear(j)) < m)
  }

  ghost predicate Progress<T>(s: Shapes, u: seq<T>, r: seq<T>, n: nat, m: nat)
    requires s.Valid()
  {
    forall j {:trigger Filled(s, u, r, j)} | InBounds(j, s.resultDims) && Done(s, n, m, j) :: Filled(s, u, r, j)
  }

  lemma FillNext<T>(s: Shapes, u: seq<T>, r: seq<T>, r': seq<T>, n: nat, m: nat, j: Dims)
    requires s.Valid() && s.Compatible() && InBounds(j, s.resultDims)
    requires |u| == Product(s.srcDims) && |r| == Product(s.resultDims)
    requires Offset(s.srcDims, s.Select(j)) == n && Offset(s.Repeats(), s.Clear(j)) == m
    requires Progress(s, u, r, n, m)
    requires var from, to := LinearOf(s.srcDims, s.srcLayout, s.Select(j)), LinearOf(s.resultDims, s.resultLayout, j);
      from < |u| && to < |r| && r' == r[to := u[from]]
    ensures Progress(s, u, r', n, m + 1)
  {
    forall h | InBounds(h, s.resultDims) && Done(s, n, m + 1, h) ensures Filled(s, u, r', h) {
      LinearDistinct(s.resultDims, s.resultLayout, h, j);
      if h != j {
        if !Done(s, n, m, h) {
          SelectInBounds(s, h);
          SelectInBounds(s, j);
          OffsetInjective(s.srcDims, s.Select(h), s.Select(j));
          OffsetInjective(s.Repeats(), s.Clear(h), s.Clear(j));
          SplitUnique(s, h, j);
          assert false;
        }
        assert Filled(s, u, r, h);
      }
    }
  }

  lemma SourceDone<T>(s: Shapes, u: seq<T>, r: seq<T>, n: nat)
    requires s.Valid() && s.Compatible() && Progress(s, u, r, n, Product(s.Repeats()))
    ensures Progress(s, u, r, n + 1, 0)
  {
    forall j | InBounds(j, s.resultDims) && Done(s, n + 1, 0, j) ensures Filled(s, u, r, j) {
      SelectInBounds(s, j);
      OffsetBound(s.Repeats(), s.Clear(j));
      assert Done(s, n, Product(s.Repeats()), j);
    }
  }

  lemma AllDone<T>(s: Shapes, u: seq<T>, r: seq<T>)
    requires s.Valid() && s.Compatible() && Progress(s, u, r, Product(s.srcDims), 0)
    ensures IsBroadcast(s, u, r)
  {
    forall j | InBounds(j, s.resultDims) ensures Filled(s, u, r, j) {
      SelectInBounds(s, j);
      OffsetBound(s.srcDims, s.Select(j));
      assert Done(s, Product(s.srcDims), 0, j);
    }
  }

  // ----- the loops -----

  /** Overwrites the source coordinates of the index. */
  method SetSource(s: Shapes, i: Dims, index: array<nat>)
    requires s.Valid() && |i| == |s.srcDims| && index.Length == |s.resultDims|
    modifies index
    ensures s.Select(index[..]) == i && s.Clear(index[..]) == s.Clear(old(index[..]))
  {
    for k := 0 to |s.dimensions|
      invariant forall m | 0 <= m < k :: index[s.dimensions[m]] == i[m]
      invariant forall d | 0 <= d < index.Length && d !in s.dimensions :: index[d] == old(index[d])
    {
      index[s.dimensions[k]] := i[k];
    }
  }

  /** Fills all repetitions of one source cell. */
  method Repeat<T>(s: Shapes, src: array<T>, result: array<T>, i: Dims, ghost n: nat)
    requires s.Valid() && s.Compatible() && src != result
    requires src.Length == Product(s.srcDims) && result.Length == Product(s.resultDims) > 0
    requires InBounds(i, s.srcDims) && Offset(s.srcDims, i) == n && Progress(s, src[..], result[..], n, 0)
    modifies result
    ensures Progress(s, src[..], result[..], n + 1, 0)
  {
    LinearDistinct(s.srcDims, s.srcLayout, i, i);
    var from := MultidimensionalIndexToLinearIndex(s.srcDims, s.srcLayout, i);
    var index := new nat[|s.resultDims|](_ => 0);
    assert s.Clear(index[..]) == Zeros(|s.resultDims|);
    OffsetZeros(s.Repeats());
    RepeatsPositive(s);
    ghost var m: nat := 0;
    var more := true;
    while more
      invariant m <= Product(s.Repeats())
      invariant if more then InBounds(s.Clear(index[..]), s.Repeats()) && Offset(s.Repeats(), s.Clear(index[..])) == m
                else m == Product(s.Repeats())
      invariant Progress(s, src[..], result[..], n, m)
      decreases Product(s.Repeats()) - m, more
    {
      SetSource(s, i, index);
      FillCell(s, src, result, from, index[..], n, m);
      BumpClear(s, index[..]);
      BumpSteps(s.Repeats(), s.Clear(index[..]));
      OffsetBound(s.Repeats(), s.Clear(index[..]));
      more := BumpIndices(s.Repeats(), index);
      m := m + 1;
    }
    SourceDone(s, src[..], result[..], n);
  }

  lemma RepeatsPositive(s: Shapes)
    requires s.Valid() && Product(s.resultDims) > 0
    ensures InBounds(Zeros(|s.resultDims|), s.Repeats())
  {
    ProductPositive(s.resultDims);
  }

  lemma Rejoined(s: Shapes, j: Dims)
    requires s.Valid() && s.Compatible() && |j| == |s.resultDims|
    requires InBounds(s.Select(j), s.srcDims) && InBounds(s.Clear(j), s.Repeats())
    ensures InBounds(j, s.resultDims)
  {
    forall k | 0 <= k < |j| ensures j[k] < s.resultDims[k] {
      if k in s.dimensions {
        var m :| 0 <= m < |s.dimensions| && s.dimensions[m] == k;
        assert s.Select(j)[m] < s.srcDims[m];
      } else {
        assert s.Clear(j)[k] < s.Repeats()[k];
      }
    }
  }

  method FillCell<T>(s: Shapes, src: array<T>, result: array<T>, from: nat, j: Dims, ghost n: nat, ghost m: nat)
    requires s.Valid() && s.Compatible() && src != result && |j| == |s.resultDims|
    requires src.Length == Product(s.srcDims) && result.Length == Product(s.resultDims)
    requires InBounds(s.Select(j), s.srcDims) && InBounds(s.Clear(j), s.Repeats())
    requires Offset(s.srcDims, s.Select(j)) == n && Offset(s.Repeats(), s.Clear(j)) == m
    requires from == LinearOf(s.srcDims, s.srcLayout, s.Select(j)) && Progress(s, src[..], result[..], n, m)
    modifies result
    ensures Progress(s, src[..], result[..], n, m + 1)
  {
    Rejoined(s, j);
    LinearDistinct(s.resultDims, s.resultLayout, j, j);
    LinearDistinct(s.srcDims, s.srcLayout, s.Select(j), s.Select(j));
    var to := MultidimensionalIndexToLinearIndex(s.resultDims, s.resultLayout, j);
    ghost var r := result[..];
    result[to] := src[from];
    FillNext(s, src[..], r, result[..], n, m, j);
  }

  /** The sizes of the result: those of dynamic source dimensions, and its own elsewhere. */
  ghost predicate SizesSet(s: Shapes, dynamicSizes: seq<Option<nat>>, sizes: seq<nat>, n: nat)
    requires s.Valid() && |dynamicSizes| == |s.srcDims| && n <= |s.srcDims|
  {
    && |sizes| == |s.resultDims|
    && (forall i | 0 <= i < n :: dynamicSizes[i].Some? ==> sizes[s.dimensions[i]] == dynamicSizes[i].value)
    && forall k | 0 <= k < |sizes| ::
         (forall i | 0 <= i < n :: s.dimensions[i] == k ==> dynamicSizes[i].None?) ==> sizes[k] == s.resultDims[k]
  }

  /** Sets the dynamic sizes of the result. */
  method SetSizes(s: Shapes, dynamicSizes: seq<Option<nat>>) returns (sizes: seq<nat>)
    requires s.Valid() && |dynamicSizes| == |s.srcDims|
    ensures SizesSet(s, dynamicSizes, sizes, |s.srcDims|)
  {
    sizes := s.resultDims;
    for i := 0 to |s.dimensions|
      invariant SizesSet(s, dynamicSizes, sizes, i)
    {
      if dynamicSizes[i].Some? {
        sizes := sizes[s.dimensions[i] := dynamicSizes[i].value];
      }
    }
  }

  /** Fails on dimensions that do not match; otherwise fills the whole result. */
  method BroadcastHelper<T(0)>(s: Shapes, src: array<T>, dynamicSizes: seq<Option<nat>>)
    returns (ok: bool, result: array<T>, sizes: seq<nat>)
    requires s.Valid() && src.Length == Product(s.srcDims) && |dynamicSizes| == |s.srcDims|
    ensures ok <==> forall k | 0 <= k < |s.dimensions| :: s.srcDims[k] == s.resultDims[s.dimensions[k]]
    ensures ok ==> fresh(result) && result.Length == Product(s.resultDims)
    ensures ok ==> forall j {:trigger InBounds(j, s.resultDims)} | InBounds(j, s.resultDims) ::
              var from, to := LinearOf(s.srcDims, s.srcLayout, s.Select(j)), LinearOf(s.resultDims, s.resultLayout, j);
              from < src.Length && to < result.Length && result[..][to] == src[..][from]
    ensures ok ==> SizesSet(s, dynamicSizes, sizes, |s.srcDims|)
  {
    result, sizes := new T[Product(s.resultDims)], [];
    for k := 0 to |s.dimensions|
      invariant forall m | 0 <= m < k :: s.srcDims[m] == s.resultDims[s.dimensions[m]]
    {
      if s.srcDims[k] != s.resultDims[s.dimensions[k]] {
        return false, result, sizes;
      }
    }
    sizes := SetSizes(s, dynamicSizes);
    if result.Length == 0 {
      EmptyBroadcast(s, src[..], result[..]);
    } else if src.Length == 1 {
      FillAll(s, src, result);
    } else {
      RepeatAll(s, src, result);
    }
    FilledMeaning(s, src[..], result[..]);
    return true, result, sizes;
  }

  lemma FilledMeaning<T>(s: Shapes, u: seq<T>, r: seq<T>)
    requires s.Valid() && IsBroadcast(s, u, r)
    ensures forall j {:trigger InBounds(j, s.resultDims)} | InBounds(j, s.resultDims) ::
              var from, to := LinearOf(s.srcDims, s.srcLayout, s.Select(j)), LinearOf(s.resultDims, s.resultLayout, j);
              from < |u| && to < |r| && r[to] == u[from]
  {
    forall j | InBounds(j, s.resultDims) ensures Filled(s, u, r, j) {
    }
  }

  lemma EmptyBroadcast<T>(s: Shapes, u: seq<T>, r: seq<T>)
    requires s.Valid() && Product(s.resultDims) == 0
    ensures IsBroadcast(s, u, r)
  {
    if j :| InBounds(j, s.resultDims) {
      OffsetBound(s.resultDims, j);
      assert false;
    }
  }

  /** The fast path for a source of one element. */
  method FillAll<T>(s: Shapes, src: array<T>, result: array<T>)
    requires s.Valid() && s.Compatible() && src != result && src.Length == 1 == Product(s.srcDims) && result.Length == Product(s.resultDims)
    modifies result
    ensures IsBroadcast(s, src[..], result[..])
  {
    for i := 0 to result.Length
      invariant forall n | 0 <= n < i :: result[n] == src[0]
    {
      result[i] := src[0];
    }
    forall j | InBounds(j, s.resultDims) ensures Filled(s, src[..], result[..], j) {
      SelectInBounds(s, j);
      LinearDistinct(s.resultDims, s.resultLayout, j, j);
      LinearDistinct(s.srcDims, s.srcLayout, s.Select(j), s.Select(j));
    }
  }

  /** Visits every source cell and fills its repetitions. */
  method RepeatAll<T>(s: Shapes, src: array<T>, result: array<T>)
    requires s.Valid() && s.Compatible() && src != result
    requires src.Length == Product(s.srcDims) && result.Length == Product(s.resultDims) > 0
    modifies result
    ensures IsBroadcast(s, src[..], result[..])
  {
    SourcePositive(s);
    var visited := VisitAll(s.srcDims);
    for n := 0 to |visited|
      invariant Progress(s, src[..], result[..], n, 0)
    {
      OffsetUnoffset(s.srcDims, n);
      Repeat(s, src, result, visited[n], n);
    }
    AllDone(s, src[..], result[..]);
  }

  lemma SourcePositive(s: Shapes)
    requires s.Valid() && s.Compatible() && Product(s.resultDims) > 0
    ensures forall k | 0 <= k < |s.srcDims| :: s.srcDims[k] > 0
  {
    ProductPositive(s.resultDims);
  }
}
