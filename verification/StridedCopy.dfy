/** Copying a slice between two literals of any layouts, a strided run of cells at a time. */
module StridedCopy {
  import opened RowMajor
  import opened Odometer
  import opened IndexUtil
  import opened WindowCopies

  /** The two shapes, with their layouts, and the slice: `size` cells from `srcBase` to `destBase`. */
  datatype Slice = Slice(srcDims: Dims, srcLayout: seq<nat>, destDims: Dims, destLayout: seq<nat>,
                         srcBase: Dims, destBase: Dims, size: Dims) {
    /** The layouts are permutations and the slice is within both shapes. */
    predicate Valid() {
      && |srcDims| == |destDims| == |srcBase| == |destBase| == |size|
      && IsPermutation(srcLayout, |srcDims|) && IsPermutation(destLayout, |destDims|)
      && forall k | 0 <= k < |size| :: srcBase[k] + size[k] <= srcDims[k] && destBase[k] + size[k] <= destDims[k]
    }

    /** The cell that index `i` of the slice is read from, and the one it is written to. */
    function From(i: Dims): nat
      requires Valid() && |i| == |size|
    {
      LinearOf(srcDims, srcLayout, Plus(i, srcBase))
    }

    function To(i: Dims): nat
      requires Valid() && |i| == |size|
    {
      LinearOf(destDims, destLayout, Plus(i, destBase))
    }
  }

  /** What the copy should leave: slice cells from the source, all others as they were. */
  ghost predicate Copied<T>(c: Slice, u: seq<T>, v: seq<T>, r: seq<T>)
    requires c.Valid()
  {
    && (forall i {:trigger CellCopied(c, u, r, i)} | InBounds(i, c.size) :: CellCopied(c, u, r, i))
    && (forall j {:trigger CellKept(c, v, r, j)} |
          InBounds(j, c.destDims) && !Inside(j, c.destBase, Plus(c.size, c.destBase)) :: CellKept(c, v, r, j))
  }

  ghost predicate CellCopied<T>(c: Slice, u: seq<T>, r: seq<T>, i: Dims)
    requires c.Valid() && |i| == |c.size|
  {
    c.From(i) < |u| && c.To(i) < |r| && r[c.To(i)] == u[c.From(i)]
  }

  ghost predicate CellKept<T>(c: Slice, v: seq<T>, r: seq<T>, j: Dims)
    requires c.Valid() && |j| == |c.destDims|
  {
    var at := LinearOf(c.destDims, c.destLayout, j);
    at < |v| && at < |r| && r[at] == v[at]
  }

  // ----- progress: blocks done, and cells of the current block -----

  /** Index `i` has been copied once `n` blocks, and `k` cells of the next, are done. */
  predicate Done(blocks: Dims, minor: nat, n: nat, k: nat, i: Dims)
    requires |i| == |blocks| && minor < |i|
  {
    var b := Offset(blocks, i[minor := 0]);
    b < n || (b == n && i[minor] < k)
  }

  ghost predicate Progress<T>(c: Slice, u: seq<T>, v: seq<T>, r: seq<T>, minor: nat, n: nat, k: nat)
    requires c.Valid() && minor < |c.size|
  {
    && (forall i {:trigger CellCopied(c, u, r, i)} |
          InBounds(i, c.size) && Done(Blocks(c, minor), minor, n, k, i) :: CellCopied(c, u, r, i))
    && (forall j {:trigger CellKept(c, v, r, j)} |
          InBounds(j, c.destDims) && !Inside(j, c.destBase, Plus(c.size, c.destBase)) :: CellKept(c, v, r, j))
  }

  /** One block per index with coordinate 0 along the minor dimension. */
  function Blocks(c: Slice, minor: nat): (b: Dims)
    requires minor < |c.size|
    ensures |b| == |c.size|
  {
    c.size[minor := 1]
  }

  lemma ToDistinct(c: Slice, i: Dims)
    requires c.Valid() && InBounds(i, c.size)
    ensures InBounds(Plus(i, c.destBase), c.destDims) && InBounds(Plus(i, c.srcBase), c.srcDims)
    ensures c.To(i) < Product(c.destDims) && c.From(i) < Product(c.srcDims)
    ensures forall j | InBounds(j, c.destDims) && LinearOf(c.destDims, c.destLayout, j) == c.To(i) :: j == Plus(i, c.destBase)
  {
    LinearDistinct(c.srcDims, c.srcLayout, Plus(i, c.srcBase), Plus(i, c.srcBase));
    LinearDistinct(c.destDims, c.destLayout, Plus(i, c.destBase), Plus(i, c.destBase));
    forall j | InBounds(j, c.destDims) && LinearOf(c.destDims, c.destLayout, j) == c.To(i)
      ensures j == Plus(i, c.destBase)
    {
      LinearDistinct(c.destDims, c.destLayout, j, Plus(i, c.destBase));
    }
  }

  lemma PlusInjective(i: Dims, j: Dims, starts: Dims)
    requires |i| == |j| == |starts| && Plus(i, starts) == Plus(j, starts)
    ensures i == j
  {
    forall k | 0 <= k < |i| ensures i[k] == j[k] {
      assert Plus(i, starts)[k] == Plus(j, starts)[k];
    }
  }

  lemma NextIsOnly(c: Slice, minor: nat, k: nat, h: Dims, i: Dims)
    requires minor < |c.size| && InBounds(h, c.size) && InBounds(i, c.size) && h[minor] == i[minor] == k
    requires Offset(Blocks(c, minor), h[minor := 0]) == Offset(Blocks(c, minor), i[minor := 0])
    ensures h == i
  {
    var y: Dims, z: Dims := h[minor := 0], i[minor := 0];
    OffsetInjective(Blocks(c, minor), y, z);
    assert h == y[minor := k] && i == z[minor := k];
  }

  /** Copying the next cell of a block. */
  lemma CopyNext<T>(c: Slice, u: seq<T>, v: seq<T>, r: seq<T>, r': seq<T>, minor: nat, n: nat, k: nat, i: Dims)
    requires c.Valid() && minor < |c.size| && InBounds(i, c.size) && i[minor] == k
    requires |u| == Product(c.srcDims) && |r| == Product(c.destDims)
    requires Offset(Blocks(c, minor), i[minor := 0]) == n
    requires Progress(c, u, v, r, minor, n, k)
    requires c.To(i) < |r| && c.From(i) < |u| && r' == r[c.To(i) := u[c.From(i)]]
    ensures Progress(c, u, v, r', minor, n, k + 1)
  {
    ToDistinct(c, i);
    var blocks := Blocks(c, minor);
    forall h | InBounds(h, c.size) && Done(blocks, minor, n, k + 1, h) ensures CellCopied(c, u, r', h) {
      ToDistinct(c, h);
      if c.To(h) == c.To(i) {
        PlusInjective(h, i, c.destBase);
      } else {
        if !Done(blocks, minor, n, k, h) {
          NextIsOnly(c, minor, k, h, i);
        }
        assert CellCopied(c, u, r, h);
      }
    }
    forall j | InBounds(j, c.destDims) && !Inside(j, c.destBase, Plus(c.size, c.destBase)) ensures CellKept(c, v, r', j) {
      assert CellKept(c, v, r, j);
    }
  }

  lemma BlockDone<T>(c: Slice, u: seq<T>, v: seq<T>, r: seq<T>, minor: nat, n: nat)
    requires c.Valid() && minor < |c.size| && Progress(c, u, v, r, minor, n, c.size[minor])
    ensures Progress(c, u, v, r, minor, n + 1, 0)
  {
    var blocks := Blocks(c, minor);
    forall i | InBounds(i, c.size) && Done(blocks, minor, n + 1, 0, i) ensures CellCopied(c, u, r, i) {
      assert Done(blocks, minor, n, c.size[minor], i);
    }
  }

  lemma AllDone<T>(c: Slice, u: seq<T>, v: seq<T>, r: seq<T>, minor: nat)
    requires c.Valid() && minor < |c.size| && Progress(c, u, v, r, minor, Product(Blocks(c, minor)), 0)
    ensures Copied(c, u, v, r)
  {
    var blocks := Blocks(c, minor);
    forall i | InBounds(i, c.size) ensures CellCopied(c, u, r, i) {
      OffsetBound(blocks, i[minor := 0]);
      assert Done(blocks, minor, Product(blocks), 0, i);
    }
  }

  lemma NoneDone<T>(c: Slice, u: seq<T>, v: seq<T>, minor: nat)
    requires c.Valid() && minor < |c.size| && |v| == Product(c.destDims)
    ensures Progress(c, u, v, v, minor, 0, 0)
  {
    forall j | InBounds(j, c.destDims) && !Inside(j, c.destBase, Plus(c.size, c.destBase)) ensures CellKept(c, v, v, j) {
      LinearDistinct(c.destDims, c.destLayout, j, j);
    }
  }

  // ----- the strided run -----

  /** Which dimension the inner loop runs along, and the strides of both sides along it. */
  datatype StrideConfig = StrideConfig(minorDimension: nat, destStride: nat, sourceStride: nat) {
    predicate Fits(c: Slice)
      requires c.Valid()
    {
      && minorDimension < |c.size|
      && destStride == Stride(c.destDims, c.destLayout, minorDimension)
      && sourceStride == Stride(c.srcDims, c.srcLayout, minorDimension)
    }
  }

  /** The most minor dimension has stride 1. */
  lemma MinorStride(dims: Dims, m: seq<nat>)
    requires IsPermutation(m, |dims|) && |dims| > 0
    ensures Stride(dims, m, m[0]) == 1
  {
    StridePlaced(dims, m, 0);
    assert Physical(m, dims)[|dims|..] == [];
  }

  /** Runs along the longer of the two most minor dimensions. */
  method MakeStrideConfig(c: Slice) returns (s: StrideConfig)
    requires c.Valid() && |c.size| > 0
    ensures s.Fits(c)
    ensures var a, b := c.srcLayout[0], c.destLayout[0];
      s.minorDimension == if c.size[a] >= c.size[b] then a else b
  {
    MinorStride(c.srcDims, c.srcLayout);
    MinorStride(c.destDims, c.destLayout);
    var a, b := c.srcLayout[0], c.destLayout[0];
    if c.size[a] >= c.size[b] {
      var stride := GetDimensionStride(c.destDims, c.destLayout, a);
      s := StrideConfig(a, stride, 1);
    } else {
      var stride := GetDimensionStride(c.srcDims, c.srcLayout, b);
      s := StrideConfig(b, 1, stride);
    }
  }

  lemma RunAlong(dims: Dims, layout: seq<nat>, start: Dims, i: Dims, m: nat, k: nat)
    requires |dims| == |start| == |i| && IsPermutation(layout, |dims|) && m < |i| && i[m] == 0
    ensures LinearOf(dims, layout, Plus(i[m := k], start)) == LinearOf(dims, layout, Plus(i, start)) + k * Stride(dims, layout, m)
  {
    LinearMoves(dims, layout, Plus(i, start), m, k);
    assert Plus(i[m := k], start) == Plus(i, start)[m := Plus(i, start)[m] + k];
  }

  /** Moving along the minor dimension moves both cells by their strides. */
  lemma RunCell(c: Slice, s: StrideConfig, i: Dims, k: nat)
    requires c.Valid() && s.Fits(c) && |i| == |c.size| && i[s.minorDimension] == 0
    ensures c.From(i[s.minorDimension := k]) == c.From(i) + k * s.sourceStride
    ensures c.To(i[s.minorDimension := k]) == c.To(i) + k * s.destStride
  {
    RunAlong(c.srcDims, c.srcLayout, c.srcBase, i, s.minorDimension, k);
    RunAlong(c.destDims, c.destLayout, c.destBase, i, s.minorDimension, k);
  }

  /** The place `k` strides from the start. */
  function Stepped(start: nat, k: nat, stride: nat): nat {
    if k == 0 then start else Stepped(start, k - 1, stride) + stride
  }

  lemma {:induction false} SteppedIs(start: nat, k: nat, stride: nat)
    ensures Stepped(start, k, stride) == start + k * stride
  {
    if k > 0 {
      SteppedIs(start, k - 1, stride);
    }
  }

  lemma CellOfBlock(c: Slice, m: nat, i: Dims, k: nat)
    requires c.Valid() && m < |c.size| && k < c.size[m] && InBounds(i, Blocks(c, m))
    ensures InBounds(i[m := k], c.size) && i[m := k][m := 0] == i
  {
    assert i[m] < Blocks(c, m)[m];
  }

  /** Copies cell `k` of the block at `i`. */
  method CopyCell<T>(c: Slice, src: array<T>, dest: array<T>, from: nat, to: nat, ghost m: nat, ghost n: nat, ghost k: nat,
                     ghost i: Dims, ghost v: seq<T>)
    requires c.Valid() && src != dest && m < |c.size| && k < c.size[m]
    requires src.Length == Product(c.srcDims) && dest.Length == Product(c.destDims)
    requires InBounds(i, Blocks(c, m)) && Offset(Blocks(c, m), i) == n
    requires from == c.From(i[m := k]) && to == c.To(i[m := k])
    requires Progress(c, src[..], v, dest[..], m, n, k)
    modifies dest
    ensures Progress(c, src[..], v, dest[..], m, n, k + 1)
  {
    ghost var at: Dims, r := i[m := k], dest[..];
    CellOfBlock(c, m, i, k);
    ToDistinct(c, at);
    dest[to] := src[from];
    CopyNext(c, src[..], v, r, dest[..], m, n, k, at);
  }

  /** Copies cell `k` of a run and steps on. */
  method CopyAlong<T>(c: Slice, s: StrideConfig, src: array<T>, dest: array<T>, from: nat, to: nat,
                      ghost n: nat, ghost k: nat, ghost i: Dims, ghost v: seq<T>)
    returns (nextFrom: nat, nextTo: nat)
    requires c.Valid() && s.Fits(c) && src != dest && k < c.size[s.minorDimension]
    requires src.Length == Product(c.srcDims) && dest.Length == Product(c.destDims)
    requires InBounds(i, Blocks(c, s.minorDimension)) && Offset(Blocks(c, s.minorDimension), i) == n
    requires from == Stepped(c.From(i), k, s.sourceStride) && to == Stepped(c.To(i), k, s.destStride)
    requires Progress(c, src[..], v, dest[..], s.minorDimension, n, k)
    modifies dest
    ensures nextFrom == Stepped(c.From(i), k + 1, s.sourceStride) && nextTo == Stepped(c.To(i), k + 1, s.destStride)
    ensures Progress(c, src[..], v, dest[..], s.minorDimension, n, k + 1)
  {
    RunCell(c, s, i, k);
    SteppedIs(c.From(i), k, s.sourceStride);
    SteppedIs(c.To(i), k, s.destStride);
    CopyCell(c, src, dest, from, to, s.minorDimension, n, k, i, v);
    nextFrom, nextTo := from + s.sourceStride, to + s.destStride;
  }

  /** Copies one block: a strided run of cells on both sides. */
  method CopyBlock<T>(c: Slice, s: StrideConfig, src: array<T>, dest: array<T>, i: Dims, ghost n: nat, ghost v: seq<T>)
    requires c.Valid() && s.Fits(c) && src != dest
    requires src.Length == Product(c.srcDims) && dest.Length == Product(c.destDims)
    requires InBounds(i, Blocks(c, s.minorDimension)) && Offset(Blocks(c, s.minorDimension), i) == n
    requires Progress(c, src[..], v, dest[..], s.minorDimension, n, 0)
    modifies dest
    ensures Progress(c, src[..], v, dest[..], s.minorDimension, n + 1, 0)
  {
    var m := s.minorDimension;
    var srcIndexes, destIndexes := Plus(i, c.srcBase), Plus(i, c.destBase);
    ghost var u := src[..];
    if c.size[m] > 0 {
      ToDistinct(c, i);
      var from := MultidimensionalIndexToLinearIndex(c.srcDims, c.srcLayout, srcIndexes);
      var to := MultidimensionalIndexToLinearIndex(c.destDims, c.destLayout, destIndexes);
      for k := 0 to c.size[m]
        invariant from == Stepped(c.From(i), k, s.sourceStride) && to == Stepped(c.To(i), k, s.destStride)
        invariant Progress(c, u, v, dest[..], m, n, k)
      {
        from, to := CopyAlong(c, s, src, dest, from, to, n, k, i, v);
      }
    }
    BlockDone(c, u, v, dest[..], m, n);
  }

  method CopyBlocks<T>(c: Slice, src: array<T>, dest: array<T>)
    requires c.Valid() && |c.size| > 0 && src != dest && forall k | 0 <= k < |c.size| :: c.size[k] > 0
    requires src.Length == Product(c.srcDims) && dest.Length == Product(c.destDims)
    modifies dest
    ensures Copied(c, src[..], old(dest[..]), dest[..])
  {
    var s := MakeStrideConfig(c);
    var m := s.minorDimension;
    var blocks := Blocks(c, m);
    var visited := VisitAll(blocks);
    NoneDone(c, src[..], dest[..], m);
    for n := 0 to |visited|
      invariant Progress(c, src[..], old(dest[..]), dest[..], m, n, 0)
    {
      OffsetUnoffset(blocks, n);
      CopyBlock(c, s, src, dest, visited[n], n, old(dest[..]));
    }
    AllDone(c, src[..], old(dest[..]), dest[..], m);
  }

  // ----- the whole operation -----

  predicate NoElements(dims: Dims) {
    exists k | 0 <= k < |dims| :: dims[k] == 0
  }

  /** A scalar side copies one cell; a side or slice without elements copies none; otherwise the slice is
      copied run by run. Fails on a scalar side with a slice of rank above 0, and on ranks that differ. */
  method CopySliceFrom<T>(srcDims: Dims, srcLayout: seq<nat>, src: array<T>, destDims: Dims, destLayout: seq<nat>, dest: array<T>,
                          srcBase: Dims, destBase: Dims, size: Dims)
    returns (ok: bool)
    requires src != dest && src.Length == Product(srcDims) && dest.Length == Product(destDims)
    requires IsPermutation(srcLayout, |srcDims|) && IsPermutation(destLayout, |destDims|)
    requires |srcBase| == |srcDims| && |destBase| == |destDims|
    requires srcDims == [] || destDims == [] ==> InBounds(srcBase, srcDims) && InBounds(destBase, destDims)
    requires srcDims != [] && destDims != [] && |srcBase| == |destBase| == |size| ==>
               forall k | 0 <= k < |size| :: srcBase[k] + size[k] <= srcDims[k] && destBase[k] + size[k] <= destDims[k]
    modifies dest
    ensures ok <==> if srcDims == [] || destDims == [] then size == [] else
                    NoElements(destDims) || NoElements(srcDims) || NoElements(size) || |srcBase| == |destBase| == |size|
    ensures !ok ==> dest[..] == old(dest[..])
    ensures srcDims != [] && destDims != [] && !(|srcBase| == |destBase| == |size|) ==> dest[..] == old(dest[..])
    ensures ok && (srcDims == [] || destDims == []) ==>
              && LinearOf(srcDims, srcLayout, srcBase) < src.Length
              && LinearOf(destDims, destLayout, destBase) < dest.Length
              && dest[..] == old(dest[..])[LinearOf(destDims, destLayout, destBase) := src[LinearOf(srcDims, srcLayout, srcBase)]]
    ensures srcDims != [] && destDims != [] && |srcBase| == |destBase| == |size| ==>
              forall i {:trigger InBounds(i, size)} | InBounds(i, size) ::
                var from, to := LinearOf(srcDims, srcLayout, Plus(i, srcBase)), LinearOf(destDims, destLayout, Plus(i, destBase));
                from < src.Length && to < dest.Length && dest[..][to] == src[..][from]
    ensures srcDims != [] && destDims != [] && |srcBase| == |destBase| == |size| ==>
              forall j {:trigger InBounds(j, destDims)} |
                InBounds(j, destDims) && (exists k :: 0 <= k < |j| && !(destBase[k] <= j[k] < destBase[k] + size[k])) ::
                var at := LinearOf(destDims, destLayout, j);
                at < dest.Length && dest[..][at] == old(dest[..])[at]
  {
    if |srcDims| == 0 || |destDims| == 0 {
      if |size| != 0 {
        return false;
      }
      LinearDistinct(srcDims, srcLayout, srcBase, srcBase);
      LinearDistinct(destDims, destLayout, destBase, destBase);
      var from := MultidimensionalIndexToLinearIndex(srcDims, srcLayout, srcBase);
      var to := MultidimensionalIndexToLinearIndex(destDims, destLayout, destBase);
      dest[to] := src[from];
      return true;
    }
    if !NoElements(destDims) && !NoElements(srcDims) && !NoElements(size) {
      if |srcBase| != |destBase| || |srcBase| != |size| {
        return false;
      }
    }
    if |srcBase| == |destBase| == |size| {
      var c := Slice(srcDims, srcLayout, destDims, destLayout, srcBase, destBase, size);
      CopyRanked(c, src, dest);
      CopyMeaning(c, src[..], old(dest[..]), dest[..]);
    }
    return true;
  }

  /** The copy between shapes of one rank above 0. */
  method CopyRanked<T>(c: Slice, src: array<T>, dest: array<T>)
    requires c.Valid() && |c.size| > 0 && src != dest
    requires src.Length == Product(c.srcDims) && dest.Length == Product(c.destDims)
    modifies dest
    ensures Copied(c, src[..], old(dest[..]), dest[..])
  {
    if !NoElements(c.destDims) && !NoElements(c.srcDims) && !NoElements(c.size) {
      CopyBlocks(c, src, dest);
    } else {
      NothingToCopy(c, src[..], dest[..]);
    }
  }

  /** What `Copied` says, without its terms. */
  lemma CopyMeaning<T>(c: Slice, u: seq<T>, v: seq<T>, r: seq<T>)
    requires c.Valid() && Copied(c, u, v, r)
    ensures forall i {:trigger InBounds(i, c.size)} | InBounds(i, c.size) ::
              var from := LinearOf(c.srcDims, c.srcLayout, Plus(i, c.srcBase));
              var to := LinearOf(c.destDims, c.destLayout, Plus(i, c.destBase));
              from < |u| && to < |r| && r[to] == u[from]
    ensures forall j {:trigger InBounds(j, c.destDims)} |
              InBounds(j, c.destDims) && (exists k :: 0 <= k < |j| && !(c.destBase[k] <= j[k] < c.destBase[k] + c.size[k])) ::
              var at := LinearOf(c.destDims, c.destLayout, j);
              at < |v| && at < |r| && r[at] == v[at]
  {
    forall i | InBounds(i, c.size) ensures CellCopied(c, u, r, i) {
    }
    forall j | InBounds(j, c.destDims) && (exists k :: 0 <= k < |j| && !(c.destBase[k] <= j[k] < c.destBase[k] + c.size[k]))
      ensures CellKept(c, v, r, j)
    {
      var k :| 0 <= k < |j| && !(c.destBase[k] <= j[k] < c.destBase[k] + c.size[k]);
      assert Plus(c.size, c.destBase)[k] == c.size[k] + c.destBase[k];
      assert !Inside(j, c.destBase, Plus(c.size, c.destBase));
    }
  }

  lemma HasElements(c: Slice, i: Dims)
    requires c.Valid() && InBounds(i, c.size)
    ensures !NoElements(c.srcDims) && !NoElements(c.destDims) && !NoElements(c.size)
  {
    assert InBounds(Plus(i, c.srcBase), c.srcDims) && InBounds(Plus(i, c.destBase), c.destDims);
  }

  lemma NothingToCopy<T>(c: Slice, u: seq<T>, v: seq<T>)
    requires c.Valid() && |v| == Product(c.destDims)
    requires NoElements(c.srcDims) || NoElements(c.destDims) || NoElements(c.size)
    ensures Copied(c, u, v, v)
  {
    if i :| InBounds(i, c.size) {
      HasElements(c, i);
      assert false;
    }
    forall j | InBounds(j, c.destDims) && !Inside(j, c.destBase, Plus(c.size, c.destBase)) ensures CellKept(c, v, v, j) {
      LinearDistinct(c.destDims, c.destLayout, j, j);
    }
  }
}
