/** The one-level linear index: a single pass from the most minor dimension that looks at the first
    tile only, and when it agrees with the nested computation. */
module OneLevelTiling {
  import opened Arithmetic
  import opened RowMajor
  import opened NestedTiling
  import opened TiledIndex

  // ----- the outer part of one tiling step -----

  function OuterDims(s: Dims, t: Tile): (r: Dims)
    requires |t| <= |s| && Positive(t)
    ensures |r| == |s|
  {
    s[..|s| - |t|] + Outer(s, t)
  }

  function OuterIndex(e: Dims, t: Tile): (r: Dims)
    requires |t| <= |e| && Positive(t)
    ensures |r| == |e|
  {
    e[..|e| - |t|] + Quotients(e, t)
  }

  /** The offset after one tile, outer and inner part apart. */
  function SplitOffset(s: Dims, e: Dims, t: Tile): nat
    requires |t| <= |s| == |e| && Positive(t)
  {
    Offset(OuterDims(s, t), OuterIndex(e, t)) * Product(t) + Offset(t, Remainders(e, t))
  }

  lemma TiledOffset(s: Dims, e: Dims, t: Tile)
    requires |t| <= |s| == |e| && Positive(t)
    ensures Offset(TileShape(s, t), TileIndex(e, t)) == SplitOffset(s, e, t)
  {
    OffsetConcat(OuterDims(s, t), t, OuterIndex(e, t), Remainders(e, t));
    assert TileShape(s, t) == OuterDims(s, t) + t && TileIndex(e, t) == OuterIndex(e, t) + Remainders(e, t);
  }

  lemma {:induction false} LeadingZeros(d: Dims, e: Dims, k: nat)
    requires |d| == |e| && k <= |d| && forall j | 0 <= j < k :: e[j] == 0
    ensures Offset(d, e) == Offset(d[k..], e[k..])
  {
    if k > 0 {
      LeadingZeros(d[1..], e[1..], k - 1);
      assert d[1..][k - 1..] == d[k..] && e[1..][k - 1..] == e[k..];
    }
  }

  // ----- the pass -----

  /** The tile the pass looks at. */
  function FirstTile(tiles: seq<Tile>): Tile {
    if tiles == [] then [] else tiles[0]
  }

  function OneLevel(shape: Shape): Shape {
    shape.(tiles := if shape.tiles == [] then [] else shape.tiles[..1])
  }

  /** The accumulators of the pass. */
  datatype Sums = Sums(linear: nat, tileMultiplier: nat, withinMultiplier: nat) {
    /** One dimension added: outer coordinate `q` of `d`, inner coordinate `r` of `t`. */
    function Add(d: nat, q: nat, t: nat, r: nat): Sums {
      Sums(linear + tileMultiplier * q + withinMultiplier * r, tileMultiplier * d, withinMultiplier * t)
    }
  }

  function Combine(outer: nat, outerSize: nat, tileSize: nat, inner: nat, innerSize: nat): Sums {
    Sums(outer * tileSize + inner, tileSize * outerSize, innerSize)
  }

  lemma CombineAdd(o: nat, p: nat, t: nat, i: nat, w: nat, d: nat, q: nat, n: nat, r: nat)
    ensures Combine(q * p + o, d * p, t, r * w + i, n * w) == Combine(o, p, t, i, w).Add(d, q, n, r)
  {
    assert (q * p + o) * t == (q * p) * t + o * t;
    assert (q * p) * t == (t * p) * q;
    assert (t * p) * d == t * (d * p);
  }

  /** Their values once the dimensions from `a` on, and the tile dimensions from `k` on, are added. */
  ghost function SumFrom(d: Dims, q: Dims, a: nat, t: Tile, r: Dims, k: nat): Sums
    requires a <= |d| == |q| && k <= |t| == |r|
  {
    Combine(Offset(d[a..], q[a..]), Product(d[a..]), Product(t), Offset(t[k..], r[k..]), Product(t[k..]))
  }

  lemma SumTiled(d: Dims, q: Dims, a: nat, t: Tile, r: Dims, k: nat)
    requires 0 < a <= |d| == |q| && 0 < k <= |t| == |r|
    ensures SumFrom(d, q, a - 1, t, r, k - 1) == SumFrom(d, q, a, t, r, k).Add(d[a - 1], q[a - 1], t[k - 1], r[k - 1])
  {
    OffsetSuffix(d, q, a - 1);
    OffsetSuffix(t, r, k - 1);
    CombineAdd(Offset(d[a..], q[a..]), Product(d[a..]), Product(t), Offset(t[k..], r[k..]), Product(t[k..]),
      d[a - 1], q[a - 1], t[k - 1], r[k - 1]);
  }

  lemma SumUntiled(d: Dims, q: Dims, a: nat, t: Tile, r: Dims, k: nat)
    requires 0 < a <= |d| == |q| && k <= |t| == |r|
    ensures SumFrom(d, q, a - 1, t, r, k) == SumFrom(d, q, a, t, r, k).Add(d[a - 1], q[a - 1], 1, 0)
  {
    OffsetSuffix(d, q, a - 1);
    CombineAdd(Offset(d[a..], q[a..]), Product(d[a..]), Product(t), Offset(t[k..], r[k..]), Product(t[k..]),
      d[a - 1], q[a - 1], 1, 0);
  }

  /** What the pass has summed up after the `m` most minor dimensions. */
  ghost function SumAfter(s: Dims, e: Dims, t: Tile, m: nat): Sums
    requires |t| <= |s| == |e| && Positive(t) && m <= |s|
  {
    SumFrom(OuterDims(s, t), OuterIndex(e, t), |s| - m, t, Remainders(e, t), |t| - Min(m, |t|))
  }

  lemma SumNothing(d: Dims, q: Dims, t: Tile, r: Dims)
    requires |d| == |q| && |t| == |r|
    ensures SumFrom(d, q, |d|, t, r, |t|) == Sums(0, Product(t), 1)
  {
    assert d[|d|..] == [] && q[|d|..] == [] && t[|t|..] == [] && r[|t|..] == [];
    assert Combine(0, 1, Product(t), 0, 1) == Sums(0, Product(t), 1);
  }

  lemma SumStart(s: Dims, e: Dims, t: Tile)
    requires |t| <= |s| == |e| && Positive(t)
    ensures SumAfter(s, e, t, 0) == Sums(0, Product(t), 1)
  {
    SumNothing(OuterDims(s, t), OuterIndex(e, t), t, Remainders(e, t));
  }

  lemma SumNextTiled(s: Dims, e: Dims, t: Tile, m: nat)
    requires |t| <= |s| == |e| && Positive(t) && m < |t|
    ensures var k, j := |s| - 1 - m, |t| - 1 - m;
      SumAfter(s, e, t, m + 1) == SumAfter(s, e, t, m).Add(CeilOfRatio(s[k], t[j]), e[k] / t[j], t[j], e[k] % t[j])
  {
    var k, j := |s| - 1 - m, |t| - 1 - m;
    var d, q := OuterDims(s, t), OuterIndex(e, t);
    assert k == |s| - |t| + j;
    assert d[k] == Outer(s, t)[j] && q[k] == Quotients(e, t)[j];
    SumTiled(d, q, k + 1, t, Remainders(e, t), j + 1);
  }

  lemma SumNextUntiled(s: Dims, e: Dims, t: Tile, m: nat)
    requires |t| <= m < |s| == |e| && Positive(t)
    ensures SumAfter(s, e, t, m + 1) == SumAfter(s, e, t, m).Add(s[|s| - 1 - m], e[|s| - 1 - m], 1, 0)
  {
    SumUntiled(OuterDims(s, t), OuterIndex(e, t), |s| - m, t, Remainders(e, t), 0);
  }

  lemma OuterZero(e: Dims, t: Tile, k: nat)
    requires k < |t| <= |e| && Positive(t) && e[|e| - |t| + k] == 0
    ensures OuterIndex(e, t)[|e| - |t| + k] == 0 && Remainders(e, t)[k] == 0
  {
    DivModUnique(0, 0, t[k]);
  }

  lemma OuterZeros(e: Dims, t: Tile, n: nat)
    requires n <= |t| == |e| && Positive(t) && forall k | 0 <= k < n :: e[k] == 0
    ensures forall k | 0 <= k < n :: OuterIndex(e, t)[k] == 0 && Remainders(e, t)[k] == 0
  {
    forall k | 0 <= k < n ensures OuterIndex(e, t)[k] == 0 && Remainders(e, t)[k] == 0 {
      OuterZero(e, t, k);
    }
  }

  lemma {:induction false} SumLeading(d: Dims, q: Dims, a: nat, t: Tile, r: Dims, k: nat)
    requires a <= |d| == |q| && k <= |t| == |r|
    requires (forall j | 0 <= j < a :: q[j] == 0) && forall j | 0 <= j < k :: r[j] == 0
    ensures SumFrom(d, q, a, t, r, k).linear == Offset(d, q) * Product(t) + Offset(t, r)
  {
    LeadingZeros(d, q, a);
    LeadingZeros(t, r, k);
  }

  /** Padding adds nothing to the sum. */
  lemma {:induction false} SumComplete(s: Dims, e: Dims, t: Tile, n: nat)
    requires |t| <= |s| == |e| && Positive(t) && n <= |s| && (n == |s| || |s| == |t|)
    requires forall k | 0 <= k < |s| - n :: e[k] == 0
    ensures SumAfter(s, e, t, n).linear == SplitOffset(s, e, t)
  {
    if n < |s| {
      OuterZeros(e, t, |s| - n);
    }
    SumLeading(OuterDims(s, t), OuterIndex(e, t), |s| - n, t, Remainders(e, t), |t| - Min(n, |t|));
  }

  /** The offset of the one-level layout, by its padded physical shape and index. */
  lemma OneLevelOffset(shape: Shape, indices: Dims)
    requires shape.Valid() && |indices| == |shape.dimensions|
    ensures Positive(FirstTile(shape.tiles)) && OneLevel(shape).Valid()
    ensures var t, m := FirstTile(shape.tiles), shape.minorToMajor;
      NestedOffset(OneLevel(shape), indices)
      == SplitOffset(Pad(Physical(m, shape.dimensions), |t|, 1), Pad(Physical(m, indices), |t|, 0), t)
  {
    var t, m := FirstTile(shape.tiles), shape.minorToMajor;
    var s, e := Pad(Physical(m, shape.dimensions), |t|, 1), Pad(Physical(m, indices), |t|, 0);
    TiledOffset(s, e, t);
    if shape.tiles == [] {
      assert TileShape(s, t) == s && TileIndex(e, t) == e;
    } else {
      assert shape.tiles[..1] == [t];
      ExpandOne(Physical(m, shape.dimensions), Physical(m, indices), t);
    }
  }

  lemma OneLevelIs(shape: Shape)
    ensures |shape.tiles| <= 1 ==> OneLevel(shape) == shape
    ensures |shape.tiles| > 1 ==> OneLevel(shape) == Shape(shape.dimensions, shape.minorToMajor, [shape.tiles[0]])
  {
  }

  /** The number of elements in a tile. */
  method ProductLoop(tile: Tile) returns (p: nat)
    ensures p == Product(tile)
  {
    p := 1;
    assert tile[..0] == [];
    for i := 0 to |tile|
      invariant p == Product(tile[..i])
    {
      assert tile[..i + 1] == tile[..i] + [tile[i]];
      OffsetSnoc(tile[..i], tile[..i], tile[i], 0);
      p := p * tile[i];
    }
    assert tile[..|tile|] == tile;
  }

  lemma PadMinors(m: seq<nat>, x: Dims, rank: nat, v: nat)
    requires IsPermutation(m, |x|)
    ensures var s := Pad(Physical(m, x), rank, v);
      && (forall k | 0 <= k < |x| :: s[|s| - 1 - k] == x[m[k]])
      && forall k | 0 <= k < |s| - |x| :: s[k] == v
  {
    forall k | 0 <= k < |x| ensures var s := Pad(Physical(m, x), rank, v); s[|s| - 1 - k] == x[m[k]] {
      assert Physical(m, x)[|x| - 1 - k] == x[m[k]];
    }
  }

  /** One dimension of the pass, tiled or not. */
  method AddDimension(sums: Sums, dimension: nat, index: nat, tile: Tile, minor: nat, ghost s: Dims, ghost e: Dims)
    returns (next: Sums)
    requires |tile| <= |s| == |e| && Positive(tile) && minor < |s|
    requires s[|s| - 1 - minor] == dimension && e[|s| - 1 - minor] == index
    requires sums == SumAfter(s, e, tile, minor)
    ensures next == SumAfter(s, e, tile, minor + 1)
  {
    if minor < |tile| {
      SumNextTiled(s, e, tile, minor);
      var tileDim := tile[|tile| - 1 - minor];
      next := sums.Add(CeilOfRatio(dimension, tileDim), index / tileDim, tileDim, index % tileDim);
    } else {
      SumNextUntiled(s, e, tile, minor);
      next := sums.Add(dimension, index, 1, 0);
    }
  }

  /** The pass over the dimensions, most minor first; `s` and `e` are the padded shape and index. */
  method SumDimensions(shape: Shape, indices: Dims, tile: Tile, ghost s: Dims, ghost e: Dims) returns (linear: nat)
    requires IsPermutation(shape.minorToMajor, |shape.dimensions|) && |indices| == |shape.dimensions|
    requires Positive(tile) && |tile| <= |s| == |e| && |indices| <= |s| && (|indices| == |s| || |s| == |tile|)
    requires forall k | 0 <= k < |indices| :: s[|s| - 1 - k] == shape.dimensions[shape.minorToMajor[k]]
    requires forall k | 0 <= k < |indices| :: e[|e| - 1 - k] == indices[shape.minorToMajor[k]]
    requires forall k | 0 <= k < |s| - |indices| :: e[k] == 0
    ensures linear == SplitOffset(s, e, tile)
  {
    var n, m := |indices|, shape.minorToMajor;
    var tileMultiplier := ProductLoop(tile);
    var sums := Sums(0, tileMultiplier, 1);
    SumStart(s, e, tile);
    for minor := 0 to n
      invariant sums == SumAfter(s, e, tile, minor)
    {
      sums := AddDimension(sums, shape.dimensions[m[minor]], indices[m[minor]], tile, minor, s, e);
    }
    SumComplete(s, e, tile, n);
    linear := sums.linear;
  }

  method SumPadded(shape: Shape, indices: Dims, tile: Tile) returns (linear: nat)
    requires IsPermutation(shape.minorToMajor, |shape.dimensions|) && |indices| == |shape.dimensions|
    requires Positive(tile)
    ensures var m := shape.minorToMajor;
      linear == SplitOffset(Pad(Physical(m, shape.dimensions), |tile|, 1), Pad(Physical(m, indices), |tile|, 0), tile)
  {
    ghost var m := shape.minorToMajor;
    PadMinors(m, shape.dimensions, |tile|, 1);
    PadMinors(m, indices, |tile|, 0);
    linear := SumDimensions(shape, indices, tile,
      Pad(Physical(m, shape.dimensions), |tile|, 1), Pad(Physical(m, indices), |tile|, 0));
  }

  /** Agrees with the nested computation at every rank but 1 if there is at most one tile, and otherwise with
      that over the first tile alone. */
  method LinearIndex(shape: Shape, indices: Dims) returns (linear: nat)
    requires shape.Valid() && |indices| == |shape.dimensions|
    ensures |indices| == 1 ==> linear == indices[0]
    ensures |indices| != 1 && |shape.tiles| <= 1 ==> linear == NestedOffset(shape, indices)
    ensures |indices| != 1 && |shape.tiles| > 1 ==>
              var top := Shape(shape.dimensions, shape.minorToMajor, [shape.tiles[0]]);
              top.Valid() && linear == NestedOffset(top, indices)
  {
    OneLevelOffset(shape, indices);
    OneLevelIs(shape);
    if |indices| == 0 {
      ScalarOffset(OneLevel(shape));
      return 0;
    }
    if |indices| == 1 {
      return indices[0];
    }
    linear := SumPadded(shape, indices, FirstTile(shape.tiles));
  }

  // ----- rank 1 -----

  function TiledVector(n: nat, t: Tile): Shape {
    Shape([n], [0], [t])
  }

  lemma AddFirst(p: nat, d: nat, q: nat, t: nat, r: nat)
    ensures Sums(0, p, 1).Add(d, q, t, r).linear == q * p + r
  {
  }

  /** The offset of index `i` of a vector in tiles of `p` elements whose last row has `b`. */
  function RowOffset(b: nat, p: nat, i: nat): nat
    requires b > 0
  {
    (i / b) * p + i % b
  }

  lemma SplitVector(s: Dims, e: Dims, t: Tile, i: nat)
    requires |t| == |s| == |e| > 0 && Positive(t) && e[|e| - 1] == i
    requires forall k | 0 <= k < |e| - 1 :: e[k] == 0
    ensures SplitOffset(s, e, t) == RowOffset(t[|t| - 1], Product(t), i)
  {
    var b := t[|t| - 1];
    SumStart(s, e, t);
    SumNextTiled(s, e, t, 0);
    SumComplete(s, e, t, 1);
    AddFirst(Product(t), CeilOfRatio(s[|s| - 1], b), i / b, b, i % b);
  }

  lemma VectorOneLevel(n: nat, t: Tile, i: nat)
    requires Positive(t)
    ensures TiledVector(n, t).Valid()
    ensures NestedOffset(TiledVector(n, t), [i]) == SplitOffset(Pad([n], |t|, 1), Pad([i], |t|, 0), t)
  {
    var v := TiledVector(n, t);
    OneLevelOffset(v, [i]);
    assert v.tiles[..1] == v.tiles;
    assert Physical([0], [n]) == [n] && Physical([0], [i]) == [i];
  }

  /** The nested offset in a tiled vector, of which the pass returns the index itself. */
  lemma VectorOffset(n: nat, t: Tile, i: nat)
    requires Positive(t) && |t| > 0
    ensures TiledVector(n, t).Valid()
    ensures NestedOffset(TiledVector(n, t), [i]) == RowOffset(t[|t| - 1], Product(t), i)
  {
    VectorOneLevel(n, t, i);
    SplitVector(Pad([n], |t|, 1), Pad([i], |t|, 0), t, i);
  }

  lemma UntiledVector(n: nat, i: nat)
    ensures TiledVector(n, []).Valid() && NestedOffset(TiledVector(n, []), [i]) == i
  {
    VectorOneLevel(n, [], i);
    assert OuterDims([n], []) == [n] && OuterIndex([i], []) == [i];
    OffsetOne(n, i);
  }

  /** At rank 1 the two agree on every index exactly if the leading tile dimensions are all 1 or one
      row of a tile holds the vector. */
  lemma {:induction false} VectorAgrees(n: nat, t: Tile)
    requires Positive(t)
    ensures TiledVector(n, t).Valid()
    ensures (forall i: nat | i < n :: NestedOffset(TiledVector(n, t), [i]) == i)
            <==> |t| == 0 || n <= t[|t| - 1] || Product(t[..|t| - 1]) == 1
  {
    if |t| == 0 {
      UntiledVector(n, 0);
      forall i: nat | i < n ensures NestedOffset(TiledVector(n, t), [i]) == i {
        UntiledVector(n, i);
      }
    } else {
      TiledVectorAgrees(n, t);
    }
  }

  lemma {:induction false} TiledVectorAgrees(n: nat, t: Tile)
    requires Positive(t) && |t| > 0
    ensures TiledVector(n, t).Valid()
    ensures (forall i: nat | i < n :: NestedOffset(TiledVector(n, t), [i]) == i)
            <==> n <= t[|t| - 1] || Product(t[..|t| - 1]) == 1
  {
    var b, a, p := t[|t| - 1], Product(t[..|t| - 1]), Product(t);
    assert p == a * b by {
      assert t == t[..|t| - 1] + [b];
      ProductConcat(t[..|t| - 1], [b]);
      ProductOne(b);
    }
    VectorOffset(n, t, 0);
    forall i: nat | i < n ensures NestedOffset(TiledVector(n, t), [i]) == RowOffset(b, p, i) {
      VectorOffset(n, t, i);
    }
    RowOrColumn(n, a, b, p);
  }

  lemma {:induction false} RowOrColumn(n: nat, a: nat, b: nat, p: nat)
    requires b > 0 && p == a * b
    ensures (forall i: nat | i < n :: RowOffset(b, p, i) == i) <==> n <= b || a == 1
  {
    if n <= b || a == 1 {
      forall i: nat | i < n ensures RowOffset(b, p, i) == i {
        if n <= b {
          DivModUnique(0, i, b);
        }
        assert i == (i / b) * b + i % b;
      }
    } else {
      DivModUnique(1, 0, b);
      assert a * b == b ==> a == 1;
      assert RowOffset(b, p, b) != b;
    }
  }
}
