/** Nested tiling of a layout: the expansion of a physical shape and index by a list of tiles,
    the memory offset of an index, and the way back. */
module NestedTiling {
  import opened Arithmetic
  import opened RowMajor

  type Tile = seq<nat>

  predicate Positive(t: Dims) {
    forall k | 0 <= k < |t| :: t[k] > 0
  }

  predicate AllPositive(tiles: seq<Tile>) {
    forall k | 0 <= k < |tiles| :: Positive(tiles[k])
  }

  function CeilOfRatio(d: nat, t: nat): nat
    requires t > 0
  {
    (d + t - 1) / t
  }

  /** The least number of tiles that covers the dimension. */
  lemma CeilLeast(d: nat, t: nat, c: nat)
    requires t > 0
    ensures c == CeilOfRatio(d, t) <==> d <= c * t < d + t
  {
    var q, r := DivMod(d + t - 1, t);
    if d <= c * t < d + t {
      DivModUnique(c, d + t - 1 - c * t, t);
    }
  }

  // ----- one tile -----

  /** Extends `s` in front to rank `rank`, if it is shorter. */
  function Pad(s: Dims, rank: nat, x: nat): (r: Dims)
    ensures |r| == if rank > |s| then rank else |s|
  {
    if rank > |s| then seq(rank - |s|, _ => x) + s else s
  }

  function Outer(s: Dims, t: Tile): (r: Dims)
    requires |t| <= |s| && Positive(t)
    ensures |r| == |t|
  {
    seq(|t|, k requires 0 <= k < |t| => CeilOfRatio(s[|s| - |t| + k], t[k]))
  }

  function TileShape(s: Dims, t: Tile): (r: Dims)
    requires |t| <= |s| && Positive(t)
    ensures |r| == |s| + |t|
  {
    s[..|s| - |t|] + Outer(s, t) + t
  }

  function Quotients(e: Dims, t: Tile): (r: Dims)
    requires |t| <= |e| && Positive(t)
    ensures |r| == |t|
  {
    seq(|t|, k requires 0 <= k < |t| => e[|e| - |t| + k] / t[k])
  }

  function Remainders(e: Dims, t: Tile): (r: Dims)
    requires |t| <= |e| && Positive(t)
    ensures |r| == |t|
  {
    seq(|t|, k requires 0 <= k < |t| => e[|e| - |t| + k] % t[k])
  }

  function TileIndex(e: Dims, t: Tile): (r: Dims)
    requires |t| <= |e| && Positive(t)
    ensures |r| == |e| + |t|
  {
    e[..|e| - |t|] + Quotients(e, t) + Remainders(e, t)
  }

  /** The reverse of one step, for a shape of rank `rank` before it. */
  function Untile(e: Dims, rank: nat, t: Tile): (r: Dims)
    requires |t| <= rank && rank + |t| <= |e|
    ensures |r| == rank
  {
    UntileTo(e, rank, t, rank)
  }

  /** The first `n` coordinates, one after the other. */
  function UntileTo(e: Dims, rank: nat, t: Tile, n: nat): (r: Dims)
    requires |t| <= rank && rank + |t| <= |e| && n <= rank
    ensures |r| == n
  {
    if n == 0 then [] else UntileTo(e, rank, t, n - 1) + [UntileAt(e, rank, t, n - 1)]
  }

  function UntileAt(e: Dims, rank: nat, t: Tile, k: nat): nat
    requires |t| <= rank && rank + |t| <= |e| && k < rank
  {
    if k < rank - |t| then e[k] else e[k] * t[k - (rank - |t|)] + e[k + |t|]
  }

  lemma {:induction false} UntileToAt(e: Dims, rank: nat, t: Tile, n: nat, k: nat)
    requires |t| <= rank && rank + |t| <= |e| && k < n <= rank
    ensures UntileTo(e, rank, t, n)[k] == UntileAt(e, rank, t, k)
  {
    if k < n - 1 {
      UntileToAt(e, rank, t, n - 1, k);
    }
  }

  lemma UntileTile(e: Dims, t: Tile)
    requires |t| <= |e| && Positive(t)
    ensures Untile(TileIndex(e, t), |e|, t) == e
  {
    forall k | 0 <= k < |e| ensures Untile(TileIndex(e, t), |e|, t)[k] == e[k] {
      UntileTileAt(e, t, k);
      UntileToAt(TileIndex(e, t), |e|, t, |e|, k);
    }
  }

  lemma UntileTileAt(e: Dims, t: Tile, k: nat)
    requires |t| <= |e| && Positive(t) && k < |e|
    ensures UntileAt(TileIndex(e, t), |e|, t, k) == e[k]
  {
    var x, p := TileIndex(e, t), |e| - |t|;
    if k >= p {
      assert x[k] == Quotients(e, t)[k - p] && x[k + |t|] == Remainders(e, t)[k - p];
      var q, r := DivMod(e[k], t[k - p]);
    }
  }

  lemma CeilBound(e: nat, d: nat, t: nat)
    requires e < d && t > 0
    ensures e / t < CeilOfRatio(d, t)
  {
    assert e == (e / t) * t + e % t;
    assert (e / t + 1) * t + e % t == e + t;
    DivModUnique(e / t + 1, e % t, t);
    DivMonotone(e + t, d + t - 1, t);
  }

  lemma TileInBounds(e: Dims, s: Dims, t: Tile)
    requires InBounds(e, s) && |t| <= |s| && Positive(t)
    ensures InBounds(TileIndex(e, t), TileShape(s, t))
  {
    forall k | 0 <= k < |t| ensures Quotients(e, t)[k] < Outer(s, t)[k] {
      CeilBound(e[|e| - |t| + k], s[|e| - |t| + k], t[k]);
    }
  }

  // ----- all tiles -----

  /** The rank of a shape after padding for the next tile. */
  function Room(rank: nat, tiles: seq<Tile>): (r: nat)
    ensures r >= rank
  {
    if tiles != [] && |tiles[0]| > rank then |tiles[0]| else rank
  }

  function ExpandedRank(rank: nat, tiles: seq<Tile>): nat
    decreases |tiles|
  {
    if tiles == [] then rank else ExpandedRank(Room(rank, tiles) + |tiles[0]|, tiles[1..])
  }

  function ExpandShape(s: Dims, tiles: seq<Tile>): (r: Dims)
    requires AllPositive(tiles)
    ensures |r| == ExpandedRank(|s|, tiles)
    decreases |tiles|
  {
    if tiles == [] then s else ExpandShape(TileShape(Pad(s, |tiles[0]|, 1), tiles[0]), tiles[1..])
  }

  function ExpandIndex(e: Dims, tiles: seq<Tile>): (r: Dims)
    requires AllPositive(tiles)
    ensures |r| == ExpandedRank(|e|, tiles)
    decreases |tiles|
  {
    if tiles == [] then e else ExpandIndex(TileIndex(Pad(e, |tiles[0]|, 0), tiles[0]), tiles[1..])
  }

  /** Undoes the steps from last to first, as the code does: no step strips the padding of the
      step after it. */
  function Collapse(e: Dims, s: Dims, tiles: seq<Tile>): (r: Dims)
    requires AllPositive(tiles) && |e| == ExpandedRank(|s|, tiles)
    ensures |r| == Room(|s|, tiles)
    decreases |tiles|
  {
    if tiles == [] then e else
      var padded := Pad(s, |tiles[0]|, 1);
      Untile(Collapse(e, TileShape(padded, tiles[0]), tiles[1..]), |padded|, tiles[0])
  }

  lemma {:induction false} ExpandInBounds(e: Dims, s: Dims, tiles: seq<Tile>)
    requires AllPositive(tiles) && InBounds(e, s)
    ensures InBounds(ExpandIndex(e, tiles), ExpandShape(s, tiles))
    decreases |tiles|
  {
    if tiles != [] {
      var t := tiles[0];
      TileInBounds(Pad(e, |t|, 0), Pad(s, |t|, 1), t);
      ExpandInBounds(TileIndex(Pad(e, |t|, 0), t), TileShape(Pad(s, |t|, 1), t), tiles[1..]);
    }
  }

  /** No tile has a higher rank than the shape it is applied to. */
  predicate Fits(rank: nat, tiles: seq<Tile>)
    decreases |tiles|
  {
    tiles == [] || (|tiles[0]| <= rank && Fits(rank + |tiles[0]|, tiles[1..]))
  }

  /** Only the first tile may have a higher rank than the shape it is applied to. */
  predicate PaddingOnlyFirst(rank: nat, tiles: seq<Tile>) {
    tiles == [] || Fits(Room(rank, tiles) + |tiles[0]|, tiles[1..])
  }

  lemma PadInjective(e: Dims, e': Dims, rank: nat)
    requires |e| == |e'| && Pad(e, rank, 0) == Pad(e', rank, 0)
    ensures e == e'
  {
    var p, p' := Pad(e, rank, 0), Pad(e', rank, 0);
    forall k | 0 <= k < |e| ensures e[k] == e'[k] {
      assert p[|p| - |e| + k] == e[k] && p'[|p| - |e| + k] == e'[k];
    }
  }

  lemma {:induction false} ExpandInjective(e: Dims, e': Dims, tiles: seq<Tile>)
    requires AllPositive(tiles) && |e| == |e'| && ExpandIndex(e, tiles) == ExpandIndex(e', tiles)
    ensures e == e'
    decreases |tiles|
  {
    if tiles != [] {
      var t := tiles[0];
      var p, p' := Pad(e, |t|, 0), Pad(e', |t|, 0);
      ExpandInjective(TileIndex(p, t), TileIndex(p', t), tiles[1..]);
      UntileTile(p, t);
      UntileTile(p', t);
      PadInjective(e, e', |t|);
    }
  }

  // ----- memory offsets -----

  /** A layout: dimension sizes, their physical order, and tiles. */
  datatype Shape = Shape(dimensions: Dims, minorToMajor: seq<nat>, tiles: seq<Tile>) {
    predicate Valid() {
      IsPermutation(minorToMajor, |dimensions|) && AllPositive(tiles)
    }

    function Expanded(): Dims
      requires Valid()
    {
      ExpandShape(Physical(minorToMajor, dimensions), tiles)
    }
  }

  /** The memory offset of an index: row-major in the expanded shape. */
  function NestedOffset(shape: Shape, indices: Dims): nat
    requires shape.Valid() && |indices| == |shape.dimensions|
  {
    Offset(shape.Expanded(), ExpandIndex(Physical(shape.minorToMajor, indices), shape.tiles))
  }

  /** Offsets of in-bounds indices lie in the expanded shape, and no two indices share one. */
  lemma OffsetsDistinct(shape: Shape, i: Dims, j: Dims)
    requires shape.Valid() && InBounds(i, shape.dimensions) && InBounds(j, shape.dimensions)
    ensures NestedOffset(shape, i) < Product(shape.Expanded())
    ensures NestedOffset(shape, i) == NestedOffset(shape, j) ==> i == j
  {
    var m, s := shape.minorToMajor, Physical(shape.minorToMajor, shape.dimensions);
    PhysicalInBounds(m, i, shape.dimensions);
    PhysicalInBounds(m, j, shape.dimensions);
    ExpandInBounds(Physical(m, i), s, shape.tiles);
    ExpandInBounds(Physical(m, j), s, shape.tiles);
    OffsetBound(shape.Expanded(), ExpandIndex(Physical(m, i), shape.tiles));
    if NestedOffset(shape, i) == NestedOffset(shape, j) {
      OffsetInjective(shape.Expanded(), ExpandIndex(Physical(m, i), shape.tiles), ExpandIndex(Physical(m, j), shape.tiles));
      ExpandInjective(Physical(m, i), Physical(m, j), shape.tiles);
      PhysicalInjective(m, i, j);
    }
  }

  /** What delinearizing returns, in physical order. */
  function NestedIndex(shape: Shape, linear: nat): (r: Dims)
    requires shape.Valid() && Positive(shape.Expanded())
    ensures |r| == |shape.dimensions|
  {
    var c := Collapse(Unoffset(shape.Expanded(), linear), Physical(shape.minorToMajor, shape.dimensions), shape.tiles);
    c[|c| - |shape.dimensions|..]
  }

  function Vector(n: nat, t: nat): Shape {
    Shape([n], [0], [[t], [1, 1, 1]])
  }

  lemma VectorFirstTile(n: nat, t: nat, i: nat)
    requires t > 0
    ensures TileShape([n], [t]) == [CeilOfRatio(n, t), t] && TileIndex([i], [t]) == [i / t, i % t]
  {
    assert [n][..0] == [] && [i][..0] == [];
  }

  lemma VectorSecondTile(c: nat, t: nat, q: nat, r: nat)
    requires t > 0
    ensures TileShape(Pad([c, t], 3, 1), [1, 1, 1]) == [1, c, t, 1, 1, 1]
    ensures TileIndex(Pad([q, r], 3, 0), [1, 1, 1]) == [0, q, r, 0, 0, 0]
  {
    assert Pad([c, t], 3, 1) == [1, c, t] && Pad([q, r], 3, 0) == [0, q, r];
  }

  lemma ExpandOne(s: Dims, e: Dims, u: Tile)
    requires Positive(u)
    ensures AllPositive([u])
    ensures ExpandShape(s, [u]) == TileShape(Pad(s, |u|, 1), u)
    ensures ExpandIndex(e, [u]) == TileIndex(Pad(e, |u|, 0), u)
  {
    assert [u][0] == u && [u][1..] == [];
  }

  lemma ExpandTwo(s: Dims, e: Dims, t: Tile, u: Tile)
    requires |t| <= |s| == |e| && Positive(t) && Positive(u)
    ensures AllPositive([t, u])
    ensures ExpandShape(s, [t, u]) == TileShape(Pad(TileShape(s, t), |u|, 1), u)
    ensures ExpandIndex(e, [t, u]) == TileIndex(Pad(TileIndex(e, t), |u|, 0), u)
  {
    assert [t, u][0] == t && [t, u][1..] == [u];
    ExpandOne(TileShape(s, t), TileIndex(e, t), u);
  }

  lemma VectorExpansion(n: nat, t: nat, i: nat)
    requires t > 0
    ensures Vector(n, t).Valid() && Vector(n, t).Expanded() == [1, CeilOfRatio(n, t), t, 1, 1, 1]
    ensures ExpandIndex([i], Vector(n, t).tiles) == [0, i / t, i % t, 0, 0, 0]
  {
    assert Physical([0], [n]) == [n];
    ExpandTwo([n], [i], [t], [1, 1, 1]);
    VectorFirstTile(n, t, i);
    VectorSecondTile(CeilOfRatio(n, t), t, i / t, i % t);
  }

  lemma VectorCollapse(n: nat, t: nat, i: nat)
    requires t > 0
    ensures AllPositive(Vector(n, t).tiles) && |ExpandShape([n], Vector(n, t).tiles)| == 6
    ensures Collapse([0, i / t, i % t, 0, 0, 0], [n], Vector(n, t).tiles) == [i / t]
  {
    var v, one: Tile := Vector(n, t), [1, 1, 1];
    VectorExpansion(n, t, i);
    assert Physical([0], [n]) == [n];
    VectorFirstTile(n, t, i);
    assert v.tiles[1..] == [one] && [one][1..] == [];
    var e: Dims := [0, i / t, i % t, 0, 0, 0];
    forall k | 0 <= k < 3 ensures Untile(e, 3, one)[k] == e[k] {
      UntileToAt(e, 3, one, 3, k);
    }
    assert Untile(e, 3, one) == [0, i / t, i % t];
    assert Collapse(e, [CeilOfRatio(n, t), t], [one]) == Untile(e, 3, one);
    UntileToAt([0, i / t, i % t], 1, [t], 1, 0);
  }

  /** With padding at a later tile the round trip can fail: an index `i` of a vector tiled by `t` and
      then by a tile of rank 3 comes back as `i / t`. */
  lemma LaterPaddingFails(n: nat, t: nat, i: nat)
    requires t > 0 && i < n
    ensures var v := Vector(n, t);
      && v.Valid() && !PaddingOnlyFirst(1, v.tiles) && Positive(v.Expanded())
      && NestedIndex(v, NestedOffset(v, [i])) == [i / t]
  {
    var v := Vector(n, t);
    VectorExpansion(n, t, i);
    assert Physical([0], [n]) == [n] && Physical([0], [i]) == [i];
    ExpandInBounds([i], [n], v.tiles);
    UnoffsetOffset(v.Expanded(), ExpandIndex([i], v.tiles));
    VectorCollapse(n, t, i);
  }
}
