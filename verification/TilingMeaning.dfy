/** What tiling does to a shape and an index, told coordinate by coordinate. */
module TilingMeaning {
  import opened Arithmetic
  import opened RowMajor
  import opened NestedTiling

  /** Coordinate `k` of a shape or index that is extended in front with `x` to rank `rank`. */
  function Extended(s: Dims, rank: nat, x: nat, k: nat): nat
    requires |s| <= rank && k < rank
  {
    if k < rank - |s| then x else s[k - (rank - |s|)]
  }

  /** `s'` and `e'` are shape `s` and index `e` after tile `t`: extended to its rank with sizes of 1 and
      coordinates of 0; a dimension in front of the tile stays; a tiled one becomes the least number of tiles
      that cover it, and the tile's size further back, and a coordinate is as many whole tiles and the rest. */
  predicate TiledTo(s: Dims, e: Dims, t: Tile, s': Dims, e': Dims)
    requires |s| == |e|
  {
    var rank := if |t| > |s| then |t| else |s|;
    && |s'| == |e'| == rank + |t|
    && (forall k | 0 <= k < rank - |t| :: s'[k] == Extended(s, rank, 1, k) && e'[k] == Extended(e, rank, 0, k))
    && (forall j | 0 <= j < |t| :: SplitTo(t[j], Extended(s, rank, 1, rank - |t| + j), Extended(e, rank, 0, rank - |t| + j),
                                           s'[rank - |t| + j], e'[rank - |t| + j], s'[rank + j], e'[rank + j]))
  }

  /** Size `d` and coordinate `x` become outer and inner ones for tiles of size `t`. */
  predicate SplitTo(t: nat, d: nat, x: nat, outerSize: nat, outer: nat, innerSize: nat, inner: nat) {
    d <= outerSize * t < d + t && innerSize == t && x == outer * t + inner && inner < t
  }

  lemma SplitUnique(t: nat, d: nat, x: nat, outerSize: nat, outer: nat, innerSize: nat, inner: nat)
    requires t > 0 && SplitTo(t, d, x, outerSize, outer, innerSize, inner)
    ensures outerSize == CeilOfRatio(d, t) && innerSize == t && outer == x / t && inner == x % t
  {
    CeilLeast(d, t, outerSize);
    DivModUnique(outer, inner, t);
  }

  lemma PadIs(s: Dims, rank: nat, x: nat, k: nat)
    requires var r := if rank > |s| then rank else |s|; k < r
    ensures var r := if rank > |s| then rank else |s|; |Pad(s, rank, x)| == r && Pad(s, rank, x)[k] == Extended(s, r, x, k)
  {
  }

  lemma {:induction false} SplitAt(s: Dims, e: Dims, t: Tile, s': Dims, e': Dims, j: nat)
    requires |s| == |e| && Positive(t) && TiledTo(s, e, t, s', e') && j < |t|
    ensures var p, q := Pad(s, |t|, 1), Pad(e, |t|, 0);
      && s'[|p| - |t| + j] == CeilOfRatio(p[|p| - |t| + j], t[j]) && s'[|p| + j] == t[j]
      && e'[|p| - |t| + j] == q[|p| - |t| + j] / t[j] && e'[|p| + j] == q[|p| - |t| + j] % t[j]
  {
    var rank := if |t| > |s| then |t| else |s|;
    PadIs(s, |t|, 1, rank - |t| + j);
    PadIs(e, |t|, 0, rank - |t| + j);
    SplitUnique(t[j], Extended(s, rank, 1, rank - |t| + j), Extended(e, rank, 0, rank - |t| + j),
      s'[rank - |t| + j], e'[rank - |t| + j], s'[rank + j], e'[rank + j]);
  }

  lemma Front(p: Dims, t: Tile, k: nat)
    requires |t| <= |p| && Positive(t) && k < |p| - |t|
    ensures TileShape(p, t)[k] == TileIndex(p, t)[k] == p[k]
  {
  }

  lemma Back(p: Dims, t: Tile, j: nat)
    requires |t| <= |p| && Positive(t) && j < |t|
    ensures TileShape(p, t)[|p| - |t| + j] == CeilOfRatio(p[|p| - |t| + j], t[j]) && TileShape(p, t)[|p| + j] == t[j]
    ensures TileIndex(p, t)[|p| - |t| + j] == p[|p| - |t| + j] / t[j] && TileIndex(p, t)[|p| + j] == p[|p| - |t| + j] % t[j]
  {
    assert TileShape(p, t)[|p| - |t| + j] == Outer(p, t)[j];
    assert TileIndex(p, t)[|p| - |t| + j] == Quotients(p, t)[j] && TileIndex(p, t)[|p| + j] == Remainders(p, t)[j];
  }

  lemma {:induction false} TiledFront(s: Dims, e: Dims, t: Tile, s': Dims, e': Dims, k: nat)
    requires |s| == |e| && Positive(t) && TiledTo(s, e, t, s', e') && k < |Pad(s, |t|, 1)| - |t|
    ensures s'[k] == TileShape(Pad(s, |t|, 1), t)[k] && e'[k] == TileIndex(Pad(e, |t|, 0), t)[k]
  {
    PadIs(s, |t|, 1, k);
    PadIs(e, |t|, 0, k);
    Front(Pad(s, |t|, 1), t, k);
    Front(Pad(e, |t|, 0), t, k);
  }

  lemma {:induction false} TiledBack(s: Dims, e: Dims, t: Tile, s': Dims, e': Dims, j: nat)
    requires |s| == |e| && Positive(t) && TiledTo(s, e, t, s', e') && j < |t|
    ensures var p, q := Pad(s, |t|, 1), Pad(e, |t|, 0);
      && s'[|p| - |t| + j] == TileShape(p, t)[|p| - |t| + j] && s'[|p| + j] == TileShape(p, t)[|p| + j]
      && e'[|q| - |t| + j] == TileIndex(q, t)[|q| - |t| + j] && e'[|q| + j] == TileIndex(q, t)[|q| + j]
  {
    SplitAt(s, e, t, s', e', j);
    Back(Pad(s, |t|, 1), t, j);
    Back(Pad(e, |t|, 0), t, j);
  }

  lemma {:induction false} TiledAt(s: Dims, e: Dims, t: Tile, s': Dims, e': Dims, k: nat)
    requires |s| == |e| && Positive(t) && TiledTo(s, e, t, s', e') && k < |s'|
    ensures s'[k] == TileShape(Pad(s, |t|, 1), t)[k] && e'[k] == TileIndex(Pad(e, |t|, 0), t)[k]
  {
    var n := |Pad(s, |t|, 1)|;
    if k < n - |t| {
      TiledFront(s, e, t, s', e', k);
    } else {
      TiledBack(s, e, t, s', e', if k < n then k - (n - |t|) else k - n);
    }
  }

  lemma {:induction false} TiledUnique(s: Dims, e: Dims, t: Tile, s': Dims, e': Dims)
    requires |s| == |e| && Positive(t) && TiledTo(s, e, t, s', e')
    ensures s' == TileShape(Pad(s, |t|, 1), t) && e' == TileIndex(Pad(e, |t|, 0), t)
  {
    forall k | 0 <= k < |s'|
      ensures s'[k] == TileShape(Pad(s, |t|, 1), t)[k] && e'[k] == TileIndex(Pad(e, |t|, 0), t)[k]
    {
      TiledAt(s, e, t, s', e', k);
    }
  }

  /** The nested offset, one tile at a time: after the tiles, the row-major offset. */
  lemma {:induction false} NestedOffsetMeaning(s: Dims, e: Dims, tiles: seq<Tile>, s': Dims, e': Dims)
    requires AllPositive(tiles) && |s| == |e|
    ensures tiles == [] ==> Offset(ExpandShape(s, tiles), ExpandIndex(e, tiles)) == Offset(s, e)
    ensures tiles != [] && TiledTo(s, e, tiles[0], s', e') ==>
              Offset(ExpandShape(s, tiles), ExpandIndex(e, tiles)) == Offset(ExpandShape(s', tiles[1..]), ExpandIndex(e', tiles[1..]))
  {
    if tiles != [] && TiledTo(s, e, tiles[0], s', e') {
      TiledUnique(s, e, tiles[0], s', e');
    }
  }
}
