/** What the coordinates of an expanded index count: expanding is linear, with a weight for each
    expanded coordinate. */
module TilingWeights {
  import opened Arithmetic
  import opened RowMajor
  import opened NestedTiling

  // ----- weights -----

  /** Weights of the coordinates before a tile, as weights of those after it: an outer coordinate counts
      a whole tile. */
  function Spread(w: Dims, t: Tile): (r: Dims)
    requires |t| <= |w|
    ensures |r| == |w| + |t|
  {
    seq(|w| + |t|, k requires 0 <= k < |w| + |t| => SpreadAt(w, t, k))
  }

  function SpreadAt(w: Dims, t: Tile, k: nat): nat
    requires |t| <= |w| && k < |w| + |t|
  {
    var p := |w| - |t|;
    if k < p then w[k] else if k < |w| then w[k] * t[k - p] else w[k - |t|]
  }

  /** What the expanded coordinates count, with padding in front as expanding puts it. */
  function Weights(w: Dims, tiles: seq<Tile>): (r: Dims)
    ensures |r| == ExpandedRank(|w|, tiles)
    decreases |tiles|
  {
    if tiles == [] then w else Weights(Spread(Pad(w, |tiles[0]|, 0), tiles[0]), tiles[1..])
  }

  // ----- weighted sums -----

  /** The first `n` coordinates of `x`, weighted. */
  function Weighted(w: Dims, x: Dims, n: nat): nat
    requires n <= |w| && n <= |x|
  {
    if n == 0 then 0 else Weighted(w, x, n - 1) + w[n - 1] * x[n - 1]
  }

  /** A vector with one coordinate that is not 0. */
  function Unit(n: nat, k: nat, v: nat): (r: Dims)
    requires k < n
    ensures |r| == n
  {
    seq(n, j => if j == k then v else 0)
  }

  lemma {:induction false} WeightedUnit(x: Dims, k: nat, n: nat)
    requires k < |x| && n <= |x|
    ensures Weighted(x, Unit(|x|, k, 1), n) == Weighted(Unit(|x|, k, 1), x, n) == if k < n then x[k] else 0
  {
    if n > 0 {
      WeightedUnit(x, k, n - 1);
    }
  }

  /** Only the weights of coordinates other than 0 count. */
  lemma {:induction false} WeightedSame(a: Dims, b: Dims, x: Dims, n: nat)
    requires n <= |a| == |b| == |x| && forall k | 0 <= k < n :: x[k] == 0 || a[k] == b[k]
    ensures Weighted(a, x, n) == Weighted(b, x, n)
  {
    if n > 0 {
      WeightedSame(a, b, x, n - 1);
    }
  }

  lemma {:induction false} WeightedPrefix(w: Dims, b: Dims, c: Dims, n: nat)
    requires n <= |w| && n <= |b| && n <= |c| && forall k | 0 <= k < n :: w[k] == b[k]
    ensures Weighted(w, c, n) == Weighted(b, c, n)
  {
    if n > 0 {
      WeightedPrefix(w, b, c, n - 1);
    }
  }

  lemma {:induction false} WeightedPad(w: Dims, e: Dims, rank: nat, n: nat)
    requires |w| == |e| && n <= |Pad(w, rank, 0)|
    ensures var p := |Pad(w, rank, 0)| - |w|;
      Weighted(Pad(w, rank, 0), Pad(e, rank, 0), n) == if n <= p then 0 else Weighted(w, e, n - p)
  {
    if n > 0 {
      WeightedPad(w, e, rank, n - 1);
    }
  }

  /** A tile's coordinates combined, or apart with their weights spread. */
  lemma {:induction false} WeightedUntile(w: Dims, c: Dims, t: Tile, n: nat)
    requires |t| <= |w| && |w| + |t| <= |c| && |w| - |t| <= n <= |w|
    ensures Weighted(w, Untile(c, |w|, t), n) + Weighted(Spread(w, t), c, |w|)
            == Weighted(Spread(w, t), c, n) + Weighted(Spread(w, t), c, n + |t|)
    decreases n
  {
    var p := |w| - |t|;
    if n > p {
      WeightedUntile(w, c, t, n - 1);
      UntileToAt(c, |w|, t, |w|, n - 1);
      Reweighed(w[n - 1], c[n - 1], t[n - 1 - p], c[n - 1 + |t|]);
    } else {
      WeightedFront(w, c, t, p);
    }
  }

  lemma {:induction false} WeightedFront(w: Dims, c: Dims, t: Tile, n: nat)
    requires |t| <= |w| && |w| + |t| <= |c| && n <= |w| - |t|
    ensures Weighted(w, Untile(c, |w|, t), n) == Weighted(Spread(w, t), c, n)
  {
    if n > 0 {
      WeightedFront(w, c, t, n - 1);
      UntileToAt(c, |w|, t, |w|, n - 1);
    }
  }

  lemma Reweighed(w: nat, o: nat, t: nat, i: nat)
    ensures w * (o * t + i) == (w * t) * o + w * i
  {
    assert w * (o * t) == (w * t) * o;
  }

  lemma {:induction false} WeightedWhole(w: Dims, c: Dims, t: Tile)
    requires |t| <= |w| && |w| + |t| <= |c|
    ensures Weighted(w, Untile(c, |w|, t), |w|) == Weighted(Spread(w, t), c, |w| + |t|)
  {
    WeightedUntile(w, c, t, |w|);
  }

  lemma {:induction false} WeightedTile(w: Dims, e: Dims, t: Tile)
    requires |w| == |e| && |t| <= |e| && Positive(t)
    ensures Weighted(Spread(w, t), TileIndex(e, t), |e| + |t|) == Weighted(w, e, |e|)
  {
    WeightedWhole(w, TileIndex(e, t), t);
    UntileTile(e, t);
  }

  /** Expanding keeps weighted sums. */
  lemma {:induction false} WeightedExpand(w: Dims, e: Dims, tiles: seq<Tile>)
    requires AllPositive(tiles) && |w| == |e|
    ensures Weighted(Weights(w, tiles), ExpandIndex(e, tiles), ExpandedRank(|e|, tiles)) == Weighted(w, e, |e|)
    decreases |tiles|
  {
    if tiles != [] {
      var t := tiles[0];
      var v, x := Pad(w, |t|, 0), Pad(e, |t|, 0);
      WeightedPad(w, e, |t|, |x|);
      WeightedTile(v, x, t);
      WeightedExpand(Spread(v, t), TileIndex(x, t), tiles[1..]);
    }
  }

  lemma {:induction false} ExpandedCoordinate(e: Dims, tiles: seq<Tile>, d: nat)
    requires AllPositive(tiles) && d < |e|
    ensures e[d] == Weighted(Weights(Unit(|e|, d, 1), tiles), ExpandIndex(e, tiles), ExpandedRank(|e|, tiles))
  {
    WeightedExpand(Unit(|e|, d, 1), e, tiles);
    WeightedUnit(e, d, |e|);
  }

  // ----- the coordinates in use -----

  function TileReach(s: Dims, t: Tile): (r: Dims)
    requires |t| <= |s| && Positive(t)
    ensures |r| == |s| + |t|
  {
    seq(|s| + |t|, k requires 0 <= k < |s| + |t| => ReachAt(s, t, k))
  }

  function ReachAt(s: Dims, t: Tile, k: nat): nat
    requires |t| <= |s| && Positive(t) && k < |s| + |t|
  {
    var p := |s| - |t|;
    if k < p then s[k] else if k < |s| then CeilOfRatio(s[k], t[k - p]) else Min(s[k - |t|], t[k - |s|])
  }

  /** How many values each expanded coordinate takes: of an inner one, no more than the shape has. */
  function Reach(s: Dims, tiles: seq<Tile>): (r: Dims)
    requires AllPositive(tiles)
    ensures |r| == ExpandedRank(|s|, tiles)
    decreases |tiles|
  {
    if tiles == [] then s else Reach(TileReach(Pad(s, |tiles[0]|, 1), tiles[0]), tiles[1..])
  }

  lemma TileReaches(e: Dims, s: Dims, t: Tile)
    requires InBounds(e, s) && |t| <= |s| && Positive(t)
    ensures InBounds(TileIndex(e, t), TileReach(s, t))
  {
    forall k | 0 <= k < |s| + |t| ensures TileIndex(e, t)[k] < TileReach(s, t)[k] {
      var p := |s| - |t|;
      if p <= k < |s| {
        CeilBound(e[k], s[k], t[k - p]);
      } else if k >= |s| {
        var q, r := DivMod(e[k - |t|], t[k - |s|]);
      }
    }
  }

  lemma {:induction false} Reaches(e: Dims, s: Dims, tiles: seq<Tile>)
    requires AllPositive(tiles) && InBounds(e, s)
    ensures InBounds(ExpandIndex(e, tiles), Reach(s, tiles))
    decreases |tiles|
  {
    if tiles != [] {
      var t := tiles[0];
      TileReaches(Pad(e, |t|, 0), Pad(s, |t|, 1), t);
      Reaches(TileIndex(Pad(e, |t|, 0), t), TileReach(Pad(s, |t|, 1), t), tiles[1..]);
    }
  }

  /** The place and value of a single coordinate before a tile that leads to one after it. */
  lemma UnitBefore(s: Dims, t: Tile, j: nat, v: nat) returns (i: nat, u: nat)
    requires |t| <= |s| && Positive(t) && j < |s| + |t| && 0 < v < TileReach(s, t)[j]
    ensures i < |s| && 0 < u < s[i] && TileIndex(Unit(|s|, i, u), t) == Unit(|s| + |t|, j, v)
  {
    var p := |s| - |t|;
    i := if j < |s| then j else j - |t|;
    u := if p <= j < |s| then v * t[j - p] else v;
    if p <= j < |s| {
      CeilReached(v, s[j], t[j - p]);
      DivModUnique(v, 0, t[j - p]);
    } else if j >= |s| {
      DivModUnique(0, v, t[j - |s|]);
    }
    var x := Unit(|s|, i, u);
    forall k | 0 <= k < |t| && p + k != i ensures x[p + k] / t[k] == 0 && x[p + k] % t[k] == 0 {
      DivModUnique(0, 0, t[k]);
    }
  }

  lemma CeilReached(v: nat, d: nat, t: nat)
    requires 0 < t && 0 < v < CeilOfRatio(d, t)
    ensures 0 < v * t < d
  {
    var q, r := DivMod(d + t - 1, t);
    MulMono(v + 1, q, t);
    MulMono(1, v, t);
  }

  lemma UnitBeforePadding(s: Dims, t: Tile, j: nat, v: nat) returns (i: nat, u: nat)
    requires Positive(t) && j < |Pad(s, |t|, 1)| + |t| && 0 < v < TileReach(Pad(s, |t|, 1), t)[j]
    ensures i < |s| && 0 < u < s[i]
    ensures TileIndex(Pad(Unit(|s|, i, u), |t|, 0), t) == Unit(|Pad(s, |t|, 1)| + |t|, j, v)
  {
    var p := Pad(s, |t|, 1);
    i, u := UnitBefore(p, t, j, v);
    assert i >= |p| - |s|;
    i := i - (|p| - |s|);
    assert Pad(Unit(|s|, i, u), |t|, 0) == Unit(|p|, i + (|p| - |s|), u);
  }

  /** Each expanded coordinate with more than one value is 1 alone for some index. */
  lemma {:induction false} UnitReached(s: Dims, tiles: seq<Tile>, j: nat) returns (i: nat, v: nat)
    requires AllPositive(tiles) && j < |Reach(s, tiles)| && Reach(s, tiles)[j] > 1
    ensures i < |s| && 0 < v < s[i]
    ensures ExpandIndex(Unit(|s|, i, v), tiles) == Unit(ExpandedRank(|s|, tiles), j, 1)
    decreases |tiles|
  {
    if tiles == [] {
      i, v := j, 1;
    } else {
      var t := tiles[0];
      i, v := UnitReached(TileReach(Pad(s, |t|, 1), t), tiles[1..], j);
      i, v := UnitBeforePadding(s, t, i, v);
    }
  }
}
