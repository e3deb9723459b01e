/** When delinearizing a nested offset gives the index back: exactly when every expanded coordinate in
    use has the weight that collapsing takes it for. */
module NestedRoundTrips {
  import opened Arithmetic
  import opened RowMajor
  import opened NestedTiling
  import opened TilingWeights

  // ----- the weights that collapsing uses -----

  function Behind(w: Dims, rank: nat): (r: Dims)
    requires |w| <= rank
    ensures |r| == rank
  {
    seq(rank, k requires 0 <= k < rank => if k < |w| then w[k] else 0)
  }

  /** What collapsing takes them for: as it strips no padding, that is as good as at the back. */
  function LateWeights(w: Dims, tiles: seq<Tile>): (r: Dims)
    ensures |r| == ExpandedRank(|w|, tiles)
    decreases |tiles|
  {
    if tiles == [] then w else LateWeights(Spread(Behind(w, Room(|w|, tiles)), tiles[0]), tiles[1..])
  }

  /** What delinearizing takes them for: only the first tile's padding is stripped. */
  function CodeWeights(w: Dims, tiles: seq<Tile>): (r: Dims)
    ensures |r| == ExpandedRank(|w|, tiles)
  {
    if tiles == [] then w else LateWeights(Spread(Pad(w, |tiles[0]|, 0), tiles[0]), tiles[1..])
  }

  lemma {:induction false} WeightedBehind(w: Dims, c: Dims, n: nat)
    requires |w| <= n <= |c|
    ensures Weighted(Behind(w, |c|), c, n) == Weighted(w, c, |w|)
    decreases n
  {
    if n > |w| {
      WeightedBehind(w, c, n - 1);
    } else {
      WeightedPrefix(w, Behind(w, |c|), c, n);
    }
  }

  lemma {:induction false} CollapseStep(w: Dims, x: Dims, s: Dims, tiles: seq<Tile>)
    requires AllPositive(tiles) && tiles != [] && |w| == Room(|s|, tiles) && |x| == ExpandedRank(|s|, tiles)
    ensures var t := tiles[0];
      Weighted(w, Collapse(x, s, tiles), |w|)
      == Weighted(Spread(w, t), Collapse(x, TileShape(Pad(s, |t|, 1), t), tiles[1..]), |w| + |t|)
  {
    var t := tiles[0];
    var c := Collapse(x, TileShape(Pad(s, |t|, 1), t), tiles[1..]);
    assert Collapse(x, s, tiles) == Untile(c, |w|, t);
    WeightedWhole(w, c, t);
  }

  /** A weighted sum of the first collapsed coordinates is one of the expanded coordinates. */
  lemma {:induction false} WeightedCollapse(w: Dims, x: Dims, s: Dims, tiles: seq<Tile>)
    requires AllPositive(tiles) && |w| == |s| && |x| == ExpandedRank(|s|, tiles)
    ensures Weighted(w, Collapse(x, s, tiles), |w|) == Weighted(LateWeights(w, tiles), x, |x|)
    decreases |tiles|
  {
    if tiles != [] {
      var t, b := tiles[0], Behind(w, Room(|w|, tiles));
      WeightedBehind(w, Collapse(x, s, tiles), |b|);
      CollapseStep(b, x, s, tiles);
      WeightedCollapse(Spread(b, t), x, TileShape(Pad(s, |t|, 1), t), tiles[1..]);
    }
  }

  lemma PadUnit(n: nat, d: nat, rank: nat)
    requires d < n
    ensures var w := Pad(Unit(n, d, 1), rank, 0); w == Unit(|w|, |w| - n + d, 1)
  {
  }

  lemma {:induction false} WeightedCode(w: Dims, x: Dims, s: Dims, tiles: seq<Tile>)
    requires AllPositive(tiles) && tiles != [] && |w| == Room(|s|, tiles) && |x| == ExpandedRank(|s|, tiles)
    ensures Weighted(w, Collapse(x, s, tiles), |w|) == Weighted(LateWeights(Spread(w, tiles[0]), tiles[1..]), x, |x|)
  {
    var t := tiles[0];
    CollapseStep(w, x, s, tiles);
    WeightedCollapse(Spread(w, t), x, TileShape(Pad(s, |t|, 1), t), tiles[1..]);
  }

  /** A coordinate delinearized is the expanded coordinates' sum with the code's weights. */
  lemma {:induction false} CollapsedCoordinate(x: Dims, s: Dims, tiles: seq<Tile>, d: nat)
    requires AllPositive(tiles) && |x| == ExpandedRank(|s|, tiles) && d < |s|
    ensures var c := Collapse(x, s, tiles);
      c[|c| - |s| + d] == Weighted(CodeWeights(Unit(|s|, d, 1), tiles), x, |x|)
  {
    var c := Collapse(x, s, tiles);
    WeightedUnit(c, |c| - |s| + d, |c|);
    if tiles != [] {
      PadUnit(|s|, d, |tiles[0]|);
      WeightedCode(Unit(|c|, |c| - |s| + d, 1), x, s, tiles);
    }
  }

  // ----- the exact condition -----

  /** If expanded coordinate `j` is in use, it has the weight in dimension `d` that the code takes it for. */
  predicate AlignedAt(s: Dims, tiles: seq<Tile>, d: nat, j: nat)
    requires AllPositive(tiles) && d < |s| && j < ExpandedRank(|s|, tiles)
  {
    Reach(s, tiles)[j] > 1 ==> CodeWeights(Unit(|s|, d, 1), tiles)[j] == Weights(Unit(|s|, d, 1), tiles)[j]
  }

  predicate Aligned(s: Dims, tiles: seq<Tile>)
    requires AllPositive(tiles)
  {
    forall d, j | 0 <= d < |s| && 0 <= j < ExpandedRank(|s|, tiles) :: AlignedAt(s, tiles, d, j)
  }

  /** Collapsing gives coordinate `d` of the expanded index back. */
  predicate SurvivesAt(s: Dims, tiles: seq<Tile>, e: Dims, d: nat)
    requires AllPositive(tiles) && d < |e| == |s|
  {
    var c := Collapse(ExpandIndex(e, tiles), s, tiles);
    c[|c| - |e| + d] == e[d]
  }

  predicate Survives(s: Dims, tiles: seq<Tile>, e: Dims)
    requires AllPositive(tiles) && |e| == |s|
  {
    forall d | 0 <= d < |e| :: SurvivesAt(s, tiles, e, d)
  }

  function DecodedAt(tiles: seq<Tile>, e: Dims, d: nat): nat
    requires AllPositive(tiles) && d < |e|
  {
    Weighted(CodeWeights(Unit(|e|, d, 1), tiles), ExpandIndex(e, tiles), ExpandedRank(|e|, tiles))
  }

  lemma {:induction false} SurvivesAtIff(s: Dims, tiles: seq<Tile>, e: Dims, d: nat)
    requires AllPositive(tiles) && d < |e| == |s|
    ensures SurvivesAt(s, tiles, e, d) <==> DecodedAt(tiles, e, d) == e[d]
  {
    CollapsedCoordinate(ExpandIndex(e, tiles), s, tiles, d);
  }

  lemma {:induction false} AlignedSurvives(s: Dims, tiles: seq<Tile>, e: Dims)
    requires AllPositive(tiles) && InBounds(e, s) && Aligned(s, tiles)
    ensures Survives(s, tiles, e)
  {
    forall d | 0 <= d < |e| ensures SurvivesAt(s, tiles, e, d) {
      AlignedCoordinate(s, tiles, e, d);
      SurvivesAtIff(s, tiles, e, d);
    }
  }

  lemma {:induction false} AlignedCoordinate(s: Dims, tiles: seq<Tile>, e: Dims, d: nat)
    requires AllPositive(tiles) && InBounds(e, s) && Aligned(s, tiles) && d < |s|
    ensures DecodedAt(tiles, e, d) == e[d]
  {
    var x, w, v := ExpandIndex(e, tiles), CodeWeights(Unit(|s|, d, 1), tiles), Weights(Unit(|s|, d, 1), tiles);
    Reaches(e, s, tiles);
    forall j | 0 <= j < |x| ensures x[j] == 0 || w[j] == v[j] {
      assert AlignedAt(s, tiles, d, j);
    }
    WeightedSame(w, v, x, |x|);
    ExpandedCoordinate(e, tiles, d);
  }

  /** A coordinate in use whose weight is mistaken spoils an index. */
  lemma {:induction false} MisalignedLost(s: Dims, tiles: seq<Tile>, d: nat, j: nat) returns (e: Dims)
    requires AllPositive(tiles) && Positive(s) && d < |s| && j < ExpandedRank(|s|, tiles) && !AlignedAt(s, tiles, d, j)
    ensures InBounds(e, s) && !Survives(s, tiles, e)
  {
    var i, v := UnitReached(s, tiles, j);
    e := Unit(|s|, i, v);
    SurvivesAtIff(s, tiles, e, d);
    ExpandedCoordinate(e, tiles, d);
    WeightedUnit(CodeWeights(Unit(|s|, d, 1), tiles), j, ExpandedRank(|s|, tiles));
    WeightedUnit(Weights(Unit(|s|, d, 1), tiles), j, ExpandedRank(|s|, tiles));
    assert !SurvivesAt(s, tiles, e, d);
  }

  /** Delinearizing the offset of the index gives it back, in physical order. */
  ghost predicate Returns(shape: Shape, indices: Dims)
    requires shape.Valid() && |indices| == |shape.dimensions|
  {
    && Positive(shape.Expanded())
    && NestedIndex(shape, NestedOffset(shape, indices)) == Physical(shape.minorToMajor, indices)
  }

  ghost predicate RoundTrips(shape: Shape)
    requires shape.Valid()
  {
    forall i | InBounds(i, shape.dimensions) :: Returns(shape, i)
  }

  lemma {:induction false} NestedIndexIs(shape: Shape, indices: Dims)
    requires shape.Valid() && InBounds(indices, shape.dimensions)
    ensures Positive(shape.Expanded())
    ensures var e := Physical(shape.minorToMajor, indices);
      var c := Collapse(ExpandIndex(e, shape.tiles), Physical(shape.minorToMajor, shape.dimensions), shape.tiles);
      NestedIndex(shape, NestedOffset(shape, indices)) == c[|c| - |e|..]
  {
    var s, e := Physical(shape.minorToMajor, shape.dimensions), Physical(shape.minorToMajor, indices);
    PhysicalInBounds(shape.minorToMajor, indices, shape.dimensions);
    ExpandInBounds(e, s, shape.tiles);
    UnoffsetOffset(shape.Expanded(), ExpandIndex(e, shape.tiles));
  }

  lemma {:induction false} ReturnsAt(shape: Shape, indices: Dims, d: nat)
    requires shape.Valid() && InBounds(indices, shape.dimensions) && d < |indices|
    ensures var s, e := Physical(shape.minorToMajor, shape.dimensions), Physical(shape.minorToMajor, indices);
      && Positive(shape.Expanded())
      && (NestedIndex(shape, NestedOffset(shape, indices))[d] == e[d] <==> SurvivesAt(s, shape.tiles, e, d))
  {
    NestedIndexIs(shape, indices);
  }

  lemma {:induction false} ReturnsIff(shape: Shape, indices: Dims)
    requires shape.Valid() && InBounds(indices, shape.dimensions)
    ensures Returns(shape, indices)
            <==> Survives(Physical(shape.minorToMajor, shape.dimensions), shape.tiles, Physical(shape.minorToMajor, indices))
  {
    var s, e := Physical(shape.minorToMajor, shape.dimensions), Physical(shape.minorToMajor, indices);
    NestedIndexIs(shape, indices);
    forall d | 0 <= d < |e|
      ensures NestedIndex(shape, NestedOffset(shape, indices))[d] == e[d] <==> SurvivesAt(s, shape.tiles, e, d)
    {
      ReturnsAt(shape, indices, d);
    }
  }

  /** An index of an aligned layout comes back. */
  lemma NestedRoundTrip(shape: Shape, indices: Dims)
    requires shape.Valid() && InBounds(indices, shape.dimensions)
    requires Aligned(Physical(shape.minorToMajor, shape.dimensions), shape.tiles)
    ensures Returns(shape, indices)
  {
    ReturnsIff(shape, indices);
    PhysicalInBounds(shape.minorToMajor, indices, shape.dimensions);
    AlignedSurvives(Physical(shape.minorToMajor, shape.dimensions), shape.tiles, Physical(shape.minorToMajor, indices));
  }

  lemma PhysicalOnto(m: seq<nat>, e: Dims) returns (x: Dims)
    requires IsPermutation(m, |e|)
    ensures |x| == |e| && Physical(m, x) == e
  {
    x := seq(|e|, d requires 0 <= d < |e| => DimensionPlaced(m, |e|, d); e[|e| - 1 - PositionOf(m, d)]);
    forall k | 0 <= k < |e| ensures Physical(m, x)[k] == e[k] {
      PositionUnique(m, |e|, |e| - 1 - k);
    }
  }

  /** Delinearizing is the inverse on all in-bounds indices exactly if the layout is aligned, or has no
      indices. */
  lemma RoundTripExact(shape: Shape)
    requires shape.Valid()
    ensures RoundTrips(shape)
            <==> !Positive(shape.dimensions) || Aligned(Physical(shape.minorToMajor, shape.dimensions), shape.tiles)
  {
    var s := Physical(shape.minorToMajor, shape.dimensions);
    if Positive(shape.dimensions) {
      if Aligned(s, shape.tiles) {
        forall i | InBounds(i, shape.dimensions) ensures Returns(shape, i) {
          NestedRoundTrip(shape, i);
        }
      } else {
        var d, j :| 0 <= d < |s| && 0 <= j < ExpandedRank(|s|, shape.tiles) && !AlignedAt(s, shape.tiles, d, j);
        var e := MisalignedLost(s, shape.tiles, d, j);
        var i := PhysicalOnto(shape.minorToMajor, e);
        PhysicalInBounds(shape.minorToMajor, i, shape.dimensions);
        ReturnsIff(shape, i);
      }
    }
  }

  // ----- padding -----

  lemma {:induction false} FitsWeights(w: Dims, tiles: seq<Tile>)
    requires Fits(|w|, tiles)
    ensures LateWeights(w, tiles) == Weights(w, tiles)
    decreases |tiles|
  {
    if tiles != [] {
      assert Behind(w, |w|) == w;
      FitsWeights(Spread(w, tiles[0]), tiles[1..]);
    }
  }

  lemma FirstPaddingWeights(w: Dims, tiles: seq<Tile>)
    requires PaddingOnlyFirst(|w|, tiles)
    ensures CodeWeights(w, tiles) == Weights(w, tiles)
  {
    if tiles != [] {
      FitsWeights(Spread(Pad(w, |tiles[0]|, 0), tiles[0]), tiles[1..]);
    }
  }

  /** Padding at the first tile only does no harm. */
  lemma FirstPaddingAligned(s: Dims, tiles: seq<Tile>)
    requires AllPositive(tiles) && PaddingOnlyFirst(|s|, tiles)
    ensures Aligned(s, tiles)
  {
    forall d | 0 <= d < |s| ensures CodeWeights(Unit(|s|, d, 1), tiles) == Weights(Unit(|s|, d, 1), tiles) {
      FirstPaddingWeights(Unit(|s|, d, 1), tiles);
    }
  }

  /** A coordinate in use after all tiles, which collapsing takes for another. */
  ghost predicate MistakenAt(w: Dims, v: Dims, s: Dims, tiles: seq<Tile>, j: nat)
    requires AllPositive(tiles) && |w| == |v| == |s|
  {
    j < |Reach(s, tiles)| && Reach(s, tiles)[j] > 1 && LateWeights(w, tiles)[j] != Weights(v, tiles)[j]
  }

  lemma {:induction false} MistakenLater(w: Dims, v: Dims, s: Dims, tiles: seq<Tile>, j: nat)
    requires AllPositive(tiles) && |w| == |v| == |s| && tiles != []
    requires var t := tiles[0];
      MistakenAt(Spread(Behind(w, Room(|w|, tiles)), t), Spread(Pad(v, |t|, 0), t), TileReach(Pad(s, |t|, 1), t), tiles[1..], j)
    ensures MistakenAt(w, v, s, tiles, j)
  {
  }

  lemma MistakeSpread(w: Dims, v: Dims, s: Dims, t: Tile, i: nat) returns (k: nat)
    requires |t| <= |w| == |v| == |s| && Positive(t) && i < |s| && s[i] > 1 && w[i] != v[i]
    ensures k < |s| + |t| && TileReach(s, t)[k] > 1 && Spread(w, t)[k] != Spread(v, t)[k]
  {
    var p := |s| - |t|;
    k := if i >= p && t[i - p] > 1 then i + |t| else i;
    if i >= p && t[i - p] == 1 {
      CeilOfOne(s[i]);
    }
  }

  /** Without further padding a mistaken weight stays one. */
  lemma {:induction false} MistakeStays(w: Dims, v: Dims, s: Dims, tiles: seq<Tile>, i: nat) returns (j: nat)
    requires AllPositive(tiles) && |w| == |v| == |s| && Fits(|s|, tiles)
    requires i < |s| && s[i] > 1 && w[i] != v[i]
    ensures MistakenAt(w, v, s, tiles, j)
    decreases |tiles|
  {
    if tiles == [] {
      j := i;
    } else {
      var t := tiles[0];
      var k := MistakeSpread(w, v, s, t, i);
      j := MistakeStays(Spread(w, t), Spread(v, t), TileReach(s, t), tiles[1..], k);
      assert Behind(w, |w|) == w;
      MistakenLater(w, v, s, tiles, j);
    }
  }

  lemma CeilOfOne(d: nat)
    ensures CeilOfRatio(d, 1) == d
  {
    DivModUnique(d, 0, 1);
  }

  /** Every tile in front of the last padding one splits its most minor dimension. */
  predicate SplitsMinor(rank: nat, tiles: seq<Tile>)
    decreases |tiles|
  {
    PaddingOnlyFirst(rank, tiles)
    || ((tiles[0] == [] || tiles[0][|tiles[0]| - 1] > 1) && SplitsMinor(Room(rank, tiles) + |tiles[0]|, tiles[1..]))
  }

  lemma LastSpread(w: Dims, s: Dims, t: Tile)
    requires |t| <= |w| == |s| && w != [] && Positive(t) && s[|s| - 1] > 1 && (t == [] || t[|t| - 1] > 1)
    ensures var r := Spread(w, t); r[|r| - 1] == w[|w| - 1]
    ensures var r := TileReach(s, t); r[|r| - 1] > 1
  {
  }

  lemma PadLast(w: Dims, rank: nat, x: nat)
    requires w != []
    ensures var r := Pad(w, rank, x); r[|r| - 1] == w[|w| - 1]
  {
  }

  /** The last padding moves the weight of the most minor coordinate away from it. */
  lemma {:induction false} MinorMistaken(w: Dims, v: Dims, s: Dims, tiles: seq<Tile>) returns (j: nat)
    requires AllPositive(tiles) && |w| == |v| == |s| > 0 && !Fits(|s|, tiles) && SplitsMinor(|s|, tiles)
    requires v[|v| - 1] == 1 && s[|s| - 1] > 1
    ensures MistakenAt(w, v, s, tiles, j)
    decreases |tiles|
  {
    var t := tiles[0];
    var w', v', s' := Behind(w, Room(|w|, tiles)), Pad(v, |t|, 0), Pad(s, |t|, 1);
    PadLast(v, |t|, 0);
    PadLast(s, |t|, 1);
    if PaddingOnlyFirst(|s|, tiles) {
      assert |t| > |s| && w'[|s'| - 1] == 0;
      var k := MistakeSpread(w', v', s', t, |s'| - 1);
      j := MistakeStays(Spread(w', t), Spread(v', t), TileReach(s', t), tiles[1..], k);
    } else {
      LastSpread(v', s', t);
      j := MinorMistaken(Spread(w', t), Spread(v', t), TileReach(s', t), tiles[1..]);
    }
    MistakenLater(w, v, s, tiles, j);
  }

  lemma {:induction false} MisalignedBy(s: Dims, tiles: seq<Tile>, d: nat, j: nat)
    requires AllPositive(tiles) && tiles != [] && d < |s|
    requires var t := tiles[0];
      var w := Spread(Pad(Unit(|s|, d, 1), |t|, 0), t);
      MistakenAt(w, w, TileReach(Pad(s, |t|, 1), t), tiles[1..], j)
    ensures !Aligned(s, tiles)
  {
    assert !AlignedAt(s, tiles, d, j);
  }

  lemma FirstMinor(s: Dims, t: Tile, u: Dims) returns (w: Dims, p: Dims)
    requires Positive(t) && |u| == |s| > 0 && s[|s| - 1] > 1 && u[|s| - 1] == 1 && (t == [] || t[|t| - 1] > 1)
    ensures w == Spread(Pad(u, |t|, 0), t) && p == TileReach(Pad(s, |t|, 1), t)
    ensures |w| == |p| > 0 && w[|w| - 1] == 1 && p[|p| - 1] > 1
  {
    PadLast(u, |t|, 0);
    PadLast(s, |t|, 1);
    LastSpread(Pad(u, |t|, 0), Pad(s, |t|, 1), t);
    w, p := Spread(Pad(u, |t|, 0), t), TileReach(Pad(s, |t|, 1), t);
  }

  lemma {:induction false} MinorMisaligned(s: Dims, tiles: seq<Tile>)
    requires AllPositive(tiles) && |s| > 0 && s[|s| - 1] > 1 && SplitsMinor(|s|, tiles) && !PaddingOnlyFirst(|s|, tiles)
    ensures !Aligned(s, tiles)
  {
    var d := |s| - 1;
    var w, p := FirstMinor(s, tiles[0], Unit(|s|, d, 1));
    var j := MinorMistaken(w, w, p, tiles[1..]);
    MisalignedBy(s, tiles, d, j);
  }

  /** If the tiles up to the last padding one split the most minor dimension, all indices come back exactly if
      only the first tile pads. */
  lemma LaterPaddingExact(shape: Shape)
    requires shape.Valid() && Positive(shape.dimensions) && SplitsMinor(|shape.dimensions|, shape.tiles)
    requires |shape.dimensions| > 0 && shape.dimensions[shape.minorToMajor[0]] > 1
    ensures RoundTrips(shape) <==> PaddingOnlyFirst(|shape.dimensions|, shape.tiles)
  {
    var s, tiles := Physical(shape.minorToMajor, shape.dimensions), shape.tiles;
    RoundTripExact(shape);
    if PaddingOnlyFirst(|s|, tiles) {
      FirstPaddingAligned(s, tiles);
    } else {
      MinorMisaligned(s, tiles);
    }
  }

  /** Two dimensions of size 8, tiled by 2 x 2 and then by a tile of rank 5. */
  const TWICE_TILED := Shape([8, 8], [1, 0], [[2, 2], [2, 2, 2, 2, 2]])

  lemma TwiceTiledFails()
    ensures TWICE_TILED.Valid() && !RoundTrips(TWICE_TILED)
  {
    var u: Tile := [2, 2, 2, 2, 2];
    assert TWICE_TILED.tiles[1..] == [u] && [u][1..] == [];
    LaterPaddingExact(TWICE_TILED);
  }
}
