/** The index computations of a tiled layout as the code runs them, proved against the expansion
    of shape and index. */
module TiledIndex {
  import opened Arithmetic
  import opened RowMajor
  import opened NestedTiling
  import opened NestedRoundTrips
  import opened UntiledLayout
  import opened UntiledExact

  // ----- one tile applied -----

  /** Pads and tiles a shape. */
  method TileStep(shape: Dims, tile: Tile) returns (before: Dims, next: Dims)
    requires Positive(tile)
    ensures before == Pad(shape, |tile|, 1) && next == TileShape(before, tile)
  {
    before := Pad(shape, |tile|, 1);
    var start := |before| - |tile|;
    next := before[..start];
    for i := 0 to |tile|
      invariant next == before[..start] + Outer(before, tile)[..i]
    {
      next := next + [CeilOfRatio(before[start + i], tile[i])];
    }
    for i := 0 to |tile|
      invariant next == before[..start] + Outer(before, tile) + tile[..i]
    {
      next := next + [tile[i]];
    }
  }

  /** Pads and tiles an index. */
  method TileIndices(indices: Dims, tile: Tile) returns (next: Dims)
    requires Positive(tile)
    ensures next == TileIndex(Pad(indices, |tile|, 0), tile)
  {
    var current := Pad(indices, |tile|, 0);
    var start := |current| - |tile|;
    next := current[..start];
    for i := 0 to |tile|
      invariant next == current[..start] + Quotients(current, tile)[..i]
    {
      next := next + [current[start + i] / tile[i]];
    }
    for i := 0 to |tile|
      invariant next == current[..start] + Quotients(current, tile) + Remainders(current, tile)[..i]
    {
      next := next + [current[start + i] % tile[i]];
    }
  }

  lemma UntilePrefix(e: Dims, rank: nat, t: Tile, n: nat)
    requires |t| <= rank && rank + |t| <= |e| && n <= rank - |t|
    ensures UntileTo(e, rank, t, n) == e[..n]
  {
    forall k | 0 <= k < n ensures UntileTo(e, rank, t, n)[k] == e[k] {
      UntileToAt(e, rank, t, n, k);
    }
  }

  /** Combines outer and inner coordinates of one tiling step. */
  method UntileStep(current: Dims, rank: nat, tile: Tile) returns (prev: Dims)
    requires |tile| <= rank && rank + |tile| <= |current|
    ensures prev == Untile(current, rank, tile)
  {
    var start := rank - |tile|;
    prev := current[..start];
    UntilePrefix(current, rank, tile, start);
    for i := 0 to |tile|
      invariant prev == UntileTo(current, rank, tile, start + i)
    {
      prev := prev + [current[start + i] * tile[i] + current[start + |tile| + i]];
    }
  }

  /** Values in physical order, most major first. */
  method MajorToMinor(minorToMajor: seq<nat>, x: Dims) returns (r: Dims)
    requires IsPermutation(minorToMajor, |x|)
    ensures r == Physical(minorToMajor, x)
  {
    r := [];
    for i := |x| downto 0
      invariant r == Physical(minorToMajor, x)[..|x| - i]
    {
      r := r + [x[minorToMajor[i]]];
    }
  }

  // ----- row-major offset of the expanded index -----

  method Linearize(shape: Dims, indices: Dims) returns (linear: nat)
    requires |indices| == |shape|
    ensures linear == Offset(shape, indices)
  {
    linear := 0;
    var multiplier: nat := 1;
    for i := |shape| downto 0
      invariant multiplier == Product(shape[i..]) && linear == Offset(shape[i..], indices[i..])
    {
      assert shape[i..][1..] == shape[i + 1..] && indices[i..][1..] == indices[i + 1..];
      linear := linear + indices[i] * multiplier;
      multiplier := multiplier * shape[i];
    }
  }

  method Delinearize(shape: Dims, linear: nat) returns (indices: Dims)
    requires Positive(shape)
    ensures indices == Unoffset(shape, linear)
  {
    var a := new nat[|shape|];
    var remaining := linear;
    assert shape[..|shape|] == shape;
    for i := |shape| downto 0
      invariant Unoffset(shape, linear) == Unoffset(shape[..i], remaining) + a[i..]
    {
      assert shape[..i + 1][..i] == shape[..i];
      a[i] := remaining % shape[i];
      remaining := remaining / shape[i];
    }
    indices := a[..];
  }

  // ----- nested tiling -----

  lemma {:induction false} ExpandZero(e: Dims, tiles: seq<Tile>)
    requires AllPositive(tiles) && forall k | 0 <= k < |e| :: e[k] == 0
    ensures forall k | 0 <= k < |ExpandIndex(e, tiles)| :: ExpandIndex(e, tiles)[k] == 0
    decreases |tiles|
  {
    if tiles != [] {
      var p, t := Pad(e, |tiles[0]|, 0), tiles[0];
      forall k | 0 <= k < |TileIndex(p, t)| ensures TileIndex(p, t)[k] == 0 {
        if k >= |p| - |t| {
          var j := if k < |p| then k - (|p| - |t|) else k - |p|;
          DivModUnique(0, 0, t[j]);
        }
      }
      ExpandZero(TileIndex(p, t), tiles[1..]);
    }
  }

  lemma {:induction false} OffsetZero(d: Dims, e: Dims)
    requires |d| == |e| && forall k | 0 <= k < |e| :: e[k] == 0
    ensures Offset(d, e) == 0
  {
    if d != [] {
      OffsetZero(d[1..], e[1..]);
    }
  }

  lemma ScalarOffset(shape: Shape)
    requires shape.Valid() && shape.dimensions == []
    ensures NestedOffset(shape, []) == 0
  {
    var e := Physical(shape.minorToMajor, shape.dimensions);
    ExpandZero(e, shape.tiles);
    OffsetZero(shape.Expanded(), ExpandIndex(e, shape.tiles));
  }

  method LinearIndexForNestedTiling(shape: Shape, indices: Dims) returns (linear: nat)
    requires shape.Valid() && |indices| == |shape.dimensions|
    ensures linear == NestedOffset(shape, indices)
  {
    if |shape.dimensions| == 0 {
      ScalarOffset(shape);
      return 0;
    }
    var currentShape := MajorToMinor(shape.minorToMajor, shape.dimensions);
    var currentIndices := MajorToMinor(shape.minorToMajor, indices);
    var tiles := shape.tiles;
    var s := 0;
    assert tiles[0..] == tiles;
    while s < |tiles|
      invariant s <= |tiles| && |currentIndices| == |currentShape|
      invariant ExpandShape(currentShape, tiles[s..]) == shape.Expanded()
      invariant ExpandIndex(currentIndices, tiles[s..]) == ExpandIndex(Physical(shape.minorToMajor, indices), tiles)
    {
      assert tiles[s..][0] == tiles[s] && tiles[s..][1..] == tiles[s + 1..];
      var _, nextShape := TileStep(currentShape, tiles[s]);
      currentIndices := TileIndices(currentIndices, tiles[s]);
      currentShape := nextShape;
      s := s + 1;
    }
    linear := Linearize(currentShape, currentIndices);
  }

  // ----- the way back -----

  /** The shape before tile `k`, not yet padded for it. */
  ghost function ShapeBefore(s: Dims, tiles: seq<Tile>, k: nat): Dims
    requires k <= |tiles| && AllPositive(tiles)
  {
    if k == 0 then s else
      TileShape(Pad(ShapeBefore(s, tiles, k - 1), |tiles[k - 1]|, 1), tiles[k - 1])
  }

  /** The padded shapes before the first `k` tiles. */
  ghost function Recorded(s: Dims, tiles: seq<Tile>, k: nat): (r: seq<Dims>)
    requires k <= |tiles| && AllPositive(tiles)
    ensures |r| == k
  {
    if k == 0 then [] else Recorded(s, tiles, k - 1) + [PaddedBefore(s, tiles, k - 1)]
  }

  ghost function PaddedBefore(s: Dims, tiles: seq<Tile>, k: nat): Dims
    requires k < |tiles| && AllPositive(tiles)
  {
    Pad(ShapeBefore(s, tiles, k), |tiles[k]|, 1)
  }

  lemma {:induction false} ExpandFrom(s: Dims, tiles: seq<Tile>, k: nat)
    requires k <= |tiles| && AllPositive(tiles)
    ensures ExpandShape(ShapeBefore(s, tiles, k), tiles[k..]) == ExpandShape(s, tiles)
  {
    if k == 0 {
      assert tiles[0..] == tiles;
    } else {
      ExpandFrom(s, tiles, k - 1);
      assert tiles[k - 1..][0] == tiles[k - 1] && tiles[k - 1..][1..] == tiles[k..];
    }
  }

  /** The state of the way back at tile `k`: what is undone so far. */
  ghost function CollapseFrom(e: Dims, s: Dims, tiles: seq<Tile>, k: nat): Dims
    requires k <= |tiles| && AllPositive(tiles) && |e| == ExpandedRank(|s|, tiles)
  {
    ExpandFrom(s, tiles, k);
    Collapse(e, ShapeBefore(s, tiles, k), tiles[k..])
  }

  lemma {:induction false} CollapseFromStep(e: Dims, s: Dims, tiles: seq<Tile>, k: nat)
    requires k < |tiles| && AllPositive(tiles) && |e| == ExpandedRank(|s|, tiles)
    ensures var rank, c := |PaddedBefore(s, tiles, k)|, CollapseFrom(e, s, tiles, k + 1);
      && |tiles[k]| <= rank && rank + |tiles[k]| <= |c|
      && CollapseFrom(e, s, tiles, k) == Untile(c, rank, tiles[k])
  {
    ExpandFrom(s, tiles, k);
    ExpandFrom(s, tiles, k + 1);
    assert tiles[k..][0] == tiles[k] && tiles[k..][1..] == tiles[k + 1..];
  }

  lemma {:induction false} RecordedIs(s: Dims, tiles: seq<Tile>, n: nat, k: nat)
    requires k < n <= |tiles| && AllPositive(tiles)
    ensures Recorded(s, tiles, n)[k] == PaddedBefore(s, tiles, k)
  {
    if k < n - 1 {
      RecordedIs(s, tiles, n - 1, k);
      assert Recorded(s, tiles, n)[k] == Recorded(s, tiles, n - 1)[k];
    }
  }

  /** Undoes the tiling steps recorded on the way, last to first. */
  method CollapseSteps(s: Dims, tiles: seq<Tile>, before: seq<Dims>, e: Dims) returns (r: Dims)
    requires AllPositive(tiles) && |e| == ExpandedRank(|s|, tiles)
    requires before == Recorded(s, tiles, |tiles|)
    ensures r == Collapse(e, s, tiles)
  {
    r := e;
    assert tiles[0..] == tiles;
    for k := |tiles| downto 0
      invariant r == CollapseFrom(e, s, tiles, k)
    {
      CollapseFromStep(e, s, tiles, k);
      RecordedIs(s, tiles, |tiles|, k);
      r := UntileStep(r, |before[k]|, tiles[k]);
    }
  }

  /** Expands the shape, keeping the padded shape before each step. */
  method ExpandSteps(s: Dims, tiles: seq<Tile>) returns (before: seq<Dims>, expanded: Dims)
    requires AllPositive(tiles)
    ensures expanded == ExpandShape(s, tiles) && before == Recorded(s, tiles, |tiles|)
  {
    before, expanded := [], s;
    for k := 0 to |tiles|
      invariant expanded == ShapeBefore(s, tiles, k) && before == Recorded(s, tiles, k)
    {
      var padded, next := TileStep(expanded, tiles[k]);
      before, expanded := before + [padded], next;
    }
    ExpandFrom(s, tiles, |tiles|);
  }

  /** Scatters physical values, behind `pad` entries of padding, to their logical dimensions. */
  method Logical(minorToMajor: seq<nat>, physical: Dims, n: nat) returns (r: Dims)
    requires IsPermutation(minorToMajor, n) && n <= |physical|
    ensures |r| == n && Physical(minorToMajor, r) == physical[|physical| - n..]
  {
    r := seq(n, _ => 0);
    var pad := |physical| - n;
    for i := 0 to n
      invariant |r| == n && Physical(minorToMajor, r)[..i] == physical[pad..pad + i]
    {
      PhysicalUpdate(minorToMajor, r, i, physical[pad + i]);
      assert Physical(minorToMajor, r)[i := physical[pad + i]][..i + 1] == physical[pad..pad + i] + [physical[pad + i]];
      r := r[minorToMajor[n - 1 - i] := physical[pad + i]];
    }
  }

  lemma DecidedByPhysical(shape: Shape, linear: nat, indices: Dims)
    requires shape.Valid() && Positive(shape.Expanded()) && |indices| == |shape.dimensions|
    requires Physical(shape.minorToMajor, indices) == NestedIndex(shape, linear)
    requires Aligned(Physical(shape.minorToMajor, shape.dimensions), shape.tiles)
    ensures forall i | InBounds(i, shape.dimensions) && NestedOffset(shape, i) == linear :: indices == i
  {
    forall i | InBounds(i, shape.dimensions) && NestedOffset(shape, i) == linear ensures indices == i {
      NestedRoundTrip(shape, i);
      PhysicalInjective(shape.minorToMajor, indices, i);
    }
  }

  /** Inverts `LinearIndexForNestedTiling` on every in-bounds index of an aligned layout. */
  method DelinearizeIndexForNestedTiling(shape: Shape, linear: nat) returns (indices: Dims)
    requires shape.Valid() && (shape.dimensions == [] || Positive(shape.Expanded()))
    ensures |indices| == |shape.dimensions|
    ensures shape.dimensions == [] || Physical(shape.minorToMajor, indices) == NestedIndex(shape, linear)
    ensures Aligned(Physical(shape.minorToMajor, shape.dimensions), shape.tiles) ==>
              forall i | InBounds(i, shape.dimensions) && NestedOffset(shape, i) == linear :: indices == i
  {
    if |shape.dimensions| == 0 {
      return [];
    }
    var physical := MajorToMinor(shape.minorToMajor, shape.dimensions);
    var before, expanded := ExpandSteps(physical, shape.tiles);
    var e := Delinearize(expanded, linear);
    var collapsed := CollapseSteps(physical, shape.tiles, before, e);
    indices := Logical(shape.minorToMajor, collapsed, |shape.dimensions|);
    if Aligned(physical, shape.tiles) {
      DecidedByPhysical(shape, linear, indices);
    }
  }

  // ----- layouts that tiling leaves alone -----

  /** One dimension of the untiled test. */
  method TestDimension(suffix: Dims, tile: Tile, i: nat, a: array<nat>, allowMultipleTiles: bool)
    returns (keeps: bool, allow: bool)
    requires |suffix| == |tile| && Positive(tile) && i < |tile| && a.Length == 2 * |tile|
    requires allowMultipleTiles <==> AllOnes(tile, i)
    modifies a
    ensures keeps <==> suffix[i] % tile[i] == 0 && (AllOnes(tile, i) || suffix[i] / tile[i] == 1)
    ensures keeps ==> (allow <==> AllOnes(tile, i + 1))
    ensures keeps ==> a[i] == suffix[i] / tile[i] && a[|tile| + i] == tile[i]
    ensures forall k | 0 <= k < a.Length && k != i && k != |tile| + i :: a[k] == old(a[k])
  {
    allow := allowMultipleTiles;
    if suffix[i] % tile[i] != 0 {
      return false, allow;
    }
    a[i] := suffix[i] / tile[i];
    a[|tile| + i] := tile[i];
    if !allow && a[i] != 1 {
      return false, allow;
    }
    if tile[i] != 1 {
      allow := false;
    }
    return true, allow;
  }

  /** One tile of the untiled test: the new suffix dimensions, unless the tile changes the order. */
  method TestTile(suffix: Dims, tile: Tile) returns (keeps: bool, next: Dims)
    requires |suffix| == |tile| && Positive(tile)
    ensures keeps <==> Divides(suffix, tile) && SingleBehind(suffix, tile)
    ensures keeps ==> next == Over(suffix, tile) + tile
  {
    var n := |tile|;
    var a := new nat[2 * n];
    var allowMultipleTiles := true;
    for i := 0 to n
      invariant forall k | 0 <= k < i :: suffix[k] % tile[k] == 0
      invariant forall k | 0 <= k < i :: AllOnes(tile, k) || suffix[k] / tile[k] == 1
      invariant forall k | 0 <= k < i :: a[k] == Over(suffix, tile)[k] && a[n + k] == tile[k]
      invariant allowMultipleTiles <==> AllOnes(tile, i)
    {
      keeps, allowMultipleTiles := TestDimension(suffix, tile, i, a, allowMultipleTiles);
      if !keeps {
        return false, [];
      }
    }
    assert a[..] == Over(suffix, tile) + tile;
    return true, a[..];
  }

  /** The tests on all tiles, each on the shape that the tiles before it leave. */
  method TestTiles(tiles: seq<Tile>, shape: Dims) returns (verdict: Verdict)
    requires AllPositive(tiles)
    ensures verdict == Judge(shape, tiles)
  {
    var current := shape;
    for k := 0 to |tiles|
      invariant Judge(current, tiles[k..]) == Judge(shape, tiles)
    {
      assert tiles[k..][0] == tiles[k] && tiles[k..][1..] == tiles[k + 1..];
      var n := |tiles[k]|;
      if n > |current| {
        return CheckFailed;
      }
      var keeps, next := TestTile(current[|current| - n..], tiles[k]);
      if !keeps {
        return Tiled;
      }
      TileShapeExact(current, tiles[k]);
      current := current[..|current| - n] + next;
    }
    return Untiled;
  }

  /** Whether tiling keeps every row-major offset, as the code decides it: for a shape with elements exactly
      if every tile fits, divides and keeps all offsets; the check fails at the first that does not fit. */
  method IsUntiledLayout(tiles: seq<Tile>, shape: Dims) returns (verdict: Verdict)
    requires AllPositive(tiles)
    ensures verdict == Judge(shape, tiles)
    ensures Positive(shape) ==> (verdict == Untiled <==> forall k | 0 <= k < |tiles| :: StepKeeps(shape, tiles, k))
    ensures Positive(shape) ==> (verdict == CheckFailed <==> exists k :: 0 <= k < |tiles| && FailsAt(shape, tiles, k))
    ensures verdict == Untiled ==> forall e {:trigger ExpandIndex(e, tiles)} | InBounds(e, shape) ::
              |ExpandIndex(e, tiles)| == |ExpandShape(shape, tiles)|
              && Offset(ExpandShape(shape, tiles), ExpandIndex(e, tiles)) == Offset(shape, e)
  {
    verdict := TestTiles(tiles, shape);
    if Positive(shape) {
      JudgeExact(shape, tiles);
    }
    if verdict == Untiled {
      forall e | InBounds(e, shape)
        ensures |ExpandIndex(e, tiles)| == |ExpandShape(shape, tiles)|
        ensures Offset(ExpandShape(shape, tiles), ExpandIndex(e, tiles)) == Offset(shape, e)
      {
        UntiledKeepsOffsets(shape, tiles, e);
      }
    }
  }
}
