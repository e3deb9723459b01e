/** When tiling changes nothing: a tile list whose expansion keeps every row-major offset. */
module UntiledLayout {
  import opened Arithmetic
  import opened RowMajor
  import opened Strides
  import opened NestedTiling
  import opened TilingWeights

  // ----- one tile -----

  /** Every tiled dimension is a multiple of its tile dimension. */
  predicate Divides(b: Dims, t: Tile)
    requires |b| == |t| && Positive(t)
  {
    forall k | 0 <= k < |t| :: b[k] % t[k] == 0
  }

  predicate AllOnes(t: Tile, n: nat)
    requires n <= |t|
  {
    forall j | 0 <= j < n :: t[j] == 1
  }

  /** Behind a tile dimension other than 1 there is only one tile. */
  predicate SingleBehind(b: Dims, t: Tile)
    requires |b| == |t| && Positive(t)
  {
    forall k | 0 <= k < |t| :: AllOnes(t, k) || b[k] / t[k] == 1
  }

  predicate KeepsOrder(s: Dims, t: Tile)
    requires |t| <= |s| && Positive(t)
  {
    Divides(s[|s| - |t|..], t) && SingleBehind(s[|s| - |t|..], t)
  }

  /** The answer for a whole tile list; a tile of higher rank than its shape aborts. */
  datatype Verdict = Untiled | Tiled | CheckFailed

  function Judge(s: Dims, tiles: seq<Tile>): Verdict
    requires AllPositive(tiles)
    decreases |tiles|
  {
    if tiles == [] then Untiled
    else if |tiles[0]| > |s| then CheckFailed
    else if !KeepsOrder(s, tiles[0]) then Tiled
    else Judge(TileShape(s, tiles[0]), tiles[1..])
  }

  // ----- soundness -----

  function Over(b: Dims, t: Tile): (r: Dims)
    requires |b| == |t| && Positive(t)
    ensures |r| == |t|
  {
    seq(|t|, k requires 0 <= k < |t| => b[k] / t[k])
  }

  function Within(b: Dims, t: Tile): (r: Dims)
    requires |b| == |t| && Positive(t)
    ensures |r| == |t|
  {
    seq(|t|, k requires 0 <= k < |t| => b[k] % t[k])
  }

  lemma Tails(b: Dims, e: Dims, t: Tile)
    requires |b| == |e| == |t| > 0 && Positive(t)
    ensures Positive(t[1..])
    ensures Over(b, t)[1..] == Over(b[1..], t[1..]) && Within(e, t)[1..] == Within(e[1..], t[1..])
    ensures Divides(b, t) ==> Divides(b[1..], t[1..])
    ensures SingleBehind(b, t) ==> SingleBehind(b[1..], t[1..])
  {
    if SingleBehind(b, t) {
      forall k | 0 <= k < |t| - 1 ensures AllOnes(t[1..], k) || b[1..][k] / t[1..][k] == 1 {
        assert AllOnes(t, k + 1) || b[k + 1] / t[k + 1] == 1;
        assert AllOnes(t, k + 1) ==> forall j | 0 <= j < k :: t[1..][j] == t[j + 1];
      }
    }
  }

  lemma {:induction false} ProductOver(b: Dims, t: Tile)
    requires |b| == |t| && Positive(t) && Divides(b, t)
    ensures Product(Over(b, t)) * Product(t) == Product(b)
  {
    if t != [] {
      Tails(b, b, t);
      ProductOver(b[1..], t[1..]);
      ExactQuotient(b[0], t[0], Product(Over(b[1..], t[1..])), Product(t[1..]));
    }
  }

  lemma ExactQuotient(d: nat, t: nat, p: nat, r: nat)
    requires t > 0 && d % t == 0
    ensures ((d / t) * p) * (t * r) == d * (p * r)
  {
    var q := d / t;
    assert d == q * t;
    assert (q * p) * (t * r) == q * (p * (t * r));
    assert p * (t * r) == t * (p * r);
    assert (q * t) * (p * r) == q * (t * (p * r));
  }

  lemma WholeTile(d: nat, t: nat, e: nat)
    requires t > 0 && d % t == 0 && d / t == 1 && e < d
    ensures d == t && e / t == 0 && e % t == e
  {
    assert d == (d / t) * t + d % t;
    DivModUnique(0, e, t);
  }

  /** A single tile in every dimension: tiling leaves the index as the inner one. */
  lemma {:induction false} OneTile(b: Dims, t: Tile, e: Dims)
    requires |b| == |t| && Positive(t) && Divides(b, t) && InBounds(e, b)
    requires forall k | 0 <= k < |t| :: b[k] / t[k] == 1
    ensures b == t && Within(e, t) == e && Offset(Over(b, t), Over(e, t)) == 0 && Product(Over(b, t)) == 1
  {
    if t != [] {
      WholeTile(b[0], t[0], e[0]);
      Tails(b, e, t);
      Tails(e, e, t);
      OneTile(b[1..], t[1..], e[1..]);
      assert b == [b[0]] + b[1..] && t == [t[0]] + t[1..];
      assert Within(e, t) == [e[0]] + Within(e, t)[1..] && e == [e[0]] + e[1..];
      assert Over(e, t)[0] == 0 && Over(b, t)[0] == 1;
    }
  }

  lemma {:induction false} TiledSuffix(b: Dims, t: Tile, e: Dims)
    requires |b| == |t| && Positive(t) && Divides(b, t) && SingleBehind(b, t) && InBounds(e, b)
    ensures Offset(Over(b, t), Over(e, t)) * Product(t) + Offset(t, Within(e, t)) == Offset(b, e)
  {
    if t != [] {
      Tails(b, e, t);
      Tails(e, e, t);
      var b', t', e' := b[1..], t[1..], e[1..];
      var q, o := Product(Over(b', t')), Offset(Over(b', t'), Over(e', t'));
      if t[0] == 1 {
        TiledSuffix(b', t', e');
        ProductOver(b', t');
        Distribute(e[0], q, o, Product(t'));
      } else {
        forall k | 0 <= k < |t'| ensures b'[k] / t'[k] == 1 {
          assert t[0] != 1 && (AllOnes(t, k + 1) || b[k + 1] / t[k + 1] == 1);
        }
        OneTile(b', t', e');
        SplitDigit(e[0], t[0], Product(t'));
      }
    }
  }

  lemma SplitDigit(e: nat, t: nat, p: nat)
    requires t > 0
    ensures (e / t) * (t * p) + (e % t) * p == e * p
  {
    assert (e / t) * (t * p) == ((e / t) * t) * p;
    assert e == (e / t) * t + e % t;
  }

  lemma TileShapeExact(s: Dims, t: Tile)
    requires |t| <= |s| && Positive(t) && Divides(s[|s| - |t|..], t)
    ensures TileShape(s, t) == s[..|s| - |t|] + (Over(s[|s| - |t|..], t) + t)
  {
    var b := s[|s| - |t|..];
    forall k | 0 <= k < |t| ensures CeilOfRatio(b[k], t[k]) == b[k] / t[k] {
      assert b[k] % t[k] == 0;
      CeilExact(b[k], t[k]);
    }
    assert Outer(s, t) == Over(b, t);
  }

  lemma TileKeepsOffset(s: Dims, t: Tile, e: Dims)
    requires |t| <= |s| && Positive(t) && KeepsOrder(s, t) && InBounds(e, s)
    ensures Offset(TileShape(s, t), TileIndex(e, t)) == Offset(s, e)
  {
    var p := |s| - |t|;
    var a, b, x, y := s[..p], s[p..], e[..p], e[p..];
    assert s == a + b && e == x + y;
    TileShapeExact(s, t);
    var c, z := Over(b, t) + t, Over(y, t) + Within(y, t);
    assert Offset(c, z) == Offset(b, y) && Product(c) == Product(b) by {
      OffsetConcat(Over(b, t), t, Over(y, t), Within(y, t));
      ProductConcat(Over(b, t), t);
      ProductOver(b, t);
      TiledSuffix(b, t, y);
    }
    assert TileIndex(e, t) == x + z by {
      assert Quotients(e, t) == Over(y, t) && Remainders(e, t) == Within(y, t);
    }
    OffsetConcat(a, c, x, z);
    OffsetConcat(a, b, x, y);
  }

  lemma CeilExact(d: nat, t: nat)
    requires t > 0 && d % t == 0
    ensures CeilOfRatio(d, t) == d / t
  {
    assert d == (d / t) * t;
    DivModUnique(d / t, t - 1, t);
  }

  /** A list judged untiled keeps every in-bounds offset. */
  lemma {:induction false} UntiledKeepsOffsets(s: Dims, tiles: seq<Tile>, e: Dims)
    requires AllPositive(tiles) && InBounds(e, s) && Judge(s, tiles) == Untiled
    ensures |ExpandIndex(e, tiles)| == |ExpandShape(s, tiles)|
    ensures Offset(ExpandShape(s, tiles), ExpandIndex(e, tiles)) == Offset(s, e)
    decreases |tiles|
  {
    if tiles != [] {
      TileInBounds(e, s, tiles[0]);
      TileKeepsOffset(s, tiles[0], e);
      UntiledKeepsOffsets(TileShape(s, tiles[0]), tiles[1..], TileIndex(e, tiles[0]));
    }
  }

  // ----- exactly when offsets are kept -----

  /** Expanding the index keeps its row-major offset. */
  predicate KeepsOffset(s: Dims, tiles: seq<Tile>, e: Dims)
    requires AllPositive(tiles) && |e| == |s|
  {
    Offset(ExpandShape(s, tiles), ExpandIndex(e, tiles)) == Offset(s, e)
  }

  /** If expanded coordinate `j` is in use, one step along it is as long as the step it counts for. */
  predicate StrideKept(s: Dims, tiles: seq<Tile>, j: nat)
    requires AllPositive(tiles) && j < ExpandedRank(|s|, tiles)
  {
    Reach(s, tiles)[j] > 1 ==> StridesOf(ExpandShape(s, tiles))[j] == Weights(StridesOf(s), tiles)[j]
  }

  lemma {:induction false} WeightedIsDot(x: Dims, s: Dims, n: nat)
    requires n <= |x| == |s|
    ensures Weighted(s, x, n) == Sum(Times(x, s)[..n])
  {
    if n > 0 {
      WeightedIsDot(x, s, n - 1);
      SumConcat(Times(x, s)[..n - 1], [x[n - 1] * s[n - 1]]);
      SumOne(x[n - 1] * s[n - 1]);
      assert Times(x, s)[..n] == Times(x, s)[..n - 1] + [x[n - 1] * s[n - 1]];
    }
  }

  lemma OffsetIsWeighted(d: Dims, i: Dims)
    requires |i| == |d|
    ensures Offset(d, i) == Weighted(StridesOf(d), i, |d|)
  {
    OffsetIsDot(d, i);
    WeightedIsDot(i, StridesOf(d), |d|);
    assert Times(i, StridesOf(d))[..|d|] == Times(i, StridesOf(d));
  }

  /** Both offsets, as sums over the expanded coordinates. */
  lemma KeepsOffsetIff(s: Dims, tiles: seq<Tile>, e: Dims)
    requires AllPositive(tiles) && |e| == |s|
    ensures var x, n := ExpandIndex(e, tiles), ExpandedRank(|s|, tiles);
      KeepsOffset(s, tiles, e) <==> Weighted(StridesOf(ExpandShape(s, tiles)), x, n) == Weighted(Weights(StridesOf(s), tiles), x, n)
  {
    OffsetIsWeighted(s, e);
    OffsetIsWeighted(ExpandShape(s, tiles), ExpandIndex(e, tiles));
    WeightedExpand(StridesOf(s), e, tiles);
  }

  /** A tile list, padding or not, keeps the offsets of all indices exactly if it keeps the strides of all
      coordinates in use. */
  lemma OffsetsKeptExact(s: Dims, tiles: seq<Tile>)
    requires AllPositive(tiles) && Positive(s)
    ensures (forall e | InBounds(e, s) :: KeepsOffset(s, tiles, e))
            <==> forall j | 0 <= j < ExpandedRank(|s|, tiles) :: StrideKept(s, tiles, j)
  {
    var n, a, b := ExpandedRank(|s|, tiles), StridesOf(ExpandShape(s, tiles)), Weights(StridesOf(s), tiles);
    if j: nat :| j < n && !StrideKept(s, tiles, j) {
      var i, v := UnitReached(s, tiles, j);
      KeepsOffsetIff(s, tiles, Unit(|s|, i, v));
      WeightedUnit(a, j, n);
      WeightedUnit(b, j, n);
      assert InBounds(Unit(|s|, i, v), s) && !KeepsOffset(s, tiles, Unit(|s|, i, v));
    } else {
      forall e | InBounds(e, s) ensures KeepsOffset(s, tiles, e) {
        var x := ExpandIndex(e, tiles);
        Reaches(e, s, tiles);
        forall j | 0 <= j < n ensures x[j] == 0 || a[j] == b[j] {
          assert StrideKept(s, tiles, j);
        }
        WeightedSame(a, b, x, n);
        KeepsOffsetIff(s, tiles, e);
      }
    }
  }

  /** Three elements in a padded tile of four stay where they are, but the layout counts as tiled. */
  lemma PaddedTileKeepsOffsets()
    ensures AllPositive([[4]]) && Judge([3], [[4]]) == Tiled
    ensures forall e | InBounds(e, [3]) :: KeepsOffset([3], [[4]], e)
  {
    var t: Tile := [4];
    assert [t][0] == t && [t][1..] == [];
    var three: Dims := [3];
    assert three[0..][0] % t[0] != 0 && !Divides(three[0..], t);
    forall e | InBounds(e, [3]) ensures KeepsOffset([3], [t], e) {
      DivModUnique(0, e[0], 4);
      assert e == [e[0]] && TileIndex(e, t) == [0, e[0]] && TileShape([3], t) == [1, 4];
      OffsetOne(3, e[0]);
      OffsetConcat([1], [4], [0], [e[0]]);
      OffsetOne(4, e[0]);
      OffsetOne(1, 0);
      assert [1, 4] == [1] + [4] && [0, e[0]] == [0] + [e[0]];
    }
  }
}
