/** Exactly when a tile list is judged to leave a layout untiled, in terms of what it does to offsets. */
module UntiledExact {
  import opened Arithmetic
  import opened RowMajor
  import opened Strides
  import opened NestedTiling
  import opened TilingWeights
  import opened UntiledLayout
  import WindowCopies

  /** Tile `k` has no higher rank than the shape it meets. */
  predicate TileFits(s: Dims, tiles: seq<Tile>, k: nat)
    requires AllPositive(tiles) && k < |tiles|
  {
    |tiles[k]| <= |ExpandShape(s, tiles[..k])|
  }

  /** Tile `k` divides the most minor dimensions of the shape it meets. */
  predicate TileDivides(s: Dims, tiles: seq<Tile>, k: nat)
    requires AllPositive(tiles) && k < |tiles| && TileFits(s, tiles, k)
  {
    var c, t := ExpandShape(s, tiles[..k]), tiles[k];
    Divides(c[|c| - |t|..], t)
  }

  /** Every in-bounds index keeps its row-major offset. */
  ghost predicate KeepsAll(s: Dims, tiles: seq<Tile>)
    requires AllPositive(tiles)
  {
    forall e | InBounds(e, s) :: KeepsOffset(s, tiles, e)
  }

  ghost predicate StepKeeps(s: Dims, tiles: seq<Tile>, k: nat)
    requires AllPositive(tiles) && k < |tiles|
  {
    TileFits(s, tiles, k) && TileDivides(s, tiles, k) && KeepsAll(s, tiles[..k + 1])
  }

  // ----- one tile -----

  lemma MultipleAtLeast(b: nat, t: nat)
    requires t > 0 && b > 0 && b % t == 0
    ensures b >= t && (b / t != 1 ==> b > t)
  {
    var q, r := DivMod(b, t);
    if q > 0 {
      MulMono(1, q, t);
    }
  }

  lemma {:induction false} OneTileReach(c: Dims, t: Tile)
    requires |t| <= |c| && Positive(t)
    ensures AllPositive([t]) && ExpandedRank(|c|, [t]) == |c| + |t|
    ensures Reach(c, [t]) == TileReach(c, t) && Weights(StridesOf(c), [t]) == Spread(StridesOf(c), t)
    ensures ExpandShape(c, [t]) == TileShape(c, t)
  {
    assert [t][0] == t && [t][1..] == [];
    ExpandOne(c, c, t);
    assert Pad(c, |t|, 1) == c && Pad(StridesOf(c), |t|, 0) == StridesOf(c);
  }

  /** The inner coordinate of a tiled dimension: how far it reaches, and its stride before and after. */
  lemma {:induction false} InnerStride(c: Dims, t: Tile, j: nat)
    requires |t| <= |c| && Positive(t) && j < |t|
    ensures TileReach(c, t)[|c| + j] == Min(c[|c| - |t| + j], t[j])
    ensures StridesOf(TileShape(c, t))[|c| + j] == Product(t[j + 1..])
    ensures Spread(StridesOf(c), t)[|c| + j] == Product(c[|c| - |t| + j + 1..])
  {
    assert TileShape(c, t)[|c| + j + 1..] == t[j + 1..];
  }

  /** A tile that divides and keeps all offsets has a single tile behind each dimension it splits. */
  lemma {:induction false} KeepingKeepsOrder(c: Dims, t: Tile)
    requires Positive(c) && |t| <= |c| && Positive(t) && Divides(c[|c| - |t|..], t)
    requires AllPositive([t]) && KeepsAll(c, [t])
    ensures KeepsOrder(c, t)
  {
    var b := c[|c| - |t|..];
    OffsetsKeptExact(c, [t]);
    forall k | 0 <= k < |t| ensures AllOnes(t, k) || b[k] / t[k] == 1 {
      if !AllOnes(t, k) {
        var j: nat :| j < k && t[j] != 1;
        SingleAt(c, t, j, k);
      }
    }
  }

  lemma {:induction false} SingleAt(c: Dims, t: Tile, j: nat, k: nat)
    requires Positive(c) && |t| <= |c| && Positive(t) && Divides(c[|c| - |t|..], t) && AllPositive([t])
    requires j < k < |t| && t[j] != 1 && forall i | 0 <= i < ExpandedRank(|c|, [t]) :: StrideKept(c, [t], i)
    ensures c[|c| - |t| + k] / t[k] == 1
  {
    var b := c[|c| - |t|..];
    InnerKept(c, t, j);
    assert c[|c| - |t| + j + 1..] == b[j + 1..];
    SameProduct(b, t, j, k);
  }

  /** Where a tile splits a dimension with more than one element inside, what is behind keeps its size. */
  lemma {:induction false} InnerKept(c: Dims, t: Tile, j: nat)
    requires Positive(c) && |t| <= |c| && Positive(t) && Divides(c[|c| - |t|..], t) && AllPositive([t])
    requires j < |t| && t[j] != 1 && forall i | 0 <= i < ExpandedRank(|c|, [t]) :: StrideKept(c, [t], i)
    ensures Product(t[j + 1..]) == Product(c[|c| - |t| + j + 1..])
  {
    OneTileReach(c, t);
    assert StrideKept(c, [t], |c| + j);
    InnerStride(c, t, j);
    MultipleAtLeast(c[|c| - |t|..][j], t[j]);
  }

  lemma SameProduct(b: Dims, t: Tile, j: nat, k: nat)
    requires |b| == |t| && Positive(b) && Positive(t) && Divides(b, t) && j < k < |t|
    requires Product(t[j + 1..]) == Product(b[j + 1..])
    ensures b[k] / t[k] == 1
  {
    forall i | 0 <= i < |t| ensures b[i] >= t[i] && (b[i] / t[i] != 1 ==> b[i] > t[i]) {
      MultipleAtLeast(b[i], t[i]);
    }
    var u, v := t[j + 1..], b[j + 1..];
    ProductPositive(u);
    WindowCopies.ProductWithin(u, v);
    assert u[k - j - 1] == t[k] && v[k - j - 1] == b[k];
  }

  // ----- a list of tiles, from its end -----

  lemma {:induction false} ExpandSnoc(s: Dims, e: Dims, tiles: seq<Tile>, t: Tile)
    requires AllPositive(tiles) && Positive(t) && |e| == |s|
    ensures AllPositive(tiles + [t])
    ensures ExpandShape(s, tiles + [t]) == ExpandShape(ExpandShape(s, tiles), [t])
    ensures ExpandIndex(e, tiles + [t]) == ExpandIndex(ExpandIndex(e, tiles), [t])
    decreases |tiles|
  {
    if tiles == [] {
      assert tiles + [t] == [t];
    } else {
      var u := tiles[0];
      assert (tiles + [t])[0] == u && (tiles + [t])[1..] == tiles[1..] + [t];
      ExpandSnoc(TileShape(Pad(s, |u|, 1), u), TileIndex(Pad(e, |u|, 0), u), tiles[1..], t);
    }
  }

  lemma {:induction false} JudgeSnoc(s: Dims, tiles: seq<Tile>, t: Tile)
    requires AllPositive(tiles) && Positive(t)
    ensures AllPositive(tiles + [t]) && AllPositive([t])
    ensures Judge(s, tiles + [t])
            == if Judge(s, tiles) == Untiled then Judge(ExpandShape(s, tiles), [t]) else Judge(s, tiles)
    decreases |tiles|
  {
    if tiles == [] {
      assert tiles + [t] == [t];
    } else {
      var u := tiles[0];
      assert (tiles + [t])[0] == u && (tiles + [t])[1..] == tiles[1..] + [t];
      if |u| <= |s| {
        assert Pad(s, |u|, 1) == s;
        JudgeSnoc(TileShape(s, u), tiles[1..], t);
      }
    }
  }

  lemma {:induction false} ExpandPositive(s: Dims, tiles: seq<Tile>)
    requires AllPositive(tiles) && Positive(s)
    ensures Positive(ExpandShape(s, tiles))
  {
    var zero := seq(|s|, _ => 0);
    assert InBounds(zero, s);
    ExpandInBounds(zero, s, tiles);
  }

  lemma {:induction false} UntiledProduct(s: Dims, tiles: seq<Tile>)
    requires AllPositive(tiles) && Judge(s, tiles) == Untiled
    ensures Product(ExpandShape(s, tiles)) == Product(s)
    decreases |tiles|
  {
    if tiles != [] {
      var t := tiles[0];
      var a, b := s[..|s| - |t|], s[|s| - |t|..];
      assert Pad(s, |t|, 1) == s && s == a + b;
      TileShapeExact(s, t);
      ProductOver(b, t);
      ProductConcat(a, b);
      ProductConcat(Over(b, t), t);
      ProductConcat(a, Over(b, t) + t);
      UntiledProduct(TileShape(s, t), tiles[1..]);
    }
  }

  /** What the whole list keeps, the last tile keeps of every index of the shape it meets. */
  lemma {:induction false} LastKeeps(s: Dims, tiles: seq<Tile>, t: Tile)
    requires AllPositive(tiles) && Positive(s) && Positive(t) && Judge(s, tiles) == Untiled
    requires AllPositive(tiles + [t]) && KeepsAll(s, tiles + [t])
    ensures AllPositive([t]) && KeepsAll(ExpandShape(s, tiles), [t])
  {
    var c := ExpandShape(s, tiles);
    forall x | InBounds(x, c) ensures KeepsOffset(c, [t], x) {
      var n := Offset(c, x);
      OffsetBound(c, x);
      UntiledProduct(s, tiles);
      OffsetUnoffset(s, n);
      var e := Unoffset(s, n);
      ExpandInBounds(e, s, tiles);
      UntiledKeepsOffsets(s, tiles, e);
      OffsetInjective(c, x, ExpandIndex(e, tiles));
      ExpandSnoc(s, e, tiles, t);
      assert KeepsOffset(s, tiles + [t], e);
    }
  }

  /** One more tile is untiled exactly if it fits, divides and keeps all offsets. */
  lemma {:induction false} NextTile(s: Dims, tiles: seq<Tile>, t: Tile)
    requires AllPositive(tiles) && Positive(s) && Positive(t) && Judge(s, tiles) == Untiled
    ensures AllPositive(tiles + [t])
    ensures var c := ExpandShape(s, tiles);
      && (Judge(s, tiles + [t]) == CheckFailed <==> |t| > |c|)
      && (Judge(s, tiles + [t]) == Untiled <==>
          |t| <= |c| && Divides(c[|c| - |t|..], t) && KeepsAll(s, tiles + [t]))
  {
    var c := ExpandShape(s, tiles);
    JudgeSnoc(s, tiles, t);
    assert [t][0] == t && [t][1..] == [];
    if Judge(s, tiles + [t]) == Untiled {
      forall e | InBounds(e, s) ensures KeepsOffset(s, tiles + [t], e) {
        UntiledKeepsOffsets(s, tiles + [t], e);
      }
    } else if |t| <= |c| && Divides(c[|c| - |t|..], t) && KeepsAll(s, tiles + [t]) {
      LastKeeps(s, tiles, t);
      ExpandPositive(s, tiles);
      KeepingKeepsOrder(c, t);
    }
  }

  ghost predicate StepsKeep(s: Dims, tiles: seq<Tile>, n: nat)
    requires AllPositive(tiles) && n <= |tiles|
  {
    forall k | 0 <= k < n :: StepKeeps(s, tiles, k)
  }

  /** Tile `k` is the first that does not fit, divide or keep all offsets, and it does not fit. */
  ghost predicate FailsAt(s: Dims, tiles: seq<Tile>, k: nat)
    requires AllPositive(tiles) && k < |tiles|
  {
    !TileFits(s, tiles, k) && forall i | 0 <= i < k :: StepKeeps(s, tiles, i)
  }

  /** The verdict on one more tile of the list. */
  lemma {:induction false} NextStep(s: Dims, tiles: seq<Tile>, n: nat)
    requires AllPositive(tiles) && Positive(s) && n < |tiles|
    ensures Judge(s, tiles[..n]) != Untiled ==> Judge(s, tiles[..n + 1]) == Judge(s, tiles[..n])
    ensures Judge(s, tiles[..n]) == Untiled ==>
              && (Judge(s, tiles[..n + 1]) == CheckFailed <==> !TileFits(s, tiles, n))
              && (Judge(s, tiles[..n + 1]) == Untiled <==> StepKeeps(s, tiles, n))
  {
    var front, t := tiles[..n], tiles[n];
    assert tiles[..n + 1] == front + [t];
    JudgeSnoc(s, front, t);
    if Judge(s, front) == Untiled {
      NextTile(s, front, t);
    }
  }

  lemma {:induction false} JudgeTo(s: Dims, tiles: seq<Tile>, n: nat)
    requires AllPositive(tiles) && Positive(s) && n <= |tiles|
    ensures Judge(s, tiles[..n]) == Untiled <==> StepsKeep(s, tiles, n)
    ensures Judge(s, tiles[..n]) == CheckFailed <==> FailsBefore(s, tiles, n)
  {
    if n > 0 {
      JudgeTo(s, tiles, n - 1);
      NextStep(s, tiles, n - 1);
      FailsOnce(s, tiles, n);
    }
  }

  ghost predicate FailsBefore(s: Dims, tiles: seq<Tile>, n: nat)
    requires AllPositive(tiles) && n <= |tiles|
  {
    exists k :: 0 <= k < n && FailsAt(s, tiles, k)
  }

  lemma FailsOnce(s: Dims, tiles: seq<Tile>, n: nat)
    requires AllPositive(tiles) && 0 < n <= |tiles|
    ensures StepsKeep(s, tiles, n) <==> StepsKeep(s, tiles, n - 1) && StepKeeps(s, tiles, n - 1)
    ensures FailsBefore(s, tiles, n) <==>
            FailsBefore(s, tiles, n - 1) || (StepsKeep(s, tiles, n - 1) && !TileFits(s, tiles, n - 1))
    ensures StepsKeep(s, tiles, n - 1) ==> !FailsBefore(s, tiles, n - 1)
  {
    assert FailsAt(s, tiles, n - 1) <==> StepsKeep(s, tiles, n - 1) && !TileFits(s, tiles, n - 1);
    if StepsKeep(s, tiles, n - 1) {
      forall k | 0 <= k < n - 1 ensures !FailsAt(s, tiles, k) {
        assert StepKeeps(s, tiles, k);
      }
    }
  }

  /** The first tile that does not fit, divide or keep all offsets decides: the layout is untiled if there is
      none, and the check fails if that tile does not fit. */
  lemma {:induction false} JudgeExact(s: Dims, tiles: seq<Tile>)
    requires AllPositive(tiles) && Positive(s)
    ensures Judge(s, tiles) == Untiled <==> forall k | 0 <= k < |tiles| :: StepKeeps(s, tiles, k)
    ensures Judge(s, tiles) == CheckFailed <==> exists k :: 0 <= k < |tiles| && FailsAt(s, tiles, k)
  {
    JudgeTo(s, tiles, |tiles|);
    assert tiles[..|tiles|] == tiles;
  }
}
