/** Layouts with split configurations: when they are valid for a shape, and what deleting a dimension
    makes of them. */
module LayoutFields {
  import opened RowMajor

  /** Splits of one physical dimension, counted from the most major. */
  datatype SplitConfig = SplitConfig(dimension: int, splitIndices: seq<int>)

  /** The fields that deleting a dimension leaves alone. */
  datatype Rest = Rest(tiles: seq<seq<int>>, tailPaddingAlignment: int, elementSizeInBits: int,
                       hasIndexType: bool, hasPointerType: bool, hasPhysicalShape: bool)

  const COMBINE_DIMENSION: int := -0x8000_0000_0000_0000

  predicate ValidRest(r: Rest) {
    && r.tailPaddingAlignment > 0 && !r.hasIndexType && !r.hasPointerType && !r.hasPhysicalShape
    && (forall k | 0 <= k < |r.tiles| :: ValidTile(r.tiles[k])) && r.elementSizeInBits >= 0
  }

  predicate ValidTile(t: seq<int>) {
    |t| > 0 && forall k | 0 <= k < |t| :: t[k] > 0 || t[k] == COMBINE_DIMENSION
  }

  /** The logical dimension at a physical position, counted from the most major. */
  function Major(m: seq<int>, physical: int): int
    requires 0 <= physical < |m|
  {
    m[|m| - 1 - physical]
  }

  /** Strictly increasing split points within the dimension. */
  predicate ValidSplits(s: seq<int>, size: int) {
    && (forall k | 0 <= k < |s| :: 0 < s[k] < size)
    && forall j, k | 0 <= j < k < |s| :: s[j] < s[k]
  }

  predicate ValidConfig(c: SplitConfig, m: seq<int>, dims: seq<int>)
    requires IsPermutation(m, |dims|)
  {
    0 <= c.dimension < |dims| && ValidSplits(c.splitIndices, dims[Major(m, c.dimension)])
  }

  predicate ValidConfigs(cs: seq<SplitConfig>, m: seq<int>, dims: seq<int>)
    requires IsPermutation(m, |dims|)
  {
    && (forall k | 0 <= k < |cs| :: ValidConfig(cs[k], m, dims))
    && Distinct(cs)
  }

  predicate Distinct(cs: seq<SplitConfig>) {
    forall j, k | 0 <= j < k < |cs| :: cs[j].dimension != cs[k].dimension
  }

  predicate ValidLayout(m: seq<int>, cs: seq<SplitConfig>, r: Rest, dims: seq<int>) {
    IsPermutation(m, |dims|) && ValidRest(r) && ValidConfigs(cs, m, dims)
  }

  // ----- deletion -----

  /** What becomes of a number when `d` is taken out below or above it. */
  function Renumber(x: int, d: int): int {
    if x > d then x - 1 else x
  }

  function DeleteFrom(m: seq<int>, d: int): seq<int> {
    if m == [] then [] else
      var last := m[|m| - 1];
      DeleteFrom(m[..|m| - 1], d) + if last == d then [] else [Renumber(last, d)]
  }

  function DeleteConfigs(cs: seq<SplitConfig>, p: int): seq<SplitConfig> {
    if cs == [] then [] else
      var last := cs[|cs| - 1];
      DeleteConfigs(cs[..|cs| - 1], p)
      + if last.dimension == p then [] else [Moved(last, p)]
  }

  function Without<T>(s: seq<T>, j: nat): seq<T>
    requires j < |s|
  {
    s[..j] + s[j + 1..]
  }

  /** The surviving dimensions keep their physical order. */
  lemma {:induction false} OrderKept(m: seq<int>, d: int, j: nat)
    requires j < |m| && m[j] == d && forall k | 0 <= k < |m| && k != j :: m[k] != d
    ensures |DeleteFrom(m, d)| == |m| - 1
    ensures forall k | 0 <= k < |m| - 1 :: DeleteFrom(m, d)[k] == Renumber(m[if k < j then k else k + 1], d)
  {
    var n := |m| - 1;
    if j == n {
      NothingDeleted(m[..n], d);
    } else {
      OrderKept(m[..n], d, j);
    }
  }

  lemma {:induction false} NothingDeleted(m: seq<int>, d: int)
    requires forall k | 0 <= k < |m| :: m[k] != d
    ensures |DeleteFrom(m, d)| == |m| && forall k | 0 <= k < |m| :: DeleteFrom(m, d)[k] == Renumber(m[k], d)
  {
    if m != [] {
      NothingDeleted(m[..|m| - 1], d);
    }
  }

  lemma OrderValid(m: seq<int>, n: nat, d: int, j: nat)
    requires IsPermutation(m, n) && j < n && m[j] == d
    ensures IsPermutation(DeleteFrom(m, d), n - 1)
  {
    OrderKept(m, d, j);
  }

  /** Deleted physical position `n - 1 - j`: the others lead to the same dimensions as before. */
  lemma MajorKept(m: seq<int>, n: nat, d: int, j: nat, q: int)
    requires IsPermutation(m, n) && j < n && m[j] == d && 0 <= q < n && q != n - 1 - j
    ensures |DeleteFrom(m, d)| == n - 1 && 0 <= Renumber(q, n - 1 - j) < n - 1
    ensures Major(DeleteFrom(m, d), Renumber(q, n - 1 - j)) == Renumber(Major(m, q), d) && Major(m, q) != d
  {
    OrderKept(m, d, j);
  }

  lemma SizeKept(dims: seq<int>, d: nat, x: nat)
    requires d < |dims| && x < |dims| && x != d
    ensures Without(dims, d)[Renumber(x, d)] == dims[x]
  {
  }

  lemma CutAt<T>(a: seq<T>, b: seq<T>, x: T)
    requires b != []
    ensures (a + b)[|a|] == b[0] && (a + b)[..|a|] + (a + b)[|a| + 1..] == a + b[1..]
    ensures (a + b)[|a| := x] == (a + [x]) + b[1..] && a + b == (a + [b[0]]) + b[1..]
  {
  }

  function Moved(c: SplitConfig, p: int): SplitConfig {
    c.(dimension := Renumber(c.dimension, p))
  }

  lemma {:induction false} Origin(cs: seq<SplitConfig>, p: int, k: nat) returns (i: nat)
    requires k < |DeleteConfigs(cs, p)|
    ensures i < |cs| && cs[i].dimension != p && DeleteConfigs(cs, p)[k] == Moved(cs[i], p)
  {
    var n := |cs| - 1;
    if k < |DeleteConfigs(cs[..n], p)| {
      i := Origin(cs[..n], p, k);
    } else {
      i := n;
    }
  }

  lemma ConfigValid(c: SplitConfig, m: seq<int>, dims: seq<int>, d: nat, j: nat)
    requires IsPermutation(m, |dims|) && j < |dims| && m[j] == d && ValidConfig(c, m, dims) && c.dimension != |dims| - 1 - j
    ensures IsPermutation(DeleteFrom(m, d), |dims| - 1)
    ensures ValidConfig(Moved(c, |dims| - 1 - j), DeleteFrom(m, d), Without(dims, d))
  {
    OrderValid(m, |dims|, d, j);
    MajorKept(m, |dims|, d, j, c.dimension);
    SizeKept(dims, d, Major(m, c.dimension));
  }

  lemma {:induction false} DistinctKept(cs: seq<SplitConfig>, p: int)
    requires Distinct(cs)
    ensures Distinct(DeleteConfigs(cs, p))
  {
    if cs != [] {
      var n := |cs| - 1;
      DistinctKept(cs[..n], p);
      var before := DeleteConfigs(cs[..n], p);
      if cs[n].dimension != p {
        var r := before + [Moved(cs[n], p)];
        assert DeleteConfigs(cs, p) == r;
        forall j, k | 0 <= j < k < |r| ensures r[j].dimension != r[k].dimension {
          if k == |before| {
            var i := Origin(cs[..n], p, j);
            assert cs[i].dimension != cs[n].dimension;
          } else {
            assert before[j].dimension != before[k].dimension;
          }
        }
      } else {
        assert DeleteConfigs(cs, p) == before;
      }
    }
  }

  lemma ConfigsValid(cs: seq<SplitConfig>, m: seq<int>, dims: seq<int>, d: nat, j: nat)
    requires IsPermutation(m, |dims|) && j < |dims| && m[j] == d && ValidConfigs(cs, m, dims)
    ensures IsPermutation(DeleteFrom(m, d), |dims| - 1)
    ensures ValidConfigs(DeleteConfigs(cs, |dims| - 1 - j), DeleteFrom(m, d), Without(dims, d))
  {
    var p := |dims| - 1 - j;
    var r := DeleteConfigs(cs, p);
    OrderValid(m, |dims|, d, j);
    DistinctKept(cs, p);
    forall k | 0 <= k < |r| ensures ValidConfig(r[k], DeleteFrom(m, d), Without(dims, d)) {
      var i := Origin(cs, p, k);
      ConfigValid(cs[i], m, dims, d, j);
    }
  }

  /** Deleting a dimension keeps a layout valid, for the shape without that dimension. */
  lemma DeletionValid(m: seq<int>, cs: seq<SplitConfig>, r: Rest, dims: seq<int>, d: nat, j: nat)
    requires ValidLayout(m, cs, r, dims) && j < |dims| && m[j] == d
    ensures ValidLayout(DeleteFrom(m, d), DeleteConfigs(cs, |dims| - 1 - j), r, Without(dims, d))
  {
    ConfigsValid(cs, m, dims, d, j);
  }

  lemma DeletionsValid(m: seq<int>, cs: seq<SplitConfig>, r: Rest, d: nat)
    requires d in m
    ensures forall dims: seq<int> | ValidLayout(m, cs, r, dims) ::
              d < |dims| && ValidLayout(DeleteFrom(m, d), DeleteConfigs(cs, |m| - 1 - PositionOf(m, d)), r, Without(dims, d))
  {
    forall dims: seq<int> | ValidLayout(m, cs, r, dims)
      ensures d < |dims|
      ensures ValidLayout(DeleteFrom(m, d), DeleteConfigs(cs, |m| - 1 - PositionOf(m, d)), r, Without(dims, d))
    {
      DeletionValid(m, cs, r, dims, d, PositionOf(m, d));
    }
  }

  // ----- the largest split -----

  function Max(a: int, b: int): int {
    if a > b then a else b
  }

  /** The largest piece the splits cut a dimension into, from `last` on. */
  function MaxPiece(splits: seq<int>, last: int, size: int): int
    decreases |splits|
  {
    if splits == [] then Max(0, size - last) else Max(splits[0] - last, MaxPiece(splits[1..], splits[0], size))
  }

  /** The first configuration of a logical dimension. */
  function FindConfig(cs: seq<SplitConfig>, m: seq<int>, dimension: int): (r: int)
    requires forall k | 0 <= k < |cs| :: 0 <= cs[k].dimension < |m|
    ensures -1 <= r < |cs|
  {
    if cs == [] then -1
    else if Major(m, cs[0].dimension) == dimension then 0
    else
      var r := FindConfig(cs[1..], m, dimension);
      if r < 0 then -1 else r + 1
  }

  function MaxSplit(cs: seq<SplitConfig>, m: seq<int>, dims: seq<int>, dimension: nat): int
    requires dimension < |dims| && forall k | 0 <= k < |cs| :: 0 <= cs[k].dimension < |m|
  {
    var k := FindConfig(cs, m, dimension);
    if k < 0 then dims[dimension] else MaxPiece(cs[k].splitIndices, 0, dims[dimension])
  }

  /** Piece `k` of a split dimension. */
  function Piece(splits: seq<int>, last: int, size: int, k: nat): int
    requires k <= |splits|
  {
    (if k == |splits| then size else splits[k]) - (if k == 0 then last else splits[k - 1])
  }

  /** The largest piece is a piece, and no piece is larger. */
  lemma {:induction false} MaxPieceMeaning(splits: seq<int>, last: int, size: int) returns (at: nat)
    requires last <= size && (forall k | 0 <= k < |splits| :: last < splits[k] < size)
    requires forall j, k | 0 <= j < k < |splits| :: splits[j] < splits[k]
    ensures at <= |splits| && Piece(splits, last, size, at) == MaxPiece(splits, last, size)
    ensures forall k | 0 <= k <= |splits| :: Piece(splits, last, size, k) <= MaxPiece(splits, last, size)
    decreases |splits|
  {
    at := 0;
    if splits != [] {
      var i := MaxPieceMeaning(splits[1..], splits[0], size);
      forall k | 0 < k <= |splits| ensures Piece(splits, last, size, k) == Piece(splits[1..], splits[0], size, k - 1) {
      }
      at := if splits[0] - last > MaxPiece(splits[1..], splits[0], size) then 0 else i + 1;
    }
  }

  lemma {:induction false} FoundConfig(cs: seq<SplitConfig>, m: seq<int>, dimension: int)
    requires forall k | 0 <= k < |cs| :: 0 <= cs[k].dimension < |m|
    ensures var r := FindConfig(cs, m, dimension);
      && (r < 0 ==> forall k | 0 <= k < |cs| :: Major(m, cs[k].dimension) != dimension)
      && (r >= 0 ==> Major(m, cs[r].dimension) == dimension)
    decreases |cs|
  {
    if cs != [] {
      FoundConfig(cs[1..], m, dimension);
      assert forall k | 1 <= k < |cs| :: cs[k] == cs[1..][k - 1];
    }
  }

  /** Without a configuration the largest split is the whole dimension; with one it is the largest of the
      pieces that the configuration cuts the dimension into. */
  lemma MaxSplitMeaning(cs: seq<SplitConfig>, m: seq<int>, dims: seq<int>, dimension: nat)
    requires dimension < |dims| && IsPermutation(m, |dims|) && ValidConfigs(cs, m, dims)
    ensures (forall k | 0 <= k < |cs| :: Major(m, cs[k].dimension) != dimension) ==>
              MaxSplit(cs, m, dims, dimension) == dims[dimension]
    ensures dims[dimension] >= 0 ==> forall k | 0 <= k < |cs| && Major(m, cs[k].dimension) == dimension ::
              var splits, size, max := cs[k].splitIndices, dims[dimension], MaxSplit(cs, m, dims, dimension);
              && (forall p | 0 <= p <= |splits| :: Piece(splits, 0, size, p) <= max)
              && exists p :: 0 <= p <= |splits| && Piece(splits, 0, size, p) == max
  {
    assert forall k | 0 <= k < |cs| :: ValidConfig(cs[k], m, dims);
    FoundConfig(cs, m, dimension);
    var r := FindConfig(cs, m, dimension);
    if r >= 0 {
      forall k | 0 <= k < |cs| && Major(m, cs[k].dimension) == dimension ensures k == r {
        SamePlace(m, |dims|, cs[k].dimension, cs[r].dimension);
      }
      if dims[dimension] >= 0 {
        var p := MaxPieceMeaning(cs[r].splitIndices, 0, dims[dimension]);
      }
    }
  }

  lemma SamePlace(m: seq<int>, n: nat, p: int, q: int)
    requires IsPermutation(m, n) && 0 <= p < n && 0 <= q < n && Major(m, p) == Major(m, q)
    ensures p == q
  {
  }

  lemma SameMatch(c: SplitConfig, m: seq<int>, n: nat, d: int, j: nat, x: int)
    requires IsPermutation(m, n) && j < n && m[j] == d && 0 <= x < n && x != d && 0 <= c.dimension < n
    ensures |DeleteFrom(m, d)| == n - 1
    ensures c.dimension == n - 1 - j ==> Major(m, c.dimension) != x
    ensures c.dimension != n - 1 - j ==>
              var c' := Moved(c, n - 1 - j);
              && 0 <= c'.dimension < n - 1
              && (Major(DeleteFrom(m, d), c'.dimension) == Renumber(x, d) <==> Major(m, c.dimension) == x)
  {
    OrderKept(m, d, j);
    if c.dimension != n - 1 - j {
      MajorKept(m, n, d, j, c.dimension);
    }
  }

  lemma {:induction false} FindKept(cs: seq<SplitConfig>, m: seq<int>, n: nat, d: int, j: nat, x: int)
    requires IsPermutation(m, n) && j < n && m[j] == d && 0 <= x < n && x != d
    requires forall k | 0 <= k < |cs| :: 0 <= cs[k].dimension < n
    ensures var m', cs' := DeleteFrom(m, d), DeleteConfigsFront(cs, n - 1 - j);
      && |m'| == n - 1 && (forall k | 0 <= k < |cs'| :: 0 <= cs'[k].dimension < n - 1)
      && var k, k' := FindConfig(cs, m, x), FindConfig(cs', m', Renumber(x, d));
      && (k < 0 <==> k' < 0) && (k >= 0 ==> cs'[k'].splitIndices == cs[k].splitIndices)
    decreases |cs|
  {
    OrderKept(m, d, j);
    if cs != [] {
      FindKept(cs[1..], m, n, d, j, x);
      SameMatch(cs[0], m, n, d, j, x);
      var cs' := DeleteConfigsFront(cs, n - 1 - j);
      if cs[0].dimension != n - 1 - j {
        assert cs'[1..] == DeleteConfigsFront(cs[1..], n - 1 - j);
      } else {
        assert cs' == DeleteConfigsFront(cs[1..], n - 1 - j);
      }
    }
  }

  /** `DeleteConfigs`, taken from the front. */
  function DeleteConfigsFront(cs: seq<SplitConfig>, p: int): seq<SplitConfig> {
    if cs == [] then [] else
      (if cs[0].dimension == p then [] else [Moved(cs[0], p)]) + DeleteConfigsFront(cs[1..], p)
  }

  lemma {:induction false} DeleteConfigsConcat(a: seq<SplitConfig>, b: seq<SplitConfig>, p: int)
    ensures DeleteConfigs(a + b, p) == DeleteConfigs(a, p) + DeleteConfigs(b, p)
    decreases |b|
  {
    if b == [] {
      assert a + b == a;
    } else {
      var n := |b| - 1;
      assert (a + b)[..|a + b| - 1] == a + b[..n];
      DeleteConfigsConcat(a, b[..n], p);
    }
  }

  lemma {:induction false} FrontIsBack(cs: seq<SplitConfig>, p: int)
    ensures DeleteConfigsFront(cs, p) == DeleteConfigs(cs, p)
  {
    if cs != [] {
      FrontIsBack(cs[1..], p);
      DeleteConfigsConcat([cs[0]], cs[1..], p);
      assert cs == [cs[0]] + cs[1..];
      assert [cs[0]][..0] == [];
    }
  }

  /** Every surviving dimension keeps its largest split. */
  lemma MaxSplitKept(m: seq<int>, cs: seq<SplitConfig>, r: Rest, dims: seq<int>, d: nat, j: nat, x: nat)
    requires ValidLayout(m, cs, r, dims) && j < |dims| && m[j] == d && x < |dims| && x != d
    ensures var cs', m' := DeleteConfigs(cs, |dims| - 1 - j), DeleteFrom(m, d);
      && (forall k | 0 <= k < |cs'| :: 0 <= cs'[k].dimension < |m'|)
      && MaxSplit(cs', m', Without(dims, d), Renumber(x, d)) == MaxSplit(cs, m, dims, x)
  {
    FrontIsBack(cs, |dims| - 1 - j);
    FindKept(cs, m, |dims|, d, j, x);
    SizeKept(dims, d, x);
  }
}
