/** Validating a layout, deleting a dimension of it, and the largest split of a dimension. */
module LayoutDimensions {
  import opened Options
  import opened RowMajor
  import opened LayoutFields

  datatype Problem =
    | WrongRank | OutOfBounds | Duplicate | BadTailPadding | HasIndexType | HasPointerType | HasPhysicalShape
    | BadTile | BadElementSize | SplitOutOfBounds | DuplicateSplit | SplitsNotIncreasing | SplitIndexOutOfBounds

  /** The 32-bit integer that a 64-bit one is converted to. */
  function Int32(x: int): int {
    (x + 0x8000_0000) % 0x1_0000_0000 - 0x8000_0000
  }

  class Layout {
    var minorToMajor: seq<int>
    var splitConfigs: seq<SplitConfig>
    var rest: Rest

    predicate ValidFor(dims: seq<int>)
      reads this
    {
      ValidLayout(minorToMajor, splitConfigs, rest, dims)
    }

    constructor (minorToMajor: seq<int>, splitConfigs: seq<SplitConfig>, rest: Rest)
      ensures this.minorToMajor == minorToMajor && this.splitConfigs == splitConfigs && this.rest == rest
    {
      this.minorToMajor, this.splitConfigs, this.rest := minorToMajor, splitConfigs, rest;
    }

    /** Takes a logical dimension out of the layout; stays valid, keeping order and largest splits. */
    method DeleteDimension(dimToDelete: nat)
      requires dimToDelete in minorToMajor
      modifies this
      ensures rest == old(rest) && minorToMajor == DeleteFrom(old(minorToMajor), dimToDelete)
      ensures splitConfigs
              == DeleteConfigs(old(splitConfigs), |old(minorToMajor)| - 1 - PositionOf(old(minorToMajor), dimToDelete))
      ensures forall dims: seq<int> | old(ValidFor(dims)) :: dimToDelete < |dims| && ValidFor(Without(dims, dimToDelete))
    {
      DeletionsValid(minorToMajor, splitConfigs, rest, dimToDelete);
      var j := FindDimension(minorToMajor, dimToDelete);
      var deletedPhysicalDim := |minorToMajor| - 1 - j;
      EraseDimension(dimToDelete);
      EraseConfigs(deletedPhysicalDim);
    }

    /** Erases the dimension in place and renumbers the larger ones. */
    method EraseDimension(d: int)
      modifies `minorToMajor
      ensures minorToMajor == DeleteFrom(old(minorToMajor), d)
    {
      ghost var m := minorToMajor;
      ghost var done: nat, kept := 0, [];
      assert m[0..] == m;
      var i := 0;
      while i < |minorToMajor|
        invariant done <= |m| && i == |kept| && kept == DeleteFrom(m[..done], d)
        invariant minorToMajor == kept + m[done..]
        decreases |m| - done
      {
        DeleteNext(m, done, d);
        i := EraseEntry(d, i, kept, m[done..]);
        kept := DeleteFrom(m[..done + 1], d);
        done := done + 1;
      }
      assert m[..done] == m;
    }

    /** Erases entry `i`, or renumbers it and steps on. */
    method EraseEntry(d: int, i: nat, ghost kept: seq<int>, ghost left: seq<int>) returns (next: nat)
      requires left != [] && i == |kept| && minorToMajor == kept + left
      modifies `minorToMajor
      ensures var kept' := kept + if left[0] == d then [] else [Renumber(left[0], d)];
        next == |kept'| && minorToMajor == kept' + left[1..]
    {
      CutAt(kept, left, Renumber(left[0], d));
      next := i;
      if minorToMajor[i] == d {
        minorToMajor := minorToMajor[..i] + minorToMajor[i + 1..];
      } else {
        if minorToMajor[i] > d {
          minorToMajor := minorToMajor[i := minorToMajor[i] - 1];
        }
        next := i + 1;
      }
    }

    /** Erases the configuration of the physical dimension and renumbers the larger ones. */
    method EraseConfigs(p: int)
      modifies `splitConfigs
      ensures splitConfigs == DeleteConfigs(old(splitConfigs), p)
    {
      ghost var cs := splitConfigs;
      ghost var done: nat, kept := 0, [];
      assert cs[0..] == cs;
      var i := 0;
      while i < |splitConfigs|
        invariant done <= |cs| && i == |kept| && kept == DeleteConfigs(cs[..done], p)
        invariant splitConfigs == kept + cs[done..]
        decreases |cs| - done
      {
        DeleteNextConfig(cs, done, p);
        i := EraseConfig(p, i, kept, cs[done..]);
        kept := DeleteConfigs(cs[..done + 1], p);
        done := done + 1;
      }
      assert cs[..done] == cs;
    }

    /** Erases configuration `i`, or renumbers it and steps on. */
    method EraseConfig(p: int, i: nat, ghost kept: seq<SplitConfig>, ghost left: seq<SplitConfig>) returns (next: nat)
      requires left != [] && i == |kept| && splitConfigs == kept + left
      modifies `splitConfigs
      ensures var kept' := kept + if left[0].dimension == p then [] else [Moved(left[0], p)];
        next == |kept'| && splitConfigs == kept' + left[1..]
    {
      CutAt(kept, left, Moved(left[0], p));
      next := i;
      var c := splitConfigs[i];
      if c.dimension == p {
        splitConfigs := splitConfigs[..i] + splitConfigs[i + 1..];
      } else {
        if c.dimension > p {
          splitConfigs := splitConfigs[i := c.(dimension := c.dimension - 1)];
        }
        next := i + 1;
      }
    }

    /** Accepts exactly the valid layouts. */
    method ValidateLayoutForShape(dims: seq<int>) returns (problem: Option<Problem>)
      ensures problem == None <==> ValidFor(dims)
    {
      if |minorToMajor| != |dims| {
        return Some(WrongRank);
      }
      problem := ValidateOrder(minorToMajor);
      if problem.Some? {
        return;
      }
      problem := ValidateRest(rest);
      if problem.Some? {
        return;
      }
      problem := ValidateConfigs(splitConfigs, minorToMajor, dims);
    }

    /** The largest piece that the splits cut a dimension into; the whole dimension without splits. */
    method MaxSplitSize(dims: seq<int>, dim: nat) returns (r: int)
      requires dim < |dims| && ValidFor(dims)
      requires forall k, i | 0 <= k < |splitConfigs| && 0 <= i < |splitConfigs[k].splitIndices| ::
                 splitConfigs[k].splitIndices[i] < 0x8000_0000
      ensures r == MaxSplit(splitConfigs, minorToMajor, dims, dim)
      ensures (forall k | 0 <= k < |splitConfigs| :: Major(minorToMajor, splitConfigs[k].dimension) != dim) ==> r == dims[dim]
      ensures dims[dim] >= 0 ==> forall k | 0 <= k < |splitConfigs| && Major(minorToMajor, splitConfigs[k].dimension) == dim ::
                && (forall p | 0 <= p <= |splitConfigs[k].splitIndices| :: Piece(splitConfigs[k].splitIndices, 0, dims[dim], p) <= r)
                && exists p :: 0 <= p <= |splitConfigs[k].splitIndices| && Piece(splitConfigs[k].splitIndices, 0, dims[dim], p) == r
    {
      MaxSplitMeaning(splitConfigs, minorToMajor, dims, dim);
      var k := 0;
      while k < |splitConfigs| && Major(minorToMajor, splitConfigs[k].dimension) != dim
        invariant 0 <= k <= |splitConfigs|
        invariant FindConfig(splitConfigs, minorToMajor, dim)
                  == if FindConfig(splitConfigs[k..], minorToMajor, dim) < 0 then -1
                     else FindConfig(splitConfigs[k..], minorToMajor, dim) + k
      {
        assert splitConfigs[k..][1..] == splitConfigs[k + 1..];
        k := k + 1;
      }
      if k == |splitConfigs| {
        return dims[dim];
      }
      assert splitConfigs[k..][0] == splitConfigs[k];
      assert ValidConfig(splitConfigs[k], minorToMajor, dims);
      r := LargestPiece(splitConfigs[k].splitIndices, dims[dim]);
    }
  }

  lemma DeleteNext(m: seq<int>, done: nat, d: int)
    requires done < |m|
    ensures m[done..][1..] == m[done + 1..]
    ensures DeleteFrom(m[..done + 1], d)
            == DeleteFrom(m[..done], d) + if m[done] == d then [] else [Renumber(m[done], d)]
  {
    assert m[..done + 1][..done] == m[..done];
  }

  lemma DeleteNextConfig(cs: seq<SplitConfig>, done: nat, p: int)
    requires done < |cs|
    ensures cs[done..][1..] == cs[done + 1..]
    ensures DeleteConfigs(cs[..done + 1], p)
            == DeleteConfigs(cs[..done], p) + if cs[done].dimension == p then [] else [Moved(cs[done], p)]
  {
    assert cs[..done + 1][..done] == cs[..done];
  }

  method FindDimension(m: seq<int>, d: int) returns (j: nat)
    requires d in m
    ensures j == PositionOf(m, d)
  {
    j := 0;
    while m[j] != d
      invariant j < |m| && d !in m[..j]
      invariant exists k :: j <= k < |m| && m[k] == d
      decreases |m| - j
    {
      j := j + 1;
    }
  }

  method LargestPiece(splits: seq<int>, size: int) returns (r: int)
    requires forall k | 0 <= k < |splits| :: 0 < splits[k] < size && splits[k] < 0x8000_0000
    ensures r == MaxPiece(splits, 0, size)
  {
    r := 0;
    var last := 0;
    assert splits[0..] == splits;
    for k := 0 to |splits|
      invariant last == if k == 0 then 0 else splits[k - 1]
      invariant r >= 0 && Max(r, MaxPiece(splits[k..], last, size)) == MaxPiece(splits, 0, size)
    {
      assert splits[k..][0] == splits[k] && splits[k..][1..] == splits[k + 1..];
      var splitIndex := Int32(splits[k]);
      r := Max(splitIndex - last, r);
      last := splitIndex;
    }
    r := Max(r, size - last);
  }

  // ----- validation, part by part -----

  method ValidateOrder(m: seq<int>) returns (problem: Option<Problem>)
    ensures problem == None <==> IsPermutation(m, |m|)
  {
    var seen := seq(|m|, _ => false);
    for i := 0 to |m|
      invariant |seen| == |m| && forall k | 0 <= k < i :: 0 <= m[k] < |m|
      invariant forall d | 0 <= d < |m| :: seen[d] <==> d in m[..i]
      invariant forall j, k | 0 <= j < k < i :: m[j] != m[k]
    {
      var dim := m[i];
      if dim < 0 || dim >= |m| {
        return Some(OutOfBounds);
      }
      assert m[..i + 1] == m[..i] + [dim];
      if seen[dim] {
        assert exists k :: 0 <= k < i && m[k] == m[i];
        return Some(Duplicate);
      }
      seen := seen[dim := true];
    }
    return None;
  }

  method ValidateRest(r: Rest) returns (problem: Option<Problem>)
    ensures problem == None <==> ValidRest(r)
  {
    if r.tailPaddingAlignment <= 0 {
      return Some(BadTailPadding);
    }
    if r.hasIndexType {
      return Some(HasIndexType);
    }
    if r.hasPointerType {
      return Some(HasPointerType);
    }
    if r.hasPhysicalShape {
      return Some(HasPhysicalShape);
    }
    for k := 0 to |r.tiles|
      invariant forall j | 0 <= j < k :: ValidTile(r.tiles[j])
    {
      var tile := r.tiles[k];
      if |tile| == 0 {
        return Some(BadTile);
      }
      for i := 0 to |tile|
        invariant forall j | 0 <= j < i :: tile[j] > 0 || tile[j] == COMBINE_DIMENSION
      {
        if tile[i] <= 0 && tile[i] != COMBINE_DIMENSION {
          return Some(BadTile);
        }
      }
    }
    if r.elementSizeInBits < 0 {
      return Some(BadElementSize);
    }
    return None;
  }

  method ValidateConfigs(cs: seq<SplitConfig>, m: seq<int>, dims: seq<int>) returns (problem: Option<Problem>)
    requires IsPermutation(m, |dims|)
    ensures problem == None <==> ValidConfigs(cs, m, dims)
  {
    var seen := seq(|dims|, _ => false);
    for i := 0 to |cs|
      invariant |seen| == |dims| && forall k | 0 <= k < i :: ValidConfig(cs[k], m, dims)
      invariant forall d | 0 <= d < |dims| :: seen[d] <==> exists k :: 0 <= k < i && cs[k].dimension == d
      invariant forall j, k | 0 <= j < k < i :: cs[j].dimension != cs[k].dimension
    {
      var physical := cs[i].dimension;
      if physical < 0 || physical >= |dims| {
        return Some(SplitOutOfBounds);
      }
      if seen[physical] {
        assert exists k :: 0 <= k < i && cs[k].dimension == cs[i].dimension;
        return Some(DuplicateSplit);
      }
      seen := seen[physical := true];
      problem := ValidateSplits(cs[i].splitIndices, dims[Major(m, physical)]);
      if problem.Some? {
        return;
      }
    }
    return None;
  }

  method ValidateSplits(s: seq<int>, size: int) returns (problem: Option<Problem>)
    ensures problem == None <==> ValidSplits(s, size)
  {
    var last := 0;
    for k := 0 to |s|
      invariant last == if k == 0 then 0 else s[k - 1]
      invariant last >= 0 && forall j | 0 <= j < k :: 0 < s[j] <= last && s[j] < size
      invariant forall i, j | 0 <= i < j < k :: s[i] < s[j]
    {
      if s[k] <= last {
        return Some(SplitsNotIncreasing);
      }
      if s[k] >= size {
        return Some(SplitIndexOutOfBounds);
      }
      last := s[k];
    }
    return None;
  }
}
