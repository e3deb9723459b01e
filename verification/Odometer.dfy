/** Counting through the indices of a box in row-major order, in place. */
module Odometer {
  import opened Arithmetic
  import opened RowMajor

  function Zeros(n: nat): (z: Dims)
    ensures |z| == n
  {
    seq(n, _ => 0)
  }

  /** The last dimension whose coordinate can be increased, or -1. */
  function LastBelow(d: Dims, i: Dims): (p: int)
    requires |i| == |d|
    ensures -1 <= p < |d|
    decreases |d|
  {
    var m := |d| - 1;
    if d == [] then -1 else if i[m] + 1 < d[m] then m else LastBelow(d[..m], i[..m])
  }

  /** One more at the last dimension that allows it, zero behind; unchanged if none does. */
  function Bumped(d: Dims, i: Dims): (r: Dims)
    requires |i| == |d|
    ensures |r| == |i|
    decreases |d|
  {
    if LastBelow(d, i) < 0 then i else
      var m := |d| - 1;
      if i[m] + 1 < d[m] then i[..m] + [i[m] + 1] else Bumped(d[..m], i[..m]) + [0]
  }

  lemma {:induction false} BumpedAt(d: Dims, i: Dims, k: nat)
    requires |i| == |d| && LastBelow(d, i) >= 0 && k < |d|
    ensures var p := LastBelow(d, i); Bumped(d, i)[k] == if k < p then i[k] else if k == p then i[p] + 1 else 0
    decreases |d|
  {
    var m := |d| - 1;
    if i[m] + 1 >= d[m] && k < m {
      BumpedAt(d[..m], i[..m], k);
    }
  }

  lemma {:induction false} LastBelowMeaning(d: Dims, i: Dims)
    requires |i| == |d|
    ensures forall k | LastBelow(d, i) < k < |d| :: i[k] + 1 >= d[k]
    ensures var p := LastBelow(d, i); p >= 0 ==> i[p] + 1 < d[p]
    decreases |d|
  {
    var m := |d| - 1;
    if d != [] && i[m] + 1 >= d[m] {
      LastBelowMeaning(d[..m], i[..m]);
    }
  }

  lemma {:induction false} LastBelowIs(d: Dims, i: Dims, p: int)
    requires |i| == |d| && -1 <= p < |d|
    requires forall k | p < k < |d| :: i[k] + 1 >= d[k]
    requires p >= 0 ==> i[p] + 1 < d[p]
    ensures LastBelow(d, i) == p
    decreases |d|
  {
    var m := |d| - 1;
    if d != [] && p < m {
      LastBelowIs(d[..m], i[..m], p);
    }
  }

  /** One bump is one step in row-major order; none is possible exactly at the last index. */
  lemma {:induction false} BumpSteps(d: Dims, i: Dims)
    requires InBounds(i, d)
    ensures LastBelow(d, i) < 0 <==> Offset(d, i) + 1 == Product(d)
    ensures LastBelow(d, i) >= 0 ==> InBounds(Bumped(d, i), d) && Offset(d, Bumped(d, i)) == Offset(d, i) + 1
    decreases |d|
  {
    if d != [] {
      var m := |d| - 1;
      var e, j, n, x := d[..m], i[..m], d[m], i[m];
      assert d == e + [n] && i == j + [x];
      BumpSteps(e, j);
      OffsetBound(e, j);
      OffsetSnoc(e, j, n, x);
      Carried(Offset(e, j), Product(e), n, x);
      if LastBelow(d, i) == m {
        OffsetSnoc(e, j, n, x + 1);
      } else if LastBelow(d, i) >= 0 {
        OffsetSnoc(e, Bumped(e, j), n, 0);
      }
    }
  }

  lemma Carried(o: nat, p: nat, n: nat, x: nat)
    requires o < p && x < n
    ensures (o + 1) * n == o * n + n
    ensures o * n + x + 1 == p * n <==> o + 1 == p && x + 1 == n
  {
    MulMono(o + 1, p, n);
    if o + 1 < p {
      MulMono(o + 2, p, n);
    }
  }

  /** Bumps the indices in place; says whether there was a next index. */
  method BumpIndices(d: Dims, indices: array<nat>) returns (bumped: bool)
    requires indices.Length == |d|
    modifies indices
    ensures bumped <==> LastBelow(d, old(indices[..])) >= 0
    ensures indices[..] == Bumped(d, old(indices[..]))
  {
    ghost var i := indices[..];
    for p := |d| downto 0
      invariant indices[..] == i
      invariant forall k | p <= k < |d| :: i[k] + 1 >= d[k]
    {
      if indices[p] + 1 < d[p] {
        LastBelowIs(d, i, p);
        indices[p] := indices[p] + 1;
        for k := p + 1 to |d|
          invariant indices[p] == i[p] + 1 && forall j | 0 <= j < p :: indices[j] == i[j]
          invariant forall j | p < j < k :: indices[j] == 0
        {
          indices[k] := 0;
        }
        forall k | 0 <= k < |d| ensures indices[k] == Bumped(d, i)[k] {
          BumpedAt(d, i, k);
        }
        return true;
      }
    }
    LastBelowIs(d, i, -1);
    return false;
  }

  /** Like `BumpIndices`, but the last index is followed by zero. */
  method NextIndex(d: Dims, indices: array<nat>) returns (more: bool)
    requires indices.Length == |d| && InBounds(indices[..], d)
    modifies indices
    ensures more <==> LastBelow(d, old(indices[..])) >= 0
    ensures indices[..] == if more then Bumped(d, old(indices[..])) else Zeros(|d|)
  {
    ghost var i := indices[..];
    for p := |d| downto 0
      invariant forall k | 0 <= k < |d| :: indices[k] == if k < p then i[k] else 0
      invariant forall k | p <= k < |d| :: i[k] + 1 >= d[k]
    {
      var newIndex := indices[p] + 1;
      if newIndex < d[p] {
        LastBelowIs(d, i, p);
        indices[p] := newIndex;
        forall k | 0 <= k < |d| ensures indices[k] == Bumped(d, i)[k] {
          BumpedAt(d, i, k);
        }
        return true;
      }
      indices[p] := 0;
    }
    LastBelowIs(d, i, -1);
    return false;
  }

  /** Counting from zero visits every in-bounds index once, in row-major order. */
  method VisitAll(d: Dims) returns (visited: seq<Dims>)
    requires forall k | 0 <= k < |d| :: d[k] > 0
    ensures |visited| == Product(d)
    ensures forall n | 0 <= n < Product(d) :: visited[n] == Unoffset(d, n)
    ensures forall i | InBounds(i, d) :: Offset(d, i) < |visited| && visited[Offset(d, i)] == i
  {
    var indices := new nat[|d|](_ => 0);
    visited := [];
    OffsetZeros(d);
    assert indices[..] == Zeros(|d|);
    var more := true;
    while more
      invariant InBounds(indices[..], d) && Offset(d, indices[..]) + (if more then 0 else 1) == |visited|
      invariant more || |visited| == Product(d)
      invariant forall n | 0 <= n < |visited| :: n < Product(d) && visited[n] == Unoffset(d, n)
      decreases Product(d) - |visited|
    {
      var i := indices[..];
      OffsetBound(d, i);
      UnoffsetOffset(d, i);
      BumpSteps(d, i);
      visited := visited + [i];
      more := BumpIndices(d, indices);
    }
    forall i | InBounds(i, d) ensures Offset(d, i) < |visited| && visited[Offset(d, i)] == i {
      OffsetBound(d, i);
      UnoffsetOffset(d, i);
    }
  }

  lemma {:induction false} OffsetZeros(d: Dims)
    ensures Offset(d, Zeros(|d|)) == 0
  {
    if d != [] {
      OffsetZeros(d[1..]);
      assert Zeros(|d|)[1..] == Zeros(|d| - 1);
    }
  }
}
