/** Sums of products and how permuting the terms leaves them alone; row-major offsets as such sums. */
module Strides {
  import opened RowMajor

  function Sum(x: Dims): nat {
    if x == [] then 0 else x[0] + Sum(x[1..])
  }

  function Times(x: Dims, s: Dims): (r: Dims)
    requires |x| == |s|
    ensures |r| == |x| && forall k | 0 <= k < |x| :: r[k] == x[k] * s[k]
  {
    seq(|x|, k requires 0 <= k < |x| => x[k] * s[k])
  }

  function Dot(x: Dims, s: Dims): nat
    requires |x| == |s|
  {
    Sum(Times(x, s))
  }

  lemma {:induction false} SumConcat(a: Dims, b: Dims)
    ensures Sum(a + b) == Sum(a) + Sum(b)
  {
    if a == [] {
      assert a + b == b;
    } else {
      assert (a + b)[1..] == a[1..] + b;
      SumConcat(a[1..], b);
    }
  }

  lemma SumOne(v: nat)
    ensures Sum([v]) == v
  {
    assert [v][1..] == [];
  }

  function Apply<T>(p: seq<nat>, x: seq<T>): (r: seq<T>)
    requires IsPermutation(p, |x|)
    ensures |r| == |x| && forall k | 0 <= k < |x| :: r[k] == x[p[k]]
  {
    seq(|x|, k requires 0 <= k < |x| => x[p[k]])
  }

  /** A permutation of the terms keeps a sum. */
  lemma {:induction false} SumPermuted(p: seq<nat>, x: Dims)
    requires IsPermutation(p, |x|)
    ensures Sum(Apply(p, x)) == Sum(x)
    decreases |x|
  {
    if x == [] {
    } else {
      var n := |x| - 1;
      var k := PermutationOnto(p, |x|, n);
      var q, y := p[..k] + p[k + 1..], x[..n];
      RemovedIsPermutation(p, |x|, k);
      SumPermuted(q, y);
      var a, b := Apply(p, x)[..k], Apply(p, x)[k + 1..];
      assert Apply(q, y) == a + b;
      SumConcat(a, b);
      assert Apply(p, x) == a + ([x[n]] + b);
      SumConcat(a, [x[n]] + b);
      SumConcat([x[n]], b);
      SumConcat(y, [x[n]]);
      assert x == y + [x[n]];
      SumOne(x[n]);
    }
  }

  lemma RemovedIsPermutation(p: seq<nat>, n: nat, k: nat)
    requires IsPermutation(p, n) && k < n && p[k] == n - 1
    ensures IsPermutation(p[..k] + p[k + 1..], n - 1)
  {
    var q := p[..k] + p[k + 1..];
    forall j | 0 <= j < n - 1 ensures q[j] < n - 1 {
      assert q[j] == p[if j < k then j else j + 1];
    }
  }

  lemma DotPermuted(p: seq<nat>, x: Dims, s: Dims)
    requires |x| == |s| && IsPermutation(p, |x|)
    ensures Dot(Apply(p, x), Apply(p, s)) == Dot(x, s)
  {
    assert Times(Apply(p, x), Apply(p, s)) == Apply(p, Times(x, s));
    SumPermuted(p, Times(x, s));
  }

  // ----- strides of a box -----

  /** The row-major stride of each dimension: the product of the more minor ones. */
  function StridesOf(d: Dims): (s: Dims)
    ensures |s| == |d|
  {
    seq(|d|, k requires 0 <= k < |d| => Product(d[k + 1..]))
  }

  lemma {:induction false} OffsetIsDot(d: Dims, i: Dims)
    requires |i| == |d|
    ensures Offset(d, i) == Dot(i, StridesOf(d))
  {
    if d != [] {
      OffsetIsDot(d[1..], i[1..]);
      forall k | 0 <= k < |d| - 1 ensures StridesOf(d)[1..][k] == StridesOf(d[1..])[k] {
        assert d[k + 2..] == d[1..][k + 1..];
      }
      assert StridesOf(d)[1..] == StridesOf(d[1..]);
      assert Times(i, StridesOf(d))[1..] == Times(i[1..], StridesOf(d[1..]));
    }
  }

  lemma {:induction false} SumUpdate(x: Dims, k: nat, v: nat)
    requires k < |x|
    ensures Sum(x[k := v]) + x[k] == Sum(x) + v
  {
    if k > 0 {
      SumUpdate(x[1..], k - 1, v);
      assert x[k := v][1..] == x[1..][k - 1 := v];
    } else {
      assert x[0 := v][1..] == x[1..];
    }
  }

  lemma DotUpdate(x: Dims, s: Dims, k: nat, v: nat)
    requires |x| == |s| && k < |x|
    ensures Dot(x[k := v], s) + x[k] * s[k] == Dot(x, s) + v * s[k]
  {
    assert Times(x[k := v], s) == Times(x, s)[k := v * s[k]];
    SumUpdate(Times(x, s), k, v * s[k]);
  }
}
