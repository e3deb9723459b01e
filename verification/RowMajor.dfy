/** Mixed-radix arithmetic: the row-major (major-to-minor) offset of an index in a box of
    dimensions, and back. */
module RowMajor {
  import opened Arithmetic

  type Dims = seq<nat>

  function Product(d: Dims): nat {
    if d == [] then 1 else d[0] * Product(d[1..])
  }

  predicate InBounds(i: Dims, d: Dims) {
    |i| == |d| && forall k | 0 <= k < |d| :: i[k] < d[k]
  }

  /** Row-major offset; the last dimension varies fastest. */
  function Offset(d: Dims, i: Dims): nat
    requires |i| == |d|
  {
    if d == [] then 0 else i[0] * Product(d[1..]) + Offset(d[1..], i[1..])
  }

  /** The index at an offset. */
  function Unoffset(d: Dims, n: nat): Dims
    requires forall k | 0 <= k < |d| :: d[k] > 0
    ensures |Unoffset(d, n)| == |d|
  {
    if d == [] then [] else
      Unoffset(d[..|d| - 1], n / d[|d| - 1]) + [n % d[|d| - 1]]
  }

  lemma {:induction false} OffsetBound(d: Dims, i: Dims)
    requires InBounds(i, d)
    ensures Offset(d, i) < Product(d)
  {
    if d != [] {
      OffsetBound(d[1..], i[1..]);
      MulBound(i[0], d[0], Offset(d[1..], i[1..]), Product(d[1..]));
    }
  }

  lemma {:induction false} ProductConcat(a: Dims, b: Dims)
    ensures Product(a + b) == Product(a) * Product(b)
  {
    if a == [] {
      assert a + b == b;
    } else {
      assert (a + b)[1..] == a[1..] + b;
      ProductConcat(a[1..], b);
      assert a[0] * (Product(a[1..]) * Product(b)) == a[0] * Product(a[1..]) * Product(b);
    }
  }

  /** The offset in a concatenated box splits into major and minor part. */
  lemma {:induction false} OffsetConcat(a: Dims, b: Dims, i: Dims, j: Dims)
    requires |i| == |a| && |j| == |b|
    ensures Offset(a + b, i + j) == Offset(a, i) * Product(b) + Offset(b, j)
  {
    if a == [] {
      assert a + b == b && i + j == j;
    } else {
      assert (a + b)[1..] == a[1..] + b && (i + j)[1..] == i[1..] + j;
      OffsetConcat(a[1..], b, i[1..], j);
      ProductConcat(a[1..], b);
      Distribute(i[0], Product(a[1..]), Offset(a[1..], i[1..]), Product(b));
    }
  }

  lemma ProductOne(n: nat)
    ensures Product([n]) == n
  {
    assert [n][1..] == [];
  }

  lemma OffsetOne(n: nat, x: nat)
    ensures Offset([n], [x]) == x && Product([n]) == n
  {
    assert [n][1..] == [] && [x][1..] == [];
  }

  lemma OffsetSuffix(d: Dims, e: Dims, k: nat)
    requires |d| == |e| && k < |d|
    ensures Offset(d[k..], e[k..]) == e[k] * Product(d[k + 1..]) + Offset(d[k + 1..], e[k + 1..])
    ensures Product(d[k..]) == d[k] * Product(d[k + 1..])
  {
    assert d[k..][1..] == d[k + 1..] && e[k..][1..] == e[k + 1..];
  }

  /** Appending a minor dimension. */
  lemma OffsetSnoc(d: Dims, i: Dims, n: nat, x: nat)
    requires |i| == |d|
    ensures Offset(d + [n], i + [x]) == Offset(d, i) * n + x
    ensures Product(d + [n]) == Product(d) * n
  {
    OffsetConcat(d, [n], i, [x]);
    ProductConcat(d, [n]);
    OffsetOne(n, x);
  }

  lemma UnoffsetSnoc(d: Dims, m: nat, q: nat, r: nat)
    requires r < m && forall k | 0 <= k < |d| :: d[k] > 0
    ensures Unoffset(d + [m], q * m + r) == Unoffset(d, q) + [r]
  {
    DivModUnique(q, r, m);
    assert (d + [m])[..|d|] == d;
  }

  /** Delinearizing undoes linearizing. */
  lemma {:induction false} UnoffsetOffset(d: Dims, i: Dims)
    requires InBounds(i, d)
    ensures forall k | 0 <= k < |d| :: d[k] > 0
    ensures Unoffset(d, Offset(d, i)) == i
  {
    if d != [] {
      var n := |d| - 1;
      var a, j := d[..n], i[..n];
      assert d == a + [d[n]] && i == j + [i[n]];
      UnoffsetOffset(a, j);
      OffsetSnoc(a, j, d[n], i[n]);
      UnoffsetSnoc(a, d[n], Offset(a, j), i[n]);
    }
  }

  /** Linearizing undoes delinearizing, and stays in the box. */
  lemma {:induction false} OffsetUnoffset(d: Dims, n: nat)
    requires forall k | 0 <= k < |d| :: d[k] > 0
    requires n < Product(d)
    ensures InBounds(Unoffset(d, n), d) && Offset(d, Unoffset(d, n)) == n
  {
    if d != [] {
      var a, m := d[..|d| - 1], d[|d| - 1];
      assert d == a + [m];
      ProductConcat(a, [m]);
      ProductOne(m);
      var q, r := Split(n, Product(a), m);
      OffsetUnoffset(a, q);
      UnoffsetSnoc(a, m, q, r);
      OffsetSnoc(a, Unoffset(a, q), m, r);
    }
  }

  lemma OffsetInjective(d: Dims, i: Dims, j: Dims)
    requires InBounds(i, d) && InBounds(j, d) && Offset(d, i) == Offset(d, j)
    ensures i == j
  {
    UnoffsetOffset(d, i);
    UnoffsetOffset(d, j);
  }

  lemma {:induction false} ProductPositive(d: Dims)
    ensures Product(d) > 0 <==> forall k | 0 <= k < |d| :: d[k] > 0
  {
    if d != [] {
      ProductPositive(d[1..]);
      assert d == [d[0]] + d[1..];
      if d[0] > 0 && Product(d[1..]) > 0 {
        MulMono(1, d[0], Product(d[1..]));
      }
    }
  }

  // ----- permutations of dimensions -----

  predicate IsPermutation(p: seq<int>, n: nat) {
    |p| == n && (forall k | 0 <= k < n :: 0 <= p[k] < n) && forall j, k | 0 <= j < k < n :: p[j] != p[k]
  }

  /** Where an entry stands first. */
  function PositionOf<T(==)>(s: seq<T>, x: T): (k: nat)
    requires x in s
    ensures k < |s| && s[k] == x && x !in s[..k]
  {
    if s[0] == x then 0 else PositionOf(s[1..], x) + 1
  }

  /** Values in physical, major-to-minor order: entry `k` belongs to logical dimension
      minor_to_major[n - 1 - k]. */
  function Physical<T>(minorToMajor: seq<nat>, x: seq<T>): (r: seq<T>)
    requires IsPermutation(minorToMajor, |x|)
    ensures |r| == |x| && forall k | 0 <= k < |x| :: r[k] == x[minorToMajor[|x| - 1 - k]]
  {
    seq(|x|, k requires 0 <= k < |x| => x[minorToMajor[|x| - 1 - k]])
  }

  ghost function Naturals(n: nat): (s: set<nat>)
    ensures |s| == n && forall k: nat :: k in s <==> k < n
  {
    if n == 0 then {} else Naturals(n - 1) + {n - 1}
  }

  ghost function Image(p: seq<nat>, m: nat): (s: set<nat>)
    requires m <= |p| && forall j, k | 0 <= j < k < |p| :: p[j] != p[k]
    ensures |s| == m && forall d: nat :: d in s <==> exists k: nat :: k < m && p[k] == d
  {
    if m == 0 then {} else Image(p, m - 1) + {p[m - 1]}
  }

  lemma SubsetFull<T>(a: set<T>, b: set<T>)
    requires a <= b && |a| == |b|
    ensures a == b
  {
    if x :| x in b && x !in a {
      assert a <= b - {x};
      SubsetCard(a, b - {x});
    }
  }

  lemma {:induction false} SubsetCard<T>(a: set<T>, b: set<T>)
    requires a <= b
    ensures |a| <= |b|
    decreases a
  {
    if x :| x in a {
      SubsetCard(a - {x}, b - {x});
    }
  }

  /** A permutation reaches every dimension. */
  lemma PermutationOnto(p: seq<nat>, n: nat, d: nat) returns (k: nat)
    requires IsPermutation(p, n) && d < n
    ensures k < n && p[k] == d
  {
    SubsetFull(Image(p, n), Naturals(n));
    assert d in Naturals(n);
    k :| k < n && p[k] == d;
  }

  lemma DimensionPlaced(m: seq<nat>, n: nat, dimension: nat)
    requires IsPermutation(m, n) && dimension < n
    ensures dimension in m
  {
    var k := PermutationOnto(m, n, dimension);
  }

  lemma PositionUnique(m: seq<nat>, n: nat, j: nat)
    requires IsPermutation(m, n) && j < n
    ensures m[j] in m && PositionOf(m, m[j]) == j
  {
    var k := PositionOf(m, m[j]);
  }

  lemma PhysicalUpdate(m: seq<nat>, x: Dims, k: nat, v: nat)
    requires IsPermutation(m, |x|) && k < |x|
    ensures Physical(m, x[m[|x| - 1 - k] := v]) == Physical(m, x)[k := v]
  {
  }

  lemma PhysicalInjective<T>(m: seq<nat>, x: seq<T>, y: seq<T>)
    requires |x| == |y| && IsPermutation(m, |x|) && Physical(m, x) == Physical(m, y)
    ensures x == y
  {
    forall d: nat | d < |x| ensures x[d] == y[d] {
      var k := PermutationOnto(m, |x|, d);
      assert Physical(m, x)[|x| - 1 - k] == Physical(m, y)[|x| - 1 - k];
    }
  }

  lemma PhysicalInBounds(m: seq<nat>, i: Dims, d: Dims)
    requires |i| == |d| && IsPermutation(m, |d|)
    ensures InBounds(i, d) <==> InBounds(Physical(m, i), Physical(m, d))
  {
    if InBounds(Physical(m, i), Physical(m, d)) {
      forall k: nat | k < |d| ensures i[k] < d[k] {
        var j := PermutationOnto(m, |d|, k);
        assert Physical(m, i)[|d| - 1 - j] < Physical(m, d)[|d| - 1 - j];
      }
    }
  }
}
