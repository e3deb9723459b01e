/** The budget of the backward search: ceil(min(sqrt(m), n^(2/3))), without roots. */
module DeltaBound {

  /** `d` is at least min(sqrt(m), n^(2/3)). */
  predicate Enough(d: nat, m: nat, n: nat) {
    d * d >= m || d * d * d >= n * n
  }

  lemma SquareGrows(d: nat, m: nat)
    requires d * d < m
    ensures d < m
  {
    if d > 0 { assert d * d >= d * 1; }
  }

  function LeastFrom(d: nat, m: nat, n: nat): (r: nat)
    ensures Enough(r, m, n) && r >= d
    ensures forall i | d <= i < r :: !Enough(i, m, n)
    decreases m - d
  {
    if Enough(d, m, n) then d else
      SquareGrows(d, m);
      LeastFrom(d + 1, m, n)
  }

  /** ceil(min(sqrt(m), n^(2/3))). */
  function Bound(m: nat, n: nat): nat {
    LeastFrom(0, m, n)
  }

  lemma Squares(a: nat, b: nat)
    requires a <= b
    ensures a * a <= b * b && a * a * a <= b * b * b
  {
    assert a * a <= a * b <= b * b;
    assert a * a * a <= b * b * a <= b * b * b;
  }

  lemma {:induction false} EnoughGrows(d: nat, d': nat, m: nat, n: nat)
    requires d <= d' && Enough(d, m, n)
    ensures Enough(d', m, n)
  {
    Squares(d, d');
  }

  /** The bound is the threshold between too small and large enough. */
  lemma BoundExact(d: nat, m: nat, n: nat)
    ensures Enough(d, m, n) <==> Bound(m, n) <= d
  {
    if Bound(m, n) <= d {
      EnoughGrows(Bound(m, n), d, m, n);
    }
  }

  /** `k` is no less than the bound for `m` edges and `n` nodes. */
  ghost predicate Reached(k: nat, m: nat, n: nat) {
    forall d: nat {:trigger Enough(d, m, n)} | k <= d :: Enough(d, m, n)
  }

  /** `k` is no greater than the bound for `m` edges and `n` nodes. */
  ghost predicate Minimal(k: nat, m: nat, n: nat) {
    forall d: nat {:trigger Enough(d, m, n)} | d < k :: !Enough(d, m, n)
  }

  lemma BoundMeaning(k: nat, m: nat, n: nat)
    ensures Reached(k, m, n) <==> Bound(m, n) <= k
    ensures Minimal(k, m, n) <==> k <= Bound(m, n)
  {
    if Reached(k, m, n) {
      assert Enough(k, m, n);
      BoundExact(k, m, n);
    }
    forall d: nat | Bound(m, n) <= d ensures Enough(d, m, n) {
      BoundExact(d, m, n);
    }
    assert Minimal(k, m, n) && Bound(m, n) < k ==> !Enough(Bound(m, n), m, n);
  }

  lemma ReachedNow(k: nat, m: nat, n: nat)
    requires Enough(k, m, n)
    ensures Reached(k, m, n)
  {
    forall d: nat | k <= d ensures Enough(d, m, n) {
      EnoughGrows(k, d, m, n);
    }
  }

  lemma MinimalNext(k: nat, m: nat, n: nat)
    requires !Enough(k, m, n)
    ensures Minimal(k + 1, m, n)
  {
    forall d: nat | d <= k ensures !Enough(d, m, n) {
      if Enough(d, m, n) { EnoughGrows(d, k, m, n); }
    }
  }

  /** Larger counts never lower the bound. */
  lemma CountsGrow(k: nat, m: nat, n: nat, m': nat, n': nat)
    requires m <= m' && n <= n'
    ensures Reached(k, m', n') ==> Reached(k, m, n)
    ensures Minimal(k, m, n) ==> Minimal(k, m', n')
  {
    Squares(n, n');
    forall d: nat ensures Enough(d, m', n') ==> Enough(d, m, n) {
    }
  }

  lemma PositiveBound(k: nat, m: nat, n: nat)
    requires 0 < m && 0 < n && Reached(k, m, n)
    ensures 0 < k
  {
    assert !Enough(0, m, n) by { assert n * n > 0; }
  }
}
