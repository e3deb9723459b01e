/** Facts about products, quotients and remainders of natural numbers. */
module Arithmetic {

  function Min(a: nat, b: nat): nat {
    if a < b then a else b
  }

  function One(b: bool): nat {
    if b then 1 else 0
  }

  lemma MulMono(a: nat, b: nat, c: nat)
    requires a <= b
    ensures a * c <= b * c
  {
  }

  lemma MulBound(a: nat, b: nat, x: nat, c: nat)
    requires a < b && x < c
    ensures a * c + x < b * c
  {
    MulMono(a + 1, b, c);
    assert (a + 1) * c == a * c + c;
  }

  lemma Distribute(x: nat, p: nat, o: nat, q: nat)
    ensures (x * p + o) * q == x * (p * q) + o * q
  {
    assert (x * p) * q == x * (p * q);
  }

  lemma DivModUnique(q: nat, r: nat, n: nat)
    requires r < n
    ensures (q * n + r) / n == q && (q * n + r) % n == r
  {
    var x := q * n + r;
    assert x == (x / n) * n + x % n;
    if x / n < q {
      MulMono(x / n + 1, q, n);
    } else if q < x / n {
      MulMono(q + 1, x / n, n);
    }
  }

  lemma Split(n: nat, p: nat, m: nat) returns (q: nat, r: nat)
    requires m > 0 && n < p * m
    ensures q < p && r < m && n == q * m + r
  {
    q, r := n / m, n % m;
    if p <= q {
      MulMono(p, q, m);
    }
  }

  lemma DivMonotone(a: nat, b: nat, t: nat)
    requires a <= b && t > 0
    ensures a / t <= b / t
  {
    assert a == (a / t) * t + a % t && b == (b / t) * t + b % t;
    if b / t < a / t {
      MulMono(b / t + 1, a / t, t);
    }
  }

  lemma DivMod(n: nat, a: nat) returns (q: nat, r: nat)
    requires a > 0
    ensures q == n / a && r == n % a && n == q * a + r && r < a
  {
    q, r := n / a, n % a;
  }

  lemma Recombine(u: nat, b: nat, v: nat, a: nat, r: nat)
    requires v < b && r < a
    ensures (u * b + v) * a + r == u * (a * b) + (v * a + r) && v * a + r < a * b
  {
    MulBound(v, b, r, a);
    Distribute(u, b, v, a);
  }

  lemma DivDiv(n: nat, a: nat, b: nat)
    requires a > 0 && b > 0
    ensures a * b > 0 && (n / a) / b == n / (a * b)
  {
    var q, r := DivMod(n, a);
    var u, v := DivMod(q, b);
    Recombine(u, b, v, a, r);
    DivModUnique(u, v * a + r, a * b);
  }
}
