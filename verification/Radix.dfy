/** Digits of a number in a base, least significant first, and the number they stand for. */
module Radix {
  import opened Arithmetic

  function Pow(b: nat, n: nat): (p: nat)
    ensures b > 0 ==> p > 0
  {
    if n == 0 then 1 else b * Pow(b, n - 1)
  }

  function Digits(b: nat, e: nat, n: nat): (ds: seq<nat>)
    requires b > 0
    ensures |ds| == n
    decreases n
  {
    if n == 0 then [] else [e % b] + Digits(b, e / b, n - 1)
  }

  function Value(b: nat, ds: seq<nat>): nat {
    if ds == [] then 0 else ds[0] + b * Value(b, ds[1..])
  }

  lemma {:induction false} DigitsBelow(b: nat, e: nat, n: nat)
    requires b > 0
    ensures Below(Digits(b, e, n), b)
    decreases n
  {
    if n > 0 {
      DigitsBelow(b, e / b, n - 1);
    }
  }

  predicate Below(ds: seq<nat>, b: nat) {
    forall k | 0 <= k < |ds| :: ds[k] < b
  }

  lemma Carry(b: nat, d: nat, v: nat)
    requires d < b
    ensures (d + b * v) % b == d && (d + b * v) / b == v
  {
    DivModUnique(v, d, b);
  }

  lemma {:induction false} DigitsOfValue(b: nat, ds: seq<nat>)
    requires b > 0 && Below(ds, b)
    ensures Digits(b, Value(b, ds), |ds|) == ds
  {
    if ds != [] {
      DigitsOfValue(b, ds[1..]);
      Carry(b, ds[0], Value(b, ds[1..]));
    }
  }

  lemma {:induction false} ValueOfDigits(b: nat, e: nat, n: nat)
    requires b > 0 && e < Pow(b, n)
    ensures Value(b, Digits(b, e, n)) == e
    decreases n
  {
    if n > 0 {
      Commuted(Pow(b, n - 1), b);
      var q, r := Split(e, Pow(b, n - 1), b);
      ValueOfDigits(b, q, n - 1);
      DigitsCons(b, q, r, n);
      ValueCons(b, r, Digits(b, q, n - 1));
    }
  }

  lemma Commuted(x: nat, y: nat)
    ensures x * y == y * x
  {
  }

  lemma DigitsCons(b: nat, q: nat, r: nat, n: nat)
    requires r < b && n > 0
    ensures Digits(b, q * b + r, n) == [r] + Digits(b, q, n - 1)
  {
    DivModUnique(q, r, b);
  }

  lemma ValueCons(b: nat, d: nat, ds: seq<nat>)
    ensures Value(b, [d] + ds) == d + b * Value(b, ds)
  {
    assert ([d] + ds)[1..] == ds;
  }

  lemma {:induction false} ValueBound(b: nat, ds: seq<nat>)
    requires Below(ds, b)
    ensures Value(b, ds) < Pow(b, |ds|)
  {
    if ds != [] {
      ValueBound(b, ds[1..]);
      MulMono(Value(b, ds[1..]) + 1, Pow(b, |ds| - 1), b);
    }
  }

  lemma {:induction false} ValueSnoc(b: nat, ds: seq<nat>, d: nat)
    ensures Value(b, ds + [d]) == Value(b, ds) + d * Pow(b, |ds|)
  {
    if ds == [] {
      assert ds + [d] == [d] && [d][1..] == [];
    } else {
      assert (ds + [d])[1..] == ds[1..] + [d];
      ValueSnoc(b, ds[1..], d);
      Shift(b, Value(b, ds[1..]), d, Pow(b, |ds| - 1));
    }
  }

  lemma Shift(b: nat, v: nat, d: nat, p: nat)
    ensures b * (v + d * p) == b * v + d * (b * p)
  {
    assert b * (d * p) == d * (b * p);
  }

  lemma {:induction false} PowMono(b: nat, m: nat, n: nat)
    requires b > 0 && m <= n
    ensures Pow(b, m) <= Pow(b, n)
    decreases n
  {
    if m < n {
      PowMono(b, m, n - 1);
      assert Pow(b, n - 1) <= b * Pow(b, n - 1);
    }
  }

  /** The digit that counts the powers `b^k`. */
  function DigitOf(b: nat, e: nat, k: nat): nat
    requires b > 0
  {
    (e / Pow(b, k)) % b
  }

  lemma NextDigit(b: nat, e: nat, k: nat)
    requires b > 0
    ensures DigitOf(b, e, k + 1) == DigitOf(b, e / b, k)
  {
    DivDiv(e, b, Pow(b, k));
  }

  lemma {:induction false} DigitAt(b: nat, e: nat, n: nat, k: nat)
    requires b > 0 && k < n
    ensures Digits(b, e, n)[k] == DigitOf(b, e, k)
    decreases n
  {
    if k > 0 {
      DigitAt(b, e / b, n - 1, k - 1);
      NextDigit(b, e, k - 1);
    }
  }
}
