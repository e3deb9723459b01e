/** Overflow-checked arithmetic on two's complement integers, without compiler builtins. */
module OverflowUtil {
  import opened Arithmetic
  import opened Options

  const TWO_32: int := 0x1_0000_0000
  const TWO_63: int := 0x8000_0000_0000_0000
  const TWO_64: int := 0x1_0000_0000_0000_0000

  /** Signed integers of 2 * half values. */
  predicate Signed(x: int, half: int) {
    -half <= x < half
  }

  function ToUnsigned(x: int, half: nat): nat
    requires half > 0
  {
    x % (2 * half)
  }

  function ToSigned(u: nat, half: nat): int
    requires u < 2 * half
  {
    if u < half then u else u - 2 * half
  }

  /** The two's complement value of any integer. */
  function Wrap(x: int, half: nat): int
    requires half > 0
  {
    ToSigned(ToUnsigned(x, half), half)
  }

  /** The product as computed, and whether the check reports it. */
  function OverflowSafeMultiply(x: int, y: int): (int, bool)
    requires Signed(x, TWO_63) && Signed(y, TWO_63)
  {
    var ux, uy := ToUnsigned(x, TWO_63), ToUnsigned(y, TWO_63);
    var uxy := (ux * uy) % TWO_64;
    var result := ToSigned(uxy, TWO_63);
    var bad := result < 0;
    if ux / TWO_32 != 0 || uy / TWO_32 != 0 then
      if x < 0 || y < 0 then (result, true)
      else if ux != 0 && uxy / ux != uy then (result, true)
      else (result, bad)
    else (result, bad)
  }

  lemma ProductMod(x: int, y: int, n: nat)
    requires n > 0
    ensures ((x % n) * (y % n)) % n == (x * y) % n
  {
    var a, b, c, d := x / n, x % n, y / n, y % n;
    var k := a * c * n + a * d + b * c;
    assert x * y == (a * n + b) * (c * n + d);
    assert (a * n + b) * (c * n + d) == k * n + b * d;
    AddMultiple(b * d, k, n);
  }

  lemma AddMultiple(r: int, k: int, n: nat)
    requires n > 0
    ensures (k * n + r) % n == r % n
  {
    var q, s := r / n, r % n;
    assert k * n + r == (k + q) * n + s;
    UniqueRemainder(k * n + r, k + q, s, n);
  }

  lemma Multiples(q: int, p: int, n: nat)
    ensures q * n - p * n == (q - p) * n
    ensures q > p ==> q * n >= p * n + n
  {
    if q > p {
      assert (q - p - 1) * n >= 0;
    }
  }

  lemma UniqueRemainder(v: int, q: int, s: int, n: nat)
    requires 0 <= s < n && v == q * n + s
    ensures v % n == s
  {
    var p, t := v / n, v % n;
    Multiples(q, p, n);
    Multiples(p, q, n);
  }

  /** The shortcut for small factors and the division test together are exact, and the product is
      the two's complement one. */
  lemma MultiplyExact(x: int, y: int)
    requires Signed(x, TWO_63) && Signed(y, TWO_63)
    ensures OverflowSafeMultiply(x, y).0 == Wrap(x * y, TWO_63)
    ensures OverflowSafeMultiply(x, y).1 <==> x < 0 || y < 0 || x * y > TWO_63 - 1
  {
    ProductMod(x, y, TWO_64);
    if x >= 0 && y >= 0 {
      assert ToUnsigned(x, TWO_63) == x && ToUnsigned(y, TWO_63) == y;
      if x < TWO_32 && y < TWO_32 {
        SmallProduct(x, y, TWO_32);
      } else if x > 0 {
        DivisionTest(x, y, TWO_64);
      }
      BadExact(x, y, x * y);
    }
  }

  lemma BadExact(x: nat, y: nat, p: nat)
    requires x < TWO_63 && y < TWO_63 && (x < TWO_32 && y < TWO_32 ==> p < TWO_64) && (x == 0 ==> p == 0)
    requires x > 0 && (x >= TWO_32 || y >= TWO_32) ==> ((p % TWO_64) / x == y <==> p < TWO_64)
    ensures var uxy := p % TWO_64;
      var bad := ToSigned(uxy, TWO_63) < 0;
      (if (x / TWO_32 != 0 || y / TWO_32 != 0) && x != 0 && uxy / x != y then true else bad) <==> p > TWO_63 - 1
  {
  }

  lemma SmallProduct(x: nat, y: nat, b: nat)
    requires x < b && y < b
    ensures x * y < b * b
  {
    assert x * y <= x * b <= b * b;
    assert x * b < b * b;
  }

  /** Dividing the wrapped product by a factor gives the other factor exactly if nothing wrapped. */
  lemma DivisionTest(x: nat, y: nat, n: nat)
    requires x > 0 && n > 0
    ensures ((x * y) % n) / x == y <==> x * y < n
  {
    var q, w := DivMod(x * y, n);
    assert w == x * y - q * n;
    if x * y < n {
      DivModUnique(0, x * y, n);
      DivModUnique(y, 0, x);
    } else {
      var u, v := DivMod(w, x);
    }
  }

  /** The sum, unless the operands have one sign and the wrapped sum the other. */
  function OverflowSafeAdd(x: int, y: int, half: nat): Option<int>
    requires half > 0 && Signed(x, half) && Signed(y, half)
  {
    var usum := (ToUnsigned(x, half) + ToUnsigned(y, half)) % (2 * half);
    var sum := ToSigned(usum, half);
    if (x >= 0) == (y >= 0) && (sum >= 0) != (x >= 0) then None else Some(sum)
  }

  /** The sum is refused exactly if it is out of range; otherwise it is the true sum. */
  lemma AddExact(x: int, y: int, half: nat)
    requires half > 0 && Signed(x, half) && Signed(y, half)
    ensures OverflowSafeAdd(x, y, half) == if Signed(x + y, half) then Some(x + y) else None
  {
    UnsignedValue(x, half);
    UnsignedValue(y, half);
    var u := ToUnsigned(x, half) + ToUnsigned(y, half);
    var n := 2 * half;
    if u < n {
      UniqueRemainder(u, 0, u, n);
    } else {
      UniqueRemainder(u, 1, u - n, n);
    }
  }

  lemma UnsignedValue(x: int, half: nat)
    requires half > 0 && Signed(x, half)
    ensures ToUnsigned(x, half) == if x >= 0 then x else x + 2 * half
  {
    if x >= 0 {
      UniqueRemainder(x, 0, x, 2 * half);
    } else {
      UniqueRemainder(x, -1, x + 2 * half, 2 * half);
    }
  }
}
