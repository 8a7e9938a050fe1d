/** Integer arithmetic behind `math/big`: Euclidean remainder facts, powers,
    modular exponentiation (including Go's negative-exponent case, which goes
    through a modular inverse), extended Euclid and primality.

    Everything here is defined concretely; the exponent laws ElGamal needs are
    proved rather than assumed. */
module ModArith {
  import opened Errors

  // ---------------------------------------------------------------------------
  // Remainders

  lemma MulNonneg(a: int, b: int)
    requires a >= 0 && b >= 0
    ensures a * b >= 0
  {
  }

  lemma MulAtLeast(d: int, p: int)
    requires d >= 1 && p > 0
    ensures d * p >= p
  {
    MulNonneg(d - 1, p);
    assert d * p == (d - 1) * p + p;
  }

  lemma MulAssoc(a: int, b: int, c: int)
    ensures (a * b) * c == a * (b * c)
  {
  }

  /** Quotient and remainder are determined by any decomposition with a
      remainder in range. */
  lemma DivModUnique(a: int, p: int, q: int, r: int)
    requires p > 0 && a == q * p + r && 0 <= r < p
    ensures a / p == q && a % p == r
  {
    var q', r' := a / p, a % p;
    assert a == q' * p + r';
    assert (q - q') * p == r' - r;
    if q > q' {
      MulAtLeast(q - q', p);
    } else if q < q' {
      MulAtLeast(q' - q, p);
    }
  }

  lemma ModAddMultiple(a: int, k: int, p: int)
    requires p > 0
    ensures (a + k * p) % p == a % p
  {
    assert a + k * p == (a / p + k) * p + a % p;
    DivModUnique(a + k * p, p, a / p + k, a % p);
  }

  lemma ModOfSmall(a: int, p: int)
    requires 0 <= a < p
    ensures a % p == a
  {
    DivModUnique(a, p, 0, a);
  }

  lemma MulMod(x: int, y: int, p: int)
    requires p > 0
    ensures (x * y) % p == ((x % p) * (y % p)) % p
  {
    var qx, rx := x / p, x % p;
    var qy, ry := y / p, y % p;
    assert x == qx * p + rx;
    assert y == qy * p + ry;
    assert x * y == (qx * qy * p + qx * ry + rx * qy) * p + rx * ry;
    ModAddMultiple(rx * ry, qx * qy * p + qx * ry + rx * qy, p);
  }

  /** Reducing one factor before multiplying does not change the residue. */
  lemma MulModLeft(x: int, y: int, p: int)
    requires p > 0
    ensures ((x % p) * y) % p == (x * y) % p
  {
    MulMod(x, y, p);
    MulMod(x % p, y, p);
    ModOfSmall(x % p, p);
  }

  lemma MulModRight(x: int, y: int, p: int)
    requires p > 0
    ensures (x * (y % p)) % p == (x * y) % p
  {
    MulModLeft(y, x, p);
    assert x * (y % p) == (y % p) * x;
    assert x * y == y * x;
  }

  lemma AddMod(x: int, y: int, p: int)
    requires p > 0
    ensures (x + y) % p == ((x % p) + (y % p)) % p
  {
    assert x + y == (x % p + y % p) + (x / p + y / p) * p;
    ModAddMultiple(x % p + y % p, x / p + y / p, p);
  }

  /** Divisibility by `d`, with `d` positive. */
  predicate Divides(d: int, a: int)
    requires d > 0
  {
    a % d == 0
  }

  lemma DividesLinear(d: int, a: int, b: int, k: int)
    requires d > 0 && Divides(d, a) && Divides(d, b)
    ensures Divides(d, k * a + b)
  {
    var qa, qb := a / d, b / d;
    assert a == qa * d;
    assert b == qb * d;
    assert k * a + b == (k * qa + qb) * d;
    DivModUnique(k * a + b, d, k * qa + qb, 0);
  }

  lemma DividesOne(d: int)
    requires d > 1
    ensures !Divides(d, 1)
  {
    ModOfSmall(1, d);
  }

  lemma DivisorAtMost(d: int, n: int)
    requires d > 0 && n > 0 && Divides(d, n)
    ensures d <= n
  {
    if d > n {
      ModOfSmall(n, d);
    }
  }

  // ---------------------------------------------------------------------------
  // Powers

  function Pow(b: int, e: nat): int
    decreases e
  {
    if e == 0 then 1 else b * Pow(b, e - 1)
  }

  lemma {:induction false} PowAdd(b: int, e1: nat, e2: nat)
    ensures Pow(b, e1 + e2) == Pow(b, e1) * Pow(b, e2)
    decreases e1
  {
    if e1 > 0 {
      PowAdd(b, e1 - 1, e2);
      assert Pow(b, e1 + e2) == b * Pow(b, (e1 - 1) + e2);
      assert b * (Pow(b, e1 - 1) * Pow(b, e2)) == (b * Pow(b, e1 - 1)) * Pow(b, e2);
    }
  }

  lemma {:induction false} PowOne(e: nat)
    ensures Pow(1, e) == 1
  {
    if e > 0 {
      PowOne(e - 1);
    }
  }

  lemma {:induction false} PowNonneg(b: int, e: nat)
    requires b >= 0
    ensures Pow(b, e) >= 0
  {
    if e > 0 {
      PowNonneg(b, e - 1);
      MulNonneg(b, Pow(b, e - 1));
    }
  }

  /** (a*b)^e = a^e * b^e */
  lemma {:induction false} PowMulBase(a: int, b: int, e: nat)
    ensures Pow(a * b, e) == Pow(a, e) * Pow(b, e)
  {
    if e > 0 {
      PowMulBase(a, b, e - 1);
      var x, y := Pow(a, e - 1), Pow(b, e - 1);
      assert Pow(a * b, e) == (a * b) * (x * y);
      assert (a * b) * (x * y) == (a * x) * (b * y);
    }
  }

  /** (b^e1)^e2 = b^(e1*e2) */
  lemma {:induction false} PowPow(b: int, e1: nat, e2: nat)
    ensures Pow(Pow(b, e1), e2) == Pow(b, e1 * e2)
  {
    if e2 > 0 {
      PowPow(b, e1, e2 - 1);
      PowAdd(b, e1, e1 * (e2 - 1));
      assert e1 + e1 * (e2 - 1) == e1 * e2;
    }
  }

  /** Reducing the base modulo p does not change b^e modulo p. */
  lemma {:induction false} PowModBase(b: int, e: nat, p: int)
    requires p > 0
    ensures Pow(b % p, e) % p == Pow(b, e) % p
  {
    if e > 0 {
      PowModBase(b, e - 1, p);
      calc {
        Pow(b % p, e) % p;
        ((b % p) * Pow(b % p, e - 1)) % p;
        { MulModRight(b % p, Pow(b % p, e - 1), p); }
        ((b % p) * (Pow(b % p, e - 1) % p)) % p;
        ((b % p) * (Pow(b, e - 1) % p)) % p;
        { MulModRight(b % p, Pow(b, e - 1), p); }
        ((b % p) * Pow(b, e - 1)) % p;
        { MulModLeft(b, Pow(b, e - 1), p); }
        (b * Pow(b, e - 1)) % p;
      }
    }
  }

  // ---------------------------------------------------------------------------
  // Extended Euclid, modular inverse, primality

  /** Extended Euclid: `(d, x, y)` with `d = a*x + b*y` and `d` a positive
      common divisor of `a` and `b` (when not both are zero). */
  function ExtGcd(a: nat, b: nat): (r: (nat, int, int))
    ensures r.0 == a * r.1 + b * r.2
    ensures a > 0 || b > 0 ==> r.0 > 0 && Divides(r.0, a) && Divides(r.0, b)
    decreases b
  {
    if b == 0 then
      (a, 1, 0)
    else
      var t := ExtGcd(b, a % b);
      ExtGcdStep(a, b, t.0, t.1, t.2);
      (t.0, t.2, t.1 - (a / b) * t.2)
  }

  /** The recursive step of `ExtGcd`: what holds of `(b, a % b)` holds of
      `(a, b)` with the coefficients swapped and adjusted by the quotient. */
  lemma ExtGcdStep(a: nat, b: nat, d: nat, x: int, y: int)
    requires b > 0
    requires d == b * x + (a % b) * y
    requires d > 0 && Divides(d, b) && Divides(d, a % b)
    ensures d == a * y + b * (x - (a / b) * y)
    ensures Divides(d, a)
  {
    assert a == (a / b) * b + a % b;
    BezoutStep(a, b, a / b, a % b, d, x, y);
    DividesLinear(d, b, a % b, a / b);
  }

  /** One step of extended Euclid: Bezout coefficients for `(b, r)` give
      coefficients for `(a, b)` when `a = q*b + r`. */
  lemma BezoutStep(a: int, b: int, q: int, r: int, d: int, x: int, y: int)
    requires a == q * b + r && d == b * x + r * y
    ensures d == a * y + b * (x - q * y)
  {
    assert r * y == a * y - (q * b) * y;
    assert b * (x - q * y) == b * x - b * (q * y);
    assert (q * b) * y == b * (q * y);
  }

  /** `x` is a multiplicative inverse of `a` modulo `n`. */
  predicate IsInverse(a: int, x: int, n: int)
    requires n > 0
  {
    (a * x) % n == 1 % n
  }

  /** `new(big.Int).ModInverse(a, n)`: the inverse of `a` in [0, n), or
      nothing (Go's nil) when `a` and `n` are not coprime. */
  function ModInverse(a: int, n: int): (r: Option<int>)
    requires n > 0
    ensures r.Some? ==> 0 <= r.value < n && IsInverse(a, r.value, n)
    ensures r.None? ==> forall x :: !IsInverse(a, x, n)
  {
    var t := ExtGcd(a % n, n);
    if t.0 != 1 then
      assert forall x :: !IsInverse(a, x, n) by {
        forall x
          ensures !IsInverse(a, x, n)
        {
          NoInverseWithCommonDivisor(a, n, t.0, x);
        }
      }
      None
    else
      var x := t.1 % n;
      assert IsInverse(a, x, n) by {
        assert 1 == (a % n) * t.1 + n * t.2;
        ModAddMultiple((a % n) * t.1, t.2, n);
        assert ((a % n) * t.1) % n == 1 % n;
        MulModLeft(a, t.1, n);
        MulModRight(a, t.1, n);
      }
      Some(x)
  }

  lemma DividesMultiple(d: int, a: int, x: int)
    requires d > 0 && Divides(d, a)
    ensures Divides(d, a * x)
  {
    DividesLinear(d, a, 0, x);
    assert x * a + 0 == a * x;
  }

  lemma DividesFromResidue(d: int, a: int, n: int)
    requires n > 0 && d > 0 && Divides(d, a % n) && Divides(d, n)
    ensures Divides(d, a)
  {
    assert a == (a / n) * n + a % n;
    DividesLinear(d, n, a % n, a / n);
  }

  lemma NoInverseWithCommonDivisor(a: int, n: int, d: int, x: int)
    requires n > 0 && d > 0 && d != 1 && Divides(d, a % n) && Divides(d, n)
    ensures !IsInverse(a, x, n)
  {
    if n == 1 {
      DivisorAtMost(d, n);
    } else if IsInverse(a, x, n) {
      var ax := a * x;
      var k := ax / n;
      ModOfSmall(1, n);
      assert ax == k * n + 1;
      DividesFromResidue(d, a, n);
      DividesMultiple(d, a, x);
      DividesLinear(d, n, ax, -k);
      assert -k * n + ax == 1;
      DividesOne(d);
    }
  }

  /** The inverse modulo `n` is unique in [0, n). */
  lemma InverseUnique(a: int, x: int, y: int, n: int)
    requires n > 0 && 0 <= x < n && 0 <= y < n
    requires IsInverse(a, x, n) && IsInverse(a, y, n)
    ensures x == y
  {
    // x = x*(a*y) = (x*a)*y = y  (mod n)
    calc {
      x % n;
      { ModOfSmall(x, n); }
      x;
    }
    calc {
      (x * (a * y)) % n;
      { MulModRight(x, a * y, n); }
      (x * ((a * y) % n)) % n;
      (x * (1 % n)) % n;
      { MulModRight(x, 1, n); }
      x % n;
    }
    calc {
      (x * (a * y)) % n;
      { assert x * (a * y) == (a * x) * y; }
      ((a * x) * y) % n;
      { MulModLeft(a * x, y, n); }
      (((a * x) % n) * y) % n;
      ((1 % n) * y) % n;
      { MulModLeft(1, y, n); }
      y % n;
    }
    ModOfSmall(y, n);
  }

  predicate IsPrime(p: int) {
    p >= 2 && forall d :: 2 <= d < p ==> p % d != 0
  }

  /** A prime has no divisors but 1 and itself. */
  lemma PrimeDivisor(p: int, d: int)
    requires IsPrime(p) && d > 0 && Divides(d, p)
    ensures d == 1 || d == p
  {
    DivisorAtMost(d, p);
    if d != 1 && d != p {
      assert false;
    }
  }

  /** Modulo a prime every non-zero residue is invertible. */
  lemma PrimeInvertible(a: int, p: int)
    requires IsPrime(p) && a % p != 0
    ensures ModInverse(a, p).Some?
  {
    var t := ExtGcd(a % p, p);
    var d := t.0;
    PrimeDivisor(p, d);
    if d == p {
      assert (a % p) % p == 0;
      ModOfSmall(a % p, p);
    }
  }

  /** Modulo a prime, a power of a non-zero residue is non-zero. */
  lemma PrimePowNonzero(b: int, e: nat, p: int)
    requires IsPrime(p) && b % p != 0
    ensures Pow(b, e) % p != 0
  {
    PrimeInvertible(b, p);
    var bi := ModInverse(b, p).value;
    // b^e * bi^e = (b*bi)^e = 1 (mod p)
    PowMulBase(b, bi, e);
    PowModBase(b * bi, e, p);
    ModOfSmall(1, p);
    PowOne(e);
    assert Pow(b * bi, e) % p == 1;
    MulModLeft(Pow(b, e), Pow(bi, e), p);
  }

  // ---------------------------------------------------------------------------
  // Go's big.Int Exp

  /** `new(big.Int).Exp(b, e, n)` for a positive modulus: `b^e mod n` for
      `e >= 0`; for `e < 0` the inverse of `b` raised to `-e`, or nothing
      (Go's nil) when `b` has no inverse. */
  function Exp(b: int, e: int, n: int): (r: Option<int>)
    requires n > 0
    ensures r.Some? ==> 0 <= r.value < n
    ensures e >= 0 ==> r == Some(Pow(b, e) % n)
  {
    if e >= 0 then Some(Pow(b, e) % n)
    else
      match ModInverse(b, n)
      case None => None
      case Some(inv) => Some(Pow(inv, -e) % n)
  }

  /** Bit length of a non-negative integer (`big.Int.BitLen`). */
  function BitLen(n: nat): (r: nat)
    ensures r == 0 <==> n == 0
    ensures n < Pow(2, r)
    ensures n > 0 ==> Pow(2, r - 1) <= n
  {
    if n == 0 then 0
    else
      var h := BitLen(n / 2);
      BitLenStep(n, h);
      h + 1
  }

  /** One more bit for twice the value (plus one). */
  lemma BitLenStep(n: nat, h: nat)
    requires n > 0 && n / 2 < Pow(2, h)
    requires n / 2 > 0 ==> Pow(2, h - 1) <= n / 2
    requires h == 0 <==> n / 2 == 0
    ensures n < Pow(2, h + 1) && Pow(2, h) <= n
  {
    assert Pow(2, h + 1) == 2 * Pow(2, h);
    if h > 0 {
      assert Pow(2, h) == 2 * Pow(2, h - 1);
    }
  }

  /** Go's `%` on signed integers truncates toward zero, so a non-zero
      remainder takes the sign of the dividend (Dafny's `%` never does). */
  function GoRem(x: int, m: int): (r: int)
    requires m > 0
    ensures x >= 0 ==> r == x % m
    ensures -m < r < m && (x - r) % m == 0
    ensures r != 0 ==> (r < 0 <==> x < 0)
  {
    if x >= 0 then
      assert x - x % m == (x / m) * m;
      DivModUnique(x - x % m, m, x / m, 0);
      x % m
    else
      var q, r := (-x) / m, -((-x) % m);
      assert x - r == (-q) * m;
      DivModUnique(x - r, m, -q, 0);
      r
  }
}
