/** ElGamal over the quadratic residues of Z_p^* with p = 2q + 1, with the
    message encoding M = m + 1 when m + 1 is a residue and M = -(m + 1)
    otherwise (project/elgamal/elGamal.go).

    Each random draw of the Go code (`rand.Int(rand.Reader, max)`) is a
    parameter with its range as a precondition; prime generation is replaced
    by the hypothesis that q and 2q + 1 are prime. Modular exponentiation is
    the concrete `ModArith.Exp`, so decryption correctness is proved from the
    exponent laws rather than assumed. */
module ElGamal {
  import opened Errors
  import opened ModArith

  /** The panic message for decryption when c1 has no inverse modulo p. */
  const NotInvertible: string := "nil big.Int from Exp: c1 is not invertible modulo p"

  /** The public parameters: group order q, field prime p and generator g. */
  datatype Params = Params(q: int, p: int, g: int)

  datatype Ciphertext = Ciphertext(c1: int, c2: int)

  /** Parameters every operation below is correct for: both primes as `Init`
      looks for them, and a generator that is a non-zero residue. */
  predicate Valid(eg: Params) {
    IsPrime(eg.q) && eg.p == 2 * eg.q + 1 && IsPrime(eg.p) && 0 < eg.g < eg.p
  }

  /** `Init` once its prime search has found q with 2q + 1 prime. The Go code
      subtracts 1 from p (the variable is misleadingly called `pMinusTwo`),
      draws x from [0, p - 2] and adds 2, so x ranges over [2, p]. */
  function Init(q: int, xDraw: int): (r: Params)
    requires IsPrime(q) && IsPrime(2 * q + 1)
    requires 0 <= xDraw < 2 * q
    ensures r.q == q && r.p == 2 * q + 1
    ensures 0 <= r.g < r.p
    ensures r.g == ((xDraw + 2) * (xDraw + 2)) % r.p
  {
    var p := 2 * q + 1;
    var x := xDraw + 2;
    Params(q, p, Pow(x, 2) % p)
  }

  /** The corrected parameter choice: x drawn from [2, p - 2], i.e. neither
      1 nor -1 nor 0 modulo p, as the comment in `Init` intends. */
  function InitCorrected(q: int, xDraw: int): (r: Params)
    requires IsPrime(q) && IsPrime(2 * q + 1)
    requires 0 <= xDraw < 2 * q - 2
    ensures r.q == q && r.p == 2 * q + 1
    ensures r.g == ((xDraw + 2) * (xDraw + 2)) % r.p
  {
    var p := 2 * q + 1;
    var x := xDraw + 2;
    Params(q, p, Pow(x, 2) % p)
  }

  /** The as-written range admits x = p, which makes g = 0: every ciphertext
      then has c1 = 0 and cannot be decrypted. Every other draw is valid,
      but the one before it, x = p - 1 = -1, makes g = 1, which the comment
      in `Init` means to exclude. */
  lemma InitValidExceptLastDraw(q: int, xDraw: int)
    requires IsPrime(q) && IsPrime(2 * q + 1)
    requires 0 <= xDraw < 2 * q
    ensures Valid(Init(q, xDraw)) <==> xDraw != 2 * q - 1
    ensures xDraw == 2 * q - 1 ==> Init(q, xDraw).g == 0
    ensures xDraw == 2 * q - 2 ==> Init(q, xDraw).g == 1
  {
    var p := 2 * q + 1;
    var x := xDraw + 2;
    if xDraw == 2 * q - 2 {
      assert Pow(x, 2) == 1 + (p - 2) * p;
      ModAddMultiple(1, p - 2, p);
      ModOfSmall(1, p);
    }
    if xDraw == 2 * q - 1 {
      assert x == p;
      assert Pow(x, 2) == p * p;
      ModAddMultiple(0, p, p);
      assert Pow(x, 2) % p == 0;
    } else {
      ModOfSmall(x, p);
      PrimePowNonzero(x, 2, p);
    }
  }

  /** The corrected parameters are always valid, and g is never 1. */
  lemma InitCorrectedValid(q: int, xDraw: int)
    requires IsPrime(q) && IsPrime(2 * q + 1)
    requires 0 <= xDraw < 2 * q - 2
    ensures Valid(InitCorrected(q, xDraw))
    ensures InitCorrected(q, xDraw).g != 1
  {
    var p := 2 * q + 1;
    var x := xDraw + 2;
    ModOfSmall(x, p);
    PrimePowNonzero(x, 2, p);
    if Pow(x, 2) % p == 1 {
      SquareRootsOfOne(x, p);
    }
  }

  /** Modulo a prime, the only square roots of 1 are 1 and -1. */
  lemma SquareRootsOfOne(x: int, p: int)
    requires IsPrime(p) && 2 <= x < p - 1
    ensures Pow(x, 2) % p != 1
  {
    if Pow(x, 2) % p == 1 {
      // p divides (x - 1)(x + 1), but divides neither factor.
      assert (x - 1) * (x + 1) == Pow(x, 2) - 1;
      ModOfSmall(1, p);
      assert ((x - 1) * (x + 1)) % p == 0 by {
        ModAddMultiple(Pow(x, 2) - 1, 0, p);
        AddMod(Pow(x, 2), -1, p);
        ModAddMultiple(-1, 1, p);
        ModOfSmall(p - 1, p);
        ModOfSmall(0, p);
        assert (Pow(x, 2) % p + (-1) % p) % p == (1 + (p - 1)) % p;
        ModAddMultiple(0, 1, p);
      }
      ModOfSmall(x - 1, p);
      ModOfSmall(x + 1, p);
      EuclidLemma(x - 1, x + 1, p);
    }
  }

  /** A prime dividing a product divides one of the factors. */
  lemma EuclidLemma(a: int, b: int, p: int)
    requires IsPrime(p) && (a * b) % p == 0
    ensures a % p == 0 || b % p == 0
  {
    if a % p != 0 {
      PrimeInvertible(a, p);
      var inv := ModInverse(a, p).value;
      ModOfSmall(1, p);
      assert (inv * a) % p == 1 by {
        assert inv * a == a * inv;
      }
      CancelInverse(inv, a, b, p);
    }
  }

  /** Multiplying by an inverse of a cancels it: if inv * a is 1 and
      a * b is 0 modulo p, then b is 0 modulo p. */
  lemma CancelInverse(inv: int, a: int, b: int, p: int)
    requires p > 0 && (inv * a) % p == 1 && (a * b) % p == 0
    ensures b % p == 0
  {
    var ia, ab := inv * a, a * b;
    assert (ia * b) % p == b % p by {
      MulModLeft(ia, b, p);
      assert (ia % p) * b == b;
    }
    assert ia * b == inv * ab by {
      MulAssoc(inv, a, b);
    }
    assert (inv * ab) % p == 0 by {
      MulModRight(inv, ab, p);
      assert inv * (ab % p) == 0;
    }
  }

  /** `MakeSecretKey`: sk = draw + 1 with draw from [0, q - 2]. */
  function MakeSecretKey(eg: Params, draw: int): (sk: nat)
    requires 0 <= draw < eg.q - 1
    ensures 1 <= sk <= eg.q - 1
    ensures sk - 1 == draw
  {
    draw + 1
  }

  /** `Gen`: the real public key g^sk mod p. */
  function Gen(eg: Params, sk: nat): (h: int)
    requires eg.p > 0
    ensures 0 <= h < eg.p
    ensures Exp(eg.g, sk, eg.p) == Some(h)
  {
    Pow(eg.g, sk) % eg.p
  }

  /** The exclusive upper bound 2^(2n) of OGen's draw, n the bit length of p. */
  function OGenBound(eg: Params): (b: nat)
    requires eg.p > 0
    ensures b > eg.p
  {
    var n := BitLen(eg.p);
    PowDoubleAtLeast(n);
    Pow(2, 2 * n)
  }

  /** 2^(2n) >= 2^n. */
  lemma PowDoubleAtLeast(n: nat)
    ensures Pow(2, 2 * n) >= Pow(2, n)
  {
    PowAdd(2, n, n);
    assert n + n == 2 * n;
    var x := Pow(2, n);
    PowAtLeastOne(n);
    MulAtLeast(x, x);
  }

  lemma {:induction false} PowAtLeastOne(n: nat)
    ensures Pow(2, n) >= 1
  {
    if n > 0 {
      PowAtLeastOne(n - 1);
    }
  }

  /** `OGen`: an oblivious public key, r mod p for a draw r from [0, 2^(2n))
      where a zero draw is replaced by 1. */
  function OGen(eg: Params, draw: int): (h: int)
    requires eg.p > 0
    requires 0 <= draw < OGenBound(eg)
    ensures 0 <= h < eg.p
    ensures draw != 0 ==> h == draw % eg.p
    ensures draw == 0 ==> h == 1 % eg.p
  {
    var r := if draw == 0 then 1 else draw;
    r % eg.p
  }

  /** Every residue is an OGen output for some draw: oblivious keys cover
      the whole of [0, p). */
  lemma OGenCoversResidues(eg: Params, h: int)
    requires eg.p > 1 && 0 <= h < eg.p
    ensures h != 0 ==> OGen(eg, h) == h
    ensures h == 0 ==> OGen(eg, eg.p) == 0
  {
    ModOfSmall(h, eg.p);
    ModAddMultiple(0, 1, eg.p);
  }

  /** The message encoding of `Encrypt`. */
  function Encode(eg: Params, m: nat): (M: int)
    requires eg.p > 0 && eg.q >= 0
    ensures M == m + 1 || M == -(m + 1)
    ensures M > 0 <==> Exp(m + 1, eg.q, eg.p) == Some(1)
  {
    if Pow(m + 1, eg.q) % eg.p == 1 then m + 1 else -(m + 1)
  }

  /** The decoding step of `Decrypt` applied to a residue M. */
  function Decode(eg: Params, M: int): (m: int)
    requires eg.p > 0
    ensures 0 <= m < eg.p
  {
    var m0 := if M <= eg.q then M - 1 else -M - 1;
    m0 % eg.p
  }

  /** Decoding inverts the encoding for every 0 <= m <= q - 1, whichever
      branch the residue test took; and the residue M mod p is at most q
      exactly in the m + 1 branch. */
  lemma DecodeEncode(eg: Params, m: int)
    requires Valid(eg) && 0 <= m <= eg.q - 1
    ensures var M := Encode(eg, m);
      (M % eg.p <= eg.q <==> M == m + 1) && Decode(eg, M % eg.p) == m
  {
    var p, q := eg.p, eg.q;
    var M := Encode(eg, m);
    if M == m + 1 {
      ModOfSmall(m + 1, p);
      ModOfSmall(m, p);
    } else {
      ModAddMultiple(-(m + 1), 1, p);
      ModOfSmall(p - m - 1, p);
      assert M % p == p - m - 1;
      ModAddMultiple(m, -1, p);
      ModOfSmall(m, p);
    }
  }

  /** `Encrypt(m, pk)` with the nonce r = rDraw + 1, rDraw from [0, q - 2]. */
  function Encrypt(eg: Params, m: nat, pk: int, rDraw: int): (c: Ciphertext)
    requires eg.p > 0 && eg.q >= 0
    requires 0 <= rDraw < eg.q - 1
    ensures 0 <= c.c1 < eg.p && 0 <= c.c2 < eg.p
    ensures c.c1 == Pow(eg.g, rDraw + 1) % eg.p
    ensures c.c2 == (Encode(eg, m) * (Pow(pk, rDraw + 1) % eg.p)) % eg.p
  {
    var r := rDraw + 1;
    var M := Encode(eg, m);
    Ciphertext(Pow(eg.g, r) % eg.p, (M * (Pow(pk, r) % eg.p)) % eg.p)
  }

  /** `Decrypt(c1, c2, sk)`: M = c2 * c1^(-sk) mod p, then decoded. When c1
      has no inverse, Go's `Exp` returns nil and the multiplication that
      follows panics; that is the error case. */
  function Decrypt(eg: Params, c1: int, c2: int, sk: nat): (r: Result<int>)
    requires eg.p > 0
    ensures sk > 0 ==> (r.Ok? <==> ModInverse(c1, eg.p).Some?)
    ensures r.Ok? ==> 0 <= r.value < eg.p
  {
    match Exp(c1, -(sk as int), eg.p)
    case None => Err(NotInvertible)
    case Some(s) => Ok(Decode(eg, (c2 * s) % eg.p))
  }

  /** Decryption undoes encryption under a real key: for every message
      0 <= m <= q - 1, secret key sk >= 1 and nonce draw. */
  lemma DecryptEncrypt(eg: Params, m: nat, sk: nat, rDraw: int)
    requires Valid(eg) && m <= eg.q - 1 && sk >= 1
    requires 0 <= rDraw < eg.q - 1
    ensures var c := Encrypt(eg, m, Gen(eg, sk), rDraw);
      Decrypt(eg, c.c1, c.c2, sk) == Ok(m)
  {
    var p := eg.p;
    var r := rDraw + 1;
    var pk := Gen(eg, sk);
    var c := Encrypt(eg, m, pk, rDraw);
    var M := Encode(eg, m);
    ModOfSmall(eg.g, p);
    PrimePowNonzero(eg.g, r, p);
    assert c.c1 % p != 0 by { ModOfSmall(c.c1, p); }
    PrimeInvertible(c.c1, p);
    var inv := ModInverse(c.c1, p).value;
    var s := Pow(inv, sk) % p;
    var A := Pow(pk, r) % p;
    SharedSecret(eg, sk, r);
    assert (A * s) % p == 1 by { MaskCancels(eg, c.c1, inv, sk, A); }
    UnmaskProduct(M, A, s, p);
    DecodeEncode(eg, m);
  }

  /** Removing a mask: if A * s is 1 modulo p, then (M * A mod p) * s is
      M modulo p. */
  lemma UnmaskProduct(M: int, A: int, s: int, p: int)
    requires p > 0 && (A * s) % p == 1
    ensures (((M * A) % p) * s) % p == M % p
  {
    calc {
      (((M * A) % p) * s) % p;
      { MulModLeft(M * A, s, p); }
      ((M * A) * s) % p;
      { MulAssoc(M, A, s); }
      (M * (A * s)) % p;
      { MulModRight(M, A * s, p); }
      (M * 1) % p;
    }
  }

  /** The receiver's mask (g^sk)^r and the sender's (g^r)^sk agree mod p. */
  lemma SharedSecret(eg: Params, sk: nat, r: nat)
    requires eg.p > 0
    ensures Pow(Gen(eg, sk), r) % eg.p == Pow(Pow(eg.g, r) % eg.p, sk) % eg.p
  {
    var p := eg.p;
    PowModBase(Pow(eg.g, sk), r, p);
    PowModBase(Pow(eg.g, r), sk, p);
    PowPow(eg.g, sk, r);
    PowPow(eg.g, r, sk);
    assert sk * r == r * sk;
  }

  /** Multiplying the mask by the inverse of c1 raised to sk gives 1. */
  lemma MaskCancels(eg: Params, c1: int, inv: int, sk: nat, A: int)
    requires Valid(eg) && 0 <= inv < eg.p && IsInverse(c1, inv, eg.p)
    requires A == Pow(c1, sk) % eg.p
    ensures (A * (Pow(inv, sk) % eg.p)) % eg.p == 1
  {
    var p := eg.p;
    ModOfSmall(1, p);
    calc {
      (A * (Pow(inv, sk) % p)) % p;
      { MulMod(Pow(c1, sk), Pow(inv, sk), p);
        ModOfSmall(A, p);
        ModOfSmall(Pow(inv, sk) % p, p); }
      (Pow(c1, sk) * Pow(inv, sk)) % p;
      { PowMulBase(c1, inv, sk); }
      Pow(c1 * inv, sk) % p;
      { PowModBase(c1 * inv, sk, p); }
      Pow((c1 * inv) % p, sk) % p;
      Pow(1, sk) % p;
      { PowOne(sk); }
      1;
    }
  }
}
