/** The somewhat-homomorphic encryption scheme over the integers of handin6.

    The secret key is an odd p. The public key is y_i = p*q_i + 2*r_i, and a
    bit m is encrypted as m plus the sum of a random subset of the y_i.
    Modulo p, a ciphertext is its plaintext plus an even noise term. So as
    long as that term stays below p, decryption `(c mod p) mod 2` recovers
    the plaintext, and integer addition and multiplication act on plaintexts
    as XOR and AND.

    `math/big` integers are unbounded, so Dafny's `int` models them
    exactly. `Mod` on big integers is the Euclidean remainder, as `%` is
    here. */
module DHE {
  import opened Errors
  import BloodTypes
  import ModArith

  /** The `DHE` struct: the secret p, the draws q and r, the public key y
      and the bit length n. The three slices are allocated by the caller;
      key generation only writes their first n entries. */
  datatype Scheme = Scheme(p: int, q: seq<int>, r: seq<int>, y: seq<int>, n: int)

  /** The slices hold at least n entries, so key generation stays in range. */
  predicate Allocated(s: Scheme) {
    0 <= s.n && s.n <= |s.q| && s.n <= |s.r| && s.n <= |s.y|
  }

  /** Keys as key generation leaves them: p is odd and positive, and the
      first n public-key entries are p*q_i + 2*r_i with q_i, r_i >= 0. */
  predicate WellFormed(s: Scheme) {
    Allocated(s) && s.p >= 1 && s.p % 2 == 1 &&
    forall i :: 0 <= i < s.n ==> s.q[i] >= 0 && s.r[i] >= 0 && s.y[i] == s.p * s.q[i] + 2 * s.r[i]
  }

  // ---------------------------------------------------------------------------
  // Key generation

  /** `p.Or(p, 1)` on a non-negative integer: the least odd value >= v. */
  function SetLowBit(v: int): (r: int)
    requires v >= 0
    ensures r % 2 == 1
    ensures v % 2 == 1 ==> r == v
    ensures v % 2 == 0 ==> r == v + 1
  {
    if v % 2 == 1 then v else v + 1
  }

  /** `GenerateKeys`, with the `crypto/rand` draws as parameters: `pDraw` and
      each `qDraws[i]` lie in [0, 2^n), each `rDraws[i]` in [0, 2^(n/10)).
      The entries past n of the three slices are left as they were. */
  function GenerateKeys(s: Scheme, pDraw: int, qDraws: seq<int>, rDraws: seq<int>): (k: Scheme)
    requires Allocated(s)
    requires 0 <= pDraw < BloodTypes.Pow2(s.n)
    requires |qDraws| == s.n && |rDraws| == s.n
    requires forall i :: 0 <= i < s.n ==> 0 <= qDraws[i] < BloodTypes.Pow2(s.n)
    requires forall i :: 0 <= i < s.n ==> 0 <= rDraws[i] < BloodTypes.Pow2(s.n / 10)
    ensures WellFormed(k) && k.n == s.n
    ensures s.n >= 1 ==> k.p < BloodTypes.Pow2(s.n)
    ensures s.n == 0 ==> k.p == 1
    ensures |k.q| == |s.q| && |k.r| == |s.r| && |k.y| == |s.y|
    ensures k.q[..s.n] == qDraws && k.r[..s.n] == rDraws
    ensures k.q[s.n..] == s.q[s.n..] && k.r[s.n..] == s.r[s.n..] && k.y[s.n..] == s.y[s.n..]
  {
    var p := SetLowBit(pDraw);
    assert s.n >= 1 ==> p < BloodTypes.Pow2(s.n) by {
      if s.n >= 1 {
        SetLowBitBelow(pDraw, BloodTypes.Pow2(s.n - 1));
      }
    }
    var q, r := qDraws + s.q[s.n..], rDraws + s.r[s.n..];
    assert q[..s.n] == qDraws && r[..s.n] == rDraws;
    Scheme(p, q, r, PublicKey(p, q, r, s.y, s.n), s.n)
  }

  /** Setting the low bit keeps a value below an even bound. */
  lemma SetLowBitBelow(v: int, h: int)
    requires 0 <= v < 2 * h
    ensures SetLowBit(v) < 2 * h
  {
  }

  /** The public key for p, q and r: entry i below n is p*q_i + 2*r_i, and
      the entries past n are those of y. */
  function PublicKey(p: int, q: seq<int>, r: seq<int>, y: seq<int>, n: nat): (k: seq<int>)
    requires n <= |q| && n <= |r| && n <= |y|
    ensures |k| == |y| && k[n..] == y[n..]
    ensures forall i :: 0 <= i < n ==> k[i] == p * q[i] + 2 * r[i]
  {
    seq(n, i requires 0 <= i < n => p * q[i] + 2 * r[i]) + y[n..]
  }

  // ---------------------------------------------------------------------------
  // Encryption

  /** The subset of {first, ..., first + |coins| - 1} that keeps the index
      `first + j` exactly when coin j is set, in increasing order, as the loop
      of `randomSubset` builds it. */
  function Subset(first: int, coins: seq<bool>): (S: seq<int>)
    ensures |S| <= |coins|
    ensures forall j :: 0 <= j < |S| ==> first <= S[j] < first + |coins|
    ensures forall i :: i in S <==> first <= i < first + |coins| && coins[i - first]
    decreases |coins|
  {
    if coins == [] then []
    else
      var rest := Subset(first, coins[..|coins| - 1]);
      if coins[|coins| - 1] then rest + [first + |coins| - 1] else rest
  }

  /** The subset lists its elements in strictly increasing order. */
  lemma {:induction false} SubsetIncreasing(first: int, coins: seq<bool>)
    ensures forall j, k :: 0 <= j < k < |Subset(first, coins)| ==> Subset(first, coins)[j] < Subset(first, coins)[k]
    decreases |coins|
  {
    if coins != [] {
      SubsetIncreasing(first, coins[..|coins| - 1]);
    }
  }

  /** `randomSubset(n)` as written: the loop runs i from 1 to n inclusive. A
      negative n runs no iteration. */
  function RandomSubsetAsWritten(coins: seq<bool>): (S: seq<int>)
    ensures forall i :: i in S <==> 1 <= i <= |coins| && coins[i - 1]
  {
    Subset(1, coins)
  }

  /** The subset of the indices 0..n-1 of the public key, which is what the
      comment "a random subset of {1, ..., n}" means for a 0-based slice. */
  function RandomSubset(coins: seq<bool>): (S: seq<int>)
    ensures forall i :: i in S <==> 0 <= i < |coins| && coins[i]
  {
    Subset(0, coins)
  }

  /** The sum of v over the indices in S, added in the order of S. */
  function SumAt(v: seq<int>, S: seq<int>): int
    requires forall j :: 0 <= j < |S| ==> 0 <= S[j] < |v|
  {
    if S == [] then 0 else SumAt(v, S[..|S| - 1]) + v[S[|S| - 1]]
  }

  /** The reference sum: v[first + j] summed over the j whose coin is set. */
  function SumWhere(v: seq<int>, first: nat, coins: seq<bool>): int
    requires first + |coins| <= |v|
  {
    if coins == [] then 0
    else SumWhere(v, first, coins[..|coins| - 1]) + (if coins[|coins| - 1] then v[first + |coins| - 1] else 0)
  }

  /** Summing over the subset the loop builds is summing where the coins are
      set. */
  lemma {:induction false} SumAtSubset(v: seq<int>, first: nat, coins: seq<bool>)
    requires first + |coins| <= |v|
    ensures SumAt(v, Subset(first, coins)) == SumWhere(v, first, coins)
    decreases |coins|
  {
    if coins != [] {
      var init := coins[..|coins| - 1];
      var rest := Subset(first, init);
      SumAtSubset(v, first, init);
      var last := if coins[|coins| - 1] then v[first + |coins| - 1] else 0;
      assert SumWhere(v, first, coins) == SumWhere(v, first, init) + last;
      if coins[|coins| - 1] {
        var S := rest + [first + |coins| - 1];
        assert Subset(first, coins) == S;
        assert S[..|S| - 1] == rest;
        assert SumAt(v, S) == SumAt(v, rest) + last;
      } else {
        assert Subset(first, coins) == rest;
      }
    }
  }

  /** The noise an encryption with these coins adds: twice the sum of the
      r_i it picks up. */
  function Noise(s: Scheme, coins: seq<bool>): int
    requires |coins| <= |s.r|
  {
    2 * SumAt(s.r, RandomSubset(coins))
  }

  /** `Encrypt(m)` with the subset taken from the indices 0..n-1. It panics
      unless m is a bit. */
  function Encrypt(s: Scheme, m: int, coins: seq<bool>): (c: Result<int>)
    requires 0 <= s.n <= |s.y| && |coins| == s.n
    ensures c.Err? <==> m != 0 && m != 1
    ensures c.Ok? ==> c.value == m + SumWhere(s.y, 0, coins)
  {
    SumAtSubset(s.y, 0, coins);
    if m != 0 && m != 1 then Err("m must be a bit (0 or 1)")
    else Ok(m + SumAt(s.y, RandomSubset(coins)))
  }

  /** `Encrypt(m)` as written: the subset ranges over 1..n and indexes the
      public key with each element, so the index n is one past the end of a
      key of n entries. The precondition excludes the index panic. */
  function EncryptAsWritten(s: Scheme, m: int, coins: seq<bool>): (c: Result<int>)
    requires |coins| == (if s.n < 0 then 0 else s.n)
    requires forall j :: 0 <= j < |RandomSubsetAsWritten(coins)| ==> RandomSubsetAsWritten(coins)[j] < |s.y|
    ensures c.Err? <==> m != 0 && m != 1
    ensures c.Ok? && 1 + |coins| <= |s.y| ==> c.value == m + SumWhere(s.y, 1, coins)
  {
    if m != 0 && m != 1 then Err("m must be a bit (0 or 1)")
    else
      var sum := SumAt(s.y, RandomSubsetAsWritten(coins));
      if 1 + |coins| <= |s.y| then SumAtSubset(s.y, 1, coins); Ok(m + sum)
      else Ok(m + sum)
  }

  /** As written, a key of exactly n entries cannot be encrypted under
      whenever the last coin is set: the subset then holds the index n. The
      first key entry y_0 is never used. */
  lemma AsWrittenIndexesPastEnd(s: Scheme, coins: seq<bool>)
    requires s.n >= 1 && |s.y| == s.n && |coins| == s.n && coins[s.n - 1]
    ensures s.n in RandomSubsetAsWritten(coins)
    ensures !(forall j :: 0 <= j < |RandomSubsetAsWritten(coins)| ==> RandomSubsetAsWritten(coins)[j] < |s.y|)
    ensures 0 !in RandomSubsetAsWritten(coins)
  {
  }

  /** The smallest instance: one key entry and the coin set. */
  lemma AsWrittenCounterexample()
    ensures RandomSubsetAsWritten([true]) == [1]
    ensures !(1 < |Scheme(3, [0], [0], [3 * 0 + 2 * 0], 1).y|)
  {
    assert RandomSubsetAsWritten([true]) == Subset(1, [true]);
    assert Subset(1, [true][..0]) == [];
  }

  /** Summing a well-formed public key over any subset of 0..n-1 gives p
      times the sum of the q_i plus twice the sum of the r_i. */
  lemma {:induction false} SumOfKeys(s: Scheme, S: seq<int>)
    requires WellFormed(s)
    requires forall j :: 0 <= j < |S| ==> 0 <= S[j] < s.n
    ensures SumAt(s.y, S) == s.p * SumAt(s.q, S) + 2 * SumAt(s.r, S)
    ensures SumAt(s.q, S) >= 0 && SumAt(s.r, S) >= 0
    decreases |S|
  {
    if S != [] {
      var S' := S[..|S| - 1];
      SumOfKeys(s, S');
      var i := S[|S| - 1];
      assert s.y[i] == s.p * s.q[i] + 2 * s.r[i];
      assert SumAt(s.y, S) == SumAt(s.y, S') + s.y[i];
      assert SumAt(s.q, S) == SumAt(s.q, S') + s.q[i];
      assert SumAt(s.r, S) == SumAt(s.r, S') + s.r[i];
      assert s.p * SumAt(s.q, S) == s.p * SumAt(s.q, S') + s.p * s.q[i];
    }
  }

  /** A ciphertext of m is, modulo p, m plus the non-negative noise of its
      coins. */
  lemma EncryptNoise(s: Scheme, m: int, coins: seq<bool>)
    requires WellFormed(s) && |coins| == s.n && (m == 0 || m == 1)
    ensures Encrypt(s, m, coins).Ok?
    ensures Congruent(s.p, Encrypt(s, m, coins).value, m + Noise(s, coins))
    ensures Noise(s, coins) >= 0 && Encrypt(s, m, coins).value >= 0
  {
    var S := RandomSubset(coins);
    assert Encrypt(s, m, coins).value == m + SumAt(s.y, S);
    SumOfKeys(s, S);
    assert Noise(s, coins) == 2 * SumAt(s.r, S);
    NoiseShift(s.p, m, SumAt(s.y, S), SumAt(s.q, S), SumAt(s.r, S));
  }

  /** A ciphertext m + Y with Y = p*Q + 2*R is congruent to m + 2*R. */
  lemma NoiseShift(p: int, m: int, Y: int, Q: int, R: int)
    requires p > 0 && Q >= 0 && R >= 0 && m >= 0 && Y == p * Q + 2 * R
    ensures Congruent(p, m + Y, m + 2 * R) && m + Y >= 0
  {
    ShiftCongruent(p, m + 2 * R, Q);
  }

  /** Adding a non-negative multiple of p keeps the residue and does not
      decrease the value. */
  lemma ShiftCongruent(p: int, v: int, Q: int)
    requires p > 0 && Q >= 0
    ensures Congruent(p, v + p * Q, v) && v + p * Q >= v
  {
    ModArith.MulNonneg(p, Q);
    ModArith.ModAddMultiple(v, Q, p);
    assert p * Q == Q * p;
  }

  // ---------------------------------------------------------------------------
  // Decryption and the homomorphic operations

  /** `Decrypt(c)`: `(c mod p) mod 2`. A zero modulus would panic in `Mod`. */
  function Decrypt(p: int, c: int): (m: int)
    requires p != 0
    ensures m == 0 || m == 1
  {
    (c % p) % 2
  }

  /** c and v are congruent modulo p: v is the plaintext-with-noise that c
      carries. */
  predicate Congruent(p: int, c: int, v: int)
    requires p > 0
  {
    c % p == v % p
  }

  /** A ciphertext whose noisy plaintext v lies in [0, p) decrypts to the
      parity of v. */
  lemma DecryptNoisy(p: int, c: int, v: int)
    requires p > 0 && Congruent(p, c, v) && 0 <= v < p
    ensures Decrypt(p, c) == v % 2
  {
    ModArith.ModOfSmall(v, p);
  }

  /** Round trip: decryption recovers the bit whenever the bit plus its
      noise stays below p. */
  lemma DecryptEncrypt(s: Scheme, m: int, coins: seq<bool>)
    requires WellFormed(s) && |coins| == s.n && (m == 0 || m == 1)
    requires m + Noise(s, coins) < s.p
    ensures Encrypt(s, m, coins).Ok?
    ensures Decrypt(s.p, Encrypt(s, m, coins).value) == m
  {
    EncryptNoise(s, m, coins);
    DecryptNoisy(s.p, Encrypt(s, m, coins).value, m + Noise(s, coins));
    assert (m + Noise(s, coins)) % 2 == m;
  }

  /** `HE_xor`: integer addition of ciphertexts. On parities it is XOR. */
  function HE_xor(c1: int, c2: int): (c: int)
    ensures c % 2 == (if c1 % 2 == c2 % 2 then 0 else 1)
  {
    SumParity(c1, c2);
    c1 + c2
  }

  /** `HE_and`: integer multiplication of ciphertexts. On parities it is
      AND. */
  function HE_and(c1: int, c2: int): (c: int)
    ensures c % 2 == BloodTypes.AndBits(c1 % 2, c2 % 2)
  {
    ProductParity(c1, c2);
    c1 * c2
  }

  /** Adding ciphertexts adds the noisy plaintexts they carry. */
  lemma XorCarries(p: int, c1: int, v1: int, c2: int, v2: int)
    requires p > 0 && Congruent(p, c1, v1) && Congruent(p, c2, v2)
    ensures Congruent(p, HE_xor(c1, c2), v1 + v2)
  {
    ModArith.AddMod(c1, c2, p);
    ModArith.AddMod(v1, v2, p);
  }

  /** Multiplying ciphertexts multiplies the noisy plaintexts they carry. */
  lemma AndCarries(p: int, c1: int, v1: int, c2: int, v2: int)
    requires p > 0 && Congruent(p, c1, v1) && Congruent(p, c2, v2)
    ensures Congruent(p, HE_and(c1, c2), v1 * v2)
  {
    ModArith.MulMod(c1, c2, p);
    ModArith.MulMod(v1, v2, p);
  }

  /** Under the noise bound, `HE_xor` decrypts to the XOR of the two
      decryptions. */
  lemma XorDecrypts(p: int, c1: int, v1: int, c2: int, v2: int)
    requires p > 0 && Congruent(p, c1, v1) && Congruent(p, c2, v2)
    requires 0 <= v1 && 0 <= v2 && v1 + v2 < p
    ensures Decrypt(p, HE_xor(c1, c2)) == (if Decrypt(p, c1) == Decrypt(p, c2) then 0 else 1)
  {
    DecryptNoisy(p, c1, v1);
    DecryptNoisy(p, c2, v2);
    XorCarries(p, c1, v1, c2, v2);
    DecryptNoisy(p, HE_xor(c1, c2), v1 + v2);
    SumParity(v1, v2);
  }

  /** Under the noise bound, `HE_and` decrypts to the AND of the two
      decryptions. */
  lemma AndDecrypts(p: int, c1: int, v1: int, c2: int, v2: int)
    requires p > 0 && Congruent(p, c1, v1) && Congruent(p, c2, v2)
    requires 0 <= v1 < p && 0 <= v2 < p && v1 * v2 < p
    ensures Decrypt(p, HE_and(c1, c2)) == BloodTypes.AndBits(Decrypt(p, c1), Decrypt(p, c2))
  {
    DecryptNoisy(p, c1, v1);
    DecryptNoisy(p, c2, v2);
    AndCarries(p, c1, v1, c2, v2);
    ModArith.MulNonneg(v1, v2);
    DecryptNoisy(p, HE_and(c1, c2), v1 * v2);
    ProductParity(v1, v2);
  }

  /** The parity of a sum is the XOR of the parities. */
  lemma SumParity(a: int, b: int)
    ensures (a + b) % 2 == (if a % 2 == b % 2 then 0 else 1)
  {
    ModArith.AddMod(a, b, 2);
  }

  /** The parity of a product is the AND of the parities. */
  lemma ProductParity(a: int, b: int)
    ensures (a * b) % 2 == BloodTypes.AndBits(a % 2, b % 2)
  {
    ModArith.MulMod(a, b, 2);
  }
}
