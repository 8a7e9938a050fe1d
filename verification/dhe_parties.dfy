/** The two parties of handin6. Alice holds the recipient's blood type and
    the secret key. Bob holds the donor's type and evaluates the
    compatibility formula
      (1 ^ ((1 ^ x1) & y1)) & (1 ^ ((1 ^ x2) & y2)) & (1 ^ ((1 ^ x3) & y3))
    on ciphertexts, with `HE_xor` for ^ and `HE_and` for &, using his own
    encryptions of 1 for the constants. */
module DHEParties {
  import opened Errors
  import BloodTypes
  import DHE
  import ModArith

  /** `Alice`: her three input bits and the secret key, nil until received. */
  datatype Alice = Alice(x: seq<int>, sk: Option<int>)

  /** `Bob`: his three input bits, the array of six slots of which the first
      three receive his encrypted bits, and six encryptions of 1. A nil
      pointer is `None`. */
  datatype Bob = Bob(y: seq<int>, encryptedYBits: seq<Option<int>>, encryptedOnes: seq<Option<int>>)

  /** Three entries, each 0 or 1. */
  predicate Bits3(b: seq<int>) {
    |b| == 3 && forall i :: 0 <= i < 3 ==> b[i] == 0 || b[i] == 1
  }

  /** The zero values `Alice{}` and `Bob{}`. */
  function NewAlice(): Alice {
    Alice([0, 0, 0], None)
  }

  function NewBob(): Bob {
    Bob([0, 0, 0], [None, None, None, None, None, None], [None, None, None, None, None, None])
  }

  /** The fixed array lengths of `Bob`. */
  predicate Shaped(b: Bob) {
    |b.y| == 3 && |b.encryptedYBits| == 6 && |b.encryptedOnes| == 6
  }

  /** Every slot `RecieveAndEvaluate` reads holds a ciphertext. */
  predicate Filled(b: Bob) {
    Shaped(b) &&
    (forall i :: 0 <= i < 3 ==> b.encryptedYBits[i].Some?) &&
    (forall i :: 0 <= i < 6 ==> b.encryptedOnes[i].Some?)
  }

  /** Coin sequences for k encryptions under s. */
  predicate CoinsFor(s: DHE.Scheme, coins: seq<seq<bool>>, k: nat) {
    |coins| == k && forall i :: 0 <= i < k ==> |coins[i]| == s.n
  }

  // ---------------------------------------------------------------------------
  // Alice

  /** `alice.Init(x)`: her bits are the three bits of x, high bit first. */
  function AliceInit(a: Alice, x: int): (r: Alice)
    ensures Bits3(r.x) && r.sk == a.sk
    ensures 0 <= x < 8 ==> 4 * r.x[0] + 2 * r.x[1] + r.x[2] == x
  {
    Alice(BloodTypes.ExtractBits(x), a.sk)
  }

  /** `alice.Encrypt(DHE)`: one encryption per input bit, in order. The
      first bit that is not 0 or 1 panics. */
  function AliceEncrypt(a: Alice, s: DHE.Scheme, coins: seq<seq<bool>>): (r: Result<seq<int>>)
    requires |a.x| == 3 && 0 <= s.n <= |s.y| && CoinsFor(s, coins, 3)
    ensures r.Ok? <==> Bits3(a.x)
    ensures r.Ok? ==> |r.value| == 3 && forall i :: 0 <= i < 3 ==> DHE.Encrypt(s, a.x[i], coins[i]) == Ok(r.value[i])
  {
    if !Bits3(a.x) then Err("m must be a bit (0 or 1)")
    else Ok(EncryptEach(s, a.x, coins))
  }

  /** Each of Alice's ciphertexts decrypts to her bit while its noise stays
      below p. */
  lemma AliceEncryptDecrypts(a: Alice, s: DHE.Scheme, coins: seq<seq<bool>>)
    requires DHE.WellFormed(s) && Bits3(a.x) && CoinsFor(s, coins, 3)
    requires forall i :: 0 <= i < 3 ==> a.x[i] + DHE.Noise(s, coins[i]) < s.p
    ensures AliceEncrypt(a, s, coins).Ok?
    ensures forall i :: 0 <= i < 3 ==> DHE.Decrypt(s.p, AliceEncrypt(a, s, coins).value[i]) == a.x[i]
  {
    forall i | 0 <= i < 3
      ensures DHE.Decrypt(s.p, AliceEncrypt(a, s, coins).value[i]) == a.x[i]
    {
      DHE.DecryptEncrypt(s, a.x[i], coins[i]);
    }
  }

  /** `alice.RecieveSecretKey(p)`: she keeps p as her key and her bits. */
  function AliceReceiveSecretKey(a: Alice, p: int): (r: Alice)
    ensures r.sk == Some(p) && r.x == a.x
  {
    Alice(a.x, Some(p))
  }

  /** `alice.Decrypt(c, DHE)`: `(c mod sk) mod 2`. The call passes the key as
      a second argument to a `Decrypt` that takes one; this is the decryption
      under her key that it evidently means. A nil or zero key would panic. */
  function AliceDecrypt(a: Alice, c: int): (m: int)
    requires a.sk.Some? && a.sk.value != 0
    ensures m == 0 || m == 1
    ensures m == DHE.Decrypt(a.sk.value, c)
  {
    DHE.Decrypt(a.sk.value, c)
  }

  // ---------------------------------------------------------------------------
  // Bob

  /** `bob.Init(y)`: his bits are the three bits of y, high bit first. */
  function BobInit(b: Bob, y: int): (r: Bob)
    ensures Bits3(r.y)
    ensures 0 <= y < 8 ==> 4 * r.y[0] + 2 * r.y[1] + r.y[2] == y
    ensures r.encryptedYBits == b.encryptedYBits && r.encryptedOnes == b.encryptedOnes
  {
    Bob(BloodTypes.ExtractBits(y), b.encryptedYBits, b.encryptedOnes)
  }

  /** `bob.Encrypt(DHE)`: coins 0..2 encrypt his bits into slots 0..2, and
      coins 3..8 make six encryptions of 1. Slots 3..5 stay as they were. A
      bit that is not 0 or 1 panics before any encryption of 1 is made. */
  function BobEncrypt(b: Bob, s: DHE.Scheme, coins: seq<seq<bool>>): (r: Result<Bob>)
    requires Shaped(b) && 0 <= s.n <= |s.y| && CoinsFor(s, coins, 9)
    ensures r.Ok? <==> Bits3(b.y)
    ensures r.Ok? ==> Filled(r.value) && r.value.y == b.y
    ensures r.Ok? ==> forall i :: 0 <= i < 3 ==> Some(DHE.Encrypt(s, b.y[i], coins[i]).value) == r.value.encryptedYBits[i]
    ensures r.Ok? ==> r.value.encryptedYBits[3..] == b.encryptedYBits[3..]
    ensures r.Ok? ==> forall i :: 0 <= i < 6 ==> Some(DHE.Encrypt(s, 1, coins[3 + i]).value) == r.value.encryptedOnes[i]
  {
    if !Bits3(b.y) then Err("m must be a bit (0 or 1)")
    else
      var ys := EncryptEach(s, b.y, coins[..3]);
      var ones := EncryptEach(s, [1, 1, 1, 1, 1, 1], coins[3..]);
      Ok(Bob(b.y, Present(ys) + b.encryptedYBits[3..], Present(ones)))
  }

  /** One encryption per bit, each with its own coins. */
  function EncryptEach(s: DHE.Scheme, ms: seq<int>, coins: seq<seq<bool>>): (cs: seq<int>)
    requires 0 <= s.n <= |s.y| && CoinsFor(s, coins, |ms|)
    requires forall i :: 0 <= i < |ms| ==> ms[i] == 0 || ms[i] == 1
    ensures |cs| == |ms|
    ensures forall i :: 0 <= i < |ms| ==> DHE.Encrypt(s, ms[i], coins[i]) == Ok(cs[i])
  {
    seq(|ms|, i requires 0 <= i < |ms| => DHE.Encrypt(s, ms[i], coins[i]).value)
  }

  /** Non-nil pointers to the given values. */
  function Present(cs: seq<int>): (ps: seq<Option<int>>)
    ensures |ps| == |cs| && forall i :: 0 <= i < |cs| ==> ps[i] == Some(cs[i])
  {
    seq(|cs|, i requires 0 <= i < |cs| => Some(cs[i]))
  }

  /** Bob's formula on any integers: `HE_xor` adds, `HE_and` multiplies. `o`
      are the six encrypted ones in the order the formula uses them. With
      odd ones, the result is odd exactly when at every position the parity
      of y is at most that of x. */
  function Circuit(o: seq<int>, y: seq<int>, x: seq<int>): (c: int)
    requires |o| == 6 && |y| >= 3 && |x| >= 3
    ensures (forall i :: 0 <= i < 6 ==> o[i] % 2 == 1) ==>
      (c % 2 == 1 <==> forall i :: 0 <= i < 3 ==> y[i] % 2 <= x[i] % 2)
  {
    var d2_0 := DHE.HE_and(DHE.HE_xor(o[0], x[0]), y[0]);
    var d2_1 := DHE.HE_and(DHE.HE_xor(o[1], x[1]), y[1]);
    var d2_2 := DHE.HE_and(DHE.HE_xor(o[2], x[2]), y[2]);
    var d1 := DHE.HE_and(DHE.HE_xor(d2_0, o[3]), DHE.HE_xor(d2_1, o[4]));
    DHE.HE_and(d1, DHE.HE_xor(d2_2, o[5]))
  }

  /** `bob.RecieveAndEvaluate(encryptedXBits)`: the formula on Alice's first
      three ciphertexts, his encrypted bits and his encrypted ones. */
  function BobEvaluate(b: Bob, xs: seq<int>): (c: int)
    requires Filled(b) && |xs| >= 3
    ensures c == Circuit(OnesOf(b), YBitsOf(b), xs[..3])
  {
    CircuitPrefix(OnesOf(b), YBitsOf(b), xs);
    Circuit(OnesOf(b), YBitsOf(b), xs)
  }

  lemma CircuitPrefix(o: seq<int>, y: seq<int>, x: seq<int>)
    requires |o| == 6 && |y| >= 3 && |x| >= 3
    ensures Circuit(o, y, x) == Circuit(o, y, x[..3])
  {
  }

  function OnesOf(b: Bob): (o: seq<int>)
    requires Filled(b)
    ensures |o| == 6
  {
    seq(6, i requires 0 <= i < 6 => b.encryptedOnes[i].value)
  }

  function YBitsOf(b: Bob): (y: seq<int>)
    requires Filled(b)
    ensures |y| == 3
  {
    seq(3, i requires 0 <= i < 3 => b.encryptedYBits[i].value)
  }

  // ---------------------------------------------------------------------------
  // The formula on noisy plaintexts

  /** Replacing each ciphertext by the noisy plaintext it carries modulo p
      does not change the result modulo p. */
  lemma {:induction false} CircuitCarries(p: int, o: seq<int>, y: seq<int>, x: seq<int>, vo: seq<int>, vy: seq<int>, vx: seq<int>)
    requires p > 0 && |o| == 6 && |y| >= 3 && |x| >= 3 && |vo| == 6 && |vy| >= 3 && |vx| >= 3
    requires forall i :: 0 <= i < 6 ==> DHE.Congruent(p, o[i], vo[i])
    requires forall i :: 0 <= i < 3 ==> DHE.Congruent(p, y[i], vy[i]) && DHE.Congruent(p, x[i], vx[i])
    ensures DHE.Congruent(p, Circuit(o, y, x), Circuit(vo, vy, vx))
  {
    var a0, a1, a2 := Step(p, o[0], x[0], y[0], vo[0], vx[0], vy[0]), Step(p, o[1], x[1], y[1], vo[1], vx[1], vy[1]), Step(p, o[2], x[2], y[2], vo[2], vx[2], vy[2]);
    var va0 := DHE.HE_and(DHE.HE_xor(vo[0], vx[0]), vy[0]);
    var va1 := DHE.HE_and(DHE.HE_xor(vo[1], vx[1]), vy[1]);
    var va2 := DHE.HE_and(DHE.HE_xor(vo[2], vx[2]), vy[2]);
    DHE.XorCarries(p, a0, va0, o[3], vo[3]);
    DHE.XorCarries(p, a1, va1, o[4], vo[4]);
    DHE.XorCarries(p, a2, va2, o[5], vo[5]);
    DHE.AndCarries(p, DHE.HE_xor(a0, o[3]), DHE.HE_xor(va0, vo[3]), DHE.HE_xor(a1, o[4]), DHE.HE_xor(va1, vo[4]));
    var d1 := DHE.HE_and(DHE.HE_xor(a0, o[3]), DHE.HE_xor(a1, o[4]));
    var vd1 := DHE.HE_and(DHE.HE_xor(va0, vo[3]), DHE.HE_xor(va1, vo[4]));
    DHE.AndCarries(p, d1, vd1, DHE.HE_xor(a2, o[5]), DHE.HE_xor(va2, vo[5]));
  }

  /** One `(1 ^ x) & y` term carries the same term of the noisy plaintexts. */
  function Step(p: int, o: int, x: int, y: int, vo: int, vx: int, vy: int): (t: int)
    requires p > 0 && DHE.Congruent(p, o, vo) && DHE.Congruent(p, x, vx) && DHE.Congruent(p, y, vy)
    ensures t == DHE.HE_and(DHE.HE_xor(o, x), y)
    ensures DHE.Congruent(p, t, DHE.HE_and(DHE.HE_xor(vo, vx), vy))
  {
    DHE.XorCarries(p, o, vo, x, vx);
    DHE.AndCarries(p, DHE.HE_xor(o, x), DHE.HE_xor(vo, vx), y, vy);
    DHE.HE_and(DHE.HE_xor(o, x), y)
  }

  /** On non-negative values the formula is non-negative. */
  lemma CircuitNonneg(vo: seq<int>, vy: seq<int>, vx: seq<int>)
    requires |vo| == 6 && |vy| >= 3 && |vx| >= 3
    requires forall i :: 0 <= i < 6 ==> vo[i] >= 0
    requires forall i :: 0 <= i < 3 ==> vy[i] >= 0 && vx[i] >= 0
    ensures Circuit(vo, vy, vx) >= 0
  {
    var t0, t1, t2 := Nonneg(vo[0], vx[0], vy[0]), Nonneg(vo[1], vx[1], vy[1]), Nonneg(vo[2], vx[2], vy[2]);
    var d1 := DHE.HE_and(DHE.HE_xor(t0, vo[3]), DHE.HE_xor(t1, vo[4]));
    assert d1 >= 0 by {
      ModArith.MulNonneg(DHE.HE_xor(t0, vo[3]), DHE.HE_xor(t1, vo[4]));
    }
    ModArith.MulNonneg(d1, DHE.HE_xor(t2, vo[5]));
  }

  function Nonneg(o: int, x: int, y: int): (t: int)
    requires o >= 0 && x >= 0 && y >= 0
    ensures t == DHE.HE_and(DHE.HE_xor(o, x), y) && t >= 0
  {
    ModArith.MulNonneg(o + x, y);
    DHE.HE_and(DHE.HE_xor(o, x), y)
  }

  /** With odd "ones", the term `1 ^ ((1 ^ x) & y)` has the parity of the
      same bit formula on the parities of x and y. */
  lemma TermParity(o: int, x: int, y: int, o': int)
    requires o % 2 == 1 && o' % 2 == 1
    ensures DHE.HE_xor(DHE.HE_and(DHE.HE_xor(o, x), y), o') % 2
         == BloodTypes.Flip(BloodTypes.AndBits(BloodTypes.Flip(x % 2), y % 2))
  {
    DHE.SumParity(o, x);
    DHE.ProductParity(o + x, y);
    DHE.SumParity((o + x) * y, o');
  }

  /** On values with odd "ones" and the parities of the two parties' bits,
      the formula's parity is the blood-type compatibility bit. */
  lemma CircuitParity(vo: seq<int>, vy: seq<int>, vx: seq<int>, recipient: int, donor: int)
    requires |vo| == 6 && |vy| >= 3 && |vx| >= 3 && 0 <= recipient < 8 && 0 <= donor < 8
    requires forall i :: 0 <= i < 6 ==> vo[i] % 2 == 1
    requires forall i :: 0 <= i < 3 ==> vx[i] % 2 == BloodTypes.ExtractBits(recipient)[i]
    requires forall i :: 0 <= i < 3 ==> vy[i] % 2 == BloodTypes.ExtractBits(donor)[i]
    ensures Circuit(vo, vy, vx) % 2 == BloodTypes.ComputeBloodtypeCompatibility(recipient, donor)
  {
    TermParity(vo[0], vx[0], vy[0], vo[3]);
    TermParity(vo[1], vx[1], vy[1], vo[4]);
    TermParity(vo[2], vx[2], vy[2], vo[5]);
    var e0 := DHE.HE_xor(DHE.HE_and(DHE.HE_xor(vo[0], vx[0]), vy[0]), vo[3]);
    var e1 := DHE.HE_xor(DHE.HE_and(DHE.HE_xor(vo[1], vx[1]), vy[1]), vo[4]);
    var e2 := DHE.HE_xor(DHE.HE_and(DHE.HE_xor(vo[2], vx[2]), vy[2]), vo[5]);
    DHE.ProductParity(e0, e1);
    DHE.ProductParity(e0 * e1, e2);
    assert Circuit(vo, vy, vx) == (e0 * e1) * e2;
  }

  // ---------------------------------------------------------------------------
  // The whole protocol

  /** Each bit plus the noise of its coins: the value its ciphertext
      carries modulo p. */
  function NoisyBits(s: DHE.Scheme, ms: seq<int>, coins: seq<seq<bool>>): (v: seq<int>)
    requires CoinsFor(s, coins, |ms|) && s.n <= |s.r|
    ensures |v| == |ms|
  {
    seq(|ms|, i requires 0 <= i < |ms| => ms[i] + DHE.Noise(s, coins[i]))
  }

  /** The formula on the values the ciphertexts of a run carry. Decryption
      is correct while this stays below p. */
  function RunNoise(s: DHE.Scheme, recipient: int, donor: int, aliceCoins: seq<seq<bool>>, bobCoins: seq<seq<bool>>): int
    requires DHE.WellFormed(s) && CoinsFor(s, aliceCoins, 3) && CoinsFor(s, bobCoins, 9)
  {
    Circuit(NoisyBits(s, [1, 1, 1, 1, 1, 1], bobCoins[3..]),
            NoisyBits(s, BloodTypes.ExtractBits(donor), bobCoins[..3]),
            NoisyBits(s, BloodTypes.ExtractBits(recipient), aliceCoins))
  }

  /** Bob after `Init(donor)` and `Encrypt`. */
  function BobReady(s: DHE.Scheme, donor: int, bobCoins: seq<seq<bool>>): (b: Bob)
    requires DHE.WellFormed(s) && CoinsFor(s, bobCoins, 9)
    ensures Filled(b)
    ensures OnesOf(b) == EncryptEach(s, [1, 1, 1, 1, 1, 1], bobCoins[3..])
    ensures YBitsOf(b) == EncryptEach(s, BloodTypes.ExtractBits(donor), bobCoins[..3])
  {
    var b := BobEncrypt(BobInit(NewBob(), donor), s, bobCoins).value;
    assert OnesOf(b) == EncryptEach(s, [1, 1, 1, 1, 1, 1], bobCoins[3..]);
    assert YBitsOf(b) == EncryptEach(s, BloodTypes.ExtractBits(donor), bobCoins[..3]);
    b
  }

  /** The ciphertexts Alice sends after `Init(recipient)`. */
  function AliceSends(s: DHE.Scheme, recipient: int, aliceCoins: seq<seq<bool>>): (xs: seq<int>)
    requires DHE.WellFormed(s) && CoinsFor(s, aliceCoins, 3)
    ensures xs == EncryptEach(s, BloodTypes.ExtractBits(recipient), aliceCoins)
  {
    var xs := AliceEncrypt(AliceInit(NewAlice(), recipient), s, aliceCoins).value;
    assert xs == EncryptEach(s, BloodTypes.ExtractBits(recipient), aliceCoins);
    xs
  }

  /** A run of the handin6 protocol on fresh parties: both parties take
      their inputs, Bob encrypts his bits and ones, Alice encrypts hers and
      sends them, Bob evaluates, and Alice decrypts with the key p. The
      result is whether the output bit is 1. Neither party can panic here,
      since both hold bits after `Init`. For types in range it answers as
      the lookup table does, for all 64 pairs, whenever the noise of the
      evaluated formula stays below p. */
  function Compatible(s: DHE.Scheme, recipient: int, donor: int, aliceCoins: seq<seq<bool>>, bobCoins: seq<seq<bool>>): (b: bool)
    requires DHE.WellFormed(s) && CoinsFor(s, aliceCoins, 3) && CoinsFor(s, bobCoins, 9)
    ensures 0 <= recipient < 8 && 0 <= donor < 8 && RunNoise(s, recipient, donor, aliceCoins, bobCoins) < s.p ==>
      (b <==> BloodTypes.LookUpBloodType(recipient, donor))
  {
    var alice := AliceReceiveSecretKey(AliceInit(NewAlice(), recipient), s.p);
    var b := AliceDecrypt(alice, BobEvaluate(BobReady(s, donor, bobCoins), AliceSends(s, recipient, aliceCoins))) == 1;
    if 0 <= recipient < 8 && 0 <= donor < 8 && RunNoise(s, recipient, donor, aliceCoins, bobCoins) < s.p then
      RunDecrypts(s, recipient, donor, aliceCoins, bobCoins);
      BloodTypes.CircuitMatchesTable(recipient, donor);
      b
    else
      b
  }

  /** Each ciphertext carries, modulo p, its value; the values are
      non-negative and have the parity of the bits. */
  predicate Carries(p: int, cs: seq<int>, vs: seq<int>, ms: seq<int>) {
    p > 0 && |cs| == |ms| && |vs| == |ms| &&
    forall i :: 0 <= i < |ms| ==> DHE.Congruent(p, cs[i], vs[i]) && vs[i] >= 0 && vs[i] % 2 == ms[i]
  }

  /** Ciphertexts of bits carry, modulo p, the bits plus their noise. */
  lemma EachCarries(s: DHE.Scheme, ms: seq<int>, coins: seq<seq<bool>>)
    requires DHE.WellFormed(s) && CoinsFor(s, coins, |ms|)
    requires forall i :: 0 <= i < |ms| ==> ms[i] == 0 || ms[i] == 1
    ensures Carries(s.p, EncryptEach(s, ms, coins), NoisyBits(s, ms, coins), ms)
  {
    forall i | 0 <= i < |ms|
      ensures DHE.Congruent(s.p, EncryptEach(s, ms, coins)[i], NoisyBits(s, ms, coins)[i])
      ensures NoisyBits(s, ms, coins)[i] >= 0 && NoisyBits(s, ms, coins)[i] % 2 == ms[i]
    {
      DHE.EncryptNoise(s, ms[i], coins[i]);
      DHE.SumParity(ms[i], DHE.Noise(s, coins[i]));
    }
  }

  /** The evaluated ciphertext decrypts to the compatibility bit when every
      input carries a value of the right parity and the formula on those
      values stays below p. */
  lemma EvaluationDecrypts(p: int, o: seq<int>, y: seq<int>, x: seq<int>, vo: seq<int>, vy: seq<int>, vx: seq<int>, recipient: int, donor: int)
    requires p > 0 && 0 <= recipient < 8 && 0 <= donor < 8
    requires Carries(p, o, vo, [1, 1, 1, 1, 1, 1])
    requires Carries(p, y, vy, BloodTypes.ExtractBits(donor))
    requires Carries(p, x, vx, BloodTypes.ExtractBits(recipient))
    requires Circuit(vo, vy, vx) < p
    ensures DHE.Decrypt(p, Circuit(o, y, x)) == BloodTypes.ComputeBloodtypeCompatibility(recipient, donor)
  {
    CircuitCarries(p, o, y, x, vo, vy, vx);
    CircuitNonneg(vo, vy, vx);
    DHE.DecryptNoisy(p, Circuit(o, y, x), Circuit(vo, vy, vx));
    CircuitParity(vo, vy, vx, recipient, donor);
  }

  /** In a run of fresh parties, Bob's encrypted ones, his encrypted bits
      and Alice's ciphertexts carry their noisy plaintexts. */
  lemma RunCarries(s: DHE.Scheme, recipient: int, donor: int, aliceCoins: seq<seq<bool>>, bobCoins: seq<seq<bool>>)
    requires DHE.WellFormed(s) && CoinsFor(s, aliceCoins, 3) && CoinsFor(s, bobCoins, 9)
    ensures Carries(s.p, OnesOf(BobReady(s, donor, bobCoins)),
      NoisyBits(s, [1, 1, 1, 1, 1, 1], bobCoins[3..]), [1, 1, 1, 1, 1, 1])
    ensures Carries(s.p, YBitsOf(BobReady(s, donor, bobCoins)),
      NoisyBits(s, BloodTypes.ExtractBits(donor), bobCoins[..3]), BloodTypes.ExtractBits(donor))
    ensures Carries(s.p, AliceSends(s, recipient, aliceCoins),
      NoisyBits(s, BloodTypes.ExtractBits(recipient), aliceCoins), BloodTypes.ExtractBits(recipient))
  {
    EachCarries(s, [1, 1, 1, 1, 1, 1], bobCoins[3..]);
    EachCarries(s, BloodTypes.ExtractBits(donor), bobCoins[..3]);
    EachCarries(s, BloodTypes.ExtractBits(recipient), aliceCoins);
  }

  /** Bob's evaluation of a run decrypts, under p, to the circuit's value
      whenever the noise of the evaluated formula stays below p. */
  lemma RunDecrypts(s: DHE.Scheme, recipient: int, donor: int, aliceCoins: seq<seq<bool>>, bobCoins: seq<seq<bool>>)
    requires DHE.WellFormed(s) && CoinsFor(s, aliceCoins, 3) && CoinsFor(s, bobCoins, 9)
    requires 0 <= recipient < 8 && 0 <= donor < 8
    requires RunNoise(s, recipient, donor, aliceCoins, bobCoins) < s.p
    ensures DHE.Decrypt(s.p, BobEvaluate(BobReady(s, donor, bobCoins), AliceSends(s, recipient, aliceCoins))) ==
      BloodTypes.ComputeBloodtypeCompatibility(recipient, donor)
  {
    RunCarries(s, recipient, donor, aliceCoins, bobCoins);
    var bob, xs := BobReady(s, donor, bobCoins), AliceSends(s, recipient, aliceCoins);
    assert xs[..3] == xs;
    EvaluationDecrypts(s.p, OnesOf(bob), YBitsOf(bob), xs,
      NoisyBits(s, [1, 1, 1, 1, 1, 1], bobCoins[3..]), NoisyBits(s, BloodTypes.ExtractBits(donor), bobCoins[..3]),
      NoisyBits(s, BloodTypes.ExtractBits(recipient), aliceCoins), recipient, donor);
  }
}
