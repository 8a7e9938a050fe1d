/** The receiver of the IKNP-style OT extension (project/OTExtension/OTReceiver.go).

    The receiver holds m selection bits r. In the base phase it plays the
    sender of k ElGamal OTs of seed pairs; it then builds T (column i is
    G(k0_i)) and sends U (column i is t^i xor G(k1_i) xor r). Finally it
    removes the pad H(t_j) from the ciphertext its bit r_j picks. G is
    `HashPrg.Prg` under the sealing oracle and H is `HashPrg.Hash` under
    the digest oracle. */
module OTExtReceiver {
  import opened Errors
  import opened Bytes
  import opened ModArith
  import opened ElGamal
  import opened Matrices
  import opened HashPrg
  import opened OTBasic

  /** The error returned when the generator fails in `GenerateMatrixT`. */
  const MatrixTError: string := "Error from pseudoRandomGenerator in GenerateMatrixT: bitLength must be positive"
  /** The error returned when the generator fails in `GenerateAndSendUMatrix`. */
  const MatrixUError: string := "Error from pseudoRandomGenerator in GenerateAndSendUMatrix: bitLength must be positive"
  /** The panic message for a selection bit that is not 0 or 1 in `DecryptCiphertexts`. */
  const DecryptBitsError: string := "Receiver choice bits are not 0 or 1 in DecryptCiphertexts"

  datatype ExtReceiver = ExtReceiver(
    m: nat,                  // number of transfers
    k: nat,                  // security parameter: number of base OTs
    l: int,                  // message length handed to Hash
    selectionBits: seq<int>, // r
    seeds: seq<Seed>,        // (k0_i, k1_i)
    publicKeys: seq<KeyPair>,
    t: Matrix)               // m x k

  function Init(selectionBits: seq<int>, k: nat, l: int): (r: ExtReceiver)
    ensures r.m == |selectionBits| && r.k == k && r.l == l && r.selectionBits == selectionBits
  {
    ExtReceiver(|selectionBits|, k, l, selectionBits, [], [], [])
  }

  /** `ChooseSeeds()`: k pairs of seeds, each drawn from [0, 2^k). */
  function ChooseSeeds(r: ExtReceiver, draws: seq<(int, int)>): (r': ExtReceiver)
    requires |draws| == r.k
    requires forall i :: 0 <= i < r.k ==> 0 <= draws[i].0 < Pow(2, r.k) && 0 <= draws[i].1 < Pow(2, r.k)
    ensures r' == r.(seeds := r'.seeds) && |r'.seeds| == r.k
    ensures forall i :: 0 <= i < r.k ==>
      r'.seeds[i].seed0 < Pow(2, r.k) && r'.seeds[i].seed1 < Pow(2, r.k) &&
      r'.seeds[i] == Seed(draws[i].0, draws[i].1)
  {
    r.(seeds := seq(r.k, i requires 0 <= i < r.k => Seed(draws[i].0, draws[i].1)))
  }

  function ReceiveKeys(r: ExtReceiver, keys: seq<KeyPair>): (r': ExtReceiver)
    ensures r' == r.(publicKeys := keys)
  {
    r.(publicKeys := keys)
  }

  /** `EncryptSeeds(elGamal)`: Seed0_i under key 0 of pair i and Seed1_i
      under key 1, with the nonce draws as parameters. */
  function EncryptSeeds(r: ExtReceiver, eg: Params, rDraws: seq<(int, int)>): (cts: seq<CiphertextPair>)
    requires eg.p > 0 && eg.q >= 0
    requires |r.seeds| >= r.k && |r.publicKeys| >= r.k && |rDraws| == r.k
    requires forall i :: 0 <= i < r.k ==> 0 <= rDraws[i].0 < eg.q - 1 && 0 <= rDraws[i].1 < eg.q - 1
    ensures |cts| == r.k
    ensures forall i :: 0 <= i < r.k ==>
      cts[i].ct0 == Encrypt(eg, r.seeds[i].seed0, r.publicKeys[i].key0, rDraws[i].0) &&
      cts[i].ct1 == Encrypt(eg, r.seeds[i].seed1, r.publicKeys[i].key1, rDraws[i].1)
  {
    seq(r.k, i requires 0 <= i < r.k =>
      EncryptPair(eg, r.seeds[i].seed0, r.seeds[i].seed1, r.publicKeys[i], rDraws[i]))
  }

  /** `GenerateMatrixT()`: column i of T is G(Seed0_i, m). The generator
      fails for m = 0, which panics as soon as there is a column. */
  function GenerateMatrixT(r: ExtReceiver, seal: (seq<byte>, seq<byte>) -> Sealed): (res: Result<ExtReceiver>)
    requires |r.seeds| >= r.k
    ensures res.Err? <==> r.k > 0 && r.m == 0
    ensures res.Ok? ==> res.value == r.(t := res.value.t) && Rectangular(res.value.t, r.m, r.k)
    ensures res.Ok? ==> forall j, i :: 0 <= j < r.m && 0 <= i < r.k ==>
      res.value.t[j][i] == Prg(seal, r.seeds[i].seed0, r.m).value[j]
  {
    if r.k > 0 && r.m == 0 then
      Err(MatrixTError)
    else
      Ok(r.(t := seq(r.m, j requires 0 <= j < r.m =>
                   seq(r.k, i requires 0 <= i < r.k => Prg(seal, r.seeds[i].seed0, r.m).value[j]))))
  }

  /** `GenerateAndSendMatrixU()`: u^i = t^i xor G(Seed1_i, m) xor r, each
      selection bit truncated to a byte. */
  function GenerateAndSendMatrixU(r: ExtReceiver, seal: (seq<byte>, seq<byte>) -> Sealed): (res: Result<Matrix>)
    requires |r.seeds| >= r.k && |r.selectionBits| >= r.m
    requires |r.t| >= r.m && forall j :: 0 <= j < r.m ==> |r.t[j]| >= r.k
    ensures res.Err? <==> r.k > 0 && r.m == 0
    ensures res.Ok? ==> Rectangular(res.value, r.m, r.k)
    ensures res.Ok? ==> forall j, i :: 0 <= j < r.m && 0 <= i < r.k ==>
      res.value[j][i] == r.t[j][i] ^ Prg(seal, r.seeds[i].seed1, r.m).value[j] ^ ToUint8(r.selectionBits[j])
  {
    if r.k > 0 && r.m == 0 then
      Err(MatrixUError)
    else
      Ok(seq(r.m, j requires 0 <= j < r.m =>
           seq(r.k, i requires 0 <= i < r.k =>
             r.t[j][i] ^ Prg(seal, r.seeds[i].seed1, r.m).value[j] ^ ToUint8(r.selectionBits[j]))))
  }

  /** Transfer j of `DecryptCiphertexts`: y_j is the ciphertext r_j picks,
      and the pad is H(t_j, l). */
  function DecryptRow(r: ExtReceiver, sha: seq<byte> -> Digest, pair: ByteCiphertextPair, j: nat): (res: Result<seq<byte>>)
    requires j < |r.selectionBits| && j < |r.t| && |r.t[j]| >= r.k
    ensures r.selectionBits[j] != 0 && r.selectionBits[j] != 1 ==> res.Err?
    ensures res.Ok? <==>
      ((r.selectionBits[j] == 0 || r.selectionBits[j] == 1) && GoRem(r.l, 8) >= 0 &&
       |if r.selectionBits[j] == 0 then pair.y0 else pair.y1| == ByteLength(r.l))
    ensures res.Ok? ==> Hash(sha, r.t[j][..r.k], r.l).Ok?
    ensures res.Ok? ==> var y := if r.selectionBits[j] == 0 then pair.y0 else pair.y1;
      XorBytes(y, Hash(sha, r.t[j][..r.k], r.l).value) == res
  {
    var bit := r.selectionBits[j];
    if bit != 0 && bit != 1 then Err(DecryptBitsError)
    else
      var y := if bit == 0 then pair.y0 else pair.y1;
      var hash :- Hash(sha, r.t[j][..r.k], r.l);
      XorBytes(y, hash)
  }

  /** The first n transfers of `DecryptCiphertexts`, in order. */
  function DecryptRows(r: ExtReceiver, sha: seq<byte> -> Digest, pairs: seq<ByteCiphertextPair>, n: nat)
    : (res: Result<seq<seq<byte>>>)
    requires n <= |pairs| && n <= |r.selectionBits| && n <= |r.t|
    requires forall j :: 0 <= j < n ==> |r.t[j]| >= r.k
    ensures res.Ok? <==> forall j :: 0 <= j < n ==> DecryptRow(r, sha, pairs[j], j).Ok?
    ensures res.Ok? ==> |res.value| == n
    ensures res.Ok? ==> forall j :: 0 <= j < n ==> DecryptRow(r, sha, pairs[j], j) == Ok(res.value[j])
  {
    var rs := seq(n, j requires 0 <= j < n => DecryptRow(r, sha, pairs[j], j));
    assert forall j :: 0 <= j < n ==> rs[j] == DecryptRow(r, sha, pairs[j], j);
    Sequence(rs)
  }

  /** `DecryptCiphertexts(pairs)`: x_j = y_j^(r_j) xor H(t_j, l) for every
      j < m; a non-bit selection or a length mismatch panics. */
  function DecryptCiphertexts(r: ExtReceiver, sha: seq<byte> -> Digest, pairs: seq<ByteCiphertextPair>)
    : (res: Result<seq<seq<byte>>>)
    requires r.m <= |pairs| && r.m <= |r.selectionBits| && r.m <= |r.t|
    requires forall j :: 0 <= j < r.m ==> |r.t[j]| >= r.k
    ensures res.Ok? <==> forall j :: 0 <= j < r.m ==> DecryptRow(r, sha, pairs[j], j).Ok?
    ensures res.Ok? ==> |res.value| == r.m
    ensures res.Ok? ==> forall j :: 0 <= j < r.m ==> DecryptRow(r, sha, pairs[j], j) == Ok(res.value[j])
  {
    DecryptRows(r, sha, pairs, r.m)
  }
}
