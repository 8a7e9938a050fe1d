/** The sender of the IKNP-style OT extension (project/OTExtension/OTSender.go).

    The sender draws k random bits s, learns Seed_{s_i} of every base pair
    through k ElGamal OTs in which it plays the receiver, and builds Q from
    the receiver's U: q^i = G(seed_i) when s_i = 0 and u^i xor G(seed_i)
    when s_i = 1. Row j of Q then pads message 0 with H(q_j) and message 1
    with H(q_j xor s). */
module OTExtSender {
  import opened Errors
  import opened Bytes
  import opened ModArith
  import opened ElGamal
  import opened Matrices
  import opened Eklundh
  import opened HashPrg
  import opened OTBasic

  /** The panic message for a choice bit that is not 0 or 1 in `Choose`. */
  const ChooseBitsError: string := "Receiver choice bits are not 0 or 1 in Choose"
  /** The panic message for an s bit that is not 0 or 1 in `GenerateQMatrix`. */
  const SIndexError: string := "Receiver S idx are not 0 or 1 in GenerateQMatrix"
  /** The prefix of the message for a generator failure in `GenerateQMatrix`. */
  const QPrgPrefix: string := "Error from pseudoRandomGenerator in GenerateQMatrix: "
  /** The prefix of the message for an XOR failure in `GenerateQMatrixEklundh`. */
  const EklundhXorPrefix: string := "Error from XORBytes in GenerateQMatrixEklundh: "
  /** The prefix of the message for an XOR failure on q_j and s in `MakeAndSendCiphertexts`. */
  const CiphertextXorPrefix: string := "Error from XORBytes in MakeAndSendCiphertexts: "
  /** The panic message for an XOR failure on a message in `MakeAndSendCiphertexts`. */
  const CiphertextXorError: string := "Error from XORBytes in MakeAndSendCiphertexts"

  datatype ExtSender = ExtSender(
    messages: seq<MessagePair>, // (x0_j, x1_j)
    l: int,                     // message length handed to Hash
    m: nat,                     // number of transfers
    k: nat,                     // security parameter
    s: seq<byte>,               // the k random bits
    secretKeys: seq<nat>,
    seeds: seq<nat>,            // Seed_{s_i} of every base pair
    q: Matrix)                  // m x k

  function Init(messages: seq<MessagePair>, k: nat, l: int): (sd: ExtSender)
    ensures sd.messages == messages && sd.m == |messages| && sd.k == k && sd.l == l
  {
    ExtSender(messages, l, |messages|, k, [], [], [], [])
  }

  /** `ChooseRandomK()`: s_i is the i-th draw from {0, 1}. */
  function ChooseRandomK(sd: ExtSender, draws: seq<int>): (sd': ExtSender)
    requires |draws| == sd.k && forall i :: 0 <= i < sd.k ==> 0 <= draws[i] < 2
    ensures sd' == sd.(s := sd'.s)
    ensures |sd'.s| == sd.k && IsBitString(sd'.s)
    ensures forall i :: 0 <= i < sd.k ==> sd'.s[i] as int == draws[i]
  {
    sd.(s := seq(sd.k, i requires 0 <= i < sd.k => ToUint8(draws[i])))
  }

  /** `Choose(elGamal)`: the base-OT key pairs, real key in slot s_i. */
  function Choose(sd: ExtSender, eg: Params, skDraws: seq<int>, ogenDraws: seq<int>)
    : (res: Result<(ExtSender, seq<KeyPair>)>)
    requires eg.p > 0 && |sd.s| >= sd.k
    requires |skDraws| == sd.k && |ogenDraws| == sd.k
    requires forall i :: 0 <= i < sd.k ==> 0 <= skDraws[i] < eg.q - 1
    requires forall i :: 0 <= i < sd.k ==> 0 <= ogenDraws[i] < OGenBound(eg)
    ensures res.Err? <==> !IsBitString(sd.s[..sd.k])
    ensures res.Ok? ==> res.value.0 == sd.(secretKeys := res.value.0.secretKeys)
    ensures res.Ok? ==> |res.value.0.secretKeys| == sd.k && |res.value.1| == sd.k
    ensures res.Ok? ==> forall i :: 0 <= i < sd.k ==>
      1 <= res.value.0.secretKeys[i] <= eg.q - 1 &&
      Slot(res.value.1[i].key0, res.value.1[i].key1, sd.s[i]) == Gen(eg, res.value.0.secretKeys[i]) &&
      OtherSlot(res.value.1[i].key0, res.value.1[i].key1, sd.s[i]) == OGen(eg, ogenDraws[i])
  {
    var (sks, keys) :- ChooseKeys(sd.s[..sd.k], eg, skDraws, ogenDraws,
                                  ChooseBitsError);
    Ok((sd.(secretKeys := sks), keys))
  }

  /** The panic of `DecryptSeeds` on a choice bit that is not 0 or 1. */
  const DecryptSeedsError: string := "Receiver choice bits are not 0 or 1 in DecryptMessage"

  /** The first n base transfers of `DecryptSeeds`, in order: slot s_i of
      pair i under secret key i. */
  function DecryptSeedList(sd: ExtSender, pairs: seq<CiphertextPair>, eg: Params, n: nat): (res: Result<seq<nat>>)
    requires eg.p > 0 && n <= |pairs| && n <= |sd.s| && n <= |sd.secretKeys|
    ensures res.Ok? <==> forall i :: 0 <= i < n ==>
      DecryptSlot(eg, pairs[i], sd.s[i], sd.secretKeys[i], DecryptSeedsError).Ok?
    ensures res.Ok? ==> |res.value| == n
    ensures res.Ok? ==> forall i :: 0 <= i < n ==>
      DecryptSlot(eg, pairs[i], sd.s[i], sd.secretKeys[i], DecryptSeedsError)
        == Ok(res.value[i] as int)
  {
    var rs := seq(n, i requires 0 <= i < n => DecryptSlot(eg, pairs[i], sd.s[i], sd.secretKeys[i], DecryptSeedsError));
    assert forall i :: 0 <= i < n ==> rs[i] == DecryptSlot(eg, pairs[i], sd.s[i], sd.secretKeys[i], DecryptSeedsError);
    match Sequence(rs)
    case Err(e) => Err(e)
    case Ok(v) => Ok(ToNats(v))
  }

  /** `DecryptSeeds(ciphertextPairs, elGamal)`. Entries of `pairs` beyond
      the k-th are never decrypted and leave nil seeds, which the model
      omits. */
  function DecryptSeeds(sd: ExtSender, pairs: seq<CiphertextPair>, eg: Params): (res: Result<ExtSender>)
    requires eg.p > 0 && sd.k <= |pairs| && sd.k <= |sd.s| && sd.k <= |sd.secretKeys|
    ensures res.Ok? <==> DecryptSeedList(sd, pairs, eg, sd.k).Ok?
    ensures res.Ok? ==> res.value == sd.(seeds := DecryptSeedList(sd, pairs, eg, sd.k).value)
  {
    var seeds :- DecryptSeedList(sd, pairs, eg, sd.k);
    Ok(sd.(seeds := seeds))
  }

  // ---------------------------------------------------------------------------
  // The matrix Q

  /** Entry (j, i) of Q as `GenerateMatrixQ` sets it. */
  function QEntry(sd: ExtSender, seal: (seq<byte>, seq<byte>) -> Sealed, u: Matrix, j: nat, i: nat): byte
    requires i < |sd.seeds| && i < |sd.s| && j < |u| && i < |u[j]| && j < sd.m
  {
    var g := Prg(seal, sd.seeds[i], sd.m).value[j];
    if sd.s[i] == 0 then g else u[j][i] ^ g
  }

  /** `GenerateMatrixQ(U)`. Both the generator's error and the check of s_i
      sit inside the loop over j, so with m = 0 nothing panics. */
  function GenerateMatrixQ(sd: ExtSender, seal: (seq<byte>, seq<byte>) -> Sealed, u: Matrix): (res: Result<ExtSender>)
    requires |sd.seeds| >= sd.k && |sd.s| >= sd.k
    requires |u| >= sd.m && forall j :: 0 <= j < sd.m ==> |u[j]| >= sd.k
    ensures res.Err? <==> sd.m > 0 && !IsBitString(sd.s[..sd.k])
    ensures res.Ok? ==> res.value == sd.(q := res.value.q) && Rectangular(res.value.q, sd.m, sd.k)
    ensures res.Ok? ==> forall j, i :: 0 <= j < sd.m && 0 <= i < sd.k ==>
      res.value.q[j][i] == (if sd.s[i] == 0 then Prg(seal, sd.seeds[i], sd.m).value[j]
                            else u[j][i] ^ Prg(seal, sd.seeds[i], sd.m).value[j])
  {
    if sd.m > 0 && exists i :: 0 <= i < sd.k && !IsBit(sd.s[i]) then
      Err(SIndexError)
    else
      Ok(sd.(q := seq(sd.m, j requires 0 <= j < sd.m =>
                    seq(sd.k, i requires 0 <= i < sd.k => QEntry(sd, seal, u, j, i)))))
  }

  /** Row i of the k x m matrix that the transposing variants build from U
      given in k x m layout: G(seed_i), or U[i] xor G(seed_i). */
  function QRow(sd: ExtSender, seal: (seq<byte>, seq<byte>) -> Sealed, ut: Matrix, i: nat): (res: Result<seq<byte>>)
    requires i < |sd.seeds| && i < |sd.s| && i < |ut|
    ensures res.Err? <==> sd.m == 0 || !IsBit(sd.s[i]) || (sd.s[i] == 1 && |ut[i]| != sd.m)
    ensures res.Ok? ==> |res.value| == sd.m
    ensures res.Ok? ==> forall j :: 0 <= j < sd.m ==>
      res.value[j] == (if sd.s[i] == 0 then Prg(seal, sd.seeds[i], sd.m).value[j]
                       else ut[i][j] ^ Prg(seal, sd.seeds[i], sd.m).value[j])
  {
    match Prg(seal, sd.seeds[i], sd.m)
    case Err(e) => Err(QPrgPrefix + e)
    case Ok(bitstring) =>
      if sd.s[i] == 0 then Ok(bitstring)
      else if sd.s[i] == 1 then
        match XorBytes(ut[i], bitstring)
        case Err(e) => Err(EklundhXorPrefix + e)
        case Ok(x) => Ok(x)
      else Err(SIndexError)
  }

  /** The first n rows, in order. */
  function QRows(sd: ExtSender, seal: (seq<byte>, seq<byte>) -> Sealed, ut: Matrix, n: nat): (res: Result<Matrix>)
    requires n <= |sd.seeds| && n <= |sd.s| && n <= |ut|
    ensures res.Ok? <==> forall i :: 0 <= i < n ==> QRow(sd, seal, ut, i).Ok?
    ensures res.Ok? ==> Rectangular(res.value, n, sd.m)
    ensures res.Ok? ==> forall i :: 0 <= i < n ==> QRow(sd, seal, ut, i) == Ok(res.value[i])
  {
    var rs := seq(n, i requires 0 <= i < n => QRow(sd, seal, ut, i));
    assert forall i :: 0 <= i < n ==> rs[i] == QRow(sd, seal, ut, i);
    Sequence(rs)
  }

  /** `GenerateMatrixQTranspose(U)`: the k rows, then `TransposeMatrix`,
      which reads row 0 and so needs k >= 1. */
  function GenerateMatrixQTranspose(sd: ExtSender, seal: (seq<byte>, seq<byte>) -> Sealed, ut: Matrix)
    : (res: Result<ExtSender>)
    requires sd.k >= 1 && |sd.seeds| >= sd.k && |sd.s| >= sd.k && |ut| >= sd.k
    ensures res.Ok? <==> QRows(sd, seal, ut, sd.k).Ok?
    ensures res.Ok? ==> res.value == sd.(q := res.value.q)
    ensures res.Ok? ==> IsTransposeOf(res.value.q, QRows(sd, seal, ut, sd.k).value, sd.k, sd.m)
  {
    var rows :- QRows(sd, seal, ut, sd.k);
    Ok(sd.(q := TransposeMatrix(rows)))
  }

  /** `GenerateMatrixQEklundh(U, false)`: the k rows, then the blockwise
      Eklundh transpose, which fails (panics) when k > m and otherwise
      needs k a power of two dividing m. */
  method GenerateMatrixQEklundh(sd: ExtSender, seal: (seq<byte>, seq<byte>) -> Sealed, ut: Matrix)
    returns (res: Result<ExtSender>)
    requires sd.k >= 1 && (sd.k > sd.m || (IsPow2(sd.k) && sd.m % sd.k == 0))
    requires |sd.seeds| >= sd.k && |sd.s| >= sd.k && |ut| >= sd.k
    ensures res.Ok? <==> QRows(sd, seal, ut, sd.k).Ok? && sd.k <= sd.m
    ensures res.Ok? ==> res == GenerateMatrixQTranspose(sd, seal, ut)
  {
    var rows := QRows(sd, seal, ut, sd.k);
    if rows.Err? {
      return Err(rows.reason);
    }
    var transposed := EklundhTranspose(rows.value);
    if transposed.Err? {
      return Err(transposed.reason);
    }
    return Ok(sd.(q := transposed.value));
  }

  /** The smallest size the OT-extension benchmark and test run, k = 128
      and m = 4 (s all zero, l = 1): every row of Q succeeds and the
      transposing variant builds Q, yet the Eklundh variant panics, since
      a 128 x 4 matrix has more rows than columns. */
  method EklundhFailsAtBenchmarkSize(seal: (seq<byte>, seq<byte>) -> Sealed)
    returns (eklundh: Result<ExtSender>, transpose: Result<ExtSender>)
    ensures eklundh.Err? && transpose.Ok?
  {
    var pair := MessagePair([0], [1]);
    var sd := Init([pair, pair, pair, pair], 128, 1);
    sd := sd.(s := seq(128, _ => 0), seeds := seq(128, i => i));
    var ut: Matrix := seq(128, _ => [0, 0, 0, 0]);
    assert forall i :: 0 <= i < 128 ==> QRow(sd, seal, ut, i).Ok?;
    eklundh := GenerateMatrixQEklundh(sd, seal, ut);
    transpose := GenerateMatrixQTranspose(sd, seal, ut);
  }

  /** Entry (j, i) of the transposing variant is entry (j, i) of
      `GenerateMatrixQ`. */
  lemma TransposeVariantEntry(sd: ExtSender, seal: (seq<byte>, seq<byte>) -> Sealed, u: Matrix, rows: Matrix, j: nat, i: nat)
    requires sd.k >= 1 && sd.m >= 1 && |sd.seeds| >= sd.k && |sd.s| >= sd.k
    requires j < sd.m && i < sd.k && i < |rows|
    requires Rectangular(u, sd.m, sd.k) && IsBit(sd.s[i])
    requires QRow(sd, seal, TransposeMatrix(u), i) == Ok(rows[i])
    ensures |rows[i]| == sd.m && rows[i][j] == QEntry(sd, seal, u, j, i)
  {
    var ut := TransposeMatrix(u);
    assert ut[i][j] == u[j][i];
  }

  /** Given U in k x m layout, the transposing variant builds the same Q as
      `GenerateMatrixQ` on the m x k U. */
  lemma TransposeVariantAgrees(sd: ExtSender, seal: (seq<byte>, seq<byte>) -> Sealed, u: Matrix)
    requires sd.k >= 1 && sd.m >= 1 && |sd.seeds| >= sd.k && |sd.s| >= sd.k
    requires Rectangular(u, sd.m, sd.k) && IsBitString(sd.s[..sd.k])
    ensures GenerateMatrixQ(sd, seal, u).Ok?
    ensures GenerateMatrixQTranspose(sd, seal, TransposeMatrix(u)) == GenerateMatrixQ(sd, seal, u)
  {
    var ut := TransposeMatrix(u);
    assert forall i :: 0 <= i < sd.k ==> IsBit(sd.s[i]) by {
      forall i | 0 <= i < sd.k
        ensures IsBit(sd.s[i])
      {
        assert sd.s[..sd.k][i] == sd.s[i];
      }
    }
    assert QRows(sd, seal, ut, sd.k).Ok?;
    var rows := QRows(sd, seal, ut, sd.k).value;
    var q := GenerateMatrixQ(sd, seal, u).value.q;
    var q' := TransposeMatrix(rows);
    forall j | 0 <= j < sd.m
      ensures q'[j] == q[j]
    {
      forall i | 0 <= i < sd.k
        ensures q'[j][i] == q[j][i]
      {
        TransposeVariantEntry(sd, seal, u, rows, j, i);
      }
    }
    assert q' == q;
  }

  // ---------------------------------------------------------------------------
  // Ciphertexts

  /** Transfer j of `MakeAndSendCiphertexts`: y0 = x0 xor H(q_j, l) and
      y1 = x1 xor H(q_j xor s, l). */
  function CiphertextRow(sd: ExtSender, sha: seq<byte> -> Digest, j: nat): (res: Result<ByteCiphertextPair>)
    requires j < |sd.q| && j < |sd.messages|
    ensures res.Ok? ==>
      XorBytes(sd.q[j], sd.s).Ok? &&
      Hash(sha, sd.q[j], sd.l).Ok? && Hash(sha, XorBytes(sd.q[j], sd.s).value, sd.l).Ok?
    ensures res.Ok? ==>
      XorBytes(sd.messages[j].msg0, Hash(sha, sd.q[j], sd.l).value) == Ok(res.value.y0) &&
      XorBytes(sd.messages[j].msg1, Hash(sha, XorBytes(sd.q[j], sd.s).value, sd.l).value) == Ok(res.value.y1)
    ensures |sd.q[j]| != |sd.s| ==> res.Err?
    ensures res.Ok? <==>
      (|sd.q[j]| == |sd.s| && GoRem(sd.l, 8) >= 0 &&
       |sd.messages[j].msg0| == ByteLength(sd.l) && |sd.messages[j].msg1| == ByteLength(sd.l))
  {
    match XorBytes(sd.q[j], sd.s)
    case Err(e) => Err(CiphertextXorPrefix + e)
    case Ok(xorRes) =>
      match (Hash(sha, sd.q[j], sd.l), Hash(sha, xorRes, sd.l))
      case (Ok(hash0), Ok(hash1)) =>
        (match (XorBytes(sd.messages[j].msg0, hash0), XorBytes(sd.messages[j].msg1, hash1))
         case (Ok(y0), Ok(y1)) => Ok(ByteCiphertextPair(y0, y1))
         case _ => Err(CiphertextXorError))
      case _ => Err("negative shift amount")
  }

  /** The first n transfers, in order. */
  function CiphertextRows(sd: ExtSender, sha: seq<byte> -> Digest, n: nat): (res: Result<seq<ByteCiphertextPair>>)
    requires n <= |sd.q| && n <= |sd.messages|
    ensures res.Ok? <==> forall j :: 0 <= j < n ==> CiphertextRow(sd, sha, j).Ok?
    ensures res.Ok? ==> |res.value| == n
    ensures res.Ok? ==> forall j :: 0 <= j < n ==> CiphertextRow(sd, sha, j) == Ok(res.value[j])
  {
    var rs := seq(n, j requires 0 <= j < n => CiphertextRow(sd, sha, j));
    assert forall j :: 0 <= j < n ==> rs[j] == CiphertextRow(sd, sha, j);
    Sequence(rs)
  }

  /** `MakeAndSendCiphertexts()`: one pair per transfer. */
  function MakeAndSendCiphertexts(sd: ExtSender, sha: seq<byte> -> Digest): (res: Result<seq<ByteCiphertextPair>>)
    requires sd.m <= |sd.q| && sd.m <= |sd.messages|
    ensures res.Ok? <==> forall j :: 0 <= j < sd.m ==> CiphertextRow(sd, sha, j).Ok?
    ensures res.Ok? ==> |res.value| == sd.m
    ensures res.Ok? ==> forall j :: 0 <= j < sd.m ==> CiphertextRow(sd, sha, j) == Ok(res.value[j])
  {
    CiphertextRows(sd, sha, sd.m)
  }
}
