/** The OT-extension protocol run (project/OTExtension/OTExtensionProtocol.go)
    and its correctness: with honest parties, transfer j returns the
    sender's message r_j.

    The run is split into three phases: the base OTs of the seeds, the
    matrices T, U and Q, and the padded messages. Each phase has its own
    lemma, and the central one is the invariant of the matrix phase,
    Q[j][i] = T[j][i] xor s_i r_j. */
module OTExtProtocol {
  import opened Errors
  import opened Bytes
  import opened ModArith
  import opened ElGamal
  import opened Matrices
  import opened HashPrg
  import opened OTBasic
  import R = OTExtReceiver
  import S = OTExtSender

  // ---------------------------------------------------------------------------
  // Input helpers, with the random draws as parameters

  /** `RandomBytes(length)`: the `length` bytes read from `crypto/rand`. */
  function RandomBytes(length: nat, draw: seq<byte>): (b: seq<byte>)
    requires |draw| == length
    ensures |b| == length && b == draw
  {
    draw
  }

  /** `AllOnesBytes(length)` */
  function AllOnesBytes(length: nat): (b: seq<byte>)
    ensures |b| == length && forall i :: 0 <= i < length ==> b[i] == 1
  {
    seq(length, _ => 1)
  }

  /** `AllTwosBytes(length)` */
  function AllTwosBytes(length: nat): (b: seq<byte>)
    ensures |b| == length && forall i :: 0 <= i < length ==> b[i] == 2
  {
    seq(length, _ => 2)
  }

  /** `RandomSelectionBits(m)`: m draws of `mathRand.Intn(2)`. */
  function RandomSelectionBits(m: nat, draws: seq<int>): (bits: seq<int>)
    requires |draws| == m && forall i :: 0 <= i < m ==> 0 <= draws[i] < 2
    ensures |bits| == m && forall i :: 0 <= i < m ==> bits[i] == 0 || bits[i] == 1
  {
    draws
  }

  // ---------------------------------------------------------------------------
  // The run

  /** Every random draw of one run. */
  datatype ExtDraws = ExtDraws(
    sBits: seq<int>,             // ChooseRandomK
    seedDraws: seq<(int, int)>,  // ChooseSeeds
    skDraws: seq<int>,           // MakeSecretKey in the sender's Choose
    ogenDraws: seq<int>,         // OGen in the sender's Choose
    rDraws: seq<(int, int)>)     // Encrypt nonces in EncryptSeeds

  /** Draws from the ranges the Go code samples from. */
  predicate DrawsFit(eg: Params, k: nat, d: ExtDraws) {
    eg.p > 0 && eg.q >= 0 &&
    |d.sBits| == k && |d.seedDraws| == k && |d.skDraws| == k && |d.ogenDraws| == k && |d.rDraws| == k &&
    (forall i :: 0 <= i < k ==> 0 <= d.sBits[i] < 2) &&
    (forall i :: 0 <= i < k ==> 0 <= d.seedDraws[i].0 < Pow(2, k) && 0 <= d.seedDraws[i].1 < Pow(2, k)) &&
    (forall i :: 0 <= i < k ==> 0 <= d.skDraws[i] < eg.q - 1) &&
    (forall i :: 0 <= i < k ==> 0 <= d.ogenDraws[i] < OGenBound(eg)) &&
    (forall i :: 0 <= i < k ==> 0 <= d.rDraws[i].0 < eg.q - 1 && 0 <= d.rDraws[i].1 < eg.q - 1)
  }

  /** Phase 1: `Init` of both parties, `ChooseRandomK`, `ChooseSeeds`, and
      the k base OTs (`Choose`, `ReceiveKeys`, `EncryptSeeds`,
      `DecryptSeeds`) in which the sender plays the receiver. */
  function BasePhase(k: nat, l: int, sel: seq<int>, msgs: seq<MessagePair>, eg: Params, d: ExtDraws)
    : (res: Result<(R.ExtReceiver, S.ExtSender)>)
    requires DrawsFit(eg, k, d)
    ensures res.Ok? ==> var (rc, sd) := res.value;
      rc.m == |sel| && rc.k == k && rc.l == l && rc.selectionBits == sel && |rc.seeds| == k &&
      sd.m == |msgs| && sd.k == k && sd.l == l && sd.messages == msgs &&
      |sd.s| == k && IsBitString(sd.s) && |sd.seeds| == k
  {
    var receiver := R.ChooseSeeds(R.Init(sel, k, l), d.seedDraws);
    var sender := S.ChooseRandomK(S.Init(msgs, k, l), d.sBits);
    assert sender.s[..k] == sender.s;
    match S.Choose(sender, eg, d.skDraws, d.ogenDraws)
    case Err(e) => Err(e)
    case Ok((sender', keys)) =>
      var receiver' := R.ReceiveKeys(receiver, keys);
      var seedCiphertexts := R.EncryptSeeds(receiver', eg, d.rDraws);
      match S.DecryptSeeds(sender', seedCiphertexts, eg)
      case Err(e) => Err(e)
      case Ok(sender'') => Ok((receiver', sender''))
  }

  /** The state after phase 1 that phase 2 needs. */
  predicate BaseDone(rc: R.ExtReceiver, sd: S.ExtSender) {
    rc.m == sd.m && rc.k == sd.k && |rc.selectionBits| == rc.m && |rc.seeds| == rc.k &&
    |sd.s| == sd.k && |sd.seeds| == sd.k && IsBitString(sd.s)
  }

  /** Phase 2: `GenerateMatrixT`, `GenerateAndSendMatrixU`, `GenerateMatrixQ`. */
  function MatrixPhase(rc: R.ExtReceiver, sd: S.ExtSender, seal: (seq<byte>, seq<byte>) -> Sealed)
    : (res: Result<(R.ExtReceiver, S.ExtSender)>)
    requires BaseDone(rc, sd)
    ensures res.Ok? ==> var (rc', sd') := res.value;
      rc' == rc.(t := rc'.t) && sd' == sd.(q := sd'.q) &&
      Rectangular(rc'.t, rc.m, rc.k) && Rectangular(sd'.q, sd.m, sd.k)
  {
    match R.GenerateMatrixT(rc, seal)
    case Err(e) => Err(e)
    case Ok(rc') =>
      match R.GenerateAndSendMatrixU(rc', seal)
      case Err(e) => Err(e)
      case Ok(u) =>
        match S.GenerateMatrixQ(sd, seal, u)
        case Err(e) => Err(e)
        case Ok(sd') => Ok((rc', sd'))
  }

  /** Phase 3: `MakeAndSendCiphertexts`, then `DecryptCiphertexts`. */
  function TransferPhase(rc: R.ExtReceiver, sd: S.ExtSender, sha: seq<byte> -> Digest)
    : (res: Result<seq<seq<byte>>>)
    requires rc.m == sd.m && |rc.selectionBits| == rc.m && |sd.messages| == sd.m
    requires Rectangular(rc.t, rc.m, rc.k) && Rectangular(sd.q, sd.m, sd.k)
    ensures res.Ok? ==> |res.value| == rc.m
  {
    var ciphertexts :- S.MakeAndSendCiphertexts(sd, sha);
    R.DecryptCiphertexts(rc, sha, ciphertexts)
  }

  /** `OTExtensionProtocol(k, l, m)` on given selection bits and messages. */
  function RunExtension(k: nat, l: int, sel: seq<int>, msgs: seq<MessagePair>, eg: Params,
                        seal: (seq<byte>, seq<byte>) -> Sealed, sha: seq<byte> -> Digest, d: ExtDraws)
    : (res: Result<seq<seq<byte>>>)
    requires DrawsFit(eg, k, d) && |sel| == |msgs|
    ensures res.Ok? ==> |res.value| == |sel|
  {
    var (rc, sd) :- BasePhase(k, l, sel, msgs, eg, d);
    var (rc', sd') :- MatrixPhase(rc, sd, seal);
    TransferPhase(rc', sd', sha)
  }

  // ---------------------------------------------------------------------------
  // Phase 1: the base OTs hand the sender Seed_{s_i}

  /** Base transfer i: the sender decrypts exactly the seed its bit s_i
      picks. */
  lemma BaseTransfer(eg: Params, seed0: nat, seed1: nat, keys: KeyPair, rDraws: (int, int), b: byte, sk: nat, reason: string)
    requires Valid(eg) && IsBit(b) && sk >= 1
    requires seed0 <= eg.q - 1 && seed1 <= eg.q - 1
    requires 0 <= rDraws.0 < eg.q - 1 && 0 <= rDraws.1 < eg.q - 1
    requires Slot(keys.key0, keys.key1, b) == Gen(eg, sk)
    ensures DecryptSlot(eg, EncryptPair(eg, seed0, seed1, keys, rDraws), b, sk, reason) == Ok(Slot(seed0, seed1, b) as int)
  {
    EncryptPairSlot(eg, seed0, seed1, keys, rDraws, b);
    DecryptEncrypt(eg, Slot(seed0, seed1, b), sk, Slot(rDraws.0, rDraws.1, b));
  }

  /** With seeds below q, phase 1 succeeds and seed_i = Seed_{s_i}. */
  lemma BasePhaseCorrect(k: nat, l: int, sel: seq<int>, msgs: seq<MessagePair>, eg: Params, d: ExtDraws)
    requires Valid(eg) && DrawsFit(eg, k, d) && Pow(2, k) <= eg.q
    ensures BasePhase(k, l, sel, msgs, eg, d).Ok?
    ensures var (rc, sd) := BasePhase(k, l, sel, msgs, eg, d).value;
      forall i :: 0 <= i < k ==> sd.seeds[i] == Slot(rc.seeds[i].seed0, rc.seeds[i].seed1, sd.s[i])
  {
    var receiver := R.ChooseSeeds(R.Init(sel, k, l), d.seedDraws);
    var sender := S.ChooseRandomK(S.Init(msgs, k, l), d.sBits);
    assert sender.s[..k] == sender.s;
    var (sender', keys) := S.Choose(sender, eg, d.skDraws, d.ogenDraws).value;
    var receiver' := R.ReceiveKeys(receiver, keys);
    var cts := R.EncryptSeeds(receiver', eg, d.rDraws);
    var reason := S.DecryptSeedsError;
    forall i | 0 <= i < k
      ensures DecryptSlot(eg, cts[i], sender'.s[i], sender'.secretKeys[i], reason)
        == Ok(Slot(receiver'.seeds[i].seed0, receiver'.seeds[i].seed1, sender'.s[i]) as int)
    {
      var sd := receiver'.seeds[i];
      assert cts[i] == EncryptPair(eg, sd.seed0, sd.seed1, keys[i], d.rDraws[i]);
      BaseTransfer(eg, sd.seed0, sd.seed1, keys[i], d.rDraws[i], sender'.s[i], sender'.secretKeys[i], reason);
    }
    var seeds := S.DecryptSeedList(sender', cts, eg, k);
    assert seeds.Ok?;
    forall i | 0 <= i < k
      ensures seeds.value[i] == Slot(receiver'.seeds[i].seed0, receiver'.seeds[i].seed1, sender'.s[i])
    {
    }
  }

  // ---------------------------------------------------------------------------
  // Phase 2: the correlation Q[j][i] = T[j][i] xor s_i r_j

  /** T[j][i] xor s_i r_j, the entry the sender's Q holds. */
  function Correlated(t: byte, s: byte, r: byte): byte {
    t ^ (s * r)
  }

  /** One entry of Q: for s_i = 0 both sides expand the same seed; for
      s_i = 1 the sender's G(k1_i) cancels the one inside u^i. */
  lemma QEntryCorrelation(t: byte, g0: byte, g1: byte, r: byte, s: byte, g: byte, u: byte, q: byte)
    requires IsBit(s) && t == g0 && u == t ^ g1 ^ r
    requires s == 0 ==> g == g0
    requires s == 1 ==> g == g1
    requires q == if s == 0 then g else u ^ g
    ensures q == Correlated(t, s, r)
  {
  }

  /** The facts the three matrix steps establish, with the generator
      outputs abstracted: column i of T expands Seed0_i, U adds Seed1_i's
      expansion and r, and the sender holds Seed_{s_i}. */
  predicate MatricesFrom(t: Matrix, u: Matrix, q: Matrix, m: nat, k: nat,
                         p0: seq<seq<byte>>, p1: seq<seq<byte>>, p: seq<seq<byte>>, s: seq<byte>, r: seq<byte>)
  {
    Rectangular(t, m, k) && Rectangular(u, m, k) && Rectangular(q, m, k) &&
    |s| == k && IsBitString(s) && |r| == m &&
    Rectangular(p0, k, m) && Rectangular(p1, k, m) && Rectangular(p, k, m) &&
    (forall i :: 0 <= i < k ==> p[i] == Slot(p0[i], p1[i], s[i])) &&
    (forall j, i :: 0 <= j < m && 0 <= i < k ==> t[j][i] == p0[i][j]) &&
    (forall j, i :: 0 <= j < m && 0 <= i < k ==> u[j][i] == t[j][i] ^ p1[i][j] ^ r[j]) &&
    (forall j, i :: 0 <= j < m && 0 <= i < k ==>
      q[j][i] == if s[i] == 0 then p[i][j] else u[j][i] ^ p[i][j])
  }

  /** One entry of the correlation. */
  lemma CorrelationEntry(t: Matrix, u: Matrix, q: Matrix, m: nat, k: nat,
                         p0: seq<seq<byte>>, p1: seq<seq<byte>>, p: seq<seq<byte>>, s: seq<byte>, r: seq<byte>,
                         j: nat, i: nat)
    requires MatricesFrom(t, u, q, m, k, p0, p1, p, s, r) && j < m && i < k
    ensures q[j][i] == Correlated(t[j][i], s[i], r[j])
  {
    assert IsBit(s[i]);
    assert p[i] == Slot(p0[i], p1[i], s[i]);
    QEntryCorrelation(t[j][i], p0[i][j], p1[i][j], r[j], s[i], p[i][j], u[j][i], q[j][i]);
  }

  /** Every entry of the correlation: Q = T xor s_i r_j. */
  lemma Correlation(t: Matrix, u: Matrix, q: Matrix, m: nat, k: nat,
                    p0: seq<seq<byte>>, p1: seq<seq<byte>>, p: seq<seq<byte>>, s: seq<byte>, r: seq<byte>)
    requires MatricesFrom(t, u, q, m, k, p0, p1, p, s, r)
    ensures forall j, i :: 0 <= j < m && 0 <= i < k ==> q[j][i] == Correlated(t[j][i], s[i], r[j])
  {
    forall j, i | 0 <= j < m && 0 <= i < k
      ensures q[j][i] == Correlated(t[j][i], s[i], r[j])
    {
      CorrelationEntry(t, u, q, m, k, p0, p1, p, s, r, j, i);
    }
  }

  /** G(seed_i, m) for each seed: column i of a generated matrix. */
  function Expansions(seal: (seq<byte>, seq<byte>) -> Sealed, seeds: seq<nat>, m: nat): (p: seq<seq<byte>>)
    requires m >= 1
    ensures Rectangular(p, |seeds|, m)
    ensures forall i :: 0 <= i < |seeds| ==> p[i] == Prg(seal, seeds[i], m).value
  {
    seq(|seeds|, i requires 0 <= i < |seeds| => Prg(seal, seeds[i], m).value)
  }

  /** The selection bits as the bytes U is masked with. */
  function SelectionBytes(bits: seq<int>): (r: seq<byte>)
    ensures |r| == |bits| && forall j :: 0 <= j < |bits| ==> r[j] == ToUint8(bits[j])
  {
    seq(|bits|, j requires 0 <= j < |bits| => ToUint8(bits[j]))
  }

  /** `GenerateMatrixT` fills T with the expansions of the seed0 column:
      T[j][i] is bit j of G(seed0_i). */
  lemma TStep(rc: R.ExtReceiver, seal: (seq<byte>, seq<byte>) -> Sealed, rc': R.ExtReceiver)
    requires |rc.seeds| == rc.k && rc.m >= 1 && R.GenerateMatrixT(rc, seal) == Ok(rc')
    ensures Rectangular(rc'.t, rc.m, rc.k) && rc' == rc.(t := rc'.t)
    ensures var p0 := Expansions(seal, SeedColumn(rc.seeds, false), rc.m);
      forall j, i :: 0 <= j < rc.m && 0 <= i < rc.k ==> rc'.t[j][i] == p0[i][j]
  {
  }

  /** `GenerateAndSendMatrixU` masks T with the expansions of the seed1
      column and the selection bytes. */
  lemma UStep(rc': R.ExtReceiver, seal: (seq<byte>, seq<byte>) -> Sealed, u: Matrix)
    requires |rc'.seeds| == rc'.k && |rc'.selectionBits| == rc'.m && rc'.m >= 1
    requires Rectangular(rc'.t, rc'.m, rc'.k) && R.GenerateAndSendMatrixU(rc', seal) == Ok(u)
    ensures Rectangular(u, rc'.m, rc'.k)
    ensures var p1, r := Expansions(seal, SeedColumn(rc'.seeds, true), rc'.m), SelectionBytes(rc'.selectionBits);
      forall j, i :: 0 <= j < rc'.m && 0 <= i < rc'.k ==> u[j][i] == rc'.t[j][i] ^ p1[i][j] ^ r[j]
  {
  }

  /** `GenerateMatrixQ` takes G(seed_i), or U xor G(seed_i), by the bit s_i. */
  lemma QStep(sd: S.ExtSender, seal: (seq<byte>, seq<byte>) -> Sealed, u: Matrix, sd': S.ExtSender)
    requires |sd.seeds| == sd.k && |sd.s| == sd.k && sd.m >= 1
    requires Rectangular(u, sd.m, sd.k) && S.GenerateMatrixQ(sd, seal, u) == Ok(sd')
    ensures Rectangular(sd'.q, sd.m, sd.k)
    ensures var p := Expansions(seal, sd.seeds, sd.m);
      forall j, i :: 0 <= j < sd.m && 0 <= i < sd.k ==>
        sd'.q[j][i] == if sd.s[i] == 0 then p[i][j] else u[j][i] ^ p[i][j]
  {
  }

  /** The three matrix steps establish `MatricesFrom`. */
  lemma MatrixSteps(rc: R.ExtReceiver, sd: S.ExtSender, seal: (seq<byte>, seq<byte>) -> Sealed,
                    rc': R.ExtReceiver, u: Matrix, sd': S.ExtSender)
    requires BaseDone(rc, sd) && rc.m >= 1
    requires forall i :: 0 <= i < sd.k ==> sd.seeds[i] == Slot(rc.seeds[i].seed0, rc.seeds[i].seed1, sd.s[i])
    requires R.GenerateMatrixT(rc, seal) == Ok(rc')
    requires R.GenerateAndSendMatrixU(rc', seal) == Ok(u)
    requires S.GenerateMatrixQ(sd, seal, u) == Ok(sd')
    ensures MatricesFrom(rc'.t, u, sd'.q, rc.m, rc.k,
                         Expansions(seal, SeedColumn(rc.seeds, false), rc.m),
                         Expansions(seal, SeedColumn(rc.seeds, true), rc.m),
                         Expansions(seal, sd.seeds, rc.m), sd.s, SelectionBytes(rc.selectionBits))
  {
    TStep(rc, seal, rc');
    UStep(rc', seal, u);
    QStep(sd, seal, u, sd');
    var p0 := Expansions(seal, SeedColumn(rc.seeds, false), rc.m);
    var p1 := Expansions(seal, SeedColumn(rc.seeds, true), rc.m);
    var p := Expansions(seal, sd.seeds, rc.m);
    forall i | 0 <= i < rc.k
      ensures p[i] == Slot(p0[i], p1[i], sd.s[i])
    {
      assert sd.seeds[i] == Slot(rc.seeds[i].seed0, rc.seeds[i].seed1, sd.s[i]);
    }
  }

  /** The seed0 (or seed1) column of the receiver's seed pairs. */
  function SeedColumn(seeds: seq<Seed>, second: bool): (c: seq<nat>)
    ensures |c| == |seeds|
    ensures forall i :: 0 <= i < |seeds| ==> c[i] == if second then seeds[i].seed1 else seeds[i].seed0
  {
    seq(|seeds|, i requires 0 <= i < |seeds| => if second then seeds[i].seed1 else seeds[i].seed0)
  }

  /** Phase 2 succeeds for m >= 1 and leaves Q[j][i] = T[j][i] xor
      s_i r_j for every entry. */
  lemma MatrixPhaseCorrect(rc: R.ExtReceiver, sd: S.ExtSender, seal: (seq<byte>, seq<byte>) -> Sealed)
    requires BaseDone(rc, sd) && rc.m >= 1
    requires forall i :: 0 <= i < sd.k ==> sd.seeds[i] == Slot(rc.seeds[i].seed0, rc.seeds[i].seed1, sd.s[i])
    ensures MatrixPhase(rc, sd, seal).Ok?
    ensures var (rc', sd') := MatrixPhase(rc, sd, seal).value;
      forall j, i :: 0 <= j < rc.m && 0 <= i < rc.k ==>
        sd'.q[j][i] == Correlated(rc'.t[j][i], sd.s[i], ToUint8(rc.selectionBits[j]))
  {
    assert sd.s[..sd.k] == sd.s;
    var rc' := R.GenerateMatrixT(rc, seal).value;
    var u := R.GenerateAndSendMatrixU(rc', seal).value;
    var sd' := S.GenerateMatrixQ(sd, seal, u).value;
    assert MatrixPhase(rc, sd, seal) == Ok((rc', sd'));
    MatrixSteps(rc, sd, seal, rc', u, sd');
    var r := SelectionBytes(rc.selectionBits);
    Correlation(rc'.t, u, sd'.q, rc.m, rc.k,
                Expansions(seal, SeedColumn(rc.seeds, false), rc.m),
                Expansions(seal, SeedColumn(rc.seeds, true), rc.m),
                Expansions(seal, sd.seeds, rc.m), sd.s, r);
  }

  // ---------------------------------------------------------------------------
  // Phase 3: the receiver removes exactly the pad of its message

  /** Row j of Q is t_j when r_j = 0 and t_j xor s when r_j = 1, so the pad
      the receiver computes is the pad of message r_j. */
  lemma RowCorrelation(t: seq<byte>, q: seq<byte>, s: seq<byte>, r: int)
    requires |t| == |q| == |s| && IsBitString(s) && (r == 0 || r == 1)
    requires forall i :: 0 <= i < |t| ==> q[i] == Correlated(t[i], s[i], ToUint8(r))
    ensures r == 0 ==> q == t
    ensures r == 1 ==> XorBytes(q, s) == Ok(t)
  {
    if r == 0 {
      assert forall i :: 0 <= i < |t| ==> q[i] == t[i];
    } else {
      var x := XorBytes(q, s).value;
      forall i | 0 <= i < |t|
        ensures x[i] == t[i]
      {
        assert IsBit(s[i]);
      }
      assert x == t;
    }
  }

  /** Transfer j: with the correlation in place, the receiver gets x_j^(r_j). */
  lemma TransferRowCorrect(rc: R.ExtReceiver, sd: S.ExtSender, sha: seq<byte> -> Digest, pair: ByteCiphertextPair, j: nat)
    requires rc.m == sd.m && rc.k == sd.k && rc.l == sd.l && |rc.selectionBits| == rc.m && |sd.messages| == sd.m
    requires Rectangular(rc.t, rc.m, rc.k) && Rectangular(sd.q, sd.m, sd.k)
    requires |sd.s| == sd.k && IsBitString(sd.s) && GoRem(sd.l, 8) >= 0
    requires j < rc.m && (rc.selectionBits[j] == 0 || rc.selectionBits[j] == 1)
    requires |sd.messages[j].msg0| == ByteLength(sd.l) && |sd.messages[j].msg1| == ByteLength(sd.l)
    requires forall i :: 0 <= i < rc.k ==> sd.q[j][i] == Correlated(rc.t[j][i], sd.s[i], ToUint8(rc.selectionBits[j]))
    requires S.CiphertextRow(sd, sha, j) == Ok(pair)
    ensures R.DecryptRow(rc, sha, pair, j) ==
      Ok(if rc.selectionBits[j] == 0 then sd.messages[j].msg0 else sd.messages[j].msg1)
  {
    var t := rc.t[j][..rc.k];
    assert t == rc.t[j];
    RowCorrelation(t, sd.q[j], sd.s, rc.selectionBits[j]);
    var h := Hash(sha, t, rc.l).value;
    if rc.selectionBits[j] == 0 {
      XorBytesCancel(sd.messages[j].msg0, h);
    } else {
      XorBytesCancel(sd.messages[j].msg1, h);
    }
  }

  /** Phase 3 succeeds and transfer j yields message r_j. */
  lemma TransferPhaseCorrect(rc: R.ExtReceiver, sd: S.ExtSender, sha: seq<byte> -> Digest)
    requires rc.m == sd.m && rc.k == sd.k && rc.l == sd.l && |rc.selectionBits| == rc.m && |sd.messages| == sd.m
    requires Rectangular(rc.t, rc.m, rc.k) && Rectangular(sd.q, sd.m, sd.k)
    requires |sd.s| == sd.k && IsBitString(sd.s) && GoRem(sd.l, 8) >= 0
    requires forall j :: 0 <= j < rc.m ==> rc.selectionBits[j] == 0 || rc.selectionBits[j] == 1
    requires forall j :: 0 <= j < sd.m ==>
      |sd.messages[j].msg0| == ByteLength(sd.l) && |sd.messages[j].msg1| == ByteLength(sd.l)
    requires forall j, i :: 0 <= j < rc.m && 0 <= i < rc.k ==>
      sd.q[j][i] == Correlated(rc.t[j][i], sd.s[i], ToUint8(rc.selectionBits[j]))
    ensures TransferPhase(rc, sd, sha).Ok?
    ensures forall j :: 0 <= j < rc.m ==>
      TransferPhase(rc, sd, sha).value[j] == if rc.selectionBits[j] == 0 then sd.messages[j].msg0 else sd.messages[j].msg1
  {
    forall j | 0 <= j < sd.m
      ensures S.CiphertextRow(sd, sha, j).Ok?
    {
      assert |sd.q[j]| == |sd.s|;
    }
    var cts := S.MakeAndSendCiphertexts(sd, sha).value;
    forall j | 0 <= j < rc.m
      ensures R.DecryptRow(rc, sha, cts[j], j) ==
        Ok(if rc.selectionBits[j] == 0 then sd.messages[j].msg0 else sd.messages[j].msg1)
    {
      TransferRowCorrect(rc, sd, sha, cts[j], j);
    }
  }

  // ---------------------------------------------------------------------------
  // End to end

  /** Every honest run with m >= 1 transfers of messages as long as the
      hash (`ByteLength(l)` bytes) returns result[j] = Message_{r_j}. The
      seeds, drawn below 2^k, must be valid ElGamal plaintexts. */
  lemma ExtensionCorrect(k: nat, l: int, sel: seq<int>, msgs: seq<MessagePair>, eg: Params,
                         seal: (seq<byte>, seq<byte>) -> Sealed, sha: seq<byte> -> Digest, d: ExtDraws)
    requires Valid(eg) && DrawsFit(eg, k, d) && Pow(2, k) <= eg.q
    requires |sel| == |msgs| >= 1 && GoRem(l, 8) >= 0
    requires forall j :: 0 <= j < |sel| ==> sel[j] == 0 || sel[j] == 1
    requires forall j :: 0 <= j < |msgs| ==> |msgs[j].msg0| == ByteLength(l) && |msgs[j].msg1| == ByteLength(l)
    ensures RunExtension(k, l, sel, msgs, eg, seal, sha, d).Ok?
    ensures forall j :: 0 <= j < |sel| ==>
      RunExtension(k, l, sel, msgs, eg, seal, sha, d).value[j] == if sel[j] == 0 then msgs[j].msg0 else msgs[j].msg1
  {
    BasePhaseCorrect(k, l, sel, msgs, eg, d);
    var (rc, sd) := BasePhase(k, l, sel, msgs, eg, d).value;
    MatrixPhaseCorrect(rc, sd, seal);
    var (rc', sd') := MatrixPhase(rc, sd, seal).value;
    TransferPhaseCorrect(rc', sd', sha);
  }
}
