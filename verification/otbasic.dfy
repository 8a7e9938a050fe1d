/** 1-out-of-2 oblivious transfer from real and oblivious ElGamal keys
    (project/OTBasic/OTReceiver.go and OTSender.go), together with the
    message, key and ciphertext pairs of project/utils/utils.go that both
    OT flavours exchange.

    For each transfer the receiver sends a key pair whose slot b (its
    selection bit) holds a real key Gen(sk) and whose other slot holds an
    oblivious key OGen() with no known secret. The sender encrypts message
    j under key j, and the receiver can only decrypt slot b. */
module OTBasic {
  import opened Errors
  import opened Bytes
  import opened ModArith
  import opened ElGamal
  import opened BigEndian

  /** The panic message for a selection bit that is not 0 or 1 in `Choose`. */
  const ChooseBitsError: string := "Receiver selection bits are not 0 or 1 in Choose"
  /** The panic message for a selection bit that is not 0 or 1 in `DecryptMessage`. */
  const DecryptBitsError: string := "Receiver selection bits are not 0 or 1 in DecryptMessage"

  datatype KeyPair = KeyPair(key0: int, key1: int)

  datatype MessagePair = MessagePair(msg0: seq<byte>, msg1: seq<byte>)

  datatype CiphertextPair = CiphertextPair(ct0: Ciphertext, ct1: Ciphertext)

  /** The two seeds of one base transfer in the OT extension. */
  datatype Seed = Seed(seed0: nat, seed1: nat)

  /** The two one-time-padded messages of one extended transfer. */
  datatype ByteCiphertextPair = ByteCiphertextPair(y0: seq<byte>, y1: seq<byte>)

  datatype Receiver = Receiver(secretKeys: seq<nat>, selectionBits: seq<byte>)

  /** Before `ReceiveKeys` the Go sender holds `len(Messages)` nil key
      pointers; any use of them panics, as an index into `[]` does here. */
  datatype Sender = Sender(publicKeys: seq<KeyPair>, messages: seq<MessagePair>)

  /** Slot `b` of a pair: the first component for 0, the second for 1. */
  function Slot<T>(x0: T, x1: T, b: byte): T {
    if b == 0 then x0 else x1
  }

  /** The slot the selection bit does not pick. */
  function OtherSlot<T>(x0: T, x1: T, b: byte): T {
    if b == 0 then x1 else x0
  }

  // ---------------------------------------------------------------------------
  // Receiver

  function ReceiverInit(selectionBits: seq<byte>): (r: Receiver)
    ensures r.selectionBits == selectionBits && r.secretKeys == []
  {
    Receiver([], selectionBits)
  }

  /** The key-pair step both OT flavours share: for every bit b_i a fresh
      secret key sk_i, the real key Gen(sk_i) in slot b_i and an oblivious
      key in the other slot. The draws of `MakeSecretKey` and `OGen` are
      parameters; a bit that is neither 0 nor 1 panics with `reason`. */
  function ChooseKeys(bits: seq<byte>, eg: Params, skDraws: seq<int>, ogenDraws: seq<int>, reason: string)
    : (r: Result<(seq<nat>, seq<KeyPair>)>)
    requires eg.p > 0
    requires |skDraws| == |bits| && |ogenDraws| == |bits|
    requires forall i :: 0 <= i < |bits| ==> 0 <= skDraws[i] < eg.q - 1
    requires forall i :: 0 <= i < |bits| ==> 0 <= ogenDraws[i] < OGenBound(eg)
    ensures r.Err? <==> !IsBitString(bits)
    ensures r.Ok? ==> |r.value.0| == |bits| && |r.value.1| == |bits|
    ensures r.Ok? ==> forall i :: 0 <= i < |bits| ==>
      1 <= r.value.0[i] <= eg.q - 1 &&
      Slot(r.value.1[i].key0, r.value.1[i].key1, bits[i]) == Gen(eg, r.value.0[i]) &&
      OtherSlot(r.value.1[i].key0, r.value.1[i].key1, bits[i]) == OGen(eg, ogenDraws[i])
  {
    if exists i :: 0 <= i < |bits| && !IsBit(bits[i]) then Err(reason)
    else
      var n := |bits|;
      var sks := seq(n, i requires 0 <= i < n => MakeSecretKey(eg, skDraws[i]));
      var keys := seq(n, i requires 0 <= i < n =>
        if bits[i] == 0 then KeyPair(Gen(eg, sks[i]), OGen(eg, ogenDraws[i]))
        else KeyPair(OGen(eg, ogenDraws[i]), Gen(eg, sks[i])));
      Ok((sks, keys))
  }

  /** `Choose(num_selections, elGamal)`: the key-pair step on the first
      `num` selection bits. */
  function Choose(receiver: Receiver, num: nat, eg: Params, skDraws: seq<int>, ogenDraws: seq<int>)
    : (r: Result<(Receiver, seq<KeyPair>)>)
    requires eg.p > 0
    requires num <= |receiver.selectionBits| && |skDraws| == num && |ogenDraws| == num
    requires forall i :: 0 <= i < num ==> 0 <= skDraws[i] < eg.q - 1
    requires forall i :: 0 <= i < num ==> 0 <= ogenDraws[i] < OGenBound(eg)
    ensures r.Err? <==> !IsBitString(receiver.selectionBits[..num])
    ensures r.Ok? ==> r.value.0.selectionBits == receiver.selectionBits
    ensures r.Ok? ==> |r.value.0.secretKeys| == num && |r.value.1| == num
    ensures r.Ok? ==> forall i :: 0 <= i < num ==>
      1 <= r.value.0.secretKeys[i] <= eg.q - 1 &&
      Slot(r.value.1[i].key0, r.value.1[i].key1, receiver.selectionBits[i]) == Gen(eg, r.value.0.secretKeys[i]) &&
      OtherSlot(r.value.1[i].key0, r.value.1[i].key1, receiver.selectionBits[i]) == OGen(eg, ogenDraws[i])
  {
    var (sks, keys) :- ChooseKeys(receiver.selectionBits[..num], eg, skDraws, ogenDraws,
                                  ChooseBitsError);
    Ok((receiver.(secretKeys := sks), keys))
  }

  /** Decryption of slot b of a pair under sk; a bit that is neither 0 nor 1
      panics with `reason`. */
  function DecryptSlot(eg: Params, pair: CiphertextPair, b: byte, sk: nat, reason: string): (r: Result<int>)
    requires eg.p > 0
    ensures !IsBit(b) ==> r.Err?
    ensures r.Ok? ==> 0 <= r.value < eg.p
    ensures IsBit(b) ==> r == Decrypt(eg, Slot(pair.ct0, pair.ct1, b).c1, Slot(pair.ct0, pair.ct1, b).c2, sk)
  {
    if b != 0 && b != 1 then Err(reason)
    else
      var ct := Slot(pair.ct0, pair.ct1, b);
      Decrypt(eg, ct.c1, ct.c2, sk)
  }

  /** The decryption of transfer i: slot `selectionBits[i]` under secret key
      i, as an integer. */
  function DecryptOne(receiver: Receiver, pair: CiphertextPair, i: nat, eg: Params): (r: Result<int>)
    requires eg.p > 0 && i < |receiver.selectionBits| && i < |receiver.secretKeys|
    ensures !IsBit(receiver.selectionBits[i]) ==> r.Err?
    ensures r.Ok? ==> 0 <= r.value < eg.p
    ensures r.Ok? ==> var ct := Slot(pair.ct0, pair.ct1, receiver.selectionBits[i]);
      Decrypt(eg, ct.c1, ct.c2, receiver.secretKeys[i]) == r
  {
    DecryptSlot(eg, pair, receiver.selectionBits[i], receiver.secretKeys[i],
                DecryptBitsError)
  }

  /** The integer plaintexts of every transfer, in order; the first failure
      ends the run. */
  function DecryptValues(receiver: Receiver, pairs: seq<CiphertextPair>, eg: Params): (r: Result<seq<nat>>)
    requires eg.p > 0 && |pairs| <= |receiver.selectionBits| && |pairs| <= |receiver.secretKeys|
    ensures r.Ok? <==> forall i :: 0 <= i < |pairs| ==> DecryptOne(receiver, pairs[i], i, eg).Ok?
    ensures r.Ok? ==> |r.value| == |pairs|
    ensures r.Ok? ==> forall i :: 0 <= i < |pairs| ==> DecryptOne(receiver, pairs[i], i, eg) == Ok(r.value[i] as int)
  {
    var rs := seq(|pairs|, i requires 0 <= i < |pairs| => DecryptOne(receiver, pairs[i], i, eg));
    assert forall i :: 0 <= i < |pairs| ==> rs[i] == DecryptOne(receiver, pairs[i], i, eg);
    match Sequence(rs)
    case Err(e) => Err(e)
    case Ok(v) => Ok(ToNats(v))
  }

  /** The l-byte adjustment of `DecryptMessage`: zero bytes appended at the
      end of a short encoding, a long one cut to its first l bytes. */
  function FitToLength(b: seq<byte>, l: nat): (r: seq<byte>)
    ensures |r| == l
    ensures |b| <= l ==> r[..|b|] == b && forall k :: |b| <= k < l ==> r[k] == 0
    ensures |b| > l ==> r == b[..l]
  {
    if |b| < l then b + Zeros(l - |b|) else b[..l]
  }

  /** `DecryptMessage(ciphertextPairs, l, elGamal)`: every plaintext as the
      minimal big-endian bytes of the decrypted integer, fitted to l bytes. */
  function DecryptMessage(receiver: Receiver, pairs: seq<CiphertextPair>, l: nat, eg: Params)
    : (r: Result<seq<seq<byte>>>)
    requires eg.p > 0 && |pairs| <= |receiver.selectionBits| && |pairs| <= |receiver.secretKeys|
    ensures r.Ok? <==> DecryptValues(receiver, pairs, eg).Ok?
    ensures r.Ok? ==> |r.value| == |pairs| && forall i :: 0 <= i < |pairs| ==> |r.value[i]| == l
    ensures r.Ok? ==> forall i :: 0 <= i < |pairs| ==>
      r.value[i] == FitToLength(ToBytes(DecryptValues(receiver, pairs, eg).value[i]), l)
  {
    match DecryptValues(receiver, pairs, eg)
    case Err(e) => Err(e)
    case Ok(values) => Ok(seq(|values|, i requires 0 <= i < |values| => FitToLength(ToBytes(values[i]), l)))
  }

  // ---------------------------------------------------------------------------
  // Sender

  function SenderInit(messages: seq<MessagePair>): (s: Sender)
    ensures s.messages == messages && s.publicKeys == []
  {
    Sender([], messages)
  }

  function ReceiveKeys(s: Sender, keys: seq<KeyPair>): (t: Sender)
    ensures t.messages == s.messages && t.publicKeys == keys
  {
    s.(publicKeys := keys)
  }

  /** The two `Encrypt` calls of one transfer: value j under key j. */
  function EncryptPair(eg: Params, m0: nat, m1: nat, keys: KeyPair, rDraws: (int, int)): (c: CiphertextPair)
    requires eg.p > 0 && eg.q >= 0
    requires 0 <= rDraws.0 < eg.q - 1 && 0 <= rDraws.1 < eg.q - 1
    ensures c.ct0 == Encrypt(eg, m0, keys.key0, rDraws.0)
    ensures c.ct1 == Encrypt(eg, m1, keys.key1, rDraws.1)
  {
    CiphertextPair(Encrypt(eg, m0, keys.key0, rDraws.0), Encrypt(eg, m1, keys.key1, rDraws.1))
  }

  /** Whichever slot b names, the pair's slot-b ciphertext is value b under
      key b: the sender never crosses them. */
  lemma EncryptPairSlot(eg: Params, m0: nat, m1: nat, keys: KeyPair, rDraws: (int, int), b: byte)
    requires eg.p > 0 && eg.q >= 0
    requires 0 <= rDraws.0 < eg.q - 1 && 0 <= rDraws.1 < eg.q - 1
    ensures var c := EncryptPair(eg, m0, m1, keys, rDraws);
      Slot(c.ct0, c.ct1, b) == Encrypt(eg, Slot(m0, m1, b), Slot(keys.key0, keys.key1, b), Slot(rDraws.0, rDraws.1, b))
  {
  }

  /** `EncryptMessages(elGamal)`: message j of each pair, read big-endian,
      encrypted under key j; the nonce draws of the two `Encrypt` calls are
      parameters. The sender never sees a selection bit. */
  function EncryptMessages(s: Sender, eg: Params, rDraws: seq<(int, int)>): (cts: seq<CiphertextPair>)
    requires eg.p > 0 && eg.q >= 0
    requires |s.publicKeys| >= |s.messages| && |rDraws| == |s.messages|
    requires forall i :: 0 <= i < |rDraws| ==> 0 <= rDraws[i].0 < eg.q - 1 && 0 <= rDraws[i].1 < eg.q - 1
    ensures |cts| == |s.messages|
    ensures forall i :: 0 <= i < |cts| ==>
      cts[i].ct0 == Encrypt(eg, FromBytes(s.messages[i].msg0), s.publicKeys[i].key0, rDraws[i].0) &&
      cts[i].ct1 == Encrypt(eg, FromBytes(s.messages[i].msg1), s.publicKeys[i].key1, rDraws[i].1)
  {
    seq(|s.messages|, i requires 0 <= i < |s.messages| =>
      EncryptPair(eg, FromBytes(s.messages[i].msg0), FromBytes(s.messages[i].msg1), s.publicKeys[i], rDraws[i]))
  }

  // ---------------------------------------------------------------------------
  // The transfer end to end

  /** Honest runs: bit selections, l-byte messages whose values are valid
      ElGamal plaintexts, and draws in the ranges the Go code samples from. */
  predicate HonestInputs(eg: Params, sel: seq<byte>, msgs: seq<MessagePair>, l: nat,
                         skDraws: seq<int>, ogenDraws: seq<int>, rDraws: seq<(int, int)>)
  {
    Valid(eg) && IsBitString(sel) && |sel| == |msgs| &&
    |skDraws| == |sel| && |ogenDraws| == |sel| && |rDraws| == |sel| &&
    (forall i :: 0 <= i < |sel| ==> 0 <= skDraws[i] < eg.q - 1) &&
    (forall i :: 0 <= i < |sel| ==> 0 <= ogenDraws[i] < OGenBound(eg)) &&
    (forall i :: 0 <= i < |sel| ==> 0 <= rDraws[i].0 < eg.q - 1 && 0 <= rDraws[i].1 < eg.q - 1) &&
    (forall i :: 0 <= i < |msgs| ==>
      |msgs[i].msg0| == l && |msgs[i].msg1| == l &&
      FromBytes(msgs[i].msg0) <= eg.q - 1 && FromBytes(msgs[i].msg1) <= eg.q - 1)
  }

  /** The message order of one run: Choose, ReceiveKeys, EncryptMessages,
      DecryptMessage. */
  function RunTransfer(eg: Params, sel: seq<byte>, msgs: seq<MessagePair>, l: nat,
                       skDraws: seq<int>, ogenDraws: seq<int>, rDraws: seq<(int, int)>)
    : (r: Result<seq<seq<byte>>>)
    requires HonestInputs(eg, sel, msgs, l, skDraws, ogenDraws, rDraws)
    ensures r.Ok? ==> |r.value| == |msgs|
  {
    var (receiver, keys) :- Choose(ReceiverInit(sel), |sel|, eg, skDraws, ogenDraws);
    var cts := EncryptMessages(ReceiveKeys(SenderInit(msgs), keys), eg, rDraws);
    DecryptMessage(receiver, cts, l, eg)
  }

  /** One transfer: the receiver decrypts the integer value of exactly the
      message its selection bit picks. */
  lemma TransferValue(eg: Params, sel: seq<byte>, msgs: seq<MessagePair>, l: nat,
                      skDraws: seq<int>, ogenDraws: seq<int>, rDraws: seq<(int, int)>, i: nat)
    requires HonestInputs(eg, sel, msgs, l, skDraws, ogenDraws, rDraws) && i < |sel|
    ensures Choose(ReceiverInit(sel), |sel|, eg, skDraws, ogenDraws).Ok?
    ensures var (receiver, keys) := Choose(ReceiverInit(sel), |sel|, eg, skDraws, ogenDraws).value;
      var cts := EncryptMessages(ReceiveKeys(SenderInit(msgs), keys), eg, rDraws);
      DecryptOne(receiver, cts[i], i, eg) == Ok(FromBytes(Slot(msgs[i].msg0, msgs[i].msg1, sel[i])))
  {
    assert sel[..|sel|] == sel;
    var (receiver, keys) := Choose(ReceiverInit(sel), |sel|, eg, skDraws, ogenDraws).value;
    var cts := EncryptMessages(ReceiveKeys(SenderInit(msgs), keys), eg, rDraws);
    var sk := receiver.secretKeys[i];
    var m := FromBytes(Slot(msgs[i].msg0, msgs[i].msg1, sel[i]));
    var rDraw := Slot(rDraws[i].0, rDraws[i].1, sel[i]);
    assert Slot(cts[i].ct0, cts[i].ct1, sel[i]) == Encrypt(eg, m, Gen(eg, sk), rDraw);
    DecryptEncrypt(eg, m, sk, rDraw);
  }

  /** End to end: every honest run succeeds, and transfer i yields the chosen
      message's minimal big-endian bytes fitted to l bytes. */
  lemma TransferCorrect(eg: Params, sel: seq<byte>, msgs: seq<MessagePair>, l: nat,
                        skDraws: seq<int>, ogenDraws: seq<int>, rDraws: seq<(int, int)>)
    requires HonestInputs(eg, sel, msgs, l, skDraws, ogenDraws, rDraws)
    ensures var r := RunTransfer(eg, sel, msgs, l, skDraws, ogenDraws, rDraws);
      r.Ok? && forall i :: 0 <= i < |msgs| ==>
        r.value[i] == FitToLength(StripLeadingZeros(Slot(msgs[i].msg0, msgs[i].msg1, sel[i])), l)
  {
    assert sel[..|sel|] == sel;
    var (receiver, keys) := Choose(ReceiverInit(sel), |sel|, eg, skDraws, ogenDraws).value;
    var cts := EncryptMessages(ReceiveKeys(SenderInit(msgs), keys), eg, rDraws);
    forall i | 0 <= i < |msgs|
      ensures DecryptOne(receiver, cts[i], i, eg) == Ok(FromBytes(Slot(msgs[i].msg0, msgs[i].msg1, sel[i])))
    {
      TransferValue(eg, sel, msgs, l, skDraws, ogenDraws, rDraws, i);
    }
    var values := DecryptValues(receiver, cts, eg).value;
    forall i | 0 <= i < |msgs|
      ensures FitToLength(ToBytes(values[i]), l) ==
              FitToLength(StripLeadingZeros(Slot(msgs[i].msg0, msgs[i].msg1, sel[i])), l)
    {
      FromBytesInverse(Slot(msgs[i].msg0, msgs[i].msg1, sel[i]));
    }
  }

  /** End padding gives an l-byte message back exactly when it has no
      leading zero byte or is all zeros. */
  lemma EndPaddingRoundTrip(msg: seq<byte>)
    ensures FitToLength(StripLeadingZeros(msg), |msg|) == msg <==>
      (|msg| == 0 || msg[0] != 0 || forall k :: 0 <= k < |msg| ==> msg[k] == 0)
  {
    var s := StripLeadingZeros(msg);
    var l := |msg|;
    var r := FitToLength(s, l);
    if l > 0 && msg[0] != 0 {
      assert s == msg;
      assert r == msg;
    } else if l > 0 {
      if |s| == 0 {
        assert r == Zeros(l);
        assert forall k :: 0 <= k < l ==> msg[k] == 0;
        assert r == msg;
      } else {
        assert r[0] == s[0] != 0;
        assert msg[l - |s|] == s[0];
        assert r != msg;
      }
    }
  }

  /** A two-byte message with a leading zero comes back with the zero moved
      to the end. */
  lemma LeadingZeroMoved()
    ensures FitToLength(StripLeadingZeros([0, 1]), 2) == [1, 0]
  {
    var msg: seq<byte> := [0, 1];
    var one: seq<byte> := [1];
    assert msg[1..] == one;
    assert StripLeadingZeros(one) == one;
    assert StripLeadingZeros(msg) == one;
    assert FitToLength(one, 2) == one + Zeros(1);
    assert one + Zeros(1) == [1, 0];
  }

  // ---------------------------------------------------------------------------
  // Corrected decoding

  /** Fitting with the zeros in front (what `big.Int.FillBytes` does); a long
      encoding keeps its low-order l bytes. */
  function PadFront(b: seq<byte>, l: nat): (r: seq<byte>)
    ensures |r| == l
    ensures |b| <= l ==> r[l - |b|..] == b && forall k :: 0 <= k < l - |b| ==> r[k] == 0
    ensures |b| > l ==> r == b[|b| - l..]
  {
    if |b| < l then Zeros(l - |b|) + b else b[|b| - l..]
  }

  /** `DecryptMessage` with the padding put in front of the big-endian
      encoding. */
  function DecryptMessageCorrected(receiver: Receiver, pairs: seq<CiphertextPair>, l: nat, eg: Params)
    : (r: Result<seq<seq<byte>>>)
    requires eg.p > 0 && |pairs| <= |receiver.selectionBits| && |pairs| <= |receiver.secretKeys|
    ensures r.Ok? <==> DecryptValues(receiver, pairs, eg).Ok?
    ensures r.Ok? ==> |r.value| == |pairs| && forall i :: 0 <= i < |pairs| ==> |r.value[i]| == l
    ensures r.Ok? ==> forall i :: 0 <= i < |pairs| && |ToBytes(DecryptValues(receiver, pairs, eg).value[i])| <= l ==>
      FromBytes(r.value[i]) == DecryptValues(receiver, pairs, eg).value[i]
  {
    match DecryptValues(receiver, pairs, eg)
    case Err(e) => Err(e)
    case Ok(values) => Ok(PadFrontAll(values, l))
  }

  /** Every value written big-endian and padded in front to `l` bytes. */
  function PadFrontAll(values: seq<nat>, l: nat): (out: seq<seq<byte>>)
    ensures |out| == |values| && forall i :: 0 <= i < |values| ==> |out[i]| == l
    ensures forall i :: 0 <= i < |values| && |ToBytes(values[i])| <= l ==> FromBytes(out[i]) == values[i]
  {
    var out := seq(|values|, i requires 0 <= i < |values| => PadFront(ToBytes(values[i]), l));
    forall i | 0 <= i < |values| && |ToBytes(values[i])| <= l
      ensures FromBytes(out[i]) == values[i]
    {
      PadFrontValue(values[i], l);
    }
    out
  }

  /** Zero bytes in front do not change a big-endian value. */
  lemma {:induction false} FromBytesZerosPrefix(k: nat, b: seq<byte>)
    ensures FromBytes(Zeros(k) + b) == FromBytes(b)
    decreases k
  {
    if k > 0 {
      var z := Zeros(k) + b;
      assert z[0] == 0;
      FromBytesLeadingZero(z);
      assert z[1..] == Zeros(k - 1) + b;
      FromBytesZerosPrefix(k - 1, b);
    } else {
      assert Zeros(k) + b == b;
    }
  }

  /** A value that fits in l bytes reads back from its front-padded encoding. */
  lemma PadFrontValue(n: nat, l: nat)
    requires |ToBytes(n)| <= l
    ensures FromBytes(PadFront(ToBytes(n), l)) == n
  {
    var b := ToBytes(n);
    ToBytesInverse(n);
    FromBytesZerosPrefix(l - |b|, b);
    assert PadFront(b, l) == Zeros(l - |b|) + b;
  }

  /** With front padding every honest run returns exactly the chosen
      messages, leading zero bytes included. */
  lemma TransferCorrectedCorrect(eg: Params, sel: seq<byte>, msgs: seq<MessagePair>, l: nat,
                                 skDraws: seq<int>, ogenDraws: seq<int>, rDraws: seq<(int, int)>)
    requires HonestInputs(eg, sel, msgs, l, skDraws, ogenDraws, rDraws)
    ensures var (receiver, keys) := Choose(ReceiverInit(sel), |sel|, eg, skDraws, ogenDraws).value;
      var cts := EncryptMessages(ReceiveKeys(SenderInit(msgs), keys), eg, rDraws);
      var r := DecryptMessageCorrected(receiver, cts, l, eg);
      r.Ok? && forall i :: 0 <= i < |msgs| ==> r.value[i] == Slot(msgs[i].msg0, msgs[i].msg1, sel[i])
  {
    assert sel[..|sel|] == sel;
    var (receiver, keys) := Choose(ReceiverInit(sel), |sel|, eg, skDraws, ogenDraws).value;
    var cts := EncryptMessages(ReceiveKeys(SenderInit(msgs), keys), eg, rDraws);
    forall i | 0 <= i < |msgs|
      ensures DecryptOne(receiver, cts[i], i, eg) == Ok(FromBytes(Slot(msgs[i].msg0, msgs[i].msg1, sel[i])))
    {
      TransferValue(eg, sel, msgs, l, skDraws, ogenDraws, rDraws, i);
    }
    var values := DecryptValues(receiver, cts, eg).value;
    forall i | 0 <= i < |msgs|
      ensures PadFront(ToBytes(values[i]), l) == Slot(msgs[i].msg0, msgs[i].msg1, sel[i])
    {
      PadFrontRoundTrip(Slot(msgs[i].msg0, msgs[i].msg1, sel[i]));
    }
  }

  /** Front padding inverts reading: an l-byte string comes back unchanged. */
  lemma PadFrontRoundTrip(msg: seq<byte>)
    ensures PadFront(ToBytes(FromBytes(msg)), |msg|) == msg
  {
    FromBytesInverse(msg);
    var s := StripLeadingZeros(msg);
    var l := |msg|;
    var k := l - |s|;
    var r := PadFront(s, l);
    assert |r| == l;
    forall i | 0 <= i < l
      ensures r[i] == msg[i]
    {
      if i < k {
        assert r[i] == 0;
      } else {
        assert r[i] == r[k..][i - k] == s[i - k];
        assert s[i - k] == msg[k..][i - k];
      }
    }
  }
}
