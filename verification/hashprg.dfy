/** The length and masking logic of `Hash` and `RandomBits`, and the bit
    expansion of `PseudoRandomGenerator`.

    SHA-256 and the AES-GCM sealing call are parameters: `sha` is any
    function to 32-byte digests and `seal` any function from a key and a
    plaintext to a non-empty sealed block. The random bytes `RandomBits`
    reads are a parameter as well. */
module HashPrg {
  import opened Errors
  import opened Bytes
  import opened ModArith
  import BigEndian

  /** The error the generator returns when asked for no bits. */
  const NonPositiveBitLength: string := "bitLength must be positive"

  /** An AES-GCM sealed block: it always carries the authentication tag, so
      it is never empty. */
  type Sealed = s: seq<byte> | |s| > 0 witness [0]

  // ---------------------------------------------------------------------------
  // Output length and masking

  /** `length <= 8 ? 1 : (length + 7) / 8`: the bytes needed for `length`
      bits, and one byte for any length up to 8 (zero and negative ones
      included). */
  function ByteLength(length: int): (n: nat)
    ensures n >= 1
    ensures length <= 8 ==> n == 1
    ensures length >= 1 ==> 8 * (n - 1) < length <= 8 * n
    ensures length >= 1 ==> 8 * (n - 1) + (if length % 8 == 0 then 8 else length % 8) == length
  {
    if length <= 8 then 1 else (length + 7) / 8
  }

  /** `b & ((1 << rb) - 1)`: the low `rb` bits of `b`, that is, `b` modulo
      2^rb. */
  function MaskLow(b: byte, rb: nat): (r: byte)
    requires 1 <= rb <= 7
    ensures r == b % (1 << rb)
    ensures r < 1 << rb
    ensures r <= b
    ensures b < 1 << rb ==> r == b
  {
    b & ((1 << rb) - 1)
  }

  /** The last step of `Hash` and `RandomBits`: when `length % 8` is not
      zero only that many low bits of the last byte survive. Go's remainder
      is negative for a negative length that is not a multiple of 8, and the
      shift by a negative count panics. */
  function TrimToLength(bytes: seq<byte>, length: int): (r: Result<seq<byte>>)
    requires |bytes| == ByteLength(length)
    ensures r.Err? <==> GoRem(length, 8) < 0
    ensures r.Ok? ==> |r.value| == |bytes| && r.value[..|bytes| - 1] == bytes[..|bytes| - 1]
    ensures r.Ok? && length % 8 == 0 ==> r.value == bytes
    ensures r.Ok? && length % 8 != 0 ==> r.value[|bytes| - 1] == MaskLow(bytes[|bytes| - 1], length % 8)
    ensures r.Ok? && length % 8 != 0 ==>
      r.value[|bytes| - 1] < 1 << (length % 8) &&
      r.value[|bytes| - 1] <= bytes[|bytes| - 1] &&
      (bytes[|bytes| - 1] < 1 << (length % 8) ==> r.value == bytes)
  {
    var remainingBits := GoRem(length, 8);
    if remainingBits < 0 then Err("negative shift amount")
    else if remainingBits == 0 then Ok(bytes)
    else
      var n := |bytes|;
      assert remainingBits == length % 8;
      Ok(bytes[n - 1 := MaskLow(bytes[n - 1], remainingBits)])
  }

  /** Trimming is idempotent: its output already fits `length` bits. */
  lemma TrimIdempotent(bytes: seq<byte>, length: int)
    requires |bytes| == ByteLength(length) && TrimToLength(bytes, length).Ok?
    ensures TrimToLength(TrimToLength(bytes, length).value, length) == TrimToLength(bytes, length)
  {
  }

  // ---------------------------------------------------------------------------
  // Hash

  /** The loop of `Hash`: while fewer than `byteLength` bytes are collected,
      append `sha(data)` and extend `data` by the byte `len(fullHash)`. */
  function HashLoop(sha: seq<byte> -> Digest, data: seq<byte>, collected: nat, byteLength: nat): (r: seq<byte>)
    ensures |r| % 32 == 0
    ensures collected < byteLength ==> byteLength <= collected + |r| < byteLength + 32
    ensures collected >= byteLength ==> r == []
    ensures collected < byteLength ==> r[..32] == sha(data)
    decreases byteLength - collected
  {
    if collected >= byteLength then []
    else sha(data) + HashLoop(sha, data + [ToUint8(collected + 32)], collected + 32, byteLength)
  }

  /** The digest stream does not depend on how many bytes are asked for:
      asking for fewer yields a prefix. */
  lemma {:induction false} HashLoopPrefix(sha: seq<byte> -> Digest, data: seq<byte>, collected: nat, n1: nat, n2: nat)
    requires n1 <= n2
    ensures HashLoop(sha, data, collected, n1) <= HashLoop(sha, data, collected, n2)
    decreases n2 - collected
  {
    if collected < n1 {
      HashLoopPrefix(sha, data + [ToUint8(collected + 32)], collected + 32, n1, n2);
    }
  }

  /** The bytes appended to the data before the j-th digest of a loop that
      starts with `collected` bytes: the running length after each earlier
      digest, truncated to a byte as `byte(len(fullHash))` does. */
  function Counters(collected: nat, j: nat): (r: seq<byte>)
    ensures |r| == j
  {
    seq(j, t requires 0 <= t < j => ToUint8(collected + 32 * (t + 1)))
  }

  /** The first counter and the counters of the loop one digest later. */
  lemma CountersStep(collected: nat, j: nat)
    requires j >= 1
    ensures Counters(collected, j) == [ToUint8(collected + 32)] + Counters(collected + 32, j - 1)
  {
  }

  /** Byte i of the digest stream: byte i % 32 of the digest of the data
      followed by the counters of the i / 32 digests before it. */
  function StreamByte(sha: seq<byte> -> Digest, data: seq<byte>, i: nat): byte {
    sha(data + Counters(0, i / 32))[i % 32]
  }

  /** Digest j of the loop is the digest of the data extended by j counters. */
  lemma {:induction false} HashLoopBlocks(sha: seq<byte> -> Digest, data: seq<byte>, collected: nat, byteLength: nat)
    ensures forall i :: 0 <= i < |HashLoop(sha, data, collected, byteLength)| ==>
      HashLoop(sha, data, collected, byteLength)[i] == sha(data + Counters(collected, i / 32))[i % 32]
    decreases byteLength - collected
  {
    if collected < byteLength {
      var next := data + [ToUint8(collected + 32)];
      HashLoopBlocks(sha, next, collected + 32, byteLength);
      var r, rest := HashLoop(sha, data, collected, byteLength), HashLoop(sha, next, collected + 32, byteLength);
      assert r == sha(data) + rest;
      forall i | 0 <= i < |r|
        ensures r[i] == sha(data + Counters(collected, i / 32))[i % 32]
      {
        DigestStreamAt(sha, data, collected, rest, i);
      }
    }
  }

  /** One position of the digest stream: the first digest, followed by the
      stream of the data extended by the next counter. */
  lemma DigestStreamAt(sha: seq<byte> -> Digest, data: seq<byte>, collected: nat, rest: seq<byte>, i: nat)
    requires forall k :: 0 <= k < |rest| ==>
      rest[k] == sha(data + [ToUint8(collected + 32)] + Counters(collected + 32, k / 32))[k % 32]
    requires i < 32 + |rest|
    ensures (sha(data) + rest)[i] == sha(data + Counters(collected, i / 32))[i % 32]
  {
    if i < 32 {
      assert data + Counters(collected, i / 32) == data;
    } else {
      var j := i / 32;
      CountersStep(collected, j);
      assert data + Counters(collected, j) == data + [ToUint8(collected + 32)] + Counters(collected + 32, j - 1);
      assert (i - 32) / 32 == j - 1 && (i - 32) % 32 == i % 32;
    }
  }

  /** The bytes `Hash` keeps, byte by byte: the digest stream, the last byte
      masked when the length is not a whole number of bytes. */
  lemma HashStream(sha: seq<byte> -> Digest, data: seq<byte>, length: int, n: nat)
    requires n == ByteLength(length) && GoRem(length, 8) >= 0
    ensures var t := TrimToLength(HashLoop(sha, data, 0, n)[..n], length);
      && t.Ok? && |t.value| == n
      && (forall i :: 0 <= i < n - 1 ==> t.value[i] == StreamByte(sha, data, i))
      && (length % 8 == 0 ==> t.value[n - 1] == StreamByte(sha, data, n - 1))
      && (length % 8 != 0 ==> t.value[n - 1] == MaskLow(StreamByte(sha, data, n - 1), length % 8))
  {
    HashLoopBlocks(sha, data, 0, n);
    var stream := HashLoop(sha, data, 0, n)[..n];
    assert forall i :: 0 <= i < n ==> stream[i] == StreamByte(sha, data, i);
    var t := TrimToLength(stream, length);
    assert t.value[..n - 1] == stream[..n - 1];
    assert forall i :: 0 <= i < n - 1 ==> t.value[i] == t.value[..n - 1][i];
  }

  /** The first digest of the stream is the digest of the data itself. */
  lemma StreamFirstDigest(sha: seq<byte> -> Digest, data: seq<byte>)
    ensures forall i :: 0 <= i < 32 ==> StreamByte(sha, data, i) == sha(data)[i]
  {
    assert data + Counters(0, 0) == data;
  }

  /** `Hash(data, length)`: `ByteLength(length)` bytes of the digest stream,
      the last one masked to `length % 8` bits. The input is a value, so the
      defensive copy of the source needs no counterpart. */
  function Hash(sha: seq<byte> -> Digest, data: seq<byte>, length: int): (r: Result<seq<byte>>)
    ensures r.Err? <==> GoRem(length, 8) < 0
    ensures r.Ok? ==> |r.value| == ByteLength(length)
    ensures r.Ok? ==> forall i :: 0 <= i < |r.value| - 1 && i < 32 ==> r.value[i] == sha(data)[i]
    ensures r.Ok? ==> forall i :: 0 <= i < |r.value| - 1 ==> r.value[i] == StreamByte(sha, data, i)
    ensures r.Ok? && length % 8 == 0 ==> r.value[|r.value| - 1] == StreamByte(sha, data, |r.value| - 1)
    ensures r.Ok? && length % 8 != 0 ==>
      r.value[|r.value| - 1] == MaskLow(StreamByte(sha, data, |r.value| - 1), length % 8)
  {
    var byteLength := ByteLength(length);
    var fullHash := HashLoop(sha, data, 0, byteLength);
    if GoRem(length, 8) < 0 then TrimToLength(fullHash[..byteLength], length)
    else
      HashStream(sha, data, length, byteLength);
      StreamFirstDigest(sha, data);
      TrimToLength(fullHash[..byteLength], length)
  }

  /** A hash to a whole number of bytes is a prefix of every longer hash of
      the same data. */
  lemma HashExtends(sha: seq<byte> -> Digest, data: seq<byte>, l1: int, l2: int)
    requires 1 <= l1 <= l2 && l1 % 8 == 0
    ensures Hash(sha, data, l1).Ok? && Hash(sha, data, l2).Ok?
    ensures Hash(sha, data, l1).value == Hash(sha, data, l2).value[..ByteLength(l1)]
  {
    var n1, n2 := ByteLength(l1), ByteLength(l2);
    HashLoopPrefix(sha, data, 0, n1, n2);
    var h1, h2 := HashLoop(sha, data, 0, n1), HashLoop(sha, data, 0, n2);
    assert h1[..n1] == h2[..n1];
    var r2 := Hash(sha, data, l2).value;
    if n1 < n2 {
      assert r2[..n2 - 1] == h2[..n2 - 1];
      assert r2[..n1] == h2[..n1];
    }
  }

  // ---------------------------------------------------------------------------
  // RandomBits

  /** `RandomBits(length)`, with the bytes read from `crypto/rand` passed as
      `draw`. */
  function RandomBits(length: int, draw: seq<byte>): (r: Result<seq<byte>>)
    requires |draw| == ByteLength(length)
    ensures r.Err? <==> GoRem(length, 8) < 0
    ensures r.Ok? ==> |r.value| == ByteLength(length) && r.value[..|draw| - 1] == draw[..|draw| - 1]
    ensures r.Ok? && length % 8 == 0 ==> r.value == draw
    ensures r.Ok? && length % 8 != 0 ==> r.value[|draw| - 1] == MaskLow(draw[|draw| - 1], length % 8)
  {
    TrimToLength(draw, length)
  }

  /** Every draw that already fits `length` bits can come out of
      `RandomBits`, and only those do. */
  lemma RandomBitsRange(length: int, draw: seq<byte>)
    requires |draw| == ByteLength(length) && length >= 1
    ensures RandomBits(length, draw).Ok?
    ensures RandomBits(length, draw).value == draw <==>
      (length % 8 == 0 || draw[|draw| - 1] < 1 << (length % 8))
  {
  }

  // ---------------------------------------------------------------------------
  // PseudoRandomGenerator

  /** `(b >> (7 - i)) & 1`: bit `i` of `b`, counted from the most
      significant. */
  function BitAt(b: byte, i: nat): (r: byte)
    requires i < 8
    ensures IsBit(r)
  {
    (b >> (7 - i)) & 1
  }

  /** The inner loops over one sealed block: its bits, most significant bit
      of each byte first, until `need` bits are collected. */
  function BlockBits(enc: seq<byte>, need: nat): (r: seq<byte>)
    ensures |r| == if need < 8 * |enc| then need else 8 * |enc|
    ensures forall i :: 0 <= i < |r| ==> r[i] == BitAt(enc[i / 8], i % 8)
  {
    var count := if need < 8 * |enc| then need else 8 * |enc|;
    seq(count, i requires 0 <= i < count => BitAt(enc[i / 8], i % 8))
  }

  /** The sealed block of each seed value: `aesgcm.Seal` of the seed's
      big-endian bytes under the fixed key. */
  function SealSeeds(seal: (seq<byte>, seq<byte>) -> Sealed, key: seq<byte>): (block: nat -> Sealed)
    ensures forall seed: nat :: block(seed) == seal(key, BigEndian.ToBytes(seed))
  {
    seed => seal(key, BigEndian.ToBytes(seed))
  }

  /** The outer loop: take the bits of the current seed's block, then
      increment the seed. `block` gives the block sealed from each seed. */
  function PrgLoop(block: nat -> Sealed, seed: nat, need: nat): (r: seq<byte>)
    ensures |r| == need && IsBitString(r)
    decreases need
  {
    if need == 0 then []
    else
      var bits := BlockBits(block(seed), need);
      bits + PrgLoop(block, seed + 1, need - |bits|)
  }

  /** Every bit of the blocks of `count` consecutive seeds starting at
      `seed`, block after block, most significant bit of each byte first. */
  function SealedBits(block: nat -> Sealed, seed: nat, count: nat): (r: seq<byte>)
    ensures |r| >= 8 * count
    decreases count
  {
    if count == 0 then []
    else BlockBits(block(seed), 8 * |block(seed)|) + SealedBits(block, seed + 1, count - 1)
  }

  lemma PrgLoopUnfold(block: nat -> Sealed, seed: nat, need: nat)
    requires need > 0
    ensures var bits := BlockBits(block(seed), need);
      PrgLoop(block, seed, need) == bits + PrgLoop(block, seed + 1, need - |bits|)
  {
  }

  lemma SealedBitsUnfold(block: nat -> Sealed, seed: nat, count: nat)
    requires count > 0
    ensures SealedBits(block, seed, count) ==
      BlockBits(block(seed), 8 * |block(seed)|) + SealedBits(block, seed + 1, count - 1)
  {
  }

  /** The bits collected from a block are a prefix of all its bits, and all
      of them when fewer were needed than it holds. */
  lemma BlockBitsPrefix(enc: seq<byte>, need: nat)
    ensures BlockBits(enc, need) == BlockBits(enc, 8 * |enc|)[..|BlockBits(enc, need)|]
    ensures |BlockBits(enc, need)| < need ==> BlockBits(enc, need) == BlockBits(enc, 8 * |enc|)
  {
  }

  /** A prefix of a followed by a prefix of b is a prefix of a + b, provided
      the first prefix is all of a whenever the second is not empty. */
  lemma StreamJoin(p: seq<byte>, x: seq<byte>, y: seq<byte>, s: seq<byte>, a: seq<byte>, b: seq<byte>, n: nat)
    requires p == x + y && s == a + b
    requires |x| <= |a| && |y| <= |b|
    requires x == a[..|x|] && |x| + |y| == n && y == b[..|y|]
    requires |y| > 0 ==> x == a
    ensures p == s[..n]
  {
  }

  /** One step of the stream: if the loop from the next seed reads the
      stream of the next seeds, the loop from this seed reads this one. */
  lemma StreamStep(block: nat -> Sealed, seed: nat, need: nat, count: nat)
    requires 0 < need <= count
    requires var bits := BlockBits(block(seed), need);
      PrgLoop(block, seed + 1, need - |bits|) == SealedBits(block, seed + 1, count - 1)[..need - |bits|]
    ensures PrgLoop(block, seed, need) == SealedBits(block, seed, count)[..need]
  {
    var enc := block(seed);
    var bits, all := BlockBits(enc, need), BlockBits(enc, 8 * |enc|);
    var tail, rest := PrgLoop(block, seed + 1, need - |bits|), SealedBits(block, seed + 1, count - 1);
    PrgLoopUnfold(block, seed, need);
    SealedBitsUnfold(block, seed, count);
    BlockBitsPrefix(enc, need);
    StreamJoin(PrgLoop(block, seed, need), bits, tail, SealedBits(block, seed, count), all, rest, need);
  }

  /** The loop's output is the first `need` bits of the blocks of the seeds
      from `seed` on; `need` blocks are always enough, since each block
      yields at least eight bits. */
  lemma {:induction false} PrgLoopStream(block: nat -> Sealed, seed: nat, need: nat, count: nat)
    requires need <= count
    ensures PrgLoop(block, seed, need) == SealedBits(block, seed, count)[..need]
    decreases count
  {
    if need > 0 {
      PrgLoopStream(block, seed + 1, need - |BlockBits(block(seed), need)|, count - 1);
      StreamStep(block, seed, need, count);
    }
  }

  /** `PseudoRandomGenerator(seed, bitLength)`: the cipher is keyed by the
      initial seed's big-endian bytes, and the output is one bit per byte. */
  function Prg(seal: (seq<byte>, seq<byte>) -> Sealed, seed: nat, bitLength: int): (r: Result<seq<byte>>)
    ensures r.Err? <==> bitLength <= 0
    ensures r.Ok? ==> |r.value| == bitLength && IsBitString(r.value)
    ensures r.Ok? ==> forall i :: 0 <= i < bitLength && i < 8 * |seal(BigEndian.ToBytes(seed), BigEndian.ToBytes(seed))| ==>
      r.value[i] == BitAt(seal(BigEndian.ToBytes(seed), BigEndian.ToBytes(seed))[i / 8], i % 8)
    ensures r.Ok? ==> r.value == SealedBits(SealSeeds(seal, BigEndian.ToBytes(seed)), seed, bitLength)[..bitLength]
  {
    if bitLength <= 0 then Err(NonPositiveBitLength)
    else
      var block := SealSeeds(seal, BigEndian.ToBytes(seed));
      PrgLoopStream(block, seed, bitLength, bitLength);
      Ok(PrgLoop(block, seed, bitLength))
  }

  /** The key sizes, in bytes, `aes.NewCipher` accepts. On any other it
      returns a nil block, which `PseudoRandomGenerator` keeps. */
  const AesKeySizes: set<int> := {16, 24, 32}
  /** The only nonce length a standard-nonce GCM's `Seal` accepts. */
  const GcmNonceSize: int := 12
  /** `cipher.NewGCM` given the nil block of a rejected key. */
  const NilBlockPanic: string := "runtime error: invalid memory address or nil pointer dereference"
  /** `Seal` given a nonce that is not 12 bytes long. */
  const NonceLengthPanic: string := "crypto/cipher: incorrect nonce length given to GCM"

  /** `aes.NewCipher(key)`, `cipher.NewGCM` and one `Seal(nil, nonce,
      plaintext, nil)`, with Go's panics: the cipher is built only for an
      AES key size and sealing needs a 12-byte nonce. */
  function GcmSeal(seal: (seq<byte>, seq<byte>) -> Sealed, key: seq<byte>, nonce: seq<byte>, plaintext: seq<byte>)
    : (r: Result<Sealed>)
    ensures r.Ok? <==> |key| in AesKeySizes && |nonce| == GcmNonceSize
    ensures r.Err? ==> r.reason == (if |key| in AesKeySizes then NonceLengthPanic else NilBlockPanic)
    ensures r.Ok? ==> r.value == seal(key, plaintext)
  {
    if |key| !in AesKeySizes then Err(NilBlockPanic)
    else if |nonce| != GcmNonceSize then Err(NonceLengthPanic)
    else Ok(seal(key, plaintext))
  }

  /** `PseudoRandomGenerator(seed, bitLength, iv)` as written: `iv` is never
      read, and the first `Seal` of the loop is handed a nil nonce, so
      every call that gets past the length check panics. */
  function PrgAsWritten(seal: (seq<byte>, seq<byte>) -> Sealed, seed: nat, bitLength: int, iv: seq<byte>)
    : (r: Result<seq<byte>>)
    ensures r.Err?
    ensures bitLength <= 0 ==> r == Prg(seal, seed, bitLength)
    ensures bitLength > 0 ==> r == GcmSeal(seal, BigEndian.ToBytes(seed), [], BigEndian.ToBytes(seed))
  {
    if bitLength <= 0 then Err(NonPositiveBitLength)
    else
      var seedBytes := BigEndian.ToBytes(seed);
      match GcmSeal(seal, seedBytes, [], seedBytes)
      case Err(e) => Err(e)
      case Ok(_) => Prg(seal, seed, bitLength)
  }

  /** The gap between the code and the generator the protocols need: for
      every seed, oracle and positive length the intended generator
      yields bitLength bits, while the code as written panics. */
  lemma PrgAsWrittenPanics(seal: (seq<byte>, seq<byte>) -> Sealed, seed: nat, bitLength: int, iv: seq<byte>)
    requires bitLength > 0
    ensures PrgAsWritten(seal, seed, bitLength, iv).Err?
    ensures Prg(seal, seed, bitLength).Ok? && |Prg(seal, seed, bitLength).value| == bitLength
  {
  }

  /** A shorter request gives a prefix of the loop's longer output. */
  lemma {:induction false} PrgLoopPrefix(block: nat -> Sealed, seed: nat, k: nat, n: nat)
    requires k <= n
    ensures PrgLoop(block, seed, k) == PrgLoop(block, seed, n)[..k]
  {
    PrgLoopStream(block, seed, k, n);
    PrgLoopStream(block, seed, n, n);
  }

  /** Asking for fewer bits from the same seed gives a prefix of the longer
      output: the generator is a fixed stream determined by the seed. */
  lemma PrgPrefix(seal: (seq<byte>, seq<byte>) -> Sealed, seed: nat, k: int, n: int)
    requires 0 < k <= n
    ensures Prg(seal, seed, k).Ok? && Prg(seal, seed, n).Ok?
    ensures Prg(seal, seed, k).value == Prg(seal, seed, n).value[..k]
  {
    PrgLoopPrefix(SealSeeds(seal, BigEndian.ToBytes(seed)), seed, k, n);
  }
}
