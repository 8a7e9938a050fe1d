/** Bytes, bits stored in bytes, and the bytewise XOR of the helper
    library the protocols call (`xor.XORBytes`). */
module Bytes {
  import opened Errors

  /** The panic message for `xor.XORBytes` on slices of different lengths. */
  const LengthMismatch: string := "length of byte slices is not equivalent"

  /** Go's `byte` / `uint8`. */
  type byte = bv8

  /** The matrices and the PRG output store one bit per byte. */
  predicate IsBit(b: byte) {
    b == 0 || b == 1
  }

  predicate IsBitString(s: seq<byte>) {
    forall i :: 0 <= i < |s| ==> IsBit(s[i])
  }

  /** A byte is determined by its value. */
  lemma ByteOfValue(a: byte, b: byte)
    requires a as int == b as int
    ensures a == b
  {
  }

  /** Go's `uint8(x)` conversion of an `int`: two's-complement truncation,
      which on unbounded integers is the Euclidean remainder modulo 256. */
  function ToUint8(x: int): (r: byte)
    ensures r as int == x % 256
    ensures 0 <= x < 256 ==> r as int == x
  {
    ByteOf(x % 256)
  }

  /** The byte holding the value `v`, counted up from zero. */
  function ByteOf(v: nat): (r: byte)
    requires v < 256
    ensures r as int == v
  {
    if v == 0 then 0 else ByteOf(v - 1) + 1
  }

  /** `xor.XORBytes(a, b)`: an error when the lengths differ, otherwise the
      bytewise exclusive or. */
  function XorBytes(a: seq<byte>, b: seq<byte>): (r: Result<seq<byte>>)
    ensures r.Ok? <==> |a| == |b|
    ensures r.Ok? ==> |r.value| == |a|
    ensures r.Ok? ==> forall i :: 0 <= i < |a| ==> r.value[i] == a[i] ^ b[i]
  {
    if |a| != |b| then Err(LengthMismatch)
    else Ok(seq(|a|, i requires 0 <= i < |a| => a[i] ^ b[i]))
  }

  /** XOR with the same pad twice gives the input back: the property every
      one-time-pad step of the protocols relies on. */
  lemma XorBytesCancel(x: seq<byte>, pad: seq<byte>)
    requires |x| == |pad|
    ensures XorBytes(x, pad).Ok?
    ensures XorBytes(XorBytes(x, pad).value, pad) == Ok(x)
  {
    var y := XorBytes(x, pad).value;
    var z := XorBytes(y, pad).value;
    forall i | 0 <= i < |x|
      ensures z[i] == x[i]
    {
      assert z[i] == (x[i] ^ pad[i]) ^ pad[i];
    }
    assert z == x;
  }

  /** XOR of two bit strings is a bit string. */
  lemma XorBitStrings(a: seq<byte>, b: seq<byte>)
    requires |a| == |b| && IsBitString(a) && IsBitString(b)
    ensures IsBitString(XorBytes(a, b).value)
  {
  }

  /** `n` zero bytes, as `make([]byte, n)` allocates them. */
  function Zeros(n: nat): (r: seq<byte>)
    ensures |r| == n && forall i :: 0 <= i < n ==> r[i] == 0
  {
    seq(n, _ => 0)
  }

  /** A SHA-256 digest: 32 bytes. */
  type Digest = d: seq<byte> | |d| == 32 witness Zeros(32)
}
