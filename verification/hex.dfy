/** Hexadecimal strings as `encoding/hex` reads and writes them: decoding
    accepts both letter cases and fails on an odd length or a non-hex
    character; encoding writes lower-case digits, two per byte. */
module Hex {
  import opened Errors
  import opened Bytes

  /** The panic message for `XORStrings` on a non-hex string or strings of different lengths. */
  const InvalidOrMismatched: string := "invalid input or length mismatch"

  /** The value of one hex digit, if it is one. */
  function HexValue(c: char): (v: Option<nat>)
    ensures v.Some? ==> v.value < 16
    ensures v.Some? <==> '0' <= c <= '9' || 'a' <= c <= 'f' || 'A' <= c <= 'F'
  {
    if '0' <= c <= '9' then Some(c as int - '0' as int)
    else if 'a' <= c <= 'f' then Some(c as int - 'a' as int + 10)
    else if 'A' <= c <= 'F' then Some(c as int - 'A' as int + 10)
    else None
  }

  /** The lower-case digit for a value below 16. */
  function Digit(v: nat): (c: char)
    requires v < 16
    ensures '0' <= c <= '9' || 'a' <= c <= 'f'
    ensures HexValue(c) == Some(v)
  {
    if v < 10 then ('0' as int + v) as char else ('a' as int + v - 10) as char
  }

  predicate IsLowerHexChar(c: char) {
    '0' <= c <= '9' || 'a' <= c <= 'f'
  }

  /** What `hex.EncodeToString` can produce. */
  predicate LowerHex(s: string) {
    |s| % 2 == 0 && forall i :: 0 <= i < |s| ==> IsLowerHexChar(s[i])
  }

  /** `hex.DecodeString`: `None` on an odd length or a non-hex character. */
  function DecodeHex(s: string): (r: Option<seq<byte>>)
    ensures r.Some? <==> |s| % 2 == 0 && forall i :: 0 <= i < |s| ==> HexValue(s[i]).Some?
    ensures r.Some? ==> |r.value| == |s| / 2
    decreases |s|
  {
    if |s| % 2 == 1 then None
    else if s == [] then Some([])
    else
      var rest := DecodeHex(s[2..]);
      if HexValue(s[0]).None? || HexValue(s[1]).None? || rest.None? then
        assert rest.None? ==> exists i :: 0 <= i < |s| - 2 && HexValue(s[2..][i]).None?;
        None
      else Some([ByteOf(16 * HexValue(s[0]).value + HexValue(s[1]).value)] + rest.value)
  }

  /** `hex.EncodeToString`: two lower-case digits per byte, high nibble
      first. */
  function EncodeHex(b: seq<byte>): (s: string)
    ensures |s| == 2 * |b| && LowerHex(s)
  {
    if b == [] then ""
    else [Digit(b[0] as int / 16), Digit(b[0] as int % 16)] + EncodeHex(b[1..])
  }

  /** Decoding undoes encoding. */
  lemma {:induction false} DecodeEncode(b: seq<byte>)
    ensures DecodeHex(EncodeHex(b)) == Some(b)
  {
    if b != [] {
      DecodeEncode(b[1..]);
      var s := EncodeHex(b);
      assert s[2..] == EncodeHex(b[1..]);
      var v := b[0] as int;
      ByteOfValue(ByteOf(16 * (v / 16) + v % 16), b[0]);
      assert [b[0]] + b[1..] == b;
    }
  }

  /** Encoding undoes decoding on lower-case hex. */
  lemma {:induction false} EncodeDecode(s: string)
    requires LowerHex(s)
    ensures DecodeHex(s).Some? && EncodeHex(DecodeHex(s).value) == s
    decreases |s|
  {
    if s != [] {
      assert LowerHex(s[2..]) by {
        forall i | 0 <= i < |s[2..]|
          ensures IsLowerHexChar(s[2..][i])
        {
          assert s[2..][i] == s[i + 2];
        }
      }
      EncodeDecode(s[2..]);
      var hi, lo := HexValue(s[0]).value, HexValue(s[1]).value;
      var b := ByteOf(16 * hi + lo);
      Nibbles(hi, lo);
      DigitOfValue(s[0]);
      DigitOfValue(s[1]);
      assert DecodeHex(s).value == [b] + DecodeHex(s[2..]).value;
      assert EncodeHex(DecodeHex(s).value) == [Digit(hi), Digit(lo)] + EncodeHex(DecodeHex(s[2..]).value);
      assert s == [s[0], s[1]] + s[2..];
    }
  }

  /** A lower-case digit is written back as itself. */
  lemma DigitOfValue(c: char)
    requires IsLowerHexChar(c)
    ensures HexValue(c).Some? && Digit(HexValue(c).value) == c
  {
  }

  /** The two nibbles of a byte built from them. */
  lemma Nibbles(hi: nat, lo: nat)
    requires hi < 16 && lo < 16
    ensures ByteOf(16 * hi + lo) as int / 16 == hi && ByteOf(16 * hi + lo) as int % 16 == lo
  {
  }

  /** Lower-case hex always decodes. */
  lemma LowerHexDecodes(s: string)
    requires LowerHex(s)
    ensures DecodeHex(s).Some? && |DecodeHex(s).value| == |s| / 2
  {
  }

  /** `XORStrings(a, b)`: both inputs must decode to the same number of
      bytes, otherwise it panics; the result is the lower-case hex of the
      bytewise XOR. */
  function XORStrings(a: string, b: string): (r: Result<string>)
    ensures r.Ok? <==> DecodeHex(a).Some? && DecodeHex(b).Some? && |a| == |b|
    ensures r.Ok? ==> |r.value| == |a| && LowerHex(r.value)
    ensures r.Ok? ==> DecodeHex(r.value) == Some(XorBytes(DecodeHex(a).value, DecodeHex(b).value).value)
  {
    match (DecodeHex(a), DecodeHex(b))
    case (Some(x), Some(y)) =>
      if |x| != |y| then Err(InvalidOrMismatched)
      else
        DecodeEncode(XorBytes(x, y).value);
        Ok(EncodeHex(XorBytes(x, y).value))
    case _ => Err(InvalidOrMismatched)
  }

  /** XOR with the same string twice gives the other string back. */
  lemma XORStringsInverse(a: string, b: string)
    requires LowerHex(a) && LowerHex(b) && |a| == |b|
    ensures XORStrings(a, b).Ok?
    ensures XORStrings(a, XORStrings(a, b).value) == Ok(b)
  {
    LowerHexDecodes(a);
    LowerHexDecodes(b);
    var x, y := DecodeHex(a).value, DecodeHex(b).value;
    var c := XORStrings(a, b).value;
    var z := XorBytes(x, y).value;
    assert DecodeHex(c) == Some(z);
    var w := XorBytes(x, z).value;
    assert w == y by {
      forall i | 0 <= i < |y|
        ensures w[i] == y[i]
      {
        assert w[i] == x[i] ^ (x[i] ^ y[i]);
      }
    }
    EncodeDecode(b);
  }
}
