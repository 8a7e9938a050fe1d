/** Big-endian conversions between byte strings and non-negative integers, as
    `big.Int.SetBytes` and `big.Int.Bytes` perform them. `Bytes` is minimal:
    it has no leading zero byte, and zero encodes as the empty string. */
module BigEndian {
  import opened Bytes
  import opened ModArith

  /** `new(big.Int).SetBytes(s)` */
  function FromBytes(s: seq<byte>): (r: nat)
    ensures r < Pow(256, |s|)
  {
    if |s| == 0 then 0
    else
      var r0 := FromBytes(s[..|s| - 1]);
      assert r0 * 256 + s[|s| - 1] as int < Pow(256, |s|) by {
        assert r0 + 1 <= Pow(256, |s| - 1);
        assert (r0 + 1) * 256 <= Pow(256, |s| - 1) * 256;
      }
      r0 * 256 + s[|s| - 1] as int
  }

  /** `n.Bytes()` for `n >= 0` */
  function ToBytes(n: nat): (r: seq<byte>)
    ensures |r| == 0 <==> n == 0
    ensures |r| > 0 ==> r[0] != 0
    ensures n < Pow(256, |r|)
    ensures |r| > 0 ==> Pow(256, |r| - 1) <= n
  {
    if n == 0 then []
    else
      var hi := ToBytes(n / 256);
      assert n / 256 < Pow(256, |hi|);
      assert n < Pow(256, |hi|) * 256;
      assert |hi| > 0 ==> Pow(256, |hi|) <= n by {
        if |hi| > 0 {
          assert Pow(256, |hi| - 1) * 256 <= (n / 256) * 256;
        }
      }
      hi + [ToUint8(n)]
  }

  /** Drops the leading zero bytes. */
  function StripLeadingZeros(s: seq<byte>): (r: seq<byte>)
    ensures |r| <= |s| && r == s[|s| - |r|..]
    ensures |r| > 0 ==> r[0] != 0
    ensures forall i :: 0 <= i < |s| - |r| ==> s[i] == 0
  {
    if |s| > 0 && s[0] == 0 then StripLeadingZeros(s[1..]) else s
  }

  lemma {:induction false} ToBytesInverse(n: nat)
    ensures FromBytes(ToBytes(n)) == n
    decreases n
  {
    if n > 0 {
      var r := ToBytes(n);
      var hi := ToBytes(n / 256);
      ToBytesInverse(n / 256);
      assert r == hi + [ToUint8(n)];
      assert r[..|r| - 1] == hi;
      assert r[|r| - 1] as int == n % 256;
      assert FromBytes(r) == FromBytes(hi) * 256 + n % 256;
    }
  }

  lemma {:induction false} FromBytesLeadingZero(s: seq<byte>)
    requires |s| > 0 && s[0] == 0
    ensures FromBytes(s) == FromBytes(s[1..])
    decreases |s|
  {
    if |s| > 1 {
      FromBytesLeadingZero(s[..|s| - 1]);
      assert s[..|s| - 1][1..] == s[1..][..|s[1..]| - 1];
    }
  }

  lemma {:induction false} FromBytesPositive(s: seq<byte>)
    requires |s| > 0 && s[0] != 0
    ensures FromBytes(s) > 0
    decreases |s|
  {
    if |s| > 1 {
      FromBytesPositive(s[..|s| - 1]);
    }
  }

  lemma {:induction false} FromBytesInverseNormal(s: seq<byte>)
    requires |s| == 0 || s[0] != 0
    ensures ToBytes(FromBytes(s)) == s
    decreases |s|
  {
    if |s| > 0 {
      var init := s[..|s| - 1];
      var n := FromBytes(s);
      assert n == FromBytes(init) * 256 + s[|s| - 1] as int;
      if |init| > 0 {
        FromBytesPositive(s);
        FromBytesInverseNormal(init);
      }
      var last := s[|s| - 1];
      DivModUnique(n, 256, FromBytes(init), last as int);
      ByteOfValue(ToUint8(n), last);
      assert s == init + [last];
    }
  }

  /** Reading a byte string and writing the number back loses exactly its
      leading zero bytes. */
  lemma {:induction false} FromBytesInverse(s: seq<byte>)
    ensures ToBytes(FromBytes(s)) == StripLeadingZeros(s)
    decreases |s|
  {
    if |s| > 0 && s[0] == 0 {
      FromBytesLeadingZero(s);
      FromBytesInverse(s[1..]);
    } else {
      FromBytesInverseNormal(s);
    }
  }

  /** A value read from `l` bytes writes back in at most `l` bytes. */
  lemma ToBytesFits(s: seq<byte>)
    ensures |ToBytes(FromBytes(s))| <= |s|
  {
    FromBytesInverse(s);
  }
}
