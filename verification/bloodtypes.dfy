/** The blood-type encoding shared by handin4, handin5 and handin6: the
    three bits of a type are (A antigen, B antigen, Rh factor), and the
    compatibility table of all three is the same. A recipient can receive
    from a donor exactly when the donor has no antigen the recipient
    lacks. */
module BloodTypes {
  const Ominus := 0
  const Oplus := 1
  const Bminus := 2
  const Bplus := 3
  const Aminus := 4
  const Aplus := 5
  const ABminus := 6
  const ABplus := 7

  /** `(n >> k) & 1` on a Go `int`: the shift is arithmetic, i.e. floor
      division, which for a positive divisor is Dafny's `/`. */
  function Bit(n: int, k: nat): (b: int)
    ensures b == 0 || b == 1
  {
    (n / Pow2(k)) % 2
  }

  function Pow2(k: nat): (p: nat)
    ensures p >= 1
  {
    if k == 0 then 1 else 2 * Pow2(k - 1)
  }

  /** A value below 8 is the sum of its three bits. */
  lemma ThreeBits(n: int)
    requires 0 <= n < 8
    ensures n == 4 * Bit(n, 2) + 2 * Bit(n, 1) + Bit(n, 0)
  {
    assert Pow2(1) == 2 && Pow2(2) == 4;
  }

  /** `ExtractBits(n)` of handin6: (bit 2, bit 1, bit 0). */
  function ExtractBits(n: int): (bits: seq<int>)
    ensures |bits| == 3 && forall i :: 0 <= i < 3 ==> bits[i] == 0 || bits[i] == 1
    ensures 0 <= n < 8 ==> 4 * bits[0] + 2 * bits[1] + bits[2] == n
  {
    if 0 <= n < 8 then ThreeBits(n); [Bit(n, 2), Bit(n, 1), Bit(n, 0)]
    else [Bit(n, 2), Bit(n, 1), Bit(n, 0)]
  }

  /** `1 ^ b` on a bit. */
  function Flip(b: int): (r: int)
    requires b == 0 || b == 1
    ensures (r == 0 || r == 1) && (r == 1 <==> b == 0)
  {
    1 - b
  }

  /** `a & b` on bits. */
  function AndBits(a: int, b: int): (r: int)
    requires (a == 0 || a == 1) && (b == 0 || b == 1)
    ensures (r == 0 || r == 1) && (r == 1 <==> a == 1 && b == 1)
  {
    if a == 1 then b else 0
  }

  /** The donor carries no antigen bit the recipient lacks. */
  predicate BitsWithin(donor: int, recipient: int) {
    Bit(donor, 2) <= Bit(recipient, 2) && Bit(donor, 1) <= Bit(recipient, 1) && Bit(donor, 0) <= Bit(recipient, 0)
  }

  /** `ComputeBloodtypeCompatibility(recipient, donor)` of handin4: the
      AND over the three bit positions of NOT(NOT x_i AND y_i). */
  function ComputeBloodtypeCompatibility(recipient: int, donor: int): (c: int)
    requires 0 <= recipient < 256 && 0 <= donor < 256
    ensures c == 0 || c == 1
    ensures c == 1 <==> BitsWithin(donor, recipient)
  {
    var x1, x2, x3 := Bit(recipient, 2), Bit(recipient, 1), Bit(recipient, 0);
    var y1, y2, y3 := Bit(donor, 2), Bit(donor, 1), Bit(donor, 0);
    AndBits(AndBits(Flip(AndBits(Flip(x1), y1)), Flip(AndBits(Flip(x2), y2))), Flip(AndBits(Flip(x3), y3)))
  }

  /** `Bloodtype_compatibility`: row the recipient, column the donor. */
  function CompatibilityTable(): (t: seq<seq<int>>)
    ensures |t| == 8 && forall i :: 0 <= i < 8 ==> |t[i]| == 8
  {
    [[1, 0, 0, 0, 0, 0, 0, 0],
     [1, 1, 0, 0, 0, 0, 0, 0],
     [1, 0, 1, 0, 0, 0, 0, 0],
     [1, 1, 1, 1, 0, 0, 0, 0],
     [1, 0, 0, 0, 1, 0, 0, 0],
     [1, 1, 0, 0, 1, 1, 0, 0],
     [1, 0, 1, 0, 1, 0, 1, 0],
     [1, 1, 1, 1, 1, 1, 1, 1]]
  }

  /** `LookUpBloodType(recipient, donor)`: the table entry is 1. A type past
      7 indexes out of the array. */
  function LookUpBloodType(recipient: int, donor: int): (b: bool)
    requires 0 <= recipient < 8 && 0 <= donor < 8
    ensures b <==> BitsWithin(donor, recipient)
  {
    TableIsBitsWithin(recipient, donor);
    CompatibilityTable()[recipient][donor] == 1
  }

  /** AB+ receives from everyone, everyone receives from O-, every type
      receives from itself, and O+ does not receive from AB+. */
  lemma TableFacts()
    ensures forall d :: 0 <= d < 8 ==> LookUpBloodType(ABplus, d)
    ensures forall r :: 0 <= r < 8 ==> LookUpBloodType(r, Ominus)
    ensures forall t :: 0 <= t < 8 ==> LookUpBloodType(t, t)
    ensures !LookUpBloodType(Oplus, ABplus)
  {
  }

  /** The bits of the eight types, spelled out. */
  lemma SmallBits(n: int)
    requires 0 <= n < 8
    ensures Bit(n, 2) == n / 4 && Bit(n, 1) == (n / 2) % 2 && Bit(n, 0) == n % 2
  {
    assert Pow2(1) == 2 && Pow2(2) == 4;
  }

  lemma SmallBitsAll()
    ensures forall n :: 0 <= n < 8 ==> Bit(n, 2) == n / 4 && Bit(n, 1) == (n / 2) % 2 && Bit(n, 0) == n % 2
  {
    forall n | 0 <= n < 8 {
      SmallBits(n);
    }
  }

  /** The table is the antigen rule: row r, column d is 1 exactly when d's
      bits lie within r's. */
  lemma {:induction false} TableIsBitsWithin(recipient: int, donor: int)
    requires 0 <= recipient < 8 && 0 <= donor < 8
    ensures CompatibilityTable()[recipient][donor] == 1 <==> BitsWithin(donor, recipient)
  {
    SmallBits(recipient);
    SmallBits(donor);
    match recipient
    case 0 => case 1 => case 2 => case 3 =>
    case 4 => case 5 => case 6 => case 7 =>
  }

  /** The bit circuit computes the table, for all 64 pairs. */
  lemma CircuitMatchesTable(recipient: int, donor: int)
    requires 0 <= recipient < 8 && 0 <= donor < 8
    ensures ComputeBloodtypeCompatibility(recipient, donor) == 1 <==> LookUpBloodType(recipient, donor)
  {
  }

  /** `GetBloodTypeName(bType)`: the name spells out the type's bits, an
      "A" for bit 2, a "B" for bit 1 and a final "+" for bit 0, with "O" when
      neither antigen is present; any other value is "Unknown". */
  function GetBloodTypeName(t: int): (name: string)
    ensures !(0 <= t < 8) <==> name == "Unknown"
    ensures 0 <= t < 8 ==> |name| >= 2 && (name[|name| - 1] == '+' <==> Bit(t, 0) == 1)
    ensures 0 <= t < 8 ==> ('A' in name <==> Bit(t, 2) == 1) && ('B' in name <==> Bit(t, 1) == 1)
    ensures 0 <= t < 8 ==> ('O' in name <==> Bit(t, 2) == 0 && Bit(t, 1) == 0)
  {
    SmallBitsAll();
    match t
    case 7 => "AB+"
    case 6 => "AB-"
    case 3 => "B+"
    case 2 => "B-"
    case 5 => "A+"
    case 4 => "A-"
    case 1 => "O+"
    case 0 => "O-"
    case _ => "Unknown"
  }

  /** The eight types have eight different names, none of them "Unknown". */
  lemma BloodTypeNamesDistinct(t1: int, t2: int)
    requires 0 <= t1 < 8 && 0 <= t2 < 8 && t1 != t2
    ensures GetBloodTypeName(t1) != GetBloodTypeName(t2)
    ensures GetBloodTypeName(t1) != "Unknown"
  {
  }
}
