/** The One-Time Truth Table protocol of handin2: a dealer hands Alice and
    Bob correlated 8 x 8 boolean matrices, and with one message each way
    Alice learns the blood-type compatibility of her recipient type x and
    Bob's donor type y. */
module OTTT {
  import opened ModArith

  /** Go's `[8][8]bool`. */
  type Grid = m: seq<seq<bool>> | IsGrid(m) witness seq(8, _ => seq(8, _ => false))

  predicate IsGrid(m: seq<seq<bool>>) {
    |m| == 8 && forall i :: 0 <= i < 8 ==> |m[i]| == 8
  }

  /** A blood type, `bloodtype uint8`, in the order AB+, AB-, B+, B-, A+,
      A-, O+, O-. */
  const ABplus := 0
  const ABminus := 1
  const Bplus := 2
  const Bminus := 3
  const Aplus := 4
  const Aminus := 5
  const Oplus := 6
  const Ominus := 7

  // ---------------------------------------------------------------------------
  // utils.go

  /** `XOR(x, y)`, written with `||`, `&&` and `!`. */
  function Xor(x: bool, y: bool): (r: bool)
    ensures r <==> x != y
  {
    (x || y) && !(x && y)
  }

  /** `XORMatrix(X, Y)`: entrywise XOR. */
  function XorMatrix(x: Grid, y: Grid): (r: Grid)
    ensures forall i, j :: 0 <= i < 8 && 0 <= j < 8 ==> (r[i][j] <==> x[i][j] != y[i][j])
  {
    seq(8, i requires 0 <= i < 8 => seq(8, j requires 0 <= j < 8 => Xor(x[i][j], y[i][j])))
  }

  /** XOR-ing with the same matrix twice gives the matrix back. */
  lemma XorMatrixCancel(a: Grid, b: Grid)
    ensures XorMatrix(XorMatrix(a, b), b) == a
  {
    var r := XorMatrix(XorMatrix(a, b), b);
    forall i | 0 <= i < 8
      ensures r[i] == a[i]
    {
      assert forall j :: 0 <= j < 8 ==> r[i][j] == a[i][j];
    }
  }

  /** In this order bit 0 of a type marks Rh-negative, bit 1 the absence
      of the A antigen and bit 2 the absence of the B antigen. A recipient
      can receive from a donor that lacks everything the recipient lacks. */
  predicate Receives(recipient: int, donor: int) {
    recipient % 2 <= donor % 2 && (recipient / 2) % 2 <= (donor / 2) % 2 && recipient / 4 <= donor / 4
  }

  /** `bloodtype_compatibility`: row the recipient, column the donor. AB+
      receives from everyone, everyone receives from O-, and every type
      receives from itself. */
  function CompatibilityTable(): (t: Grid)
    ensures forall i :: 0 <= i < 8 ==> t[ABplus][i] && t[i][Ominus] && t[i][i]
  {
    [[true, true, true, true, true, true, true, true],
     [false, true, false, true, false, true, false, true],
     [false, false, true, true, false, false, true, true],
     [false, false, false, true, false, false, false, true],
     [false, false, false, false, true, true, true, true],
     [false, false, false, false, false, true, false, true],
     [false, false, false, false, false, false, true, true],
     [false, false, false, false, false, false, false, true]]
  }

  /** `LookUpBloodType(recipient, donor)`; a type past 7 indexes out of the
      array. */
  function LookUpBloodType(recipient: int, donor: int): (b: bool)
    requires 0 <= recipient < 8 && 0 <= donor < 8
    ensures b <==> Receives(recipient, donor)
  {
    TableRule(recipient, donor);
    CompatibilityTable()[recipient][donor]
  }

  /** The table is the antigen rule, entry by entry. */
  lemma {:induction false} TableRule(recipient: int, donor: int)
    requires 0 <= recipient < 8 && 0 <= donor < 8
    ensures CompatibilityTable()[recipient][donor] <==> Receives(recipient, donor)
  {
    match recipient
    case 0 => case 1 => case 2 => case 3 =>
    case 4 => case 5 => case 6 => case 7 =>
  }

  /** AB+ receives from everyone, everyone receives from O-, every type
      receives from itself, and O+ does not receive from AB+. */
  lemma TableFacts()
    ensures forall d :: 0 <= d < 8 ==> LookUpBloodType(ABplus, d)
    ensures forall r :: 0 <= r < 8 ==> LookUpBloodType(r, Ominus)
    ensures forall t :: 0 <= t < 8 ==> LookUpBloodType(t, t)
    ensures !LookUpBloodType(Oplus, ABplus)
  {
  }

  /** `ShiftMatrix(r, s)`: the table cyclically shifted by r rows and s
      columns. The index `(i - r + 8) % 8` uses Go's `%`, which for r and s
      up to 8 is the cyclic index (i - r) mod 8; above 8 it would index
      below zero. */
  function ShiftMatrix(r: int, s: int): (m: Grid)
    requires r <= 8 && s <= 8
    ensures forall i, j :: 0 <= i < 8 && 0 <= j < 8 ==> m[i][j] == CompatibilityTable()[(i - r) % 8][(j - s) % 8]
  {
    Shift(CompatibilityTable(), r, s)
  }

  /** The loop of `ShiftMatrix` run on any grid. */
  function Shift(table: Grid, r: int, s: int): (m: Grid)
    requires r <= 8 && s <= 8
    ensures forall i, j :: 0 <= i < 8 && 0 <= j < 8 ==> m[i][j] == table[(i - r) % 8][(j - s) % 8]
  {
    seq(8, i requires 0 <= i < 8 => ShiftedRow(table, i, r, s))
  }

  /** Row i of the shifted grid. */
  function ShiftedRow(table: Grid, i: int, r: int, s: int): (row: seq<bool>)
    requires 0 <= i < 8 && r <= 8 && s <= 8
    ensures |row| == 8 && forall j :: 0 <= j < 8 ==> row[j] == table[(i - r) % 8][(j - s) % 8]
  {
    seq(8, j requires 0 <= j < 8 => table[ShiftIndex(i, r)][ShiftIndex(j, s)])
  }

  /** `(i - r + 8) % 8` with Go's `%`: for shifts up to 8 the dividend is not
      negative, so this is the cyclic index (i - r) mod 8. */
  function ShiftIndex(i: int, r: int): (k: int)
    requires 0 <= i < 8 && r <= 8
    ensures k == (i - r) % 8
  {
    assert i - r == (i - r) / 8 * 8 + (i - r) % 8;
    DivModUnique(i - r + 8, 8, (i - r) / 8 + 1, (i - r) % 8);
    GoRem(i - r + 8, 8)
  }

  /** Shifting back: entry ((x + r) % 8, (y + s) % 8) of the shifted grid is
      entry (x, y) of the grid. */
  lemma ShiftLookup(table: Grid, r: int, s: int, x: int, y: int)
    requires 0 <= r < 8 && 0 <= s < 8 && 0 <= x < 8 && 0 <= y < 8
    ensures Shift(table, r, s)[(x + r) % 8][(y + s) % 8] == table[x][y]
  {
    ShiftBack(x, r);
    ShiftBack(y, s);
  }

  /** ((x + r) mod 8 - r) mod 8 = x for x, r in [0, 8). */
  lemma ShiftBack(x: int, r: int)
    requires 0 <= r < 8 && 0 <= x < 8
    ensures ((x + r) % 8 - r) % 8 == x
  {
    if x + r < 8 {
      assert (x + r) % 8 == x + r;
    } else {
      DivModUnique(x + r, 8, 1, x + r - 8);
      DivModUnique(x - 8, 8, -1, x);
    }
  }

  /** `GenerateRandomMatrix()`: entry (i, j) is true when its draw of
      `rand.Intn(2)` is 1. */
  function GenerateRandomMatrix(draws: seq<seq<int>>): (m: Grid)
    requires |draws| == 8 && forall i :: 0 <= i < 8 ==> |draws[i]| == 8
    ensures forall i, j :: 0 <= i < 8 && 0 <= j < 8 ==> (m[i][j] <==> draws[i][j] == 1)
  {
    seq(8, i requires 0 <= i < 8 => seq(8, j requires 0 <= j < 8 => draws[i][j] == 1))
  }

  /** `GetBloodTypeName(bType)`: in this order a name has an "A" when bit 1
      is clear, a "B" when bit 2 is clear, "O" when both are set, and ends
      in "+" when bit 0 is clear; any other value is "Unknown". */
  function GetBloodTypeName(t: int): (name: string)
    ensures !(0 <= t < 8) <==> name == "Unknown"
    ensures 0 <= t < 8 ==> |name| >= 2 && (name[|name| - 1] == '+' <==> t % 2 == 0)
    ensures 0 <= t < 8 ==> ('A' in name <==> (t / 2) % 2 == 0) && ('B' in name <==> t / 4 == 0)
    ensures 0 <= t < 8 ==> ('O' in name <==> (t / 2) % 2 == 1 && t / 4 == 1)
  {
    match t
    case 0 => "AB+"
    case 1 => "AB-"
    case 2 => "B+"
    case 3 => "B-"
    case 4 => "A+"
    case 5 => "A-"
    case 6 => "O+"
    case 7 => "O-"
    case _ => "Unknown"
  }

  /** The eight types have eight different names, none of them "Unknown". */
  lemma BloodTypeNamesDistinct(t1: int, t2: int)
    requires 0 <= t1 < 8 && 0 <= t2 < 8 && t1 != t2
    ensures GetBloodTypeName(t1) != GetBloodTypeName(t2)
    ensures GetBloodTypeName(t1) != "Unknown"
  {
  }

  // ---------------------------------------------------------------------------
  // dealer.go

  /** The dealer's state; the getters are its field selectors. */
  datatype Dealer = Dealer(r: int, s: int, matrixA: Grid, matrixB: Grid)

  /** What the dealer promises: the shifts are in range and the two
      matrices XOR to the table shifted by them. */
  predicate Dealt(d: Dealer) {
    0 <= d.r < 8 && 0 <= d.s < 8 && XorMatrix(d.matrixA, d.matrixB) == ShiftMatrix(d.r, d.s)
  }

  /** `Dealer.Init()` with the draws of `rand.Intn(8)` and Bob's random
      matrix as parameters. */
  function DealerInit(rDraw: int, sDraw: int, matrixB: Grid): (d: Dealer)
    requires 0 <= rDraw < 8 && 0 <= sDraw < 8
    ensures d.r == rDraw && d.s == sDraw && d.matrixB == matrixB
    ensures Dealt(d)
  {
    var a := XorMatrix(matrixB, ShiftMatrix(rDraw, sDraw));
    assert XorMatrix(a, matrixB) == ShiftMatrix(rDraw, sDraw) by {
      var t := XorMatrix(a, matrixB);
      forall i | 0 <= i < 8
        ensures t[i] == ShiftMatrix(rDraw, sDraw)[i]
      {
        assert forall j :: 0 <= j < 8 ==> t[i][j] == ShiftMatrix(rDraw, sDraw)[i][j];
      }
    }
    Dealer(rDraw, sDraw, a, matrixB)
  }

  // ---------------------------------------------------------------------------
  // alice.go and bob.go

  datatype Alice = Alice(x: int, matrixA: Grid, u: int, r: int, v: int, zB: bool)

  datatype Bob = Bob(y: int, matrixB: Grid, s: int, u: int)

  /** `Alice.Init(x, matrix, r)`; the other fields keep Go's zero values. */
  function AliceInit(x: int, matrix: Grid, r: int): (a: Alice)
    ensures a.x == x && a.matrixA == matrix && a.r == r
  {
    Alice(x, matrix, 0, r, 0, false)
  }

  /** `Alice.Send()`: u = (x + r) % 8 with Go's `%`, recorded and sent. */
  function AliceSend(a: Alice): (res: (Alice, int))
    ensures res.0 == a.(u := res.1)
    ensures a.x + a.r >= 0 ==> 0 <= res.1 < 8 && res.1 == (a.x + a.r) % 8
  {
    var u := GoRem(a.x + a.r, 8);
    (a.(u := u), u)
  }

  /** `Alice.Receive(v, z_B)` */
  function AliceReceive(a: Alice, v: int, zB: bool): (a': Alice)
    ensures a' == a.(v := v, zB := zB)
  {
    a.(v := v, zB := zB)
  }

  /** `Alice.ComputeOutput()`: M_A[u][v] XOR z_B. */
  function AliceComputeOutput(a: Alice): (z: bool)
    requires 0 <= a.u < 8 && 0 <= a.v < 8
    ensures z <==> a.matrixA[a.u][a.v] != a.zB
  {
    Xor(a.matrixA[a.u][a.v], a.zB)
  }

  /** `Bob.Init(y, matrix, s)` */
  function BobInit(y: int, matrix: Grid, s: int): (b: Bob)
    ensures b.y == y && b.matrixB == matrix && b.s == s
  {
    Bob(y, matrix, s, 0)
  }

  /** `Bob.Receive(u)` */
  function BobReceive(b: Bob, u: int): (b': Bob)
    ensures b' == b.(u := u)
  {
    b.(u := u)
  }

  /** `Bob.Send()`: v = (y + s) % 8 and z_B = M_B[u][v]; the lookup needs u
      and v in range. */
  function BobSend(b: Bob): (res: (int, bool))
    requires 0 <= b.u < 8 && b.y + b.s >= 0
    ensures 0 <= res.0 < 8 && res.0 == (b.y + b.s) % 8
    ensures res.1 == b.matrixB[b.u][res.0]
  {
    var v := GoRem(b.y + b.s, 8);
    (v, b.matrixB[b.u][v])
  }

  // ---------------------------------------------------------------------------
  // handin2.go

  /** `ComputeOTTTBloodTypeCompatability(recipient, donor)` with the
      dealer's randomness as parameters: the dealer deals, then the parties
      exchange their messages. */
  function ComputeOTTT(recipient: int, donor: int, rDraw: int, sDraw: int, matrixB: Grid): (z: bool)
    requires 0 <= recipient < 8 && 0 <= donor < 8 && 0 <= rDraw < 8 && 0 <= sDraw < 8
    ensures z == LookUpBloodType(recipient, donor)
  {
    var d := DealerInit(rDraw, sDraw, matrixB);
    ExchangeMatchesTable(d, CompatibilityTable(), recipient, donor);
    Exchange(d, recipient, donor)
  }

  /** The messages of one run on a dealt pair of matrices: Alice sends u,
      Bob answers (v, z_B), Alice computes the output, which is the XOR of
      the two shares at (u, v). */
  function Exchange(d: Dealer, recipient: int, donor: int): (z: bool)
    requires 0 <= recipient < 8 && 0 <= donor < 8 && 0 <= d.r < 8 && 0 <= d.s < 8
    ensures var u, v := (recipient + d.r) % 8, (donor + d.s) % 8;
      z == Xor(d.matrixA[u][v], d.matrixB[u][v])
  {
    var a := AliceInit(recipient, d.matrixA, d.r);
    var b := BobInit(donor, d.matrixB, d.s);
    var (a1, u) := AliceSend(a);
    var b1 := BobReceive(b, u);
    var (v, zB) := BobSend(b1);
    var a2 := AliceReceive(a1, v, zB);
    AliceComputeOutput(a2)
  }

  /** For any dealer whose matrices XOR to a shifted grid, the exchange
      yields the grid's entry at the parties' inputs. */
  lemma ExchangeMatchesTable(d: Dealer, table: Grid, recipient: int, donor: int)
    requires 0 <= recipient < 8 && 0 <= donor < 8 && 0 <= d.r < 8 && 0 <= d.s < 8
    requires XorMatrix(d.matrixA, d.matrixB) == Shift(table, d.r, d.s)
    ensures Exchange(d, recipient, donor) == table[recipient][donor]
  {
    ProtocolEntry(d, table, recipient, donor, (recipient + d.r) % 8, (donor + d.s) % 8);
  }

  /** The two shares at ((x + r) % 8, (y + s) % 8) XOR to entry (x, y), for
      any dealer whose matrices XOR to the grid shifted by (r, s). */
  lemma ProtocolEntry(d: Dealer, table: Grid, recipient: int, donor: int, u: int, v: int)
    requires 0 <= recipient < 8 && 0 <= donor < 8 && 0 <= d.r < 8 && 0 <= d.s < 8
    requires XorMatrix(d.matrixA, d.matrixB) == Shift(table, d.r, d.s)
    requires u == (recipient + d.r) % 8 && v == (donor + d.s) % 8
    ensures Xor(d.matrixA[u][v], d.matrixB[u][v]) == table[recipient][donor]
  {
    ShiftLookup(table, d.r, d.s, recipient, donor);
    assert XorMatrix(d.matrixA, d.matrixB)[u][v] == table[recipient][donor];
  }

  /** Hence the result does not depend on the dealer's randomness. */
  lemma OTTTIndependentOfDealer(recipient: int, donor: int, r1: int, s1: int, m1: Grid, r2: int, s2: int, m2: Grid)
    requires 0 <= recipient < 8 && 0 <= donor < 8
    requires 0 <= r1 < 8 && 0 <= s1 < 8 && 0 <= r2 < 8 && 0 <= s2 < 8
    ensures ComputeOTTT(recipient, donor, r1, s1, m1) == ComputeOTTT(recipient, donor, r2, s2, m2)
  {
  }
}
