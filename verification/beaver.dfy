/** The Beaver-triple AND protocol of external/deleteFile.go: a dealer hands
    out XOR-shared triples (u, v, w) with w = u AND v, and two parties, each
    holding XOR-shares of three x bits and three y bits, compute shares of
    AND_i NOT(NOT x_i AND y_i) in four rounds.

    Go keeps every value in an `int` and combines values with `^` and `&`,
    which act on each of the 64 bit lanes separately; the model follows the
    one lane the protocol uses, with `Xor`, `And` and `Not` (Go's `^ 1`). */
module Beaver {
  import BloodTypes

  /** One bit lane. */
  datatype Bit = O | I

  function Xor(a: Bit, b: Bit): Bit {
    if a == b then O else I
  }

  function And(a: Bit, b: Bit): Bit {
    if a == I && b == I then I else O
  }

  function Not(a: Bit): Bit {
    if a == O then I else O
  }

  datatype Triple = Triple(u: Bit, v: Bit, w: Bit)

  /** Alice's and Bob's halves of one triple share u, v and u AND v. */
  predicate Consistent(a: Triple, b: Triple) {
    And(Xor(a.u, b.u), Xor(a.v, b.v)) == Xor(a.w, b.w)
  }

  /** The two lists line up index by index into consistent triples. */
  predicate ConsistentLists(a: seq<Triple>, b: seq<Triple>, n: nat) {
    n <= |a| && n <= |b| && forall i :: 0 <= i < n ==> Consistent(a[i], b[i])
  }

  // ---------------------------------------------------------------- dealer

  /** `Dealer{numand, atriples, btriples}`; `RandA` and `RandB` return the
      two lists as stored, i.e. the field selectors. */
  datatype Dealer = Dealer(numand: int, atriples: seq<Triple>, btriples: seq<Triple>)

  /** The five coin flips of one round of `Dealer.Init`. */
  datatype Coins = Coins(ua: Bit, ub: Bit, va: Bit, vb: Bit, wa: Bit)

  function AliceTriple(c: Coins): Triple {
    Triple(c.ua, c.va, c.wa)
  }

  /** Bob's w is chosen so that the pair shares u AND v. */
  function BobTriple(c: Coins): (t: Triple)
    ensures Consistent(AliceTriple(c), t)
  {
    Triple(c.ub, c.vb, Xor(And(Xor(c.ua, c.ub), Xor(c.va, c.vb)), c.wa))
  }

  /** `Dealer.Init(n)`: appends `n` triples to each list (none when n <= 0),
      the i-th built from the i-th round of coins. */
  function DealerInit(d: Dealer, n: int, coins: seq<Coins>): (r: Dealer)
    requires n <= |coins|
    ensures r.numand == n
    ensures var k := if n < 0 then 0 else n;
      |r.atriples| == |d.atriples| + k && |r.btriples| == |d.btriples| + k
    ensures r.atriples[..|d.atriples|] == d.atriples && r.btriples[..|d.btriples|] == d.btriples
    ensures var na, nb := r.atriples[|d.atriples|..], r.btriples[|d.btriples|..];
      forall i :: 0 <= i < |na| ==>
        i < n && na[i] == Triple(coins[i].ua, coins[i].va, coins[i].wa) && Consistent(na[i], nb[i])
  {
    var k := if n < 0 then 0 else n;
    var round := coins[..k];
    var a := seq(k, i requires 0 <= i < k => AliceTriple(round[i]));
    var b := seq(k, i requires 0 <= i < k => BobTriple(round[i]));
    assert (d.atriples + a)[|d.atriples|..] == a && (d.btriples + b)[|d.btriples|..] == b;
    Dealer(n, d.atriples + a, d.btriples + b)
  }

  /** A fresh dealer's lists are consistent, index by index. */
  lemma FreshDealerConsistent(n: nat, coins: seq<Coins>)
    requires n <= |coins|
    ensures var r := DealerInit(Dealer(0, [], []), n, coins);
      ConsistentLists(r.atriples, r.btriples, n) && |r.atriples| == n
  {
    var r := DealerInit(Dealer(0, [], []), n, coins);
    assert r.atriples[0..] == r.atriples && r.btriples[0..] == r.btriples;
  }

  // ---------------------------------------------------------------- parties

  /** `Party`: three x slots, three y slots, the working z, d and e slots,
      the three triples in use and the triples still to use. */
  datatype Party = Party(
    x0: Bit, x1: Bit, x2: Bit,
    y0: Bit, y1: Bit, y2: Bit,
    z0: Bit, z1: Bit, z2: Bit,
    d0: Bit, d1: Bit, d2: Bit,
    e0: Bit, e1: Bit, e2: Bit,
    t0: Triple, t1: Triple, t2: Triple,
    triples: seq<Triple>,
    isBob: bool)

  /** A party in its zero state, holding `triples`. */
  function NewParty(isBob: bool, triples: seq<Triple>): (p: Party)
    ensures p.isBob == isBob && p.triples == triples
    ensures p.x0 == p.x1 == p.x2 == O && p.y0 == p.y1 == p.y2 == O && p.z0 == p.z1 == p.z2 == O
  {
    var z := Triple(O, O, O);
    Party(O, O, O, O, O, O, O, O, O, O, O, O, O, O, O, z, z, z, triples, isBob)
  }

  /** `ReceiveInput(input2, input1, input0)`: Alice stores the arguments in
      her y slots, Bob in his x slots, the FIRST argument in slot 2 and the
      last in slot 0; nothing else changes. */
  function ReceiveInput(p: Party, input2: Bit, input1: Bit, input0: Bit): (r: Party)
    ensures !p.isBob ==> r == p.(y0 := input0, y1 := input1, y2 := input2)
    ensures p.isBob ==> r == p.(x0 := input0, x1 := input1, x2 := input2)
  {
    if !p.isBob then p.(y2 := input2, y1 := input1, y0 := input0)
    else p.(x2 := input2, x1 := input1, x0 := input0)
  }

  /** Alice's share of NOT b: only she flips. */
  function Negate(isBob: bool, b: Bit): (r: Bit)
    ensures r == b <==> isBob
  {
    if !isBob then Not(b) else b
  }

  /** A party's share of a product once d and e are open; Alice alone adds
      d AND e. Beaver's identity: were Alice's triple the whole triple
      (w = u AND v) and d, e the whole masked values, her share would be
      (d XOR u) AND (e XOR v), the product of the unmasked values; Bob's
      share of a zero triple is zero. */
  function FinishAnd(isBob: bool, t: Triple, d: Bit, e: Bit): (r: Bit)
    ensures !isBob && t.w == And(t.u, t.v) ==> r == And(Xor(d, t.u), Xor(e, t.v))
    ensures isBob && t == Triple(O, O, O) ==> r == O
  {
    var z := Xor(Xor(t.w, And(e, t.u)), And(d, t.v));
    if !isBob then Xor(z, And(d, e)) else z
  }

  /** `Phase1`: shares of NOT x_i (Alice flips, Bob copies), then the masked
      operands of the three products (NOT x_i) AND y_i, each with its own
      triple from the front of the list; returns the six masked values.
      Go indexes `triples[0]` three times, so three triples must be left. */
  method Phase1(p: Party) returns (r: Party, d0: Bit, e0: Bit, d1: Bit, e1: Bit, d2: Bit, e2: Bit)
    requires |p.triples| >= 3
    ensures r.isBob == p.isBob && r.triples == p.triples[3..]
    ensures r.t0 == p.triples[0] && r.t1 == p.triples[1] && r.t2 == p.triples[2]
    ensures r.z0 == Negate(p.isBob, p.x0) && r.z1 == Negate(p.isBob, p.x1) && r.z2 == Negate(p.isBob, p.x2)
    ensures d0 == r.d0 == Xor(r.z0, r.t0.u) && e0 == r.e0 == Xor(p.y0, r.t0.v)
    ensures d1 == r.d1 == Xor(r.z1, r.t1.u) && e1 == r.e1 == Xor(p.y1, r.t1.v)
    ensures d2 == r.d2 == Xor(r.z2, r.t2.u) && e2 == r.e2 == Xor(p.y2, r.t2.v)
  {
    var t0, t1, t2 := p.triples[0], p.triples[1], p.triples[2];
    var z0, z1, z2 := Negate(p.isBob, p.x0), Negate(p.isBob, p.x1), Negate(p.isBob, p.x2);
    d0, e0, d1, e1, d2, e2 := Xor(z0, t0.u), Xor(p.y0, t0.v), Xor(z1, t1.u), Xor(p.y1, t1.v), Xor(z2, t2.u), Xor(p.y2, t2.v);
    r := p.(z0 := z0, z1 := z1, z2 := z2, t0 := t0, t1 := t1, t2 := t2, triples := p.triples[3..],
            d0 := d0, e0 := e0, d1 := d1, e1 := e1, d2 := d2, e2 := e2);
  }

  /** `Phase2(other's six round-one values)`: opens the three products,
      finishes them and negates them (Alice only), then masks z0 and z1 with
      one more triple and returns the masked pair. */
  method Phase2(p: Party, bd0: Bit, be0: Bit, bd1: Bit, be1: Bit, bd2: Bit, be2: Bit) returns (r: Party, d: Bit, e: Bit)
    requires |p.triples| >= 1
    ensures r.isBob == p.isBob && r.triples == p.triples[1..] && r.t0 == p.triples[0]
    ensures r.z0 == Negate(p.isBob, FinishAnd(p.isBob, p.t0, Xor(p.d0, bd0), Xor(p.e0, be0)))
    ensures r.z1 == Negate(p.isBob, FinishAnd(p.isBob, p.t1, Xor(p.d1, bd1), Xor(p.e1, be1)))
    ensures r.z2 == Negate(p.isBob, FinishAnd(p.isBob, p.t2, Xor(p.d2, bd2), Xor(p.e2, be2)))
    ensures d == r.d0 == Xor(r.z0, r.t0.u) && e == r.e0 == Xor(r.z1, r.t0.v)
  {
    var z0 := Negate(p.isBob, FinishAnd(p.isBob, p.t0, Xor(p.d0, bd0), Xor(p.e0, be0)));
    var z1 := Negate(p.isBob, FinishAnd(p.isBob, p.t1, Xor(p.d1, bd1), Xor(p.e1, be1)));
    var z2 := Negate(p.isBob, FinishAnd(p.isBob, p.t2, Xor(p.d2, bd2), Xor(p.e2, be2)));
    var t := p.triples[0];
    d, e := Xor(z0, t.u), Xor(z1, t.v);
    r := p.(z0 := z0, z1 := z1, z2 := z2, t0 := t, triples := p.triples[1..],
            d0 := d, e0 := e, d1 := Xor(p.d1, bd1), e1 := Xor(p.e1, be1), d2 := Xor(p.d2, bd2), e2 := Xor(p.e2, be2));
  }

  /** `Phase3(other's d, e)`: finishes z0 AND z1, then masks it and z2 with
      one more triple. The debugging print is left out. */
  method Phase3(p: Party, bd: Bit, be: Bit) returns (r: Party, d: Bit, e: Bit)
    requires |p.triples| >= 1
    ensures r.isBob == p.isBob && r.triples == p.triples[1..] && r.t0 == p.triples[0]
    ensures r.z0 == FinishAnd(p.isBob, p.t0, Xor(p.d0, bd), Xor(p.e0, be)) && r.z2 == p.z2
    ensures d == r.d0 == Xor(r.z0, r.t0.u) && e == r.e0 == Xor(r.z2, r.t0.v)
  {
    var z0 := FinishAnd(p.isBob, p.t0, Xor(p.d0, bd), Xor(p.e0, be));
    var t := p.triples[0];
    d, e := Xor(z0, t.u), Xor(p.z2, t.v);
    r := p.(z0 := z0, t0 := t, triples := p.triples[1..], d0 := d, e0 := e);
  }

  /** `Phase4(other's d, e)`: finishes (z0 AND z1) AND z2 and returns the
      share; no triple is used. */
  method Phase4(p: Party, bd: Bit, be: Bit) returns (r: Party, z: Bit)
    ensures r.isBob == p.isBob && r.triples == p.triples
    ensures z == FinishAnd(p.isBob, p.t0, Xor(p.d0, bd), Xor(p.e0, be)) && r.z0 == z
  {
    z := FinishAnd(p.isBob, p.t0, Xor(p.d0, bd), Xor(p.e0, be));
    r := p.(z0 := z, d0 := Xor(p.d0, bd), e0 := Xor(p.e0, be));
  }

  // ---------------------------------------------------------------- correctness

  /** One Beaver multiplication. Alice (ia) and Bob (ib) hold shares of x
      and y, mask them with the two halves of a consistent triple into
      (d, e), exchange them and finish; their results ra and rb XOR to
      x AND y. */
  lemma BeaverProduct(ia: bool, ib: bool, ta: Triple, tb: Triple, xa: Bit, xb: Bit, ya: Bit, yb: Bit,
                      da: Bit, db: Bit, ea: Bit, eb: Bit, ra: Bit, rb: Bit)
    requires !ia && ib && Consistent(ta, tb)
    requires da == Xor(xa, ta.u) && ea == Xor(ya, ta.v) && db == Xor(xb, tb.u) && eb == Xor(yb, tb.v)
    requires ra == FinishAnd(ia, ta, Xor(da, db), Xor(ea, eb))
    requires rb == FinishAnd(ib, tb, Xor(db, da), Xor(eb, ea))
    ensures Xor(ra, rb) == And(Xor(xa, xb), Xor(ya, yb))
  {
  }

  /** The same product, negated afterwards by Alice alone, as in Phase2. */
  lemma NegatedProduct(ia: bool, ib: bool, ta: Triple, tb: Triple, xa: Bit, xb: Bit, ya: Bit, yb: Bit,
                       da: Bit, db: Bit, ea: Bit, eb: Bit, ra: Bit, rb: Bit)
    requires !ia && ib && Consistent(ta, tb)
    requires da == Xor(xa, ta.u) && ea == Xor(ya, ta.v) && db == Xor(xb, tb.u) && eb == Xor(yb, tb.v)
    requires ra == Negate(ia, FinishAnd(ia, ta, Xor(da, db), Xor(ea, eb)))
    requires rb == Negate(ib, FinishAnd(ib, tb, Xor(db, da), Xor(eb, ea)))
    ensures Xor(ra, rb) == Not(And(Xor(xa, xb), Xor(ya, yb)))
  {
  }

  /** Negating a shared value: only Alice's share flips. */
  lemma NegateShares(ia: bool, ib: bool, xa: Bit, xb: Bit, ra: Bit, rb: Bit)
    requires !ia && ib && ra == Negate(ia, xa) && rb == Negate(ib, xb)
    ensures Xor(ra, rb) == Not(Xor(xa, xb))
  {
  }

  /** The function the protocol evaluates, slot by slot: NOT(NOT x_i AND y_i)
      for the three slots, ANDed together. It is set exactly when no slot has
      y set and x clear. */
  function Compatible(x0: Bit, x1: Bit, x2: Bit, y0: Bit, y1: Bit, y2: Bit): (c: Bit)
    ensures c == I <==> (x0 == I || y0 == O) && (x1 == I || y1 == O) && (x2 == I || y2 == O)
  {
    And(And(Not(And(Not(x0), y0)), Not(And(Not(x1), y1))), Not(And(Not(x2), y2)))
  }

  /** Phase1 of both parties: shares of NOT x_i, masked for the three
      products. */
  method OpenInputs(a: Party, b: Party) returns (a1: Party, b1: Party)
    requires |a.triples| >= 3 && |b.triples| >= 3
    ensures a1.isBob == a.isBob && b1.isBob == b.isBob
    ensures a1.triples == a.triples[3..] && b1.triples == b.triples[3..]
    ensures a1.t0 == a.triples[0] && a1.t1 == a.triples[1] && a1.t2 == a.triples[2]
    ensures b1.t0 == b.triples[0] && b1.t1 == b.triples[1] && b1.t2 == b.triples[2]
    ensures a1.d0 == Xor(a1.z0, a1.t0.u) && a1.e0 == Xor(a.y0, a1.t0.v) && b1.d0 == Xor(b1.z0, b1.t0.u) && b1.e0 == Xor(b.y0, b1.t0.v)
    ensures a1.d1 == Xor(a1.z1, a1.t1.u) && a1.e1 == Xor(a.y1, a1.t1.v) && b1.d1 == Xor(b1.z1, b1.t1.u) && b1.e1 == Xor(b.y1, b1.t1.v)
    ensures a1.d2 == Xor(a1.z2, a1.t2.u) && a1.e2 == Xor(a.y2, a1.t2.v) && b1.d2 == Xor(b1.z2, b1.t2.u) && b1.e2 == Xor(b.y2, b1.t2.v)
    ensures ConsistentLists(a.triples, b.triples, 5) ==>
      ConsistentLists(a1.triples, b1.triples, 2) && Consistent(a1.t0, b1.t0) && Consistent(a1.t1, b1.t1) && Consistent(a1.t2, b1.t2)
    ensures !a.isBob && b.isBob ==>
      Xor(a1.z0, b1.z0) == Not(Xor(a.x0, b.x0)) && Xor(a1.z1, b1.z1) == Not(Xor(a.x1, b.x1)) && Xor(a1.z2, b1.z2) == Not(Xor(a.x2, b.x2))
  {
    var ad0, ae0, ad1, ae1, ad2, ae2, bd0, be0, bd1, be1, bd2, be2;
    a1, ad0, ae0, ad1, ae1, ad2, ae2 := Phase1(a);
    b1, bd0, be0, bd1, be1, bd2, be2 := Phase1(b);
    if ConsistentLists(a.triples, b.triples, 5) {
      assert Consistent(a.triples[0], b.triples[0]) && Consistent(a.triples[1], b.triples[1]) && Consistent(a.triples[2], b.triples[2]);
    }
    if !a.isBob && b.isBob {
      NegateShares(a.isBob, b.isBob, a.x0, b.x0, a1.z0, b1.z0);
      NegateShares(a.isBob, b.isBob, a.x1, b.x1, a1.z1, b1.z1);
      NegateShares(a.isBob, b.isBob, a.x2, b.x2, a1.z2, b1.z2);
    }
  }

  /** Phase2 of both parties, each on the other's round-one values (which
      Phase1 also keeps in the d and e slots): with the first three triples
      consistent, shares of NOT(z_i AND y_i) for the shared z_i and y_i,
      with z0 and z1 masked by the next triple. */
  method NegatedProducts(a1: Party, b1: Party, ya0: Bit, ya1: Bit, ya2: Bit, yb0: Bit, yb1: Bit, yb2: Bit)
    returns (a2: Party, b2: Party, da: Bit, ea: Bit, db: Bit, eb: Bit)
    requires |a1.triples| >= 1 && |b1.triples| >= 1
    requires a1.d0 == Xor(a1.z0, a1.t0.u) && a1.e0 == Xor(ya0, a1.t0.v) && b1.d0 == Xor(b1.z0, b1.t0.u) && b1.e0 == Xor(yb0, b1.t0.v)
    requires a1.d1 == Xor(a1.z1, a1.t1.u) && a1.e1 == Xor(ya1, a1.t1.v) && b1.d1 == Xor(b1.z1, b1.t1.u) && b1.e1 == Xor(yb1, b1.t1.v)
    requires a1.d2 == Xor(a1.z2, a1.t2.u) && a1.e2 == Xor(ya2, a1.t2.v) && b1.d2 == Xor(b1.z2, b1.t2.u) && b1.e2 == Xor(yb2, b1.t2.v)
    ensures a2.isBob == a1.isBob && b2.isBob == b1.isBob
    ensures a2.triples == a1.triples[1..] && b2.triples == b1.triples[1..]
    ensures a2.t0 == a1.triples[0] && b2.t0 == b1.triples[0]
    ensures da == a2.d0 == Xor(a2.z0, a2.t0.u) && ea == a2.e0 == Xor(a2.z1, a2.t0.v)
    ensures db == b2.d0 == Xor(b2.z0, b2.t0.u) && eb == b2.e0 == Xor(b2.z1, b2.t0.v)
    ensures !a1.isBob && b1.isBob && Consistent(a1.t0, b1.t0) && Consistent(a1.t1, b1.t1) && Consistent(a1.t2, b1.t2) ==>
      Xor(a2.z0, b2.z0) == Not(And(Xor(a1.z0, b1.z0), Xor(ya0, yb0))) &&
      Xor(a2.z1, b2.z1) == Not(And(Xor(a1.z1, b1.z1), Xor(ya1, yb1))) &&
      Xor(a2.z2, b2.z2) == Not(And(Xor(a1.z2, b1.z2), Xor(ya2, yb2)))
  {
    a2, da, ea := Phase2(a1, b1.d0, b1.e0, b1.d1, b1.e1, b1.d2, b1.e2);
    b2, db, eb := Phase2(b1, a1.d0, a1.e0, a1.d1, a1.e1, a1.d2, a1.e2);
    if !a1.isBob && b1.isBob && Consistent(a1.t0, b1.t0) && Consistent(a1.t1, b1.t1) && Consistent(a1.t2, b1.t2) {
      NegatedProduct(a1.isBob, b1.isBob, a1.t0, b1.t0, a1.z0, b1.z0, ya0, yb0, a1.d0, b1.d0, a1.e0, b1.e0, a2.z0, b2.z0);
      NegatedProduct(a1.isBob, b1.isBob, a1.t1, b1.t1, a1.z1, b1.z1, ya1, yb1, a1.d1, b1.d1, a1.e1, b1.e1, a2.z1, b2.z1);
      NegatedProduct(a1.isBob, b1.isBob, a1.t2, b1.t2, a1.z2, b1.z2, ya2, yb2, a1.d2, b1.d2, a1.e2, b1.e2, a2.z2, b2.z2);
    }
  }

  /** Phase3 and Phase4 of both parties: with the two remaining triples
      consistent, shares of (z0 AND z1) AND z2. */
  method LastRounds(a2: Party, b2: Party, da: Bit, ea: Bit, db: Bit, eb: Bit)
    returns (outA: Bit, outB: Bit, finalA: Party, finalB: Party)
    requires |a2.triples| >= 1 && |b2.triples| >= 1
    requires da == a2.d0 == Xor(a2.z0, a2.t0.u) && ea == a2.e0 == Xor(a2.z1, a2.t0.v)
    requires db == b2.d0 == Xor(b2.z0, b2.t0.u) && eb == b2.e0 == Xor(b2.z1, b2.t0.v)
    ensures finalA.triples == a2.triples[1..] && finalB.triples == b2.triples[1..]
    ensures !a2.isBob && b2.isBob && Consistent(a2.t0, b2.t0) && ConsistentLists(a2.triples, b2.triples, 1) ==>
      Xor(outA, outB) == And(And(Xor(a2.z0, b2.z0), Xor(a2.z1, b2.z1)), Xor(a2.z2, b2.z2))
  {
    var a3, da3, ea3 := Phase3(a2, db, eb);
    var b3, db3, eb3 := Phase3(b2, da, ea);
    finalA, outA := Phase4(a3, db3, eb3);
    finalB, outB := Phase4(b3, da3, ea3);
    if !a2.isBob && b2.isBob && Consistent(a2.t0, b2.t0) && ConsistentLists(a2.triples, b2.triples, 1) {
      assert Consistent(a2.triples[0], b2.triples[0]);
      BeaverProduct(a2.isBob, b2.isBob, a2.t0, b2.t0, a2.z0, b2.z0, a2.z1, b2.z1, da, db, ea, eb, a3.z0, b3.z0);
      BeaverProduct(a3.isBob, b3.isBob, a3.t0, b3.t0, a3.z0, b3.z0, a3.z2, b3.z2, da3, db3, ea3, eb3, outA, outB);
    }
  }

  /** The four rounds between Alice and Bob, in the order the driver runs
      them. With five consistent triples, the two outputs XOR to the
      function of the slot-wise reconstructed inputs x_i = xA_i XOR xB_i,
      y_i = yA_i XOR yB_i; each party uses up exactly five triples. */
  method Run(a: Party, b: Party) returns (outA: Bit, outB: Bit, finalA: Party, finalB: Party)
    requires |a.triples| >= 5 && |b.triples| >= 5
    ensures finalA.triples == a.triples[5..] && finalB.triples == b.triples[5..]
    ensures !a.isBob && b.isBob && ConsistentLists(a.triples, b.triples, 5) ==>
      Xor(outA, outB) == Compatible(Xor(a.x0, b.x0), Xor(a.x1, b.x1), Xor(a.x2, b.x2), Xor(a.y0, b.y0), Xor(a.y1, b.y1), Xor(a.y2, b.y2))
  {
    var a1, b1 := OpenInputs(a, b);
    var a2, b2, da2, ea2, db2, eb2 := NegatedProducts(a1, b1, a.y0, a.y1, a.y2, b.y0, b.y1, b.y2);
    outA, outB, finalA, finalB := LastRounds(a2, b2, da2, ea2, db2, eb2);
    assert a1.triples[1..] == a.triples[4..] && b1.triples[1..] == b.triples[4..];
    assert a2.triples[1..] == a.triples[5..] && b2.triples[1..] == b.triples[5..];
    if !a.isBob && b.isBob && ConsistentLists(a.triples, b.triples, 5) {
      ConsistentTail(a1.triples, b1.triples, 1);
      ComposeRounds(Xor(a.x0, b.x0), Xor(a.x1, b.x1), Xor(a.x2, b.x2), Xor(a.y0, b.y0), Xor(a.y1, b.y1), Xor(a.y2, b.y2),
                    Xor(a1.z0, b1.z0), Xor(a1.z1, b1.z1), Xor(a1.z2, b1.z2), Xor(a2.z0, b2.z0), Xor(a2.z1, b2.z1), Xor(a2.z2, b2.z2),
                    Xor(outA, outB));
    }
  }

  /** `DebugExternal`: Alice holds x = (0, 0, 0) and receives y = (0, 0, 0),
      Bob holds y = (1, 1, 1) and receives x = (1, 1, 1), both with five
      copies of the triple (0, 1, 1); the reconstructed output is 1, since
      every x_i = y_i = 1. The prints are left out. */
  method DebugExternal() returns (z: Bit)
    ensures z == I
  {
    var t := Triple(O, I, I);
    var uvw := [t, t, t, t, t];
    var alice := NewParty(false, uvw).(x0 := O, x1 := O, x2 := O);
    var bob := NewParty(true, uvw).(y0 := I, y1 := I, y2 := I);
    alice := ReceiveInput(alice, O, O, O);
    bob := ReceiveInput(bob, I, I, I);
    assert !alice.isBob && alice.x0 == alice.x1 == alice.x2 == alice.y0 == alice.y1 == alice.y2 == O;
    assert bob.isBob && bob.x0 == bob.x1 == bob.x2 == bob.y0 == bob.y1 == bob.y2 == I;
    assert alice.triples == bob.triples == uvw;
    assert Consistent(t, t);
    var outA, outB, _, _ := Run(alice, bob);
    z := Xor(outA, outB);
  }

  /** Dropping the first pair of consistent lists keeps the rest
      consistent. */
  lemma ConsistentTail(a: seq<Triple>, b: seq<Triple>, n: nat)
    requires ConsistentLists(a, b, n + 1)
    ensures Consistent(a[0], b[0]) && ConsistentLists(a[1..], b[1..], n)
  {
    forall i | 0 <= i < n
      ensures Consistent(a[1..][i], b[1..][i])
    {
      assert Consistent(a[i + 1], b[i + 1]);
    }
  }

  /** The three rounds compose: NOT x_i, then NOT(NOT x_i AND y_i), then the
      conjunction of the three. */
  lemma ComposeRounds(x0: Bit, x1: Bit, x2: Bit, y0: Bit, y1: Bit, y2: Bit,
                      n0: Bit, n1: Bit, n2: Bit, c0: Bit, c1: Bit, c2: Bit, out: Bit)
    requires n0 == Not(x0) && n1 == Not(x1) && n2 == Not(x2)
    requires c0 == Not(And(n0, y0)) && c1 == Not(And(n1, y1)) && c2 == Not(And(n2, y2))
    requires out == And(And(c0, c1), c2)
    ensures out == Compatible(x0, x1, x2, y0, y1, y2)
  {
  }

  /** Fed with the bits of two blood types, x from the recipient and y from
      the donor, the function the protocol evaluates is the compatibility
      table. */
  lemma CompatibleIsLookUp(recipient: int, donor: int)
    requires 0 <= recipient < 8 && 0 <= donor < 8
    ensures var c := Compatible(BitSet(recipient, 0), BitSet(recipient, 1), BitSet(recipient, 2),
                                BitSet(donor, 0), BitSet(donor, 1), BitSet(donor, 2));
      c == I <==> BloodTypes.LookUpBloodType(recipient, donor)
  {
    BloodTypes.CircuitMatchesTable(recipient, donor);
  }

  /** Bit k of n, as a lane value. */
  function BitSet(n: int, k: nat): Bit {
    if BloodTypes.Bit(n, k) == 1 then I else O
  }
}
