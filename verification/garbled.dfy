/** Garbled tables and the garbled compatibility circuit of handin5.

    Every wire carries two hex labels, one per bit. A gate's table holds,
    for each pair of input bits (a, b), the output label for op(a, b)
    followed by a redundancy string, XORed with the hash of the input labels
    for a and b. `crypto/rand` draws (labels and shuffle indices) are
    parameters, and SHA-256 is an oracle returning a 32-byte digest. */
module Garbled {
  import opened Errors
  import opened Bytes
  import opened Hex
  import BloodTypes

  /** A wire `[2]string`: the label for bit 0, then the label for bit 1. */
  datatype Wire = Wire(k0: string, k1: string)

  function Key(w: Wire, b: int): string
    requires b == 0 || b == 1
  {
    if b == 0 then w.k0 else w.k1
  }

  /** Both labels are 128 bits written as 32 lower-case hex characters, as
      `Random128BitString` makes them. */
  predicate Labelled(w: Wire) {
    |w.k0| == 32 && |w.k1| == 32 && LowerHex(w.k0) && LowerHex(w.k1)
  }

  /** `Hash(leftKey, rightKey)`: SHA-256 over the two keys one after the
      other, in hex. */
  function Hash(sha: string -> Digest, l: string, r: string): (h: string)
        ensures |h| == 64 && LowerHex(h)
  {
    EncodeHex(sha(l + r))
  }

  /** `Zeros128BitString()`: 128 '0' characters, i.e. 512 bits once read as
      hex. */
  function Zeros128BitString(): (z: string)
    ensures |z| == 128 && forall i :: 0 <= i < 128 ==> z[i] == '0'
  {
    seq(128, _ => '0')
  }

  /** 128 zero bits in hex: 32 '0' characters. With a 32-character label it
      fills the 64 characters of a hash. */
  function ZeroPad(): (z: string)
    ensures |z| == 32 && LowerHex(z)
  {
    seq(32, _ => '0')
  }

  /** `Random128BitString()` on the 16 bytes it draws. */
  function Random128BitString(draw: seq<byte>): (s: string)
    requires |draw| == 16
    ensures |s| == 32 && LowerHex(s)
    ensures DecodeHex(s) == Some(draw)
  {
    DecodeEncode(draw);
    EncodeHex(draw)
  }

  // ---------------------------------------------------------------------------
  // Gates

  datatype Op = XorOp | AndOp

  /** The truth table a gate garbles. */
  function Apply(op: Op, a: int, b: int): (c: int)
    requires (a == 0 || a == 1) && (b == 0 || b == 1)
    ensures c == 0 || c == 1
    ensures op == XorOp ==> (c == 1 <==> a != b)
    ensures op == AndOp ==> (c == 1 <==> a == 1 && b == 1)
  {
    if op == XorOp then (if a == b then 0 else 1) else BloodTypes.AndBits(a, b)
  }

  /** The row for inputs (a, b): the output label for op(a, b) and the
      padding, XORed with the hash of the two input labels. */
  function Row(sha: string -> Digest, op: Op, L: Wire, R: Wire, out: Wire, pad: string, a: int, b: int): Result<string>
    requires (a == 0 || a == 1) && (b == 0 || b == 1)
  {
    XORStrings(Hash(sha, Key(L, a), Key(R, b)), Key(out, Apply(op, a, b)) + pad)
  }

  /** Shuffle indices for a slice of n entries: the draw for index i lies in
      [0, i]. Entry 0 is not used. */
  predicate Picks(picks: seq<int>, n: nat) {
    |picks| == n && forall i :: 0 < i < n ==> 0 <= picks[i] <= i
  }

  /** Go's `s[i], s[j] = s[j], s[i]`. */
  function Swap(s: seq<string>, i: int, j: int): (r: seq<string>)
    requires 0 <= i < |s| && 0 <= j < |s|
    ensures |r| == |s| && multiset(r) == multiset(s)
    ensures r[i] == s[j] && r[j] == s[i]
    ensures forall k :: 0 <= k < |s| && k != i && k != j ==> r[k] == s[k]
  {
    s[i := s[j]][j := s[i]]
  }

  /** The Fisher-Yates loop from index i down to 1. */
  function ShuffleDown(s: seq<string>, picks: seq<int>, i: int): (r: seq<string>)
    requires Picks(picks, |s|) && -1 <= i < |s|
    ensures |r| == |s| && multiset(r) == multiset(s)
    decreases i
  {
    if i <= 0 then s else ShuffleDown(Swap(s, i, picks[i]), picks, i - 1)
  }

  /** `Shuffle(slice)`: Fisher-Yates from the last index down, with the
      `crypto/rand` draws as `picks`. The result is a permutation. */
  function Shuffle(s: seq<string>, picks: seq<int>): (r: seq<string>)
    requires Picks(picks, |s|)
    ensures |r| == |s| && multiset(r) == multiset(s)
  {
    ShuffleDown(s, picks, |s| - 1)
  }

  /** `XORGate` and `ANDGate`, which differ only in the output column, with
      the redundancy string `pad`: `make` leaves four empty strings, the four
      rows for (0,0), (0,1), (1,0), (1,1) are appended after them, and the
      eight entries are shuffled. The first row whose XOR fails panics. */
  function GarbleGate(sha: string -> Digest, op: Op, L: Wire, R: Wire, out: Wire, pad: string, picks: seq<int>): (r: Result<seq<string>>)
    requires Picks(picks, 8)
    ensures r.Ok? ==> |r.value| == 8
  {
    var c1, c2 := Row(sha, op, L, R, out, pad, 0, 0), Row(sha, op, L, R, out, pad, 0, 1);
    var c3, c4 := Row(sha, op, L, R, out, pad, 1, 0), Row(sha, op, L, R, out, pad, 1, 1);
    if c1.Err? then Err(c1.reason)
    else if c2.Err? then Err(c2.reason)
    else if c3.Err? then Err(c3.reason)
    else if c4.Err? then Err(c4.reason)
    else Ok(Shuffle(["", "", "", ""] + [c1.value, c2.value, c3.value, c4.value], picks))
  }

  /** A gate garbles exactly when all four of its rows do. */
  lemma GarbleGateOk(sha: string -> Digest, op: Op, L: Wire, R: Wire, out: Wire, pad: string, picks: seq<int>)
    requires Picks(picks, 8)
    ensures GarbleGate(sha, op, L, R, out, pad, picks).Ok? <==>
      (Row(sha, op, L, R, out, pad, 0, 0).Ok? && Row(sha, op, L, R, out, pad, 0, 1).Ok? &&
       Row(sha, op, L, R, out, pad, 1, 0).Ok? && Row(sha, op, L, R, out, pad, 1, 1).Ok?)
  {
  }

  /** A table is the four empty strings and the four rows, in some order. */
  lemma GarbleGateShuffles(sha: string -> Digest, op: Op, L: Wire, R: Wire, out: Wire, pad: string, picks: seq<int>)
    requires Picks(picks, 8) && GarbleGate(sha, op, L, R, out, pad, picks).Ok?
    ensures multiset(GarbleGate(sha, op, L, R, out, pad, picks).value) == multiset(["", "", "", ""] +
      [Row(sha, op, L, R, out, pad, 0, 0).value, Row(sha, op, L, R, out, pad, 0, 1).value,
       Row(sha, op, L, R, out, pad, 1, 0).value, Row(sha, op, L, R, out, pad, 1, 1).value])
  {
  }

  /** `XORGate(inputL, inputR, output)` as written, with `Zeros128BitString`
      as the redundancy: it panics whatever its labels. */
  function XORGate(sha: string -> Digest, L: Wire, R: Wire, out: Wire, picks: seq<int>): (r: Result<seq<string>>)
    requires Picks(picks, 8)
    ensures r.Err?
  {
    GateAsWrittenPanics(sha, XorOp, L, R, out, picks);
    GarbleGate(sha, XorOp, L, R, out, Zeros128BitString(), picks)
  }

  /** `ANDGate(inputL, inputR, output)` as written: it panics whatever its
      labels. */
  function ANDGate(sha: string -> Digest, L: Wire, R: Wire, out: Wire, picks: seq<int>): (r: Result<seq<string>>)
    requires Picks(picks, 8)
    ensures r.Err?
  {
    GateAsWrittenPanics(sha, AndOp, L, R, out, picks);
    GarbleGate(sha, AndOp, L, R, out, Zeros128BitString(), picks)
  }

  /** As written every gate panics, whatever its labels: a row XORs a
      64-character hash with a label followed by 128 '0' characters. */
  lemma GateAsWrittenPanics(sha: string -> Digest, op: Op, L: Wire, R: Wire, out: Wire, picks: seq<int>)
    requires Picks(picks, 8)
    ensures GarbleGate(sha, op, L, R, out, Zeros128BitString(), picks).Err?
  {
    assert |Key(out, Apply(op, 0, 0)) + Zeros128BitString()| >= 128;
    GarbleGateOk(sha, op, L, R, out, Zeros128BitString(), picks);
  }

  /** The row for (a, b) is in the table, and XORing it with the hash of
      the labels for a and b yields the output label for op(a, b) followed
      by the padding. */
  predicate Decrypts(sha: string -> Digest, op: Op, L: Wire, R: Wire, out: Wire, pad: string, table: seq<string>, a: int, b: int)
    requires (a == 0 || a == 1) && (b == 0 || b == 1)
  {
    Row(sha, op, L, R, out, pad, a, b).Ok? &&
    Row(sha, op, L, R, out, pad, a, b).value in multiset(table) &&
    XORStrings(Hash(sha, Key(L, a), Key(R, b)), Row(sha, op, L, R, out, pad, a, b).value) == Ok(Key(out, Apply(op, a, b)) + pad)
  }

  /** One row with 32-character labels and the 32-character padding
      decrypts to its output label and the padding. */
  lemma RowDecrypts(sha: string -> Digest, op: Op, L: Wire, R: Wire, out: Wire, a: int, b: int)
    requires Labelled(L) && Labelled(R) && Labelled(out)
    requires (a == 0 || a == 1) && (b == 0 || b == 1)
    ensures Row(sha, op, L, R, out, ZeroPad(), a, b).Ok?
    ensures XORStrings(Hash(sha, Key(L, a), Key(R, b)), Row(sha, op, L, R, out, ZeroPad(), a, b).value)
         == Ok(Key(out, Apply(op, a, b)) + ZeroPad())
  {
    var plain := Key(out, Apply(op, a, b)) + ZeroPad();
    assert LowerHex(plain) by {
      assert forall i :: 0 <= i < |plain| ==> plain[i] == (if i < 32 then Key(out, Apply(op, a, b))[i] else ZeroPad()[i - 32]);
    }
    XORStringsInverse(Hash(sha, Key(L, a), Key(R, b)), plain);
  }

  /** With labelled wires and the 32-character padding, a garbled table
      exists and every one of its four input pairs decrypts to the right
      output label. */
  lemma GateCorrect(sha: string -> Digest, op: Op, L: Wire, R: Wire, out: Wire, picks: seq<int>)
    requires Picks(picks, 8) && Labelled(L) && Labelled(R) && Labelled(out)
    ensures GarbleGate(sha, op, L, R, out, ZeroPad(), picks).Ok?
    ensures forall a, b :: 0 <= a < 2 && 0 <= b < 2 ==>
      Decrypts(sha, op, L, R, out, ZeroPad(), GarbleGate(sha, op, L, R, out, ZeroPad(), picks).value, a, b)
  {
    RowDecrypts(sha, op, L, R, out, 0, 0);
    RowDecrypts(sha, op, L, R, out, 0, 1);
    RowDecrypts(sha, op, L, R, out, 1, 0);
    RowDecrypts(sha, op, L, R, out, 1, 1);
    GarbleGateOk(sha, op, L, R, out, ZeroPad(), picks);
    RowsInTable(sha, op, L, R, out, ZeroPad(), picks);
    forall a, b | 0 <= a < 2 && 0 <= b < 2
      ensures Decrypts(sha, op, L, R, out, ZeroPad(), GarbleGate(sha, op, L, R, out, ZeroPad(), picks).value, a, b)
    {
      RowDecrypts(sha, op, L, R, out, a, b);
    }
  }

  /** With labelled wires and the 32-character padding a gate garbles. */
  lemma GateOk(sha: string -> Digest, op: Op, L: Wire, R: Wire, out: Wire, picks: seq<int>)
    requires Picks(picks, 8) && Labelled(L) && Labelled(R) && Labelled(out)
    ensures GarbleGate(sha, op, L, R, out, ZeroPad(), picks).Ok?
  {
    RowDecrypts(sha, op, L, R, out, 0, 0);
    RowDecrypts(sha, op, L, R, out, 0, 1);
    RowDecrypts(sha, op, L, R, out, 1, 0);
    RowDecrypts(sha, op, L, R, out, 1, 1);
    GarbleGateOk(sha, op, L, R, out, ZeroPad(), picks);
  }

  /** Every row of a garbled gate is in its table. */
  lemma RowsInTable(sha: string -> Digest, op: Op, L: Wire, R: Wire, out: Wire, pad: string, picks: seq<int>)
    requires Picks(picks, 8) && GarbleGate(sha, op, L, R, out, pad, picks).Ok?
    ensures Row(sha, op, L, R, out, pad, 0, 0).Ok? && Row(sha, op, L, R, out, pad, 0, 1).Ok?
    ensures Row(sha, op, L, R, out, pad, 1, 0).Ok? && Row(sha, op, L, R, out, pad, 1, 1).Ok?
    ensures var m := multiset(GarbleGate(sha, op, L, R, out, pad, picks).value);
      Row(sha, op, L, R, out, pad, 0, 0).value in m && Row(sha, op, L, R, out, pad, 0, 1).value in m &&
      Row(sha, op, L, R, out, pad, 1, 0).value in m && Row(sha, op, L, R, out, pad, 1, 1).value in m
  {
    GarbleGateOk(sha, op, L, R, out, pad, picks);
    GarbleGateShuffles(sha, op, L, R, out, pad, picks);
    FourInPermutation(GarbleGate(sha, op, L, R, out, pad, picks).value,
      Row(sha, op, L, R, out, pad, 0, 0).value, Row(sha, op, L, R, out, pad, 0, 1).value,
      Row(sha, op, L, R, out, pad, 1, 0).value, Row(sha, op, L, R, out, pad, 1, 1).value);
  }

  /** The four strings placed after the empty slots are in every
      permutation of the slots. */
  lemma FourInPermutation(t: seq<string>, p: string, q: string, r: string, s: string)
    requires multiset(t) == multiset(["", "", "", ""] + [p, q, r, s])
    ensures p in multiset(t) && q in multiset(t) && r in multiset(t) && s in multiset(t)
  {
    var full := ["", "", "", ""] + [p, q, r, s];
    InPermutation(full, t, 4);
    InPermutation(full, t, 5);
    InPermutation(full, t, 6);
    InPermutation(full, t, 7);
  }

  /** An element of a sequence is in every permutation of it. */
  lemma InPermutation(s: seq<string>, t: seq<string>, i: nat)
    requires i < |s| && multiset(s) == multiset(t)
    ensures s[i] in multiset(t)
  {
  }

  /** A gate whose output wire has empty labels panics even with the
      32-character padding: its rows are 32 characters against a 64-character
      hash. */
  lemma UnlabelledOutputPanics(sha: string -> Digest, op: Op, L: Wire, R: Wire, picks: seq<int>)
    requires Picks(picks, 8)
    ensures GarbleGate(sha, op, L, R, Wire("", ""), ZeroPad(), picks).Err?
  {
    assert |Key(Wire("", ""), Apply(op, 0, 0)) + ZeroPad()| == 32;
    GarbleGateOk(sha, op, L, R, Wire("", ""), ZeroPad(), picks);
  }

  // ---------------------------------------------------------------------------
  // The circuit

  /** One gate of the circuit: its operation, its two input wires and its
      output wire, as indices into the 23 wires. */
  datatype GateSpec = GateSpec(op: Op, left: nat, right: nat, out: nat)

  /** The eleven gates of `MakeGarbledCircuit`, in the order their tables are
      appended. For each bit position i a block computes
      NOT(NOT x_i AND y_i) with two XORs against the constant 1, and two
      ANDs join the three blocks. */
  function Wiring(): (w: seq<GateSpec>)
    ensures |w| == 11 && InRange(w, 23)
    ensures forall k :: 0 <= k < |w| ==> w[k].left < w[k].out && w[k].right < w[k].out
  {
    [GateSpec(XorOp, 0, 1, 2), GateSpec(AndOp, 2, 3, 4), GateSpec(XorOp, 4, 5, 6),
     GateSpec(XorOp, 7, 8, 9), GateSpec(AndOp, 9, 10, 11), GateSpec(XorOp, 11, 12, 13),
     GateSpec(XorOp, 14, 15, 16), GateSpec(AndOp, 16, 17, 18), GateSpec(XorOp, 18, 19, 20),
     GateSpec(AndOp, 6, 13, 21), GateSpec(AndOp, 20, 21, 22)]
  }

  predicate InRange(specs: seq<GateSpec>, n: nat) {
    forall k :: 0 <= k < |specs| ==> Fits(specs[k], n)
  }

  /** The gate's wires are among the first n. */
  predicate Fits(g: GateSpec, n: nat) {
    g.left < n && g.right < n && g.out < n
  }

  /** Alice's input wires `e_x`, for x1, x2, x3. */
  function XWires(): (w: seq<nat>)
    ensures Indices(w, 23)
  {
    [1, 8, 15]
  }

  /** Bob's input wires `e_y`, for y1, y2, y3. */
  function YWires(): (w: seq<nat>)
    ensures Indices(w, 23)
  {
    [3, 10, 17]
  }

  /** The wires `e_xor` lists as the constant inputs of the XOR gates. */
  function EXorAsWritten(): (w: seq<nat>)
    ensures Indices(w, 23)
  {
    [0, 4, 7, 11, 14, 18]
  }

  /** The constant inputs the XOR gates actually read: the left input of the
      first XOR of each block and the right input of the second. */
  function EXorWires(): (w: seq<nat>)
    ensures Indices(w, 23)
  {
    [0, 5, 7, 12, 14, 19]
  }

  /** Every index is below n. */
  predicate Indices(idx: seq<nat>, n: nat) {
    forall i :: 0 <= i < |idx| ==> idx[i] < n
  }

  /** Wire w is available to gate k: it is handed in, or an earlier gate
      computes it. */
  predicate Fed(specs: seq<GateSpec>, inputs: seq<nat>, k: nat, w: nat)
    requires k <= |specs|
  {
    w in inputs || exists j :: 0 <= j < k && specs[j].out == w
  }

  /** Every input of every gate is available when the gate is reached. */
  predicate Supplied(specs: seq<GateSpec>, inputs: seq<nat>) {
    forall k :: 0 <= k < |specs| ==> Fed(specs, inputs, k, specs[k].left) && Fed(specs, inputs, k, specs[k].right)
  }

  /** As written, `e_x`, `e_y` and `e_xor` leave wire 5, the constant input
      of the third gate, without a value, and hand out wire 4, which the
      second gate computes, as a constant. */
  lemma ExorAsWrittenStarves()
    ensures !Supplied(Wiring(), XWires() + YWires() + EXorAsWritten())
    ensures 4 in EXorAsWritten() && Wiring()[1].out == 4
  {
    var w, inputs := Wiring(), XWires() + YWires() + EXorAsWritten();
    assert w[2].right == 5 && 5 !in inputs;
    assert !Fed(w, inputs, 2, 5);
  }

  /** With the constant wires corrected every gate input is available. */
  lemma ExorWiresSupply()
    ensures Supplied(Wiring(), XWires() + YWires() + EXorWires())
  {
    var w, inputs := Wiring(), XWires() + YWires() + EXorWires();
    forall k | 0 <= k < 11
      ensures Fed(w, inputs, k, w[k].left) && Fed(w, inputs, k, w[k].right)
    {
      if k == 1 { ComputedBy(w, inputs, 1, 0); }
      else if k == 2 { ComputedBy(w, inputs, 2, 1); }
      else if k == 4 { ComputedBy(w, inputs, 4, 3); }
      else if k == 5 { ComputedBy(w, inputs, 5, 4); }
      else if k == 7 { ComputedBy(w, inputs, 7, 6); }
      else if k == 8 { ComputedBy(w, inputs, 8, 7); }
      else if k == 9 { ComputedBy(w, inputs, 9, 2); ComputedBy(w, inputs, 9, 5); }
      else if k == 10 { ComputedBy(w, inputs, 10, 8); ComputedBy(w, inputs, 10, 9); }
    }
  }

  /** No corrected constant wire is the output of a gate. */
  lemma ExorWiresAreInputs()
    ensures forall k :: 0 <= k < |Wiring()| ==> Wiring()[k].out !in EXorWires()
  {
  }

  /** The output of gate j is available to every later gate. */
  lemma ComputedBy(specs: seq<GateSpec>, inputs: seq<nat>, k: nat, j: nat)
    requires j < k <= |specs|
    ensures Fed(specs, inputs, k, specs[j].out)
  {
  }

  // ---------------------------------------------------------------------------
  // The circuit on plain bits

  function BitOf(b: bool): (v: int)
    ensures (v == 0 || v == 1) && (v == 1 <==> b)
  {
    if b then 1 else 0
  }

  /** One gate: its output wire gets op(left, right). */
  function Step(g: GateSpec, v: seq<bool>): (r: seq<bool>)
    requires Fits(g, |v|)
  {
    v[g.out := Apply(g.op, BitOf(v[g.left]), BitOf(v[g.right])) == 1]
  }

  /** The gates from index k on, each in turn. */
  function Run(specs: seq<GateSpec>, k: nat, v: seq<bool>): (r: seq<bool>)
    requires InRange(specs, |v|)
    ensures |r| == |v|
    decreases |specs| - k
  {
    if k >= |specs| then v else Run(specs, k + 1, Step(specs[k], v))
  }

  /** The circuit on plain bits: each gate in turn writes op(left, right)
      to its output wire. */
  function Evaluate(specs: seq<GateSpec>, v: seq<bool>): (r: seq<bool>)
    requires InRange(specs, |v|)
    ensures |r| == |v|
  {
    Run(specs, 0, v)
  }

  /** A wire no gate writes keeps its value. */
  lemma EvaluateKeeps(specs: seq<GateSpec>, v: seq<bool>, w: nat)
    requires InRange(specs, |v|) && w < |v|
    requires forall k :: 0 <= k < |specs| ==> specs[k].out != w
    ensures Evaluate(specs, v)[w] == v[w]
  {
    RunKeeps(specs, 0, v, w);
  }

  lemma {:induction false} RunKeeps(specs: seq<GateSpec>, k: nat, v: seq<bool>, w: nat)
    requires InRange(specs, |v|) && w < |v|
    requires forall j :: k <= j < |specs| ==> specs[j].out != w
    ensures Run(specs, k, v)[w] == v[w]
    decreases |specs| - k
  {
    if k < |specs| {
      RunKeeps(specs, k + 1, Step(specs[k], v), w);
    }
  }

  /** The plain value of wire i before any gate: Alice's bits of x on
      `e_x`, Bob's bits of y on `e_y`, 1 on the listed constant wires and 0
      elsewhere. */
  function PlainInputs(x: int, y: int, exor: seq<nat>): (v: seq<bool>)
    ensures |v| == 23
  {
    seq(23, i => InputBit(BloodTypes.ExtractBits(x), BloodTypes.ExtractBits(y), exor, i))
  }

  function InputBit(xb: seq<int>, yb: seq<int>, exor: seq<nat>, i: int): bool
    requires |xb| == 3 && |yb| == 3
  {
    if i == 1 then xb[0] == 1 else if i == 8 then xb[1] == 1 else if i == 15 then xb[2] == 1
    else if i == 3 then yb[0] == 1 else if i == 10 then yb[1] == 1 else if i == 17 then yb[2] == 1
    else i in exor
  }

  /** With 1 on the six constant wires, the last wire of the circuit is
      the AND over the three positions of (x_i OR NOT y_i). */
  lemma WiringOnBits(v: seq<bool>)
    requires |v| == 23 && v[0] && v[5] && v[7] && v[12] && v[14] && v[19]
    ensures Evaluate(Wiring(), v)[22] == ((v[1] || !v[3]) && (v[8] || !v[10]) && (v[15] || !v[17]))
  {
    var w := Wiring();
    var v1 := Step(w[0], v);
    var v2 := Step(w[1], v1);
    var v3 := Step(w[2], v2);
    var v4 := Step(w[3], v3);
    var v5 := Step(w[4], v4);
    var v6 := Step(w[5], v5);
    var v7 := Step(w[6], v6);
    var v8 := Step(w[7], v7);
    var v9 := Step(w[8], v8);
    var v10 := Step(w[9], v9);
    var v11 := Step(w[10], v10);
    assert Run(w, 11, v11) == v11;
    assert v3[6] == (v[1] || !v[3]);
    assert v6[13] == (v[8] || !v[10]);
    assert v9[20] == (v[15] || !v[17]);
    assert v11[22] == (v9[20] && v9[6] && v9[13]);
  }

  /** The plain inputs with the corrected constant wires. */
  lemma PlainInputsOnWires(x: int, y: int)
    ensures var v, xb, yb := PlainInputs(x, y, EXorWires()), BloodTypes.ExtractBits(x), BloodTypes.ExtractBits(y);
      v[0] && v[5] && v[7] && v[12] && v[14] && v[19] &&
      v[1] == (xb[0] == 1) && v[8] == (xb[1] == 1) && v[15] == (xb[2] == 1) &&
      v[3] == (yb[0] == 1) && v[10] == (yb[1] == 1) && v[17] == (yb[2] == 1)
  {
  }

  /** With the corrected constant wires the circuit computes the
      compatibility formula of Alice's recipient type x and Bob's donor
      type y on its last wire, and so the table's answer. */
  lemma WiringComputesCompatibility(x: int, y: int)
    requires 0 <= x < 8 && 0 <= y < 8
    ensures Evaluate(Wiring(), PlainInputs(x, y, EXorWires()))[22] <==> BloodTypes.ComputeBloodtypeCompatibility(x, y) == 1
    ensures Evaluate(Wiring(), PlainInputs(x, y, EXorWires()))[22] <==> BloodTypes.LookUpBloodType(x, y)
  {
    PlainInputsOnWires(x, y);
    WiringOnBits(PlainInputs(x, y, EXorWires()));
    BloodTypes.CircuitMatchesTable(x, y);
  }

  // ---------------------------------------------------------------------------
  // Garbling the circuit

  /** The garbled table of one gate of the circuit over the given wires. */
  function GateOf(sha: string -> Digest, wires: seq<Wire>, g: GateSpec, pad: string, picks: seq<int>): Result<seq<string>>
    requires g.left < |wires| && g.right < |wires| && g.out < |wires| && Picks(picks, 8)
  {
    GarbleGate(sha, g.op, wires[g.left], wires[g.right], wires[g.out], pad, picks)
  }

  /** One list of shuffle draws per gate. */
  predicate AllPicks(picks: seq<seq<int>>, n: nat) {
    |picks| == n && forall k :: 0 <= k < n ==> Picks(picks[k], 8)
  }

  /** Results in order: the values when all succeed, the first failure
      otherwise. */
  function Collect<T>(rs: seq<Result<T>>): (r: Result<seq<T>>)
    ensures r.Ok? <==> forall k :: 0 <= k < |rs| ==> rs[k].Ok?
    ensures r.Ok? ==> |r.value| == |rs| && forall k :: 0 <= k < |rs| ==> r.value[k] == rs[k].value
    ensures r.Err? ==> exists k :: 0 <= k < |rs| && rs[k].Err? && r.reason == rs[k].reason
  {
    if rs == [] then Ok([])
    else if rs[0].Err? then Err(rs[0].reason)
    else
      var rest := Collect(rs[1..]);
      if rest.Err? then Err(rest.reason) else Ok([rs[0].value] + rest.value)
  }

  /** The tables of the gates in order, as the `append`s build `F`; the
      first gate that panics stops the construction. */
  function GarbleAll(sha: string -> Digest, wires: seq<Wire>, specs: seq<GateSpec>, pad: string, picks: seq<seq<int>>): Result<seq<seq<string>>>
    requires InRange(specs, |wires|) && AllPicks(picks, |specs|)
  {
    Collect(Tables(sha, wires, specs, pad, picks))
  }

  /** The garbling of each gate, failed or not. */
  function Tables(sha: string -> Digest, wires: seq<Wire>, specs: seq<GateSpec>, pad: string, picks: seq<seq<int>>): (ts: seq<Result<seq<string>>>)
    requires InRange(specs, |wires|) && AllPicks(picks, |specs|)
    ensures |ts| == |specs| && forall k :: 0 <= k < |specs| ==> ts[k] == GateOf(sha, wires, specs[k], pad, picks[k])
    decreases |specs|
  {
    if specs == [] then []
    else [GateOf(sha, wires, specs[0], pad, picks[0])] + Tables(sha, wires, specs[1..], pad, picks[1..])
  }

  /** One panicking gate makes the whole construction panic. */
  lemma GarbleAllFails(sha: string -> Digest, wires: seq<Wire>, specs: seq<GateSpec>, pad: string, picks: seq<seq<int>>, k: nat)
    requires InRange(specs, |wires|) && AllPicks(picks, |specs|) && k < |specs|
    requires GateOf(sha, wires, specs[k], pad, picks[k]).Err?
    ensures GarbleAll(sha, wires, specs, pad, picks).Err?
  {
    assert Tables(sha, wires, specs, pad, picks)[k].Err?;
  }

  /** When every gate garbles, `F` is their tables in order. */
  lemma GarbleAllSucceeds(sha: string -> Digest, wires: seq<Wire>, specs: seq<GateSpec>, pad: string, picks: seq<seq<int>>)
    requires InRange(specs, |wires|) && AllPicks(picks, |specs|)
    requires forall k :: 0 <= k < |specs| ==> GateOf(sha, wires, specs[k], pad, picks[k]).Ok?
    ensures GarbleAll(sha, wires, specs, pad, picks).Ok?
    ensures |GarbleAll(sha, wires, specs, pad, picks).value| == |specs|
    ensures forall k :: 0 <= k < |specs| ==> GarbleAll(sha, wires, specs, pad, picks).value[k] == GateOf(sha, wires, specs[k], pad, picks[k]).value
  {
    var ts := Tables(sha, wires, specs, pad, picks);
    assert forall k :: 0 <= k < |specs| ==> ts[k].Ok?;
  }

  /** What `MakeGarbledCircuit` returns: the tables `F`, the output wire
      `d`, and the input wires `e_x`, `e_y` and `e_xor`. */
  datatype Circuit = Circuit(F: seq<seq<string>>, d: Wire, ex: seq<Wire>, ey: seq<Wire>, exor: seq<Wire>)

  /** The wires at the given indices. */
  function Select(wires: seq<Wire>, idx: seq<nat>): (r: seq<Wire>)
    requires Indices(idx, |wires|)
    ensures |r| == |idx| && forall i :: 0 <= i < |idx| ==> r[i] == wires[idx[i]]
  {
    seq(|idx|, i requires 0 <= i < |idx| => wires[idx[i]])
  }

  /** `MakeGarbledCircuit` over the 23 wires, with redundancy `pad` and the
      constant wires `exor`. */
  function GarbleCircuit(sha: string -> Digest, wires: seq<Wire>, pad: string, picks: seq<seq<int>>, exor: seq<nat>): (r: Result<Circuit>)
    requires |wires| == 23 && AllPicks(picks, 11)
    requires Indices(exor, 23)
    ensures r.Ok? ==> r.value.d == wires[22] && r.value.ex == Select(wires, XWires()) && r.value.ey == Select(wires, YWires())
    ensures r.Ok? ==> r.value.exor == Select(wires, exor)
  {
    var F := GarbleAll(sha, wires, Wiring(), pad, picks);
    if F.Err? then Err(F.reason)
    else Ok(Circuit(F.value, wires[22], Select(wires, XWires()), Select(wires, YWires()), Select(wires, exor)))
  }

  /** Wire i labelled from draws 2i and 2i+1, bit 0 first. */
  function LabelWire(draws: seq<seq<byte>>, i: nat): (w: Wire)
    requires 2 * i + 1 < |draws| && |draws[2 * i]| == 16 && |draws[2 * i + 1]| == 16
    ensures Labelled(w)
  {
    Wire(Random128BitString(draws[2 * i]), Random128BitString(draws[2 * i + 1]))
  }

  predicate Draws(draws: seq<seq<byte>>, n: nat) {
    |draws| == n && forall i :: 0 <= i < n ==> |draws[i]| == 16
  }

  /** The wires as written: `for i := 0; i < 22; i++` labels wires 0..21
      and wire 22 keeps its two empty strings. */
  function LabelsAsWritten(draws: seq<seq<byte>>): (wires: seq<Wire>)
    requires Draws(draws, 44)
    ensures |wires| == 23 && wires[22] == Wire("", "")
    ensures forall i :: 0 <= i < 22 ==> Labelled(wires[i])
  {
    seq(22, i requires 0 <= i < 22 => LabelWire(draws, i)) + [Wire("", "")]
  }

  /** All 23 wires labelled. */
  function Labels(draws: seq<seq<byte>>): (wires: seq<Wire>)
    requires Draws(draws, 46)
    ensures |wires| == 23 && forall i :: 0 <= i < 23 ==> Labelled(wires[i])
  {
    seq(23, i requires 0 <= i < 23 => LabelWire(draws, i))
  }

  /** `MakeGarbledCircuit` as written: 22 labelled wires, the 128-character
      redundancy, and the constant wires of `e_xor` as listed. It panics at
      the first gate. */
  function MakeGarbledCircuitAsWritten(sha: string -> Digest, draws: seq<seq<byte>>, picks: seq<seq<int>>): (r: Result<Circuit>)
    requires Draws(draws, 44) && AllPicks(picks, 11)
    ensures r.Err?
  {
    var wires, g := LabelsAsWritten(draws), Wiring()[0];
    GateAsWrittenPanics(sha, g.op, wires[g.left], wires[g.right], wires[g.out], picks[0]);
    GarbleAllFails(sha, wires, Wiring(), Zeros128BitString(), picks, 0);
    GarbleCircuit(sha, LabelsAsWritten(draws), Zeros128BitString(), picks, EXorAsWritten())
  }

  /** Even with the 32-character redundancy the construction panics at the
      last gate, whose output wire 22 was never labelled. */
  lemma UnlabelledLastWirePanics(sha: string -> Digest, draws: seq<seq<byte>>, picks: seq<seq<int>>)
    requires Draws(draws, 44) && AllPicks(picks, 11)
    ensures GarbleCircuit(sha, LabelsAsWritten(draws), ZeroPad(), picks, EXorWires()).Err?
  {
    var wires, g := LabelsAsWritten(draws), Wiring()[10];
    UnlabelledOutputPanics(sha, g.op, wires[g.left], wires[g.right], picks[10]);
    GarbleAllFails(sha, wires, Wiring(), ZeroPad(), picks, 10);
  }

  /** `MakeGarbledCircuit` with all 23 wires labelled, the 32-character
      redundancy and the corrected constant wires. It succeeds; `F` holds one
      table per gate, in which every input pair decrypts to the label of the
      gate's output for that pair; `d` is the last wire; the input wires are
      the ones the circuit reads. */
  function MakeGarbledCircuit(sha: string -> Digest, draws: seq<seq<byte>>, picks: seq<seq<int>>): (r: Result<Circuit>)
    requires Draws(draws, 46) && AllPicks(picks, 11)
    ensures r.Ok?
    ensures var c, wires := r.value, Labels(draws);
      |c.F| == 11 && c.d == wires[22] && c.ex == Select(wires, XWires()) &&
      c.ey == Select(wires, YWires()) && c.exor == Select(wires, EXorWires())
    ensures CircuitDecrypts(sha, Labels(draws), r.value.F)
  {
    CircuitCorrect(sha, Labels(draws), picks);
    GarbleCircuit(sha, Labels(draws), ZeroPad(), picks, EXorWires())
  }

  /** Over 23 labelled wires with the 32-character redundancy the circuit
      garbles, and each of its eleven tables decrypts as its gate computes. */
  lemma CircuitCorrect(sha: string -> Digest, wires: seq<Wire>, picks: seq<seq<int>>)
    requires |wires| == 23 && forall i :: 0 <= i < 23 ==> Labelled(wires[i])
    requires AllPicks(picks, 11)
    ensures GarbleCircuit(sha, wires, ZeroPad(), picks, EXorWires()).Ok?
    ensures CircuitDecrypts(sha, wires, GarbleCircuit(sha, wires, ZeroPad(), picks, EXorWires()).value.F)
  {
    GarbleAllCorrect(sha, wires, Wiring(), picks);
  }

  /** Each of the eleven tables decrypts, under the labels of its gate's
      wires, to the label its gate computes. */
  ghost predicate CircuitDecrypts(sha: string -> Digest, wires: seq<Wire>, F: seq<seq<string>>)
    requires |wires| == 23
  {
    |F| == 11 && forall k :: 0 <= k < 11 ==> TableDecrypts(sha, wires, Wiring()[k], ZeroPad(), F[k])
  }

  /** Over labelled wires with the 32-character redundancy any list of
      gates garbles, one table per gate. */
  lemma GarbleAllOk(sha: string -> Digest, wires: seq<Wire>, specs: seq<GateSpec>, picks: seq<seq<int>>)
    requires InRange(specs, |wires|) && AllPicks(picks, |specs|)
    requires forall i :: 0 <= i < |wires| ==> Labelled(wires[i])
    ensures GarbleAll(sha, wires, specs, ZeroPad(), picks).Ok?
    ensures |GarbleAll(sha, wires, specs, ZeroPad(), picks).value| == |specs|
  {
    forall k | 0 <= k < |specs|
      ensures GateOf(sha, wires, specs[k], ZeroPad(), picks[k]).Ok?
    {
      var g := specs[k];
      GateOk(sha, g.op, wires[g.left], wires[g.right], wires[g.out], picks[k]);
    }
    GarbleAllSucceeds(sha, wires, specs, ZeroPad(), picks);
  }

  /** Every input pair of gate g decrypts in its table. */
  ghost predicate TableDecrypts(sha: string -> Digest, wires: seq<Wire>, g: GateSpec, pad: string, table: seq<string>)
    requires g.left < |wires| && g.right < |wires| && g.out < |wires|
  {
    forall a, b :: 0 <= a < 2 && 0 <= b < 2 ==> Decrypts(sha, g.op, wires[g.left], wires[g.right], wires[g.out], pad, table, a, b)
  }

  /** Over labelled wires with the 32-character redundancy, any list of
      gates garbles, with one table per gate in which every input pair
      decrypts. */
  lemma GarbleAllCorrect(sha: string -> Digest, wires: seq<Wire>, specs: seq<GateSpec>, picks: seq<seq<int>>)
    requires InRange(specs, |wires|) && AllPicks(picks, |specs|)
    requires forall i :: 0 <= i < |wires| ==> Labelled(wires[i])
    ensures GarbleAll(sha, wires, specs, ZeroPad(), picks).Ok?
    ensures |GarbleAll(sha, wires, specs, ZeroPad(), picks).value| == |specs|
    ensures forall k :: 0 <= k < |specs| ==> TableDecrypts(sha, wires, specs[k], ZeroPad(), GarbleAll(sha, wires, specs, ZeroPad(), picks).value[k])
  {
    forall k | 0 <= k < |specs|
      ensures GateOf(sha, wires, specs[k], ZeroPad(), picks[k]).Ok?
      ensures TableDecrypts(sha, wires, specs[k], ZeroPad(), GateOf(sha, wires, specs[k], ZeroPad(), picks[k]).value)
    {
      var g := specs[k];
      GateCorrect(sha, g.op, wires[g.left], wires[g.right], wires[g.out], picks[k]);
    }
    GarbleAllSucceeds(sha, wires, specs, ZeroPad(), picks);
  }
}
