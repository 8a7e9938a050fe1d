/** Bob, the garbler of handin5: he keeps his input, Alice's public keys and
    the wires of the circuit he garbled, and encodes his input as one label
    per bit. */
module GarbledBob {
  import opened Errors
  import opened Bytes
  import opened Garbled
  import BloodTypes

  /** The `Bob` struct; `publicKeys` are the values of Alice's `*big.Int`
      keys. */
  datatype Bob = Bob(y: int, publicKeys: seq<int>, F: seq<seq<string>>, d: Wire,
                     ex: seq<Wire>, ey: seq<Wire>, exor: seq<Wire>)

  /** The `Y` struct Bob sends: his encoded input and the constant wires. */
  datatype EncodedInput = EncodedInput(encodedY: seq<string>, exor: seq<Wire>)

  /** A Bob with every field at its Go zero value. */
  function NewBob(): (b: Bob)
    ensures b.ex == [] && b.ey == [] && b.exor == [] && b.F == [] && b.publicKeys == []
  {
    Bob(0, [], [], Wire("", ""), [], [], [])
  }

  /** `Init(y)` sets the input and nothing else. */
  function Init(b: Bob, y: int): (r: Bob)
    ensures r.y == y && r.(y := b.y) == b
  {
    b.(y := y)
  }

  /** `ReceiveKeys(publicKeys)` stores the keys and nothing else. */
  function ReceiveKeys(b: Bob, keys: seq<int>): (r: Bob)
    ensures r.publicKeys == keys && r.(publicKeys := b.publicKeys) == b
  {
    b.(publicKeys := keys)
  }

  /** `Encode(e_y, y)`: for each of the three bits of y, most significant
      first, the label of the matching wire for that bit. */
  function Encode(ey: seq<Wire>, y: int): (Y: seq<string>)
    requires |ey| >= 3
    ensures |Y| == 3 && forall i :: 0 <= i < 3 ==> Y[i] == ey[i].k0 || Y[i] == ey[i].k1
  {
    var bits := BloodTypes.ExtractBits(y);
    [Key(ey[0], bits[0]), Key(ey[1], bits[1]), Key(ey[2], bits[2])]
  }

  /** The bit a label stands for on a wire, if it is one of the wire's two
      labels. */
  function LabelBit(w: Wire, s: string): (r: Option<int>)
    ensures r.Some? <==> (s == w.k0 || s == w.k1)
    ensures r.Some? ==> (r.value == 0 || r.value == 1) && Key(w, r.value) == s
  {
    if s == w.k0 then Some(0) else if s == w.k1 then Some(1) else None
  }

  /** Reading three labels back into the value whose bits they encode. */
  function ReadBack(ey: seq<Wire>, Y: seq<string>): (r: Option<int>)
    requires |ey| >= 3 && |Y| == 3
    ensures r.Some? <==> forall i :: 0 <= i < 3 ==> LabelBit(ey[i], Y[i]).Some?
    ensures r.Some? ==> 0 <= r.value < 8
  {
    var b0, b1, b2 := LabelBit(ey[0], Y[0]), LabelBit(ey[1], Y[1]), LabelBit(ey[2], Y[2]);
    if b0.None? || b1.None? || b2.None? then None
    else Some(4 * b0.value + 2 * b1.value + b2.value)
  }

  /** A wire whose two labels differ. */
  predicate Distinct(w: Wire) {
    w.k0 != w.k1
  }

  /** When the three wires have distinct labels, the encoding of a blood
      type reads back as that type. */
  lemma EncodeReadsBack(ey: seq<Wire>, y: int)
    requires |ey| >= 3 && Distinct(ey[0]) && Distinct(ey[1]) && Distinct(ey[2])
    requires 0 <= y < 8
    ensures ReadBack(ey, Encode(ey, y)) == Some(y)
  {
    var bits, Y := BloodTypes.ExtractBits(y), Encode(ey, y);
    assert LabelBit(ey[0], Y[0]) == Some(bits[0]);
    assert LabelBit(ey[1], Y[1]) == Some(bits[1]);
    assert LabelBit(ey[2], Y[2]) == Some(bits[2]);
  }

  /** Hence two blood types with the same encoding are the same type. */
  lemma EncodeInjective(ey: seq<Wire>, y1: int, y2: int)
    requires |ey| >= 3 && Distinct(ey[0]) && Distinct(ey[1]) && Distinct(ey[2])
    requires 0 <= y1 < 8 && 0 <= y2 < 8 && Encode(ey, y1) == Encode(ey, y2)
    ensures y1 == y2
  {
    EncodeReadsBack(ey, y1);
    EncodeReadsBack(ey, y2);
  }

  /** Bob after garbling, and the circuit he garbled. */
  datatype Garbling = Garbling(bob: Bob, circuit: Circuit)

  /** What `MakeGarbledCircuit` stores in Bob as written: `e_y` and `e_x`
      only. */
  function Keep(b: Bob, c: Circuit): (r: Bob)
    ensures r.ex == c.ex && r.ey == c.ey && r.(ex := b.ex, ey := b.ey) == b
  {
    b.(ey := c.ey, ex := c.ex)
  }

  /** Bob after a construction that produced `c`: a panic stays a panic;
      otherwise Bob stores what `Keep` stores, and `F`, `d` and `e_xor` go
      back to the caller. */
  function AfterGarbling(b: Bob, c: Result<Circuit>): (r: Result<Garbling>)
    ensures r.Ok? <==> c.Ok?
    ensures r.Ok? ==> r.value.circuit == c.value && r.value.bob.ey == c.value.ey && r.value.bob.exor == b.exor
  {
    if c.Err? then Err(c.reason) else Ok(Garbling(Keep(b, c.value), c.value))
  }

  /** `bob.MakeGarbledCircuit()` as written: it panics. */
  function MakeGarbledCircuitAsWritten(b: Bob, sha: string -> Digest, draws: seq<seq<byte>>, picks: seq<seq<int>>): (r: Result<Garbling>)
    requires Draws(draws, 44) && AllPicks(picks, 11)
    ensures r.Err?
  {
    AfterGarbling(b, Garbled.MakeGarbledCircuitAsWritten(sha, draws, picks))
  }

  /** `bob.Encode()`: his encoded input, and the constant wires he holds. */
  function BobEncode(b: Bob): (Y: EncodedInput)
    requires |b.ey| >= 3
    ensures Y.exor == b.exor && |Y.encodedY| == 3
  {
    EncodedInput(Encode(b.ey, b.y), b.exor)
  }

  /** As written Bob never stores `e_xor`, so a Bob set up by `Init` and
      `MakeGarbledCircuit` sends no constant wires, whatever circuit he
      built. */
  lemma ExorNeverStored(y: int, keys: seq<int>, c: Circuit)
    requires |c.ey| >= 3
    ensures BobEncode(Keep(ReceiveKeys(Init(NewBob(), y), keys), c)).exor == []
  {
  }

  /** The evident intention: Bob keeps `e_xor` too. */
  function KeepAll(b: Bob, c: Circuit): (r: Bob)
    ensures r.ex == c.ex && r.ey == c.ey && r.exor == c.exor
    ensures r.(ex := b.ex, ey := b.ey, exor := b.exor) == b
  {
    b.(ey := c.ey, ex := c.ex, exor := c.exor)
  }

  /** The same with `KeepAll`. */
  function AfterGarblingCorrected(b: Bob, c: Result<Circuit>): (r: Result<Garbling>)
    ensures r.Ok? <==> c.Ok?
    ensures r.Ok? ==> r.value.circuit == c.value && r.value.bob.ey == c.value.ey && r.value.bob.exor == c.value.exor
  {
    if c.Err? then Err(c.reason) else Ok(Garbling(KeepAll(b, c.value), c.value))
  }

  /** Bob's construction over the corrected circuit, keeping `e_xor`. */
  function MakeGarbledCircuitCorrected(b: Bob, sha: string -> Digest, draws: seq<seq<byte>>, picks: seq<seq<int>>): Result<Garbling>
    requires Draws(draws, 46) && AllPicks(picks, 11)
  {
    AfterGarblingCorrected(b, Garbled.MakeGarbledCircuit(sha, draws, picks))
  }

  /** The two draws of each wire differ. */
  predicate DistinctDraws(draws: seq<seq<byte>>) {
    |draws| == 46 && forall i :: 0 <= i < 23 ==> draws[2 * i] != draws[2 * i + 1]
  }

  /** Distinct draws give distinct labels on every wire. */
  lemma DistinctLabels(draws: seq<seq<byte>>)
    requires Draws(draws, 46) && DistinctDraws(draws)
    ensures forall i :: 0 <= i < 23 ==> Distinct(Labels(draws)[i])
  {
    forall i | 0 <= i < 23
      ensures Distinct(Labels(draws)[i])
    {
      assert draws[2 * i] != draws[2 * i + 1];
      assert Labels(draws)[i] == LabelWire(draws, i);
    }
  }

  /** With the corrected construction, Bob's message carries the six
      constant wires of the circuit, and when the draws of each wire differ
      his three labels read back as his blood type. */
  lemma BobEncodeCorrected(y: int, sha: string -> Digest, draws: seq<seq<byte>>, picks: seq<seq<int>>)
    requires Draws(draws, 46) && AllPicks(picks, 11) && DistinctDraws(draws)
    requires 0 <= y < 8
    ensures MakeGarbledCircuitCorrected(Init(NewBob(), y), sha, draws, picks).Ok?
    ensures var g := MakeGarbledCircuitCorrected(Init(NewBob(), y), sha, draws, picks).value;
      var bob, c := g.bob, g.circuit;
      |bob.ey| >= 3 && BobEncode(bob).exor == c.exor && |c.exor| == 6 &&
      ReadBack(c.ey, BobEncode(bob).encodedY) == Some(y)
  {
    var r := Garbled.MakeGarbledCircuit(sha, draws, picks);
    DistinctLabels(draws);
    EncodeOver(y, r.value, Labels(draws));
  }

  /** Bob's message over any circuit whose `e_y` wires are wires 3, 10
      and 17 of a labelling with distinct labels reads back as his blood
      type. */
  lemma EncodeOver(y: int, c: Circuit, wires: seq<Wire>)
    requires |wires| == 23 && forall i :: 0 <= i < 23 ==> Distinct(wires[i])
    requires c.ey == Select(wires, YWires()) && |c.exor| == 6 && 0 <= y < 8
    ensures AfterGarblingCorrected(Init(NewBob(), y), Ok(c)).Ok?
    ensures var g := AfterGarblingCorrected(Init(NewBob(), y), Ok(c)).value;
      var bob := g.bob;
      g.circuit == c && |bob.ey| >= 3 && BobEncode(bob).exor == c.exor &&
      ReadBack(c.ey, BobEncode(bob).encodedY) == Some(y)
  {
    assert c.ey[0] == wires[3] && c.ey[1] == wires[10] && c.ey[2] == wires[17];
    EncodeReadsBack(c.ey, y);
  }
}
