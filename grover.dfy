/**
 * The Grover iterate: the diffuser on the x register (`create_diffuser_circuit`) after the
 * oracle on all qubits (`create_grover_circuit`), and its controlled form used by the counter.
 * Qubit layout: x = 0..n-1, y = n, target = n+1..n+d.
 */
module Grover {
  import opened Binary
  import opened Circuits
  import opened Adder
  import opened Semantics
  import opened Oracle

  /** The Z X Z X tail of the diffuser, which multiplies every state by -1. */
  function DiffuserTail(): seq<Gate>
  {
    [Z(0), X(0), Z(0), X(0)]
  }

  /** The controls of the diffuser's MCX: `list(range(1, n))`, empty when n <= 1. */
  function DiffuserControls(n: nat): seq<nat>
  {
    if n >= 1 then Range(1, n) else []
  }

  /** The gate list `create_diffuser_circuit(n)` builds. */
  function DiffuserGates(n: nat): seq<Gate>
  {
    var all := Range(0, n);
    HLayer(all) + XLayer(all) + [H(0), MCX(DiffuserControls(n), 0), H(0)] + XLayer(all) + HLayer(all) + DiffuserTail()
  }

  /** `create_diffuser_gate(n)` */
  function DiffuserGate(n: nat): Op
  {
    Frozen("Diffuser", n, DiffuserGates(n))
  }

  /** The multi-controlled X of the diffuser is a legal gate once it has a control: n >= 2. */
  lemma DiffuserMcxFits(n: nat)
    requires n >= 2
    ensures Fits(MCX(DiffuserControls(n), 0), n)
  {
    McxFits(1, n, 0, n);
  }

  /** `qc.h(0); qc.mcx(list(range(1, n)), 0); qc.h(0)` */
  method AddReflection(qc: QuantumCircuit, n: nat)
    requires qc.Valid() && qc.width == n >= 2
    modifies qc
    ensures qc.Valid() && qc.gates == old(qc.gates) + [H(0), MCX(DiffuserControls(n), 0), H(0)]
  {
    DiffuserMcxFits(n);
    QubitZeroFits(n);
    qc.Add(H(0));
    qc.Add(MCX(DiffuserControls(n), 0));
    qc.Add(H(0));
    AppendThree(old(qc.gates), H(0), MCX(DiffuserControls(n), 0), H(0));
  }

  lemma QubitZeroFits(w: nat)
    requires w >= 1
    ensures Fits(H(0), w) && Fits(X(0), w) && Fits(Z(0), w)
  {
  }

  /** `qc.z(0); qc.x(0); qc.z(0); qc.x(0)` */
  method AddTail(qc: QuantumCircuit)
    requires qc.Valid() && qc.width >= 1
    modifies qc
    ensures qc.Valid() && qc.gates == old(qc.gates) + DiffuserTail()
  {
    QubitZeroFits(qc.width);
    qc.Add(Z(0));
    qc.Add(X(0));
    qc.Add(Z(0));
    qc.Add(X(0));
    AppendFour(old(qc.gates), Z(0), X(0), Z(0), X(0));
  }

  /**
   * qiskit refuses `qc.h(0)` on a circuit without qubits and `qc.mcx([], 0)` without controls,
   * so the diffuser needs n >= 2.
   */
  method CreateDiffuserCircuit(n: nat) returns (qc: QuantumCircuit)
    requires n >= 2
    ensures fresh(qc) && qc.Valid() && qc.width == n
    ensures qc.gates == DiffuserGates(n)
  {
    var all := Range(0, n);
    RangesFit(0, 0, 0, n, n);
    assert [] + all == all;
    qc := new QuantumCircuit(n);
    qc.HEach(all);
    qc.XEach(all);
    AddReflection(qc, n);
    qc.XEach(all);
    qc.HEach(all);
    AddTail(qc);
    assert [] + HLayer(all) == HLayer(all);
  }

  lemma LayerCounts(qs: seq<nat>)
    ensures Count(HLayer(qs), IsH) == |qs| && Count(XLayer(qs), IsX) == |qs|
    ensures Count(HLayer(qs), IsX) == 0 && Count(XLayer(qs), IsH) == 0
    ensures Count(HLayer(qs), IsZ) == 0 && Count(XLayer(qs), IsZ) == 0
    ensures Count(HLayer(qs), IsMCX) == 0 && Count(XLayer(qs), IsMCX) == 0
  {
    CountUniform(HLayer(qs), IsH, true);
    CountUniform(XLayer(qs), IsX, true);
    CountUniform(HLayer(qs), IsX, false);
    CountUniform(XLayer(qs), IsH, false);
    CountUniform(HLayer(qs), IsZ, false);
    CountUniform(XLayer(qs), IsZ, false);
    CountUniform(HLayer(qs), IsMCX, false);
    CountUniform(XLayer(qs), IsMCX, false);
  }

  lemma CountParts(a: seq<Gate>, b: seq<Gate>, c: seq<Gate>, d: seq<Gate>, e: seq<Gate>, f: seq<Gate>, p: Gate -> bool)
    ensures Count(a + b + c + d + e + f, p) == Count(a, p) + Count(b, p) + Count(c, p) + Count(d, p) + Count(e, p) + Count(f, p)
  {
    CountConcat(a, b, p);
    CountConcat(a + b, c, p);
    CountConcat(a + b + c, d, p);
    CountConcat(a + b + c + d, e, p);
    CountConcat(a + b + c + d + e, f, p);
  }

  /** Counting in a list of three gates. */
  lemma ShortCounts(a: Gate, b: Gate, c: Gate)
    ensures Count([a, b, c], IsH) == Count([a], IsH) + Count([b], IsH) + Count([c], IsH)
    ensures Count([a, b, c], IsX) == Count([a], IsX) + Count([b], IsX) + Count([c], IsX)
    ensures Count([a, b, c], IsZ) == Count([a], IsZ) + Count([b], IsZ) + Count([c], IsZ)
    ensures Count([a, b, c], IsMCX) == Count([a], IsMCX) + Count([b], IsMCX) + Count([c], IsMCX)
    ensures forall g: Gate, p: Gate -> bool :: Count([g], p) == if p(g) then 1 else 0
  {
    forall g: Gate, p: Gate -> bool
      ensures Count([g], p) == if p(g) then 1 else 0
    {
      assert [g][..0] == [];
    }
    assert [a, b, c] == [a] + [b] + [c];
    CountConcat([a], [b], IsH);
    CountConcat([a] + [b], [c], IsH);
    CountConcat([a], [b], IsX);
    CountConcat([a] + [b], [c], IsX);
    CountConcat([a], [b], IsZ);
    CountConcat([a] + [b], [c], IsZ);
    CountConcat([a], [b], IsMCX);
    CountConcat([a] + [b], [c], IsMCX);
  }

  /**
   * The diffuser on n qubits: 4n + 7 gates, of which 2n + 2 are H, 2n + 2 are X, two are Z
   * and one is the multi-controlled X.
   */
  lemma DiffuserCounts(n: nat)
    ensures |DiffuserGates(n)| == 4 * n + 7
    ensures Count(DiffuserGates(n), IsH) == 2 * n + 2
    ensures Count(DiffuserGates(n), IsX) == 2 * n + 2
    ensures Count(DiffuserGates(n), IsZ) == 2
    ensures Count(DiffuserGates(n), IsMCX) == 1
  {
    var all := Range(0, n);
    var mid, tail := [H(0), MCX(DiffuserControls(n), 0), H(0)], DiffuserTail();
    LayerCounts(all);
    CountParts(HLayer(all), XLayer(all), mid, XLayer(all), HLayer(all), tail, IsH);
    CountParts(HLayer(all), XLayer(all), mid, XLayer(all), HLayer(all), tail, IsX);
    CountParts(HLayer(all), XLayer(all), mid, XLayer(all), HLayer(all), tail, IsZ);
    CountParts(HLayer(all), XLayer(all), mid, XLayer(all), HLayer(all), tail, IsMCX);
    ShortCounts(H(0), MCX(DiffuserControls(n), 0), H(0));
    ShortCounts(Z(0), X(0), Z(0));
    assert tail == [Z(0), X(0), Z(0)] + [X(0)];
    CountConcat([Z(0), X(0), Z(0)], [X(0)], IsH);
    CountConcat([Z(0), X(0), Z(0)], [X(0)], IsX);
    CountConcat([Z(0), X(0), Z(0)], [X(0)], IsZ);
    CountConcat([Z(0), X(0), Z(0)], [X(0)], IsMCX);
  }

  /** v with its first k qubits negated. */
  function Negate(v: State, k: nat): (r: State)
    ensures |r| == |v|
  {
    seq(|v|, q requires 0 <= q < |v| => if q < k then !v[q] else v[q])
  }

  lemma DiffuserSlices(n: nat)
    requires n >= 1
    ensures DiffuserGates(n)[n..2 * n] == XLayer(Range(0, n))
    ensures DiffuserGates(n)[2 * n + 1] == MCX(DiffuserControls(n), 0)
    ensures DiffuserGates(n)[2 * n + 3..3 * n + 3] == XLayer(Range(0, n))
  {
  }

  /** A gate between two X layers on qubits 0..k-1 sees, and leaves, those qubits negated. */
  lemma XSandwich(k: nat, g: Gate, v: State, ext: External)
    requires k <= |v| && |Step(g, false, Negate(v, k), ext)| == |v|
    ensures Run(XLayer(Range(0, k)) + [g] + XLayer(Range(0, k)), false, v, ext) ==
      Negate(Step(g, false, Negate(v, k), ext), k)
  {
    var layer := XLayer(Range(0, k));
    RunConcat(layer, [g], v, ext);
    RunConcat(layer + [g], layer, v, ext);
    RunXLayer(k, v, ext);
    assert [g][..0] == [];
    var w := Step(g, false, Negate(v, k), ext);
    assert Run([g], false, Negate(v, k), ext) == w;
    RunXLayer(k, w, ext);
  }

  /** With qubits negated, the diffuser's controls are all set iff qubits 1..n-1 were all 0. */
  lemma ControlsOnNegated(n: nat, v: State)
    requires n >= 1 && |v| == n
    ensures AllSet(Negate(v, n), DiffuserControls(n)) <==> forall q :: 1 <= q < n ==> !v[q]
  {
    var w, cs := Negate(v, n), Range(1, n);
    if forall q :: 1 <= q < n ==> !v[q] {
      forall k | 0 <= k < n - 1
        ensures cs[k] < |w| && w[cs[k]]
      {
        assert cs[k] == k + 1;
      }
    }
    if AllSet(w, cs) {
      forall q | 1 <= q < n
        ensures !v[q]
      {
        assert cs[q - 1] == q;
      }
    }
  }

  /**
   * The X layers around the multi-controlled X (gates n..2n-1, 2n+1 and 2n+3..3n+2 of the
   * diffuser) make it fire on zeros: on basis states they flip qubit 0 exactly when every
   * other qubit is 0. With the H(0) on either side this is the reflection about |0...0>.
   */
  lemma DiffuserMarksZero(n: nat, v: State, ext: External)
    requires n >= 1 && |v| == n
    ensures var gs := DiffuserGates(n);
      Run(gs[n..2 * n] + [gs[2 * n + 1]] + gs[2 * n + 3..3 * n + 3], false, v, ext) ==
      if forall q :: 1 <= q < n ==> !v[q] then Flip(v, 0) else v
  {
    var gs, mcx, layer := DiffuserGates(n), MCX(DiffuserControls(n), 0), XLayer(Range(0, n));
    assert gs[n..2 * n] + [gs[2 * n + 1]] + gs[2 * n + 3..3 * n + 3] == layer + [mcx] + layer by {
      DiffuserSlices(n);
    }
    ControlsOnNegated(n, v);
    XSandwich(n, mcx, v, ext);
    NegateTwice(v, n);
  }

  /** Negating the same qubits twice restores them, also around a flip of qubit 0. */
  lemma NegateTwice(v: State, n: nat)
    requires n >= 1 && |v| == n
    ensures Negate(Negate(v, n), n) == v
    ensures Negate(Flip(Negate(v, n), 0), n) == Flip(v, 0)
  {
  }

  /** The Z X Z X tail leaves every basis state as it is (it only contributes the sign -1). */
  lemma DiffuserTailKeepsBits(n: nat, v: State, ext: External)
    requires |v| == n >= 1
    ensures Run(DiffuserGates(n)[4 * n + 3..], false, v, ext) == v
  {
    var t := DiffuserTail();
    assert DiffuserGates(n)[4 * n + 3..] == t;
    assert t[..3] == [Z(0), X(0), Z(0)] && t[..3][..2] == [Z(0), X(0)];
    assert [Z(0), X(0)][..1] == [Z(0)] && [Z(0)][..0] == [];
    assert Flip(Flip(v, 0), 0) == v;
  }

  /** All qubits of the Grover circuit: x, y and target. */
  function GroverWires(n: nat, d: nat): seq<nat>
  {
    Range(0, n + 1 + d)
  }

  /** The gates `create_grover_circuit(numbers, expected_sum, digits)` appends. */
  function GroverGates(numbers: seq<nat>, e: nat, d: nat): seq<Gate>
  {
    var n := |numbers|;
    [Append(OracleGate(numbers, e, d), GroverWires(n, d)), Append(DiffuserGate(n), Range(0, n))]
  }

  /** `create_grover_gate(numbers, expected_sum, digits)` */
  function GroverGate(numbers: seq<nat>, e: nat, d: nat): Op
  {
    Frozen("Grover", |numbers| + 1 + d, GroverGates(numbers, e, d))
  }

  /** `create_controlled_grover_gate(numbers, expected_sum, digits)` */
  function ControlledGroverGate(numbers: seq<nat>, e: nat, d: nat): Op
  {
    Control(GroverGate(numbers, e, d))
  }

  lemma GroverPairFits(oracle: Op, diffuser: Op, n: nat, d: nat)
    requires Arity(oracle) == n + 1 + d && Arity(diffuser) == n
    ensures Fits(Append(oracle, GroverWires(n, d)), n + 1 + d)
    ensures Fits(Append(diffuser, Range(0, n)), n + 1 + d)
  {
    RangesFit(0, n + 1 + d, n + 1 + d, n + 1 + d, n + 1 + d);
    assert Range(0, n + 1 + d) + Range(n + 1 + d, n + 1 + d) == GroverWires(n, d);
    RangesFit(0, n, n, n, n + 1 + d);
    assert Range(0, n) + Range(n, n) == Range(0, n);
  }

  /**
   * Building the diffuser gate raises for fewer than two numbers, and the oracle gate for
   * digits = 0 (an MCX without controls), hence |numbers| >= 2 and d >= 1.
   */
  method CreateGroverCircuit(numbers: seq<nat>, e: nat, d: nat) returns (qc: QuantumCircuit)
    requires |numbers| >= 2 && d >= 1
    ensures fresh(qc) && qc.Valid() && qc.width == |numbers| + 1 + d
    ensures qc.gates == GroverGates(numbers, e, d)
  {
    var n := |numbers|;
    qc := new QuantumCircuit(n + 1 + d);
    // qreg_x[:] + qreg_y[:] + qreg_target[:] is every qubit, in order.
    GroverPairFits(OracleGate(numbers, e, d), DiffuserGate(n), n, d);
    qc.Add(Append(OracleGate(numbers, e, d), GroverWires(n, d)));
    qc.Add(Append(DiffuserGate(n), Range(0, n)));
  }

  lemma OracleNoH(numbers: seq<nat>, e: nat, d: nat)
    ensures !HasH(OracleGates(numbers, e, d))
  {
    var gs := OracleGates(numbers, e, d);
    assert forall i | 0 <= i < |gs| :: !gs[i].H?;
  }

  /** The oracle gate, bound to every qubit, is the oracle's gate list. */
  lemma OracleStep(numbers: seq<nat>, e: nat, d: nat, v: State, ext: External)
    requires |v| == |numbers| + 1 + d
    requires |Run(OracleGates(numbers, e, d), false, v, ext)| == |v|
    ensures Step(Append(OracleGate(numbers, e, d), GroverWires(|numbers|, d)), false, v, ext)
      == Run(OracleGates(numbers, e, d), false, v, ext)
  {
    var body := OracleGates(numbers, e, d);
    assert Append(OracleGate(numbers, e, d), GroverWires(|numbers|, d)) == Append(Frozen("Grover Oracle", |v|, body), Range(0, |v|));
    OracleNoH(numbers, e, d);
    FrozenOnAll("Grover Oracle", body, v, ext);
  }

  /** The diffuser gate, bound to x, acts on x only; its effect is quantum (it holds H). */
  lemma DiffuserStep(n: nat, x: State, rest: State, ext: External)
    requires |x| == n && |ext(DiffuserGate(n), false, x)| == n
    ensures Step(Append(DiffuserGate(n), Range(0, n)), false, x + rest, ext) ==
      ext(DiffuserGate(n), false, x) + rest
  {
    var gs := DiffuserGates(n);
    assert gs[2 * n].H?;
    assert HasH(gs);
    GatherScatterRange(x + rest, 0, n, ext(DiffuserGate(n), false, x));
    assert (x + rest)[0..n] == x && (x + rest)[..0] == [] && (x + rest)[n..] == rest;
  }

  /**
   * One Grover iteration on |x>|y>|0...0>: the oracle flips y when the numbers selected by
   * x add up to expected_sum (mod 2^digits) and restores the target, then the diffuser acts on
   * the x register alone.
   */
  lemma GroverOnBasis(numbers: seq<nat>, e: nat, d: nat, x: State, y: bool, ext: External)
    requires |x| == |numbers| && e < Pow2(d)
    requires AdderAdds(numbers, d, x, ext)
    requires |ext(DiffuserGate(|numbers|), false, x)| == |numbers|
    ensures Run(GroverGates(numbers, e, d), false, x + [y] + Encode(0, d), ext) ==
      ext(DiffuserGate(|numbers|), false, x) + ([y != (SubsetSum(numbers, x) % Pow2(d) == e)] + Encode(0, d))
  {
    var gs := GroverGates(numbers, e, d);
    var y' := y != (SubsetSum(numbers, x) % Pow2(d) == e);
    var v, mid := x + [y] + Encode(0, d), x + ([y'] + Encode(0, d));
    assert Step(gs[0], false, v, ext) == mid by {
      OracleFlipsY(numbers, e, d, x, y, ext);
      OracleStep(numbers, e, d, v, ext);
      assert x + [y'] + Encode(0, d) == mid;
    }
    assert Step(gs[1], false, mid, ext) == ext(DiffuserGate(|numbers|), false, x) + ([y'] + Encode(0, d)) by {
      DiffuserStep(|numbers|, x, [y'] + Encode(0, d), ext);
    }
    RunTwo(gs[0], gs[1], false, v, ext);
  }
}
