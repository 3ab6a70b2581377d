/**
 * Addition in Fourier space: `create_qft_add_circuit` (a constant adder made only of
 * single-qubit phase rotations, after Draper, arXiv quant-ph/0008033) and `create_add_circuit`
 * (x-controlled adders of each listed number into a shared target register).
 */
module Adder {
  import opened Binary
  import opened Circuits
  import opened Fourier

  /**
   * Row i of the adder's phase loop, for j = i, i-1, ..., lo: the phase pi/2^(i-j) on
   * position digits-i-1 whenever bit j of a is 1.
   */
  function QftAddRow(a: nat, digits: nat, i: nat, lo: nat): seq<Gate>
    requires i < digits
    decreases i + 1 - lo
  {
    if lo > i then []
    else QftAddRow(a, digits, i, lo + 1) + (if Bit(a, lo) then [P(i - lo, digits - i - 1)] else [])
  }

  /** Rows digits-1, digits-2, ..., lo. */
  function QftAddRows(a: nat, digits: nat, lo: nat): seq<Gate>
    decreases digits - lo
  {
    if lo >= digits then [] else QftAddRows(a, digits, lo + 1) + QftAddRow(a, digits, lo, 0)
  }

  /** The gate list `create_qft_add_circuit(a, digits)` builds. */
  function QftAddGates(a: nat, digits: nat): seq<Gate>
  {
    QftAddRows(a, digits, 0)
  }

  /** The phase the adder puts on position digits-i-1 for bit j of the constant. */
  function AddPhase(digits: nat, i: nat, j: nat): Gate
    requires j <= i < digits
  {
    P(i - j, digits - i - 1)
  }

  /** `create_qft_add_gate(a, digits)` */
  function QftAddGate(a: nat, digits: nat): Op
  {
    Frozen("QFT Add", digits, QftAddGates(a, digits))
  }

  /** `create_qft_add_controlled_gate(a, digits)` */
  function QftAddControlledGate(a: nat, digits: nat): Op
  {
    Control(QftAddGate(a, digits))
  }

  /** One more phase of row i, appended after any prefix. */
  lemma QftAddRowSnoc(pre: seq<Gate>, a: nat, digits: nat, i: nat, j: nat)
    requires j <= i < digits
    ensures pre + QftAddRow(a, digits, i, j) ==
      (pre + QftAddRow(a, digits, i, j + 1)) + (if Bit(a, j) then [P(i - j, digits - i - 1)] else [])
    ensures Fits(P(i - j, digits - i - 1), digits)
  {
    if !Bit(a, j) {
      assert QftAddRow(a, digits, i, j) == QftAddRow(a, digits, i, j + 1) + [];
    }
  }

  /** `a_binary = format(a, "0<digits>b")[::-1]`: character j is bit j of a. */
  lemma ReversedFormatBits(a: nat, digits: nat)
    ensures |Reverse(Format(a, digits))| >= digits
    ensures forall j :: 0 <= j < |Reverse(Format(a, digits))| ==> Reverse(Format(a, digits))[j] == Digit(Bit(a, j))
  {
    FormatBits(a, digits);
  }

  /** The inner loop of `create_qft_add_circuit` for row i: j = i, i-1, ..., 0. */
  method AddQftAddRow(qc: QuantumCircuit, a: nat, aBinary: string, i: nat)
    requires qc.Valid() && i < qc.width <= |aBinary|
    requires forall j :: 0 <= j < |aBinary| ==> aBinary[j] == Digit(Bit(a, j))
    modifies qc
    ensures qc.Valid() && qc.gates == old(qc.gates) + QftAddRow(a, qc.width, i, 0)
  {
    var j: int := i;
    while j >= 0
      invariant -1 <= j <= i
      invariant qc.Valid() && qc.gates == old(qc.gates) + QftAddRow(a, qc.width, i, j + 1)
    {
      QftAddRowSnoc(old(qc.gates), a, qc.width, i, j);
      if aBinary[j] == '1' {
        qc.Add(P(i - j, qc.width - i - 1));
      } else {
        assert qc.gates + [] == qc.gates;
      }
      j := j - 1;
    }
  }

  method CreateQftAddCircuit(a: nat, digits: nat) returns (qc: QuantumCircuit)
    ensures fresh(qc) && qc.Valid() && qc.width == digits
    ensures qc.gates == QftAddGates(a, digits)
  {
    var aBinary := Reverse(Format(a, digits));
    ReversedFormatBits(a, digits);
    qc := new QuantumCircuit(digits);
    var i: int := digits - 1;
    while i >= 0
      invariant -1 <= i < digits
      invariant qc.Valid() && qc.width == digits && qc.gates == QftAddRows(a, digits, i + 1)
    {
      AddQftAddRow(qc, a, aBinary, i);
      i := i - 1;
    }
  }

  /**
   * Total rotation on qubit q, in units of pi / 2^s: the sum of 2^(s-k) over the gates P(k, q)
   * with k <= s.
   */
  function PhaseWeight(gs: seq<Gate>, q: nat, s: nat): nat
  {
    if gs == [] then 0
    else
      var g := gs[|gs| - 1];
      PhaseWeight(gs[..|gs| - 1], q, s) + (if g.P? && g.q == q && g.k <= s then Pow2(s - g.k) else 0)
  }

  lemma {:induction false} PhaseWeightConcat(a: seq<Gate>, b: seq<Gate>, q: nat, s: nat)
    ensures PhaseWeight(a + b, q, s) == PhaseWeight(a, q, s) + PhaseWeight(b, q, s)
    decreases |b|
  {
    if b == [] {
      assert a + b == a;
    } else {
      assert (a + b)[..|a + b| - 1] == a + b[..|b| - 1];
      PhaseWeightConcat(a, b[..|b| - 1], q, s);
    }
  }

  lemma {:induction false} PhaseWeightElsewhere(gs: seq<Gate>, q: nat, s: nat)
    requires forall g :: g in gs ==> !(g.P? && g.q == q)
    ensures PhaseWeight(gs, q, s) == 0
    decreases |gs|
  {
    if gs != [] {
      assert gs[|gs| - 1] in gs;
      PhaseWeightElsewhere(gs[..|gs| - 1], q, s);
    }
  }

  lemma {:induction false} QftAddRowWeight(a: nat, digits: nat, i: nat, lo: nat, q: nat)
    requires i < digits && lo <= i + 1
    ensures PhaseWeight(QftAddRow(a, digits, i, lo), q, i) ==
      if q == digits - i - 1 then a % Pow2(i + 1) - a % Pow2(lo) else 0
    decreases i + 1 - lo
  {
    if lo <= i {
      var tail := if Bit(a, lo) then [P(i - lo, digits - i - 1)] else [];
      QftAddRowWeight(a, digits, i, lo + 1, q);
      PhaseWeightConcat(QftAddRow(a, digits, i, lo + 1), tail, q, i);
      ModSplit(a, lo);
      if Bit(a, lo) {
        assert PhaseWeight(tail, q, i) == PhaseWeight([], q, i) + (if q == digits - i - 1 then Pow2(lo) else 0);
      }
    }
  }

  lemma {:induction false} QftAddRowsWeight(a: nat, digits: nat, lo: nat, i: nat)
    requires i < digits
    ensures PhaseWeight(QftAddRows(a, digits, lo), digits - i - 1, i) ==
      if lo <= i then a % Pow2(i + 1) else 0
    decreases digits - lo
  {
    if lo < digits {
      QftAddRowsWeight(a, digits, lo + 1, i);
      QftAddRowWeight(a, digits, lo, 0, digits - i - 1);
      assert a % Pow2(0) == 0;
      assert QftAddRows(a, digits, lo) == QftAddRows(a, digits, lo + 1) + QftAddRow(a, digits, lo, 0);
      PhaseWeightConcat(QftAddRows(a, digits, lo + 1), QftAddRow(a, digits, lo, 0), digits - i - 1, i);
      if lo != i {
        QftAddRowSound(a, digits, lo, 0);
        PhaseWeightElsewhere(QftAddRow(a, digits, lo, 0), digits - i - 1, i);
      }
    } else {
      assert QftAddRows(a, digits, lo) == [];
    }
  }

  /**
   * The adder rotates Fourier position digits-i-1 by pi * (a mod 2^(i+1)) / 2^i in total:
   * the weights 2^(i-k) of the phases pi/2^k placed there add up to a mod 2^(i+1).
   * No bound on a is needed: bits of a at or above digits are never read.
   */
  lemma QftAddPhaseSum(a: nat, digits: nat, i: nat)
    requires i < digits
    ensures PhaseWeight(QftAddGates(a, digits), digits - i - 1, i) == a % Pow2(i + 1)
  {
    QftAddRowsWeight(a, digits, 0, i);
  }

  /** g is a phase the adder for a may place: P(k, q) inside the register with bit digits-1-q-k of a set. */
  predicate AddsBit(a: nat, digits: nat, g: Gate)
  {
    g.P? && g.q < digits && g.k <= digits - 1 - g.q && Bit(a, digits - 1 - g.q - g.k)
  }

  lemma {:induction false} QftAddRowSound(a: nat, digits: nat, i: nat, lo: nat)
    requires i < digits
    ensures forall g :: g in QftAddRow(a, digits, i, lo) ==> AddsBit(a, digits, g) && g.q == digits - i - 1
    decreases i + 1 - lo
  {
    if lo <= i {
      QftAddRowSound(a, digits, i, lo + 1);
      assert digits - 1 - (digits - i - 1) - (i - lo) == lo;
    }
  }

  lemma {:induction false} QftAddRowComplete(a: nat, digits: nat, i: nat, lo: nat)
    requires i < digits
    ensures forall j: nat :: lo <= j <= i && Bit(a, j) ==> AddPhase(digits, i, j) in QftAddRow(a, digits, i, lo)
    decreases i + 1 - lo
  {
    if lo <= i {
      QftAddRowComplete(a, digits, i, lo + 1);
    }
  }

  lemma {:induction false} QftAddRowsSound(a: nat, digits: nat, lo: nat)
    ensures forall g :: g in QftAddRows(a, digits, lo) ==> AddsBit(a, digits, g) && g.q + lo < digits
    decreases digits - lo
  {
    if lo < digits {
      QftAddRowsSound(a, digits, lo + 1);
      QftAddRowSound(a, digits, lo, 0);
    }
  }

  lemma {:induction false} QftAddRowsComplete(a: nat, digits: nat, lo: nat)
    ensures forall i: nat, j: nat :: j <= i < digits && lo <= i && Bit(a, j) ==>
      AddPhase(digits, i, j) in QftAddRows(a, digits, lo)
    decreases digits - lo
  {
    if lo < digits {
      QftAddRowsComplete(a, digits, lo + 1);
      QftAddRowComplete(a, digits, lo, 0);
    }
  }

  /**
   * The adder holds only single-qubit phases inside the register, and the phase of exponent
   * i-j sits on position digits-i-1 exactly when bit j of a is 1.
   */
  lemma QftAddMembers(a: nat, digits: nat)
    ensures forall g :: g in QftAddGates(a, digits) ==> g.P? && g.q < digits && g.k <= digits - 1 - g.q
    ensures forall i: nat, j: nat :: j <= i < digits ==>
      (AddPhase(digits, i, j) in QftAddGates(a, digits) <==> Bit(a, j))
  {
    QftAddRowsSound(a, digits, 0);
    QftAddRowsComplete(a, digits, 0);
    forall i: nat, j: nat | j <= i < digits && AddPhase(digits, i, j) in QftAddGates(a, digits)
      ensures Bit(a, j)
    {
      assert AddsBit(a, digits, AddPhase(digits, i, j));
    }
  }

  /** The target register of the sum circuit: the qubits after the |numbers| x qubits. */
  function TargetWires(n: nat, digits: nat): seq<nat>
  {
    Range(n, n + digits)
  }

  /** The first k controlled adders: x_i controls the addition of numbers[i] into the target. */
  function ControlledAdds(numbers: seq<nat>, digits: nat, k: nat): seq<Gate>
    requires k <= |numbers|
  {
    seq(k, i requires 0 <= i < k =>
      Append(QftAddControlledGate(numbers[i], digits), [i] + TargetWires(|numbers|, digits)))
  }

  /** The gate list `create_add_circuit(numbers, digits)` builds. */
  function AddGates(numbers: seq<nat>, digits: nat): seq<Gate>
  {
    var target := TargetWires(|numbers|, digits);
    HLayer(target) + ControlledAdds(numbers, digits, |numbers|) + [Append(QftInverseGate(digits), target)]
  }

  /** `create_add_gate(numbers, digits)` */
  function AddGate(numbers: seq<nat>, digits: nat): Op
  {
    Frozen("Add", |numbers| + digits, AddGates(numbers, digits))
  }

  method CreateAddCircuit(numbers: seq<nat>, digits: nat) returns (qc: QuantumCircuit)
    ensures fresh(qc) && qc.Valid() && qc.width == |numbers| + digits
    ensures qc.gates == AddGates(numbers, digits)
  {
    var n := |numbers|;
    var target := TargetWires(n, digits);
    qc := new QuantumCircuit(n + digits);
    // The target starts in |0>, whose Fourier transform only needs Hadamards.
    RangesFit(n, n, n, n + digits, n + digits);
    assert Range(n, n) + target == target;
    qc.HEach(target);
    var i := 0;
    while i < n
      invariant 0 <= i <= n
      invariant qc.Valid() && qc.width == n + digits
      invariant qc.gates == HLayer(target) + ControlledAdds(numbers, digits, i)
    {
      ControlledAddsSnoc(HLayer(target), numbers, digits, i);
      qc.Add(Append(QftAddControlledGate(numbers[i], digits), [i] + target));
      i := i + 1;
    }
    qc.Add(Append(QftInverseGate(digits), target));
  }

  /** Adder i, controlled by x_i, appended after any prefix; it fits the circuit. */
  lemma ControlledAddsSnoc(pre: seq<Gate>, numbers: seq<nat>, digits: nat, i: nat)
    requires i < |numbers|
    ensures pre + ControlledAdds(numbers, digits, i + 1) ==
      (pre + ControlledAdds(numbers, digits, i)) + [Append(QftAddControlledGate(numbers[i], digits), [i] + TargetWires(|numbers|, digits))]
    ensures Fits(Append(QftAddControlledGate(numbers[i], digits), [i] + TargetWires(|numbers|, digits)), |numbers| + digits)
  {
    var n := |numbers|;
    assert ControlledAdds(numbers, digits, i + 1) == ControlledAdds(numbers, digits, i)
      + [Append(QftAddControlledGate(numbers[i], digits), [i] + TargetWires(n, digits))];
    RangesFit(i, i + 1, n, n + digits, n + digits);
    assert Range(i, i + 1) == [i];
  }

  /** The sum of the numbers whose x qubit is 1. */
  function SubsetSum(numbers: seq<nat>, x: seq<bool>): nat
    requires |x| == |numbers|
  {
    if numbers == [] then 0
    else
      var k := |numbers| - 1;
      SubsetSum(numbers[..k], x[..k]) + (if x[k] then numbers[k] else 0)
  }

  /** A phase gate of an operation body moved onto the qubits the operation is bound to. */
  function Rebind(body: seq<Gate>, ws: seq<nat>): seq<Gate>
  {
    seq(|body|, i requires 0 <= i < |body| =>
      if body[i].P? && body[i].q < |ws| then P(body[i].k, ws[body[i].q]) else body[i])
  }

  /**
   * The phase gates a list applies when the x qubits hold the basis value x: the body of
   * every controlled operation whose control qubit is 1, on the qubits it is bound to.
   */
  function ActivePhases(gs: seq<Gate>, x: seq<bool>): seq<Gate>
  {
    if gs == [] then [] else ActivePhases(gs[..|gs| - 1], x) + Active(gs[|gs| - 1], x)
  }

  /** The phases one gate applies under the basis value x of the controls. */
  function Active(g: Gate, x: seq<bool>): seq<Gate>
  {
    if g.Append? && g.op.Control? && g.op.base.Frozen? && |g.wires| >= 1 &&
       g.wires[0] < |x| && x[g.wires[0]]
    then Rebind(g.op.base.body, g.wires[1..])
    else []
  }

  lemma ActivePhasesSnoc(all: seq<Gate>, gs: seq<Gate>, g: Gate, x: seq<bool>)
    requires all == gs + [g]
    ensures ActivePhases(all, x) == ActivePhases(gs, x) + Active(g, x)
  {
    assert all[..|gs|] == gs;
  }

  lemma {:induction false} ActivePhasesConcat(a: seq<Gate>, b: seq<Gate>, x: seq<bool>)
    ensures ActivePhases(a + b, x) == ActivePhases(a, x) + ActivePhases(b, x)
    decreases |b|
  {
    if b == [] {
      assert a + b == a;
    } else {
      var init, last := b[..|b| - 1], b[|b| - 1];
      SplitLast(a, b);
      ActivePhasesConcat(a, init, x);
      ActivePhasesSnoc(a + b, a + init, last, x);
      ActivePhasesSnoc(b, init, last, x);
      ConcatAssoc(ActivePhases(a + b, x), ActivePhases(a + init, x), ActivePhases(a, x), ActivePhases(init, x),
        ActivePhases(b, x), Active(last, x));
    }
  }

  lemma {:induction false} HLayerInactive(qs: seq<nat>, x: seq<bool>)
    ensures ActivePhases(HLayer(qs), x) == []
    decreases |qs|
  {
    if qs != [] {
      assert HLayer(qs)[..|qs| - 1] == HLayer(qs[..|qs| - 1]);
      HLayerInactive(qs[..|qs| - 1], x);
    }
  }

  lemma {:induction false} RebindWeight(gs: seq<Gate>, n: nat, digits: nat, q: nat, s: nat)
    requires forall g :: g in gs ==> g.P? && g.q < digits
    requires q < digits
    ensures PhaseWeight(Rebind(gs, TargetWires(n, digits)), n + q, s) == PhaseWeight(gs, q, s)
    decreases |gs|
  {
    if gs != [] {
      var k := |gs| - 1;
      assert Rebind(gs, TargetWires(n, digits))[..k] == Rebind(gs[..k], TargetWires(n, digits));
      assert gs[k] in gs;
      RebindWeight(gs[..k], n, digits, q, s);
    }
  }

  /** If w = s (mod m), then adding a mod m to w, and a to s, keeps them congruent; so does adding nothing. */
  lemma CongruentStep(w': nat, w: nat, s': nat, s: nat, a: nat, c: bool, m: nat)
    requires m > 0 && w % m == s % m
    requires w' == w + (if c then a % m else 0) && s' == s + (if c then a else 0)
    ensures w' % m == s' % m
  {
    if c {
      var r := a % m;
      DivModUnique(a, m, a / m, r);
      DivModUnique(w, m, w / m, w % m);
      DivModUnique(s, m, s / m, s % m);
      var v := (w % m + r) % m;
      DivModUnique(w % m + r, m, (w % m + r) / m, v);
      DivModUnique(w + r, m, w / m + (w % m + r) / m, v);
      DivModUnique(s + a, m, s / m + a / m + (w % m + r) / m, v);
    }
  }

  /** The adder for a, bound to the target register, weighs a mod 2^(i+1) at target position digits-1-i. */
  lemma BoundAdderWeight(a: nat, n: nat, digits: nat, i: nat)
    requires i < digits
    ensures PhaseWeight(Rebind(QftAddGates(a, digits), TargetWires(n, digits)), n + digits - 1 - i, i)
      == a % Pow2(i + 1)
  {
    QftAddMembers(a, digits);
    RebindWeight(QftAddGates(a, digits), n, digits, digits - 1 - i, i);
    QftAddPhaseSum(a, digits, i);
  }

  /** Controlled adder j applies the adder for numbers[j], bound to the target register, exactly when x_j is 1. */
  lemma ControlledAdderActive(numbers: seq<nat>, digits: nat, x: seq<bool>, k: nat, j: nat)
    requires |x| == |numbers| && j < k <= |numbers|
    ensures Active(ControlledAdds(numbers, digits, k)[j], x) ==
      if x[j] then Rebind(QftAddGates(numbers[j], digits), TargetWires(|numbers|, digits)) else []
  {
    assert ([j] + TargetWires(|numbers|, digits))[1..] == TargetWires(|numbers|, digits);
  }

  /** The sum, over the numbers whose x qubit is 1, of each number's low i+1 bits. */
  function LowSum(numbers: seq<nat>, x: seq<bool>, i: nat): nat
    requires |x| == |numbers|
  {
    if numbers == [] then 0
    else
      var k := |numbers| - 1;
      LowSum(numbers[..k], x[..k], i) + (if x[k] then numbers[k] % Pow2(i + 1) else 0)
  }

  /** Adding the low bits of each number, or the numbers themselves, agrees mod 2^(i+1). */
  lemma {:induction false} LowSumCongruent(numbers: seq<nat>, x: seq<bool>, i: nat)
    requires |x| == |numbers|
    ensures LowSum(numbers, x, i) % Pow2(i + 1) == SubsetSum(numbers, x) % Pow2(i + 1)
    decreases |numbers|
  {
    if numbers != [] {
      var k := |numbers| - 1;
      LowSumCongruent(numbers[..k], x[..k], i);
      CongruentStep(LowSum(numbers, x, i), LowSum(numbers[..k], x[..k], i),
        SubsetSum(numbers, x), SubsetSum(numbers[..k], x[..k]), numbers[k], x[k], Pow2(i + 1));
    }
  }

  /** Gates that each weigh the low bits of their number when x selects it, and nothing otherwise, weigh the LowSum. */
  lemma {:induction false} ActiveWeightSum(ca: seq<Gate>, numbers: seq<nat>, x: seq<bool>, q: nat, i: nat)
    requires |ca| <= |numbers| == |x|
    requires forall j :: 0 <= j < |ca| ==>
      PhaseWeight(Active(ca[j], x), q, i) == if x[j] then numbers[j] % Pow2(i + 1) else 0
    ensures PhaseWeight(ActivePhases(ca, x), q, i) == LowSum(numbers[..|ca|], x[..|ca|], i)
    decreases |ca|
  {
    if ca == [] {
      assert numbers[..0] == [] && x[..0] == [];
    } else {
      var k := |ca| - 1;
      ActiveWeightSum(ca[..k], numbers, x, q, i);
      PhaseWeightConcat(ActivePhases(ca[..k], x), Active(ca[k], x), q, i);
      assert numbers[..|ca|][..k] == numbers[..k];
      assert x[..|ca|][..k] == x[..k];
    }
  }

  /** The first k controlled adders weigh, at target position digits-1-i, the LowSum of the first k numbers. */
  lemma ControlledAddsWeight(numbers: seq<nat>, digits: nat, x: seq<bool>, k: nat, i: nat)
    requires |x| == |numbers| && k <= |numbers| && i < digits
    ensures PhaseWeight(ActivePhases(ControlledAdds(numbers, digits, k), x), |numbers| + digits - 1 - i, i)
      == LowSum(numbers[..k], x[..k], i)
  {
    var ca := ControlledAdds(numbers, digits, k);
    var q: nat := |numbers| + digits - 1 - i;
    assert |ca| == k;
    forall j | 0 <= j < |ca|
      ensures PhaseWeight(Active(ca[j], x), q, i) == if x[j] then numbers[j] % Pow2(i + 1) else 0
    {
      ControlledAdderActive(numbers, digits, x, k, j);
      BoundAdderWeight(numbers[j], |numbers|, digits, i);
    }
    ActiveWeightSum(ca, numbers, x, q, i);
  }

  /** Only the controlled adders of the sum circuit apply phases selected by x. */
  lemma AddGatesActive(numbers: seq<nat>, digits: nat, x: seq<bool>)
    ensures ActivePhases(AddGates(numbers, digits), x) ==
      ActivePhases(ControlledAdds(numbers, digits, |numbers|), x)
  {
    var target := TargetWires(|numbers|, digits);
    var hs, ca := HLayer(target), ControlledAdds(numbers, digits, |numbers|);
    var last := [Append(QftInverseGate(digits), target)];
    ActivePhasesConcat(hs + ca, last, x);
    ActivePhasesConcat(hs, ca, x);
    HLayerInactive(target, x);
    assert last[..0] == [];
    assert ActivePhases(last, x) == [];
  }

  /** A phase P(k, q) on target qubit q = n + p whose exponent k is at most digits-1-p. */
  predicate TargetPhase(g: Gate, n: nat, digits: nat)
  {
    g.P? && n <= g.q < n + digits && g.k <= n + digits - 1 - g.q
  }

  /** The adder's phases, bound to the target register, stay target phases. */
  lemma RebindBounded(gs: seq<Gate>, n: nat, digits: nat)
    requires forall g :: g in gs ==> g.P? && g.q < digits && g.k <= digits - 1 - g.q
    ensures forall g :: g in Rebind(gs, TargetWires(n, digits)) ==> TargetPhase(g, n, digits)
  {
    var rs := Rebind(gs, TargetWires(n, digits));
    forall i | 0 <= i < |rs|
      ensures TargetPhase(rs[i], n, digits)
    {
      assert gs[i] in gs;
    }
  }

  /** If every gate of ca applies only target phases under x, so does the whole list. */
  lemma {:induction false} ActivePhasesBounded(ca: seq<Gate>, x: seq<bool>, n: nat, digits: nat)
    requires forall j, g :: 0 <= j < |ca| && g in Active(ca[j], x) ==> TargetPhase(g, n, digits)
    ensures forall g :: g in ActivePhases(ca, x) ==> TargetPhase(g, n, digits)
    decreases |ca|
  {
    if ca != [] {
      var k := |ca| - 1;
      ActivePhasesBounded(ca[..k], x, n, digits);
    }
  }

  /**
   * The phases the sum circuit applies under x are all P(k, q) on the target, with k at most
   * the Fourier position's own exponent: position digits-1-i gets no phase finer than pi / 2^i.
   */
  lemma AddPhasesBounded(numbers: seq<nat>, digits: nat, x: seq<bool>)
    requires |x| == |numbers|
    ensures forall g :: g in ActivePhases(AddGates(numbers, digits), x) ==> TargetPhase(g, |numbers|, digits)
  {
    var n := |numbers|;
    var ca := ControlledAdds(numbers, digits, n);
    AddGatesActive(numbers, digits, x);
    forall j | 0 <= j < |ca|
      ensures forall g :: g in Active(ca[j], x) ==> TargetPhase(g, n, digits)
    {
      ControlledAdderActive(numbers, digits, x, n, j);
      QftAddMembers(numbers[j], digits);
      RebindBounded(QftAddGates(numbers[j], digits), n, digits);
    }
    ActivePhasesBounded(ca, x, n, digits);
  }

  /**
   * With the x register in the basis state x, the controlled adders of the sum circuit
   * rotate target qubit |numbers| + digits - 1 - i (Fourier position digits-1-i) by
   * pi * S / 2^i, where S is congruent to the subset sum of x modulo 2^(i+1): the Fourier
   * encoding of that subset sum modulo 2^digits.
   */
  lemma AddEncodesSubsetSum(numbers: seq<nat>, digits: nat, x: seq<bool>, i: nat)
    requires |x| == |numbers| && i < digits
    ensures PhaseWeight(ActivePhases(AddGates(numbers, digits), x), |numbers| + digits - 1 - i, i)
      % Pow2(i + 1) == SubsetSum(numbers, x) % Pow2(i + 1)
    ensures forall g :: g in ActivePhases(AddGates(numbers, digits), x) ==>
      g.P? && (g.q == |numbers| + digits - 1 - i ==> g.k <= i)
  {
    var n := |numbers|;
    AddPhasesBounded(numbers, digits, x);
    AddGatesActive(numbers, digits, x);
    ControlledAddsWeight(numbers, digits, x, n, i);
    assert numbers[..n] == numbers && x[..n] == x;
    LowSumCongruent(numbers, x, i);
  }
}
