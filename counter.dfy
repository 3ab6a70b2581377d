/**
 * The quantum counting circuit (`create_counter_circuit`): m counting qubits t, then the
 * Grover circuit's x, y and target. After the H layers and |-> on y, counting qubit i controls
 * 2^i consecutive Grover iterates, and an inverse QFT on t closes the circuit.
 * Qubit layout: t = 0..m-1, x = m..m+n-1, y = m+n, target = m+n+1..m+n+d.
 */
module Counter {
  import opened Binary
  import opened Circuits
  import opened Fourier
  import opened Grover

  /** Qubits of the counting circuit: t, x, y and target. */
  function CounterWidth(n: nat, d: nat, m: nat): nat
  {
    m + n + 1 + d
  }

  /**
   * The operation op on `[qreg_t[i]] + qreg_x[:] + qreg_y[:] + qreg_target[:]`, the qubits
   * m..w-1 following the control t_i. In the counter, op is the controlled Grover gate.
   */
  function Iterate(op: Op, m: nat, w: nat, i: nat): Gate
    requires m <= w
  {
    Append(op, [i] + Range(m, w))
  }

  /** `qc.h(qreg_x); qc.h(qreg_t); qc.x(qreg_y); qc.h(qreg_y)` */
  function CounterPrologue(n: nat, m: nat): seq<Gate>
  {
    HLayer(Range(m, m + n)) + HLayer(Range(0, m)) + [X(m + n), H(m + n)]
  }

  /** The iterates of counting qubits 0..k-1: 2^i of them for qubit i, in order. */
  function CounterBlocks(op: Op, m: nat, w: nat, k: nat): seq<Gate>
    requires m <= w
  {
    if k == 0 then []
    else CounterBlocks(op, m, w, k - 1) + Repeat(Iterate(op, m, w, k - 1), Pow2(k - 1))
  }

  /** The inverse QFT on the counting register. */
  function CounterReadout(m: nat): Gate
  {
    Append(QftInverseGate(m), Range(0, m))
  }

  /** The gate list `create_counter_circuit(numbers, expected_sum, digits, digits_counter)` builds. */
  function CounterGates(numbers: seq<nat>, e: nat, d: nat, m: nat): seq<Gate>
  {
    var w := CounterWidth(|numbers|, d, m);
    CounterPrologue(|numbers|, m) + CounterBlocks(ControlledGroverGate(numbers, e, d), m, w, m) + [CounterReadout(m)]
  }

  /** `create_counter_gate(numbers, expected_sum, digits, digits_counter)` */
  function CounterGate(numbers: seq<nat>, e: nat, d: nat, m: nat): Op
  {
    Frozen("Counter", CounterWidth(|numbers|, d, m), CounterGates(numbers, e, d, m))
  }

  lemma IterateFits(op: Op, m: nat, w: nat, i: nat)
    requires i < m <= w && Arity(op) == w - m + 1
    ensures Fits(Iterate(op, m, w, i), w)
  {
    var ws := [i] + Range(m, w);
    forall k | 0 <= k < |ws|
      ensures ws[k] == if k == 0 then i else m + k - 1
    {
    }
  }

  /** The controlled Grover gate acts on a control qubit plus x, y and target. */
  lemma ControlledGroverArity(numbers: seq<nat>, e: nat, d: nat)
    ensures Arity(ControlledGroverGate(numbers, e, d)) == |numbers| + 2 + d
  {
  }

  lemma PrologueFits(n: nat, m: nat, w: nat)
    requires w > m + n
    ensures InRange(Range(m, m + n), w) && InRange(Range(0, m), w)
    ensures Fits(X(m + n), w) && Fits(H(m + n), w)
  {
  }

  method AddPrologue(qc: QuantumCircuit, n: nat, m: nat)
    requires qc.Valid() && qc.width > m + n
    modifies qc
    ensures qc.Valid() && qc.gates == old(qc.gates) + CounterPrologue(n, m)
  {
    PrologueFits(n, m, qc.width);
    qc.HEach(Range(m, m + n));
    qc.HEach(Range(0, m));
    qc.Add(X(m + n));
    qc.Add(H(m + n));
  }

  /** `for j in range(reps): qc.append(op, [qreg_t[i]] + qreg_x[:] + qreg_y[:] + qreg_target[:])` */
  method AddIterates(qc: QuantumCircuit, op: Op, m: nat, i: nat, reps: nat)
    requires i < m <= qc.width && Arity(op) == qc.width - m + 1 && qc.Valid()
    modifies qc
    ensures qc.Valid() && qc.gates == old(qc.gates) + Repeat(Iterate(op, m, qc.width, i), reps)
  {
    var g := Iterate(op, m, qc.width, i);
    IterateFits(op, m, qc.width, i);
    for j := 0 to reps
      invariant qc.Valid() && qc.gates == old(qc.gates) + Repeat(g, j)
    {
      assert Repeat(g, j + 1) == Repeat(g, j) + [g];
      qc.Add(g);
    }
  }

  /** Iterate blocks for counting qubits 0..m-1, with the doubling repetition count of the source. */
  method AddBlocks(qc: QuantumCircuit, op: Op, m: nat)
    requires m <= qc.width && Arity(op) == qc.width - m + 1 && qc.Valid()
    modifies qc
    ensures qc.Valid() && qc.gates == old(qc.gates) + CounterBlocks(op, m, qc.width, m)
  {
    var reps := 1;
    for i := 0 to m
      invariant reps == Pow2(i)
      invariant qc.Valid() && qc.gates == old(qc.gates) + CounterBlocks(op, m, qc.width, i)
    {
      AddIterates(qc, op, m, i, reps);
      reps := reps * 2;
    }
  }

  /** The counting circuit around any iterate op on x, y and target. */
  method AddCounting(qc: QuantumCircuit, op: Op, n: nat, m: nat)
    requires qc.Valid() && qc.gates == [] && qc.width > m + n && Arity(op) == qc.width - m + 1
    modifies qc
    ensures qc.Valid()
    ensures qc.gates == CounterPrologue(n, m) + CounterBlocks(op, m, qc.width, m) + [CounterReadout(m)]
  {
    AddPrologue(qc, n, m);
    AddBlocks(qc, op, m);
    ReadoutFits(m, qc.width);
    qc.Add(CounterReadout(m));
  }

  /** Building the Grover gate raises unless |numbers| >= 2 and d >= 1 (see `CreateGroverCircuit`). */
  method CreateCounterCircuit(numbers: seq<nat>, e: nat, d: nat, m: nat) returns (qc: QuantumCircuit)
    requires |numbers| >= 2 && d >= 1
    ensures fresh(qc) && qc.Valid() && qc.width == CounterWidth(|numbers|, d, m)
    ensures qc.gates == CounterGates(numbers, e, d, m)
  {
    qc := new QuantumCircuit(CounterWidth(|numbers|, d, m));
    ControlledGroverArity(numbers, e, d);
    AddCounting(qc, ControlledGroverGate(numbers, e, d), |numbers|, m);
  }

  lemma ReadoutFits(m: nat, w: nat)
    requires m <= w
    ensures Fits(CounterReadout(m), w)
  {
    RangesFit(0, m, m, m, w);
    assert Range(0, m) + Range(m, m) == Range(0, m);
  }

  /** The counting qubits 0..k-1 control 2^k - 1 iterates in all. */
  lemma {:induction false} CounterBlocksLength(op: Op, m: nat, w: nat, k: nat)
    requires m <= w
    ensures |CounterBlocks(op, m, w, k)| == Pow2(k) - 1
  {
    if k > 0 {
      CounterBlocksLength(op, m, w, k - 1);
    }
  }

  /**
   * Counting qubit i's iterates are consecutive: positions 2^i - 1 up to 2^(i+1) - 2 of the
   * blocks, so qubit 0's single iterate comes first.
   */
  lemma {:induction false} CounterBlocksLayout(op: Op, m: nat, w: nat, k: nat, i: nat, p: nat)
    requires m <= w && i < k && Pow2(i) - 1 <= p < Pow2(i + 1) - 1
    ensures p < |CounterBlocks(op, m, w, k)|
    ensures CounterBlocks(op, m, w, k)[p] == Iterate(op, m, w, i)
  {
    CounterBlocksLength(op, m, w, k - 1);
    if i < k - 1 {
      CounterBlocksLayout(op, m, w, k - 1, i, p);
    } else {
      var r := Repeat(Iterate(op, m, w, k - 1), Pow2(k - 1));
      assert CounterBlocks(op, m, w, k)[p] == r[p - (Pow2(k - 1) - 1)];
    }
  }

  /** Every gate of the blocks is the iterate of a counting qubit below k, named by its first wire. */
  lemma {:induction false} CounterBlocksMembers(op: Op, m: nat, w: nat, k: nat)
    requires m <= w
    ensures forall j :: 0 <= j < |CounterBlocks(op, m, w, k)| ==>
      var g := CounterBlocks(op, m, w, k)[j];
      g.Append? && |g.wires| >= 1 && g.wires[0] < k && g == Iterate(op, m, w, g.wires[0])
  {
    if k > 0 {
      var prev, bl := CounterBlocks(op, m, w, k - 1), CounterBlocks(op, m, w, k);
      CounterBlocksMembers(op, m, w, k - 1);
      forall j | 0 <= j < |bl|
        ensures bl[j].Append? && |bl[j].wires| >= 1 && bl[j].wires[0] < k && bl[j] == Iterate(op, m, w, bl[j].wires[0])
      {
        if j < |prev| {
          assert bl[j] == prev[j];
        } else {
          assert bl[j] == Iterate(op, m, w, k - 1);
        }
      }
    }
  }

  /** The iterates of different counting qubits are different gates. */
  lemma IterateInjective(op: Op, m: nat, w: nat, i: nat, j: nat)
    requires m <= w
    ensures Iterate(op, m, w, i) == Iterate(op, m, w, j) <==> i == j
  {
    assert Iterate(op, m, w, i).wires[0] == i && Iterate(op, m, w, j).wires[0] == j;
  }

  /** Counting qubit i controls exactly 2^i iterates when i < k, and none otherwise. */
  lemma CounterBlocksCount(op: Op, m: nat, w: nat, k: nat, i: nat)
    requires m <= w
    ensures Count(CounterBlocks(op, m, w, k), g => g == Iterate(op, m, w, i)) == if i < k then Pow2(i) else 0
  {
    var p := g => g == Iterate(op, m, w, i);
    forall j
      ensures p(Iterate(op, m, w, j)) <==> j == i
    {
      IterateInjective(op, m, w, j, i);
    }
    CountIterates(op, m, w, k, i, p);
  }

  /** CounterBlocksCount for any test p that picks out the iterate of qubit i among the iterates. */
  lemma {:induction false} CountIterates(op: Op, m: nat, w: nat, k: nat, i: nat, p: Gate -> bool)
    requires m <= w && forall j :: p(Iterate(op, m, w, j)) <==> j == i
    ensures Count(CounterBlocks(op, m, w, k), p) == if i < k then Pow2(i) else 0
  {
    if k > 0 {
      CountIterates(op, m, w, k - 1, i, p);
      CountRepeatAfter(CounterBlocks(op, m, w, k - 1), Iterate(op, m, w, k - 1), Pow2(k - 1), p,
        if i < k - 1 then Pow2(i) else 0);
    }
  }

  lemma CountRepeatAfter(prev: seq<Gate>, g: Gate, reps: nat, p: Gate -> bool, c: nat)
    requires Count(prev, p) == c
    ensures Count(prev + Repeat(g, reps), p) == c + if p(g) then reps else 0
  {
    CountConcat(prev, Repeat(g, reps), p);
    CountRepeat(g, reps, p);
  }

  /** The preparation gates are H and X only. */
  lemma PrologueCounts(op: Op, n: nat, m: nat)
    ensures |CounterPrologue(n, m)| == n + m + 2
    ensures Count(CounterPrologue(n, m), g => Applies(op, g)) == 0
  {
    CountUniform(CounterPrologue(n, m), g => Applies(op, g), false);
  }

  /** All 2^k - 1 gates of the blocks apply op. */
  lemma BlocksCount(op: Op, m: nat, w: nat, k: nat)
    requires m <= w
    ensures Count(CounterBlocks(op, m, w, k), g => Applies(op, g)) == Pow2(k) - 1
  {
    var bl := CounterBlocks(op, m, w, k);
    CounterBlocksLength(op, m, w, k);
    CounterBlocksMembers(op, m, w, k);
    forall j | 0 <= j < |bl|
      ensures Applies(op, bl[j])
    {
    }
    CountUniform(bl, g => Applies(op, g), true);
  }

  /**
   * The whole counting circuit: |x| + m + 2 preparation gates, then 2^m - 1 controlled Grover
   * iterates, then the inverse QFT on t as its last gate.
   */
  lemma CounterShape(numbers: seq<nat>, e: nat, d: nat, m: nat)
    ensures |CounterGates(numbers, e, d, m)| == |numbers| + m + Pow2(m) + 2
    ensures Count(CounterGates(numbers, e, d, m), g => Applies(ControlledGroverGate(numbers, e, d), g)) == Pow2(m) - 1
    ensures CounterGates(numbers, e, d, m)[|numbers| + m + Pow2(m) + 1] == CounterReadout(m)
  {
    var op, w := ControlledGroverGate(numbers, e, d), CounterWidth(|numbers|, d, m);
    var p := (g: Gate) => Applies(op, g);
    var pr, bl := CounterPrologue(|numbers|, m), CounterBlocks(op, m, w, m);
    PrologueCounts(op, |numbers|, m);
    CounterBlocksLength(op, m, w, m);
    BlocksCount(op, m, w, m);
    CountConcat(pr, bl, p);
    CountConcat(pr + bl, [CounterReadout(m)], p);
    assert [CounterReadout(m)][..0] == [];
  }
}
