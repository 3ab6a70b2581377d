/**
 * The Grover oracle for subset sum: the checker (`create_checker_circuit`), the validator
 * (the sum circuit followed by the checker) and the oracle (validator, a multi-controlled X
 * onto y, inverse validator). Qubit layout of the validator: x = 0..n-1, target = n..n+d-1;
 * of the oracle: x = 0..n-1, y = n, target = n+1..n+d.
 */
module Oracle {
  import opened Binary
  import opened Circuits
  import opened Adder
  import opened Semantics

  /** The X gates the checker's loop over `formatted` emits for i = 0, ..., k-1. */
  function CheckerPrefix(f: string, d: nat, k: nat): seq<Gate>
    requires k <= d <= |f|
  {
    if k == 0 then []
    else CheckerPrefix(f, d, k - 1) + (if f[k - 1] == '0' then [X(d - k)] else [])
  }

  /** The gate list `create_checker_circuit(expected_sum, digits)` builds. */
  function CheckerGates(e: nat, d: nat): seq<Gate>
  {
    CheckerPrefix(Format(e, d), d, d)
  }

  /** `create_checker_gate(expected_sum, digits)` */
  function CheckerGate(e: nat, d: nat): Op
  {
    Frozen("Checker", d, CheckerGates(e, d))
  }

  method CreateCheckerCircuit(e: nat, d: nat) returns (qc: QuantumCircuit)
    ensures fresh(qc) && qc.Valid() && qc.width == d
    ensures qc.gates == CheckerGates(e, d)
  {
    qc := new QuantumCircuit(d);
    var formatted := Format(e, d);
    for i := 0 to d
      invariant qc.Valid() && qc.gates == CheckerPrefix(formatted, d, i)
    {
      if formatted[i] == '0' {
        qc.Add(X(d - i - 1));
      }
    }
  }

  lemma {:induction false} CheckerPrefixMembers(f: string, d: nat, k: nat)
    requires k <= d <= |f|
    ensures forall g :: g in CheckerPrefix(f, d, k) ==> g.X? && d - k <= g.q < d
    ensures forall q: nat :: d - k <= q < d ==>
      (X(q) in CheckerPrefix(f, d, k) <==> f[d - 1 - q] == '0')
  {
    if k > 0 {
      CheckerPrefixMembers(f, d, k - 1);
    }
  }

  /**
   * The checker only flips qubits, and flips qubit q < d exactly when digit d-1-q of
   * `format(expected_sum, "0<d>b")` is 0: bit q + (len - d) of expected_sum is 0. When
   * expected_sum fits in d bits that is bit q itself.
   */
  lemma CheckerMembers(e: nat, d: nat)
    ensures forall g :: g in CheckerGates(e, d) ==> g.X? && g.q < d
    ensures forall q: nat :: q < d ==>
      (X(q) in CheckerGates(e, d) <==> !Bit(e, q + |Format(e, d)| - d))
    ensures e < Pow2(d) ==> forall q: nat :: q < d ==> (X(q) in CheckerGates(e, d) <==> !Bit(e, q))
  {
    CheckerPrefixMembers(Format(e, d), d, d);
    FormatSize(e, d);
    FormatLow(e, d);
    var f := Format(e, d);
    forall q: nat | q < d
      ensures X(q) in CheckerGates(e, d) <==> !Bit(e, q + |f| - d)
    {
      assert f[|f| - 1 - (q + |f| - d)] == Digit(Bit(e, q + |f| - d));
    }
  }

  /** A register compared bit by bit with e: qubit q is 1 iff it equals bit q of e. */
  function Matches(t: State, e: nat): (m: State)
    ensures |m| == |t|
  {
    seq(|t|, q requires 0 <= q < |t| => t[q] == Bit(e, q))
  }

  predicate AllOnes(v: State)
  {
    forall q :: 0 <= q < |v| ==> v[q]
  }

  /** v with qubit q toggled for each q >= d - k whose digit f[d-1-q] is '0'. */
  function Toggled(v: State, f: string, d: nat, k: nat): (r: State)
    requires |v| == d <= |f|
    ensures |r| == d
  {
    seq(d, q requires 0 <= q < d => v[q] != (d - k <= q && f[d - 1 - q] == '0'))
  }

  /** Taking in digit k-1 toggles qubit d-k, applied before or after the others. */
  lemma ToggledStep(v: State, f: string, d: nat, k: nat)
    requires 0 < k <= d && |v| == d <= |f|
    ensures f[k - 1] == '0' ==> Toggled(v, f, d, k) == Flip(Toggled(v, f, d, k - 1), d - k)
    ensures f[k - 1] == '0' ==> Toggled(v, f, d, k) == Toggled(Flip(v, d - k), f, d, k - 1)
    ensures f[k - 1] != '0' ==> Toggled(v, f, d, k) == Toggled(v, f, d, k - 1)
  {
  }

  /** An X on qubit d-k after (or, inverted, before) a list that toggles the digits below k-1. */
  lemma ToggleOneMore(prev: seq<Gate>, f: string, d: nat, k: nat, inv: bool, v: State, ext: External)
    requires 0 < k <= d <= |f| && |v| == d && f[k - 1] == '0'
    requires inv ==> Run(prev, inv, Flip(v, d - k), ext) == Toggled(Flip(v, d - k), f, d, k - 1)
    requires !inv ==> Run(prev, inv, v, ext) == Toggled(v, f, d, k - 1)
    ensures Run(prev + [X(d - k)], inv, v, ext) == Toggled(v, f, d, k)
  {
    RunSnoc(prev, X(d - k), inv, v, ext);
    ToggledStep(v, f, d, k);
  }

  lemma {:induction false} CheckerPrefixRun(f: string, d: nat, k: nat, inv: bool, v: State, ext: External)
    requires k <= d <= |f| && |v| == d
    ensures Run(CheckerPrefix(f, d, k), inv, v, ext) == Toggled(v, f, d, k)
  {
    if k == 0 {
      assert Toggled(v, f, d, 0) == v;
    } else {
      var prev := CheckerPrefix(f, d, k - 1);
      if f[k - 1] == '0' {
        if inv {
          CheckerPrefixRun(f, d, k - 1, inv, Flip(v, d - k), ext);
        } else {
          CheckerPrefixRun(f, d, k - 1, inv, v, ext);
        }
        ToggleOneMore(prev, f, d, k, inv, v, ext);
      } else {
        assert CheckerPrefix(f, d, k) == prev by {
          assert prev + [] == prev;
        }
        ToggledStep(v, f, d, k);
        CheckerPrefixRun(f, d, k - 1, inv, v, ext);
      }
    }
  }

  /** The checker, and its inverse, turn a d-qubit register into its comparison with e. */
  lemma CheckerCompares(e: nat, d: nat, inv: bool, t: State, ext: External)
    requires e < Pow2(d) && |t| == d
    ensures Run(CheckerGates(e, d), inv, t, ext) == Matches(t, e)
  {
    CheckerPrefixRun(Format(e, d), d, d, inv, t, ext);
    FormatSize(e, d);
    FormatLow(e, d);
    var f := Format(e, d);
    forall q | 0 <= q < d
      ensures f[d - 1 - q] == Digit(Bit(e, q))
    {
    }
  }

  /** The comparison with e is all ones exactly for the register holding e modulo 2^d. */
  lemma MatchesAllOnes(s: nat, e: nat, d: nat)
    requires e < Pow2(d)
    ensures AllOnes(Matches(Encode(s, d), e)) <==> s % Pow2(d) == e
    ensures Matches(Matches(Encode(s, d), e), e) == Encode(s, d)
  {
    EncodeMod(s, e, d);
    ModBelow(e, d);
    if AllOnes(Matches(Encode(s, d), e)) {
      forall q | 0 <= q < d
        ensures Encode(s, d)[q] == Encode(e, d)[q]
      {
        assert Matches(Encode(s, d), e)[q];
      }
    }
  }

  /** The gates `create_validator_circuit(numbers, expected_sum, digits)` appends. */
  function ValidatorGates(numbers: seq<nat>, e: nat, d: nat): seq<Gate>
  {
    var n := |numbers|;
    [Append(AddGate(numbers, d), Range(0, n) + TargetWires(n, d)),
     Append(CheckerGate(e, d), TargetWires(n, d))]
  }

  /** `create_validator_gate(numbers, expected_sum, digits)` */
  function ValidatorGate(numbers: seq<nat>, e: nat, d: nat): Op
  {
    Frozen("Validator", |numbers| + d, ValidatorGates(numbers, e, d))
  }

  /** `create_validator_inverse_gate(numbers, expected_sum, digits)` */
  function ValidatorInverseGate(numbers: seq<nat>, e: nat, d: nat): Op
  {
    Inverse(ValidatorGate(numbers, e, d))
  }

  method CreateValidatorCircuit(numbers: seq<nat>, e: nat, d: nat) returns (qc: QuantumCircuit)
    ensures fresh(qc) && qc.Valid() && qc.width == |numbers| + d
    ensures qc.gates == ValidatorGates(numbers, e, d)
  {
    var n := |numbers|;
    qc := new QuantumCircuit(n + d);
    RangesFit(0, n, n, n + d, n + d);
    qc.Add(Append(AddGate(numbers, d), Range(0, n) + TargetWires(n, d)));
    RangesFit(n, n + d, n + d, n + d, n + d);
    assert Range(n, n + d) + Range(n + d, n + d) == TargetWires(n, d);
    qc.Add(Append(CheckerGate(e, d), TargetWires(n, d)));
  }

  /**
   * What the sum circuit does on basis states, when x holds a basis value and the target
   * starts at 0: it writes the subset sum selected by x into the target, modulo 2^d, and
   * its inverse clears it again. The sum circuit is made of Hadamards, Fourier phases and
   * an inverse QFT, so this is a property of the quantum part, taken as a hypothesis;
   * `Adder.AddEncodesSubsetSum` is what the gate list itself guarantees.
   */
  ghost predicate AdderAdds(numbers: seq<nat>, d: nat, x: State, ext: External)
    requires |x| == |numbers|
  {
    var s := Encode(SubsetSum(numbers, x), d);
    EvalOp(AddGate(numbers, d), false, x + Encode(0, d), ext) == x + s &&
    EvalOp(AddGate(numbers, d), true, x + s, ext) == x + Encode(0, d)
  }

  lemma CheckerNoH(e: nat, d: nat)
    ensures !HasH(CheckerGates(e, d))
  {
    CheckerMembers(e, d);
    forall i | 0 <= i < |CheckerGates(e, d)|
      ensures !CheckerGates(e, d)[i].H?
    {
      assert CheckerGates(e, d)[i] in CheckerGates(e, d);
    }
  }

  /** One pass of the checker on the target of a validator state x + t. */
  lemma CheckerStep(e: nat, d: nat, inv: bool, x: State, t: State, ext: External)
    requires e < Pow2(d) && |t| == d
    ensures Step(Append(CheckerGate(e, d), TargetWires(|x|, d)), inv, x + t, ext) == x + Matches(t, e)
  {
    var n := |x|;
    GatherScatterRange(x + t, n, n + d, Matches(t, e));
    assert (x + t)[n..n + d] == t;
    assert (x + t)[..n] == x && (x + t)[n + d..] == [];
    CheckerNoH(e, d);
    CheckerCompares(e, d, inv, t, ext);
  }

  /** One pass of the sum circuit over all validator qubits. */
  lemma AdderStep(numbers: seq<nat>, d: nat, inv: bool, v: State, ext: External)
    requires |v| == |numbers| + d && |EvalOp(AddGate(numbers, d), inv, v, ext)| == |v|
    ensures Step(Append(AddGate(numbers, d), Range(0, |numbers|) + TargetWires(|numbers|, d)), inv, v, ext)
      == EvalOp(AddGate(numbers, d), inv, v, ext)
  {
    var n := |numbers|;
    assert Range(0, n) + TargetWires(n, d) == Range(0, n + d);
    GatherScatterRange(v, 0, n + d, EvalOp(AddGate(numbers, d), inv, v, ext));
    assert v[0..n + d] == v && v[..0] == [] && v[n + d..] == [];
  }

  /**
   * The validator marks the target: from x and a cleared target it leaves x and the
   * comparison of (subset sum of x) mod 2^d with expected_sum; its inverse undoes that.
   */
  lemma ValidatorMarks(numbers: seq<nat>, e: nat, d: nat, x: State, ext: External)
    requires |x| == |numbers| && e < Pow2(d)
    requires AdderAdds(numbers, d, x, ext)
    ensures Run(ValidatorGates(numbers, e, d), false, x + Encode(0, d), ext) ==
      x + Matches(Encode(SubsetSum(numbers, x), d), e)
    ensures Run(ValidatorGates(numbers, e, d), true, x + Matches(Encode(SubsetSum(numbers, x), d), e), ext) ==
      x + Encode(0, d)
  {
    var n := |numbers|;
    var s := Encode(SubsetSum(numbers, x), d);
    var gs := ValidatorGates(numbers, e, d);
    RunTwo(gs[0], gs[1], false, x + Encode(0, d), ext);
    RunTwo(gs[0], gs[1], true, x + Matches(s, e), ext);
    AdderStep(numbers, d, false, x + Encode(0, d), ext);
    AdderStep(numbers, d, true, x + s, ext);
    CheckerStep(e, d, false, x, s, ext);
    CheckerStep(e, d, true, x, Matches(s, e), ext);
    MatchesAllOnes(SubsetSum(numbers, x), e, d);
  }

  /** The oracle's wires for the validator: x and target, skipping y. */
  function OracleWires(n: nat, d: nat): seq<nat>
  {
    Range(0, n) + Range(n + 1, n + 1 + d)
  }

  /** The gates `create_grover_oracle_circuit(numbers, expected_sum, digits)` appends. */
  function OracleGates(numbers: seq<nat>, e: nat, d: nat): seq<Gate>
  {
    var n := |numbers|;
    [Append(ValidatorGate(numbers, e, d), OracleWires(n, d)),
     MCX(Range(n + 1, n + 1 + d), n),
     Append(ValidatorInverseGate(numbers, e, d), OracleWires(n, d))]
  }

  /** `create_grover_oracle_gate(numbers, expected_sum, digits)` */
  function OracleGate(numbers: seq<nat>, e: nat, d: nat): Op
  {
    Frozen("Grover Oracle", |numbers| + 1 + d, OracleGates(numbers, e, d))
  }

  lemma MarkingFits(op: Op, n: nat, d: nat)
    requires Arity(op) == n + d && d >= 1
    ensures Fits(Append(op, OracleWires(n, d)), n + 1 + d)
    ensures Fits(MCX(Range(n + 1, n + 1 + d), n), n + 1 + d)
  {
    RangesFit(0, n, n + 1, n + 1 + d, n + 1 + d);
    McxFits(n + 1, n + 1 + d, n, n + 1 + d);
  }

  /** An operation on x and target, the MCX from the target onto y, and a second operation on x and target. */
  method AddMarking(qc: QuantumCircuit, op: Op, undo: Op, n: nat, d: nat)
    requires qc.Valid() && qc.width == n + 1 + d && Arity(op) == n + d && Arity(undo) == n + d && d >= 1
    modifies qc
    ensures qc.Valid()
    ensures qc.gates == old(qc.gates) +
      [Append(op, OracleWires(n, d)), MCX(Range(n + 1, n + 1 + d), n), Append(undo, OracleWires(n, d))]
  {
    MarkingFits(op, n, d);
    MarkingFits(undo, n, d);
    qc.Add(Append(op, OracleWires(n, d)));
    qc.Add(MCX(Range(n + 1, n + 1 + d), n));
    qc.Add(Append(undo, OracleWires(n, d)));
    AppendThree(old(qc.gates), Append(op, OracleWires(n, d)), MCX(Range(n + 1, n + 1 + d), n), Append(undo, OracleWires(n, d)));
  }

  /** `qc.mcx(qreg_target[:], qreg_y)` raises without controls, so the oracle needs d >= 1. */
  method CreateGroverOracleCircuit(numbers: seq<nat>, e: nat, d: nat) returns (qc: QuantumCircuit)
    requires d >= 1
    ensures fresh(qc) && qc.Valid() && qc.width == |numbers| + 1 + d
    ensures qc.gates == OracleGates(numbers, e, d)
  {
    var n := |numbers|;
    qc := new QuantumCircuit(n + 1 + d);
    AddMarking(qc, ValidatorGate(numbers, e, d), ValidatorInverseGate(numbers, e, d), n, d);
  }

  lemma ValidatorNoH(numbers: seq<nat>, e: nat, d: nat)
    ensures !HasH(ValidatorGates(numbers, e, d))
  {
    var gs := ValidatorGates(numbers, e, d);
    assert forall i | 0 <= i < |gs| :: gs[i].Append?;
  }

  /** An operation bound to the x and target wires of the oracle acts on x + target and leaves y alone. */
  lemma SkipStep(op: Op, x: State, y: bool, t: State, x': State, t': State, ext: External)
    requires EvalOp(op, false, x + t, ext) == x' + t' && |x'| == |x| && |t'| == |t|
    ensures Step(Append(op, OracleWires(|x|, |t|)), false, x + [y] + t, ext) == x' + [y] + t'
  {
    GatherScatterSkip(x, y, t, x', t');
  }

  /** The validator gate evaluates its gate list. */
  lemma ValidatorEval(numbers: seq<nat>, e: nat, d: nat, inv: bool, u: State, ext: External)
    ensures EvalOp(ValidatorGate(numbers, e, d), inv, u, ext) == Run(ValidatorGates(numbers, e, d), inv, u, ext)
    ensures EvalOp(ValidatorInverseGate(numbers, e, d), inv, u, ext) == Run(ValidatorGates(numbers, e, d), !inv, u, ext)
  {
    ValidatorNoH(numbers, e, d);
  }

  lemma AllSetShifted(x: State, y: bool, t: State)
    ensures AllSet(x + [y] + t, Range(|x| + 1, |x| + 1 + |t|)) <==> AllOnes(t)
  {
    var n, v, ws := |x|, x + [y] + t, Range(|x| + 1, |x| + 1 + |t|);
    if AllOnes(t) {
      forall k | 0 <= k < |ws|
        ensures ws[k] < |v| && v[ws[k]]
      {
        assert v[ws[k]] == t[k];
      }
    }
    if AllSet(v, ws) {
      forall k | 0 <= k < |t|
        ensures t[k]
      {
        assert v[ws[k]] == t[k];
      }
    }
  }

  /** The multi-controlled X of the oracle flips y exactly when every target qubit is 1. */
  lemma OracleMcxStep(x: State, y: bool, t: State, ext: External)
    ensures Step(MCX(Range(|x| + 1, |x| + 1 + |t|), |x|), false, x + [y] + t, ext) == x + [y != AllOnes(t)] + t
  {
    AllSetShifted(x, y, t);
    assert (x + [y] + t)[|x| := !y] == x + [!y] + t;
  }

  /**
   * The oracle on basis states: |x>|y>|0...0> goes to |x>|y XOR f(x)>|0...0>, where f(x)
   * holds exactly when the numbers selected by x add up to expected_sum modulo 2^digits.
   * The only assumption is that the sum circuit adds (`AdderAdds`).
   */
  lemma OracleFlipsY(numbers: seq<nat>, e: nat, d: nat, x: State, y: bool, ext: External)
    requires |x| == |numbers| && e < Pow2(d)
    requires AdderAdds(numbers, d, x, ext)
    ensures Run(OracleGates(numbers, e, d), false, x + [y] + Encode(0, d), ext) ==
      x + [y != (SubsetSum(numbers, x) % Pow2(d) == e)] + Encode(0, d)
  {
    var gs := OracleGates(numbers, e, d);
    var zero, m := Encode(0, d), Matches(Encode(SubsetSum(numbers, x), d), e);
    var y' := y != AllOnes(m);
    RunThree(gs[0], gs[1], gs[2], x + [y] + zero, ext);
    ValidatorMarks(numbers, e, d, x, ext);
    ValidatorEval(numbers, e, d, false, x + zero, ext);
    SkipStep(ValidatorGate(numbers, e, d), x, y, zero, x, m, ext);
    OracleMcxStep(x, y, m, ext);
    ValidatorEval(numbers, e, d, false, x + m, ext);
    SkipStep(ValidatorInverseGate(numbers, e, d), x, y', m, x, zero, ext);
    MatchesAllOnes(SubsetSum(numbers, x), e, d);
  }
}
