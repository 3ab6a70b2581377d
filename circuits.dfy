/**
 * The gate algebra and the circuit being built: the parts of qiskit the program relies on.
 * A `QuantumCircuit` is a fixed number of qubits and the list of gates appended to it;
 * `circuit.to_gate()` freezes a circuit into an opaque operation, `.control()` adds a control
 * qubit in front, `.inverse()` inverts it.
 */
module Circuits {

  /** A gate bound to qubit positions of the circuit it is appended to. */
  datatype Gate =
    | H(q: nat)                               // Hadamard
    | X(q: nat)                               // bit flip
    | Z(q: nat)                               // sign flip
    | P(k: nat, q: nat)                       // phase rotation by pi / 2^k
    | CP(k: nat, control: nat, target: nat)   // controlled phase rotation by pi / 2^k
    | Swap(a: nat, b: nat)
    | MCX(controls: seq<nat>, target: nat)    // bit flip of target iff every control is 1
    | Append(op: Op, wires: seq<nat>)         // an operation applied on the given qubits, in order

  /** An unbound operation, as built by `to_gate`, `control` and `inverse`. */
  datatype Op =
    | Frozen(name: string, width: nat, body: seq<Gate>)
    | Control(base: Op)    // one more qubit, the first, controls `base`
    | Inverse(base: Op)

  /** Number of qubits an operation acts on. */
  function Arity(op: Op): nat
  {
    match op
    case Frozen(_, w, _) => w
    case Control(b) => Arity(b) + 1
    case Inverse(b) => Arity(b)
  }

  /** The qubits a gate names, in argument order. */
  function Wires(g: Gate): seq<nat>
  {
    match g
    case H(q) => [q]
    case X(q) => [q]
    case Z(q) => [q]
    case P(_, q) => [q]
    case CP(_, c, t) => [c, t]
    case Swap(a, b) => [a, b]
    case MCX(cs, t) => cs + [t]
    case Append(_, ws) => ws
  }

  predicate InRange(ws: seq<nat>, n: nat)
  {
    forall i :: 0 <= i < |ws| ==> ws[i] < n
  }

  predicate Distinct(ws: seq<nat>)
  {
    forall i, j :: 0 <= i < j < |ws| ==> ws[i] != ws[j]
  }

  /**
   * What qiskit checks when a gate is appended to a circuit of n qubits: every qubit exists,
   * no qubit is named twice, an operation gets exactly as many qubits as it acts on, and a
   * multi-controlled X has at least one control.
   */
  predicate Fits(g: Gate, n: nat)
  {
    InRange(Wires(g), n) && Distinct(Wires(g)) && (g.Append? ==> |g.wires| == Arity(g.op)) &&
    (g.MCX? ==> |g.controls| >= 1)
  }

  predicate WellFormed(gs: seq<Gate>, n: nat)
  {
    forall i :: 0 <= i < |gs| ==> Fits(gs[i], n)
  }

  /** The qubits lo, lo+1, ..., hi-1: a register's positions in the circuit. */
  function Range(lo: nat, hi: nat): (ws: seq<nat>)
    requires lo <= hi
  {
    seq(hi - lo, i requires 0 <= i < hi - lo => lo + i)
  }

  /** Two registers lo1..hi1-1 and lo2..hi2-1, one after the other, inside n qubits. */
  lemma RangesFit(lo1: nat, hi1: nat, lo2: nat, hi2: nat, n: nat)
    requires lo1 <= hi1 <= lo2 <= hi2 <= n
    ensures InRange(Range(lo1, hi1) + Range(lo2, hi2), n) && Distinct(Range(lo1, hi1) + Range(lo2, hi2))
  {
    var ws := Range(lo1, hi1) + Range(lo2, hi2);
    forall i | 0 <= i < |ws|
      ensures ws[i] == if i < hi1 - lo1 then lo1 + i else lo2 + i - (hi1 - lo1)
    {
    }
  }

  /** A multi-controlled X with controls lo..hi-1 and a target t below them, inside n qubits. */
  lemma McxFits(lo: nat, hi: nat, t: nat, n: nat)
    requires t < lo < hi <= n
    ensures Fits(MCX(Range(lo, hi), t), n)
  {
    var ws := Wires(MCX(Range(lo, hi), t));
    assert ws == Range(lo, hi) + [t];
    forall i | 0 <= i < |ws|
      ensures ws[i] == if i < hi - lo then lo + i else t
    {
    }
  }

  /** `qc.h(register)`: one H per qubit, in register order. */
  function HLayer(qs: seq<nat>): seq<Gate>
  {
    seq(|qs|, i requires 0 <= i < |qs| => H(qs[i]))
  }

  /** `qc.x(register)`. */
  function XLayer(qs: seq<nat>): seq<Gate>
  {
    seq(|qs|, i requires 0 <= i < |qs| => X(qs[i]))
  }

  /** k copies of g. */
  function Repeat(g: Gate, k: nat): seq<Gate>
  {
    seq(k, _ => g)
  }

  /** How many gates of gs satisfy p. */
  function Count(gs: seq<Gate>, p: Gate -> bool): nat
  {
    if gs == [] then 0 else Count(gs[..|gs| - 1], p) + (if p(gs[|gs| - 1]) then 1 else 0)
  }

  lemma {:induction false} CountConcat(a: seq<Gate>, b: seq<Gate>, p: Gate -> bool)
    ensures Count(a + b, p) == Count(a, p) + Count(b, p)
    decreases |b|
  {
    if b == [] {
      assert a + b == a;
    } else {
      assert (a + b)[..|a + b| - 1] == a + b[..|b| - 1];
      CountConcat(a, b[..|b| - 1], p);
    }
  }

  lemma {:induction false} CountRepeat(g: Gate, k: nat, p: Gate -> bool)
    ensures Count(Repeat(g, k), p) == if p(g) then k else 0
  {
    if k > 0 {
      assert Repeat(g, k)[..k - 1] == Repeat(g, k - 1);
      CountRepeat(g, k - 1, p);
    }
  }

  /** When p holds on every gate of gs or on none, it counts all of gs or nothing. */
  lemma {:induction false} CountUniform(gs: seq<Gate>, p: Gate -> bool, b: bool)
    requires forall i :: 0 <= i < |gs| ==> p(gs[i]) == b
    ensures Count(gs, p) == if b then |gs| else 0
  {
    if gs != [] {
      CountUniform(gs[..|gs| - 1], p, b);
    }
  }

  predicate IsH(g: Gate) { g.H? }
  predicate IsX(g: Gate) { g.X? }
  predicate IsCP(g: Gate) { g.CP? }
  predicate IsSwap(g: Gate) { g.Swap? }
  predicate IsZ(g: Gate) { g.Z? }
  predicate IsMCX(g: Gate) { g.MCX? }

  /** A gate that applies op, on whatever qubits. */
  predicate Applies(op: Op, g: Gate)
  {
    g.Append? && g.op == op
  }

  /** `qiskit.QuantumCircuit(width)`, grown by appending gates. */
  class QuantumCircuit {
    const width: nat
    var gates: seq<Gate>

    /** Every gate in the circuit passed qiskit's checks when it was appended. */
    ghost predicate Valid()
      reads this
    {
      WellFormed(gates, width)
    }

    constructor (width: nat)
      ensures Valid() && this.width == width && gates == []
    {
      this.width := width;
      gates := [];
    }

    /** `qc.h(q)`, `qc.cp(theta, i, j)`, `qc.append(gate, qubits)`, ... */
    method Add(g: Gate)
      requires Valid() && Fits(g, width)
      modifies this
      ensures Valid() && gates == old(gates) + [g]
    {
      gates := gates + [g];
    }

    /** `qc.h(register)` */
    method HEach(qs: seq<nat>)
      requires Valid() && InRange(qs, width)
      modifies this
      ensures Valid() && gates == old(gates) + HLayer(qs)
    {
      var i := 0;
      while i < |qs|
        invariant 0 <= i <= |qs|
        invariant Valid() && gates == old(gates) + HLayer(qs[..i])
      {
        assert qs[..i + 1] == qs[..i] + [qs[i]];
        assert HLayer(qs[..i + 1]) == HLayer(qs[..i]) + [H(qs[i])];
        Add(H(qs[i]));
        i := i + 1;
      }
      assert qs[..i] == qs;
    }

    /** `qc.x(register)` */
    method XEach(qs: seq<nat>)
      requires Valid() && InRange(qs, width)
      modifies this
      ensures Valid() && gates == old(gates) + XLayer(qs)
    {
      var i := 0;
      while i < |qs|
        invariant 0 <= i <= |qs|
        invariant Valid() && gates == old(gates) + XLayer(qs[..i])
      {
        assert qs[..i + 1] == qs[..i] + [qs[i]];
        assert XLayer(qs[..i + 1]) == XLayer(qs[..i]) + [X(qs[i])];
        Add(X(qs[i]));
        i := i + 1;
      }
      assert qs[..i] == qs;
    }
  }
}
