/**
 * What a gate list does to a computational basis state, as far as that is classical.
 * X, Swap and MCX permute basis states; Z, P and CP only change their phase, so they leave
 * the bits alone. H makes superpositions: a Hadamard, and every frozen operation whose body
 * holds one, is evaluated by an `External` function the caller supplies (the quantum part,
 * which is not part of this model). `inv` runs a list as its inverse: gates in reverse
 * order, each inverted.
 */
module Semantics {
  import opened Binary
  import opened Circuits

  /** The qubit values of a register or circuit, qubit q at index q. */
  type State = seq<bool>

  /** The action of an operation the bits alone cannot describe: (operation, inverted?, input). */
  type External = (Op, bool, State) -> State

  /** A lone Hadamard, as the one-qubit operation handed to `External`. */
  const Hadamard: Op := Frozen("H", 1, [H(0)])

  /** Position of qubit i among the wires ws, or |ws| when i is not one of them. */
  function IndexOf(ws: seq<nat>, i: nat): (k: nat)
    ensures k <= |ws|
    ensures k < |ws| <==> i in ws
    ensures k < |ws| ==> ws[k] == i
  {
    if ws == [] then 0 else if ws[0] == i then 0 else 1 + IndexOf(ws[1..], i)
  }

  /** The values on the wires ws, in wire order: the input an appended operation sees. */
  function Gather(v: State, ws: seq<nat>): (u: State)
    ensures |u| == |ws|
  {
    seq(|ws|, k requires 0 <= k < |ws| => ws[k] < |v| && v[ws[k]])
  }

  /** v with the wires ws overwritten by the output u of an appended operation. */
  function Scatter(v: State, ws: seq<nat>, u: State): (r: State)
    ensures |r| == |v|
  {
    seq(|v|, i requires 0 <= i < |v| => var k := IndexOf(ws, i); if k < |u| then u[k] else v[i])
  }

  function Flip(v: State, q: nat): State
  {
    if q < |v| then v[q := !v[q]] else v
  }

  /** Every wire of qs is 1. */
  predicate AllSet(v: State, qs: seq<nat>)
  {
    forall k :: 0 <= k < |qs| ==> qs[k] < |v| && v[qs[k]]
  }

  predicate HasH(body: seq<Gate>)
  {
    exists i :: 0 <= i < |body| && body[i].H?
  }

  /** The state after gs (or, with inv, after the inverse of gs) acts on the basis state v. */
  function Run(gs: seq<Gate>, inv: bool, v: State, ext: External): State
    decreases gs
  {
    if gs == [] then v
    else
      var init, last := gs[..|gs| - 1], gs[|gs| - 1];
      if inv then Run(init, inv, Step(last, inv, v, ext), ext)
      else Step(last, inv, Run(init, inv, v, ext), ext)
  }

  /** One gate; X, Swap and MCX are their own inverses, Z, P and CP only add a phase. */
  function Step(g: Gate, inv: bool, v: State, ext: External): State
    decreases g
  {
    match g
    case H(q) => Scatter(v, [q], ext(Hadamard, inv, Gather(v, [q])))
    case X(q) => Flip(v, q)
    case Z(_) => v
    case P(_, _) => v
    case CP(_, _, _) => v
    case Swap(a, b) => if a < |v| && b < |v| then v[a := v[b]][b := v[a]] else v
    case MCX(cs, t) => if AllSet(v, cs) then Flip(v, t) else v
    case Append(op, ws) => Scatter(v, ws, EvalOp(op, inv, Gather(v, ws), ext))
  }

  /** An operation on the values of its own qubits. */
  function EvalOp(op: Op, inv: bool, u: State, ext: External): State
    decreases op
  {
    match op
    case Frozen(_, _, body) => if HasH(body) then ext(op, inv, u) else Run(body, inv, u, ext)
    case Control(b) => if |u| >= 1 && u[0] then [u[0]] + EvalOp(b, inv, u[1..], ext) else u
    case Inverse(b) => EvalOp(b, !inv, u, ext)
  }

  lemma {:induction false} IndexOfRange(lo: nat, hi: nat, i: nat)
    requires lo <= hi
    ensures IndexOf(Range(lo, hi), i) == if lo <= i < hi then i - lo else hi - lo
    decreases hi - lo
  {
    if lo < hi {
      assert Range(lo, hi)[1..] == Range(lo + 1, hi);
      IndexOfRange(lo + 1, hi, i);
    }
  }

  lemma {:induction false} IndexOfConcat(a: seq<nat>, b: seq<nat>, i: nat)
    ensures IndexOf(a + b, i) == if i in a then IndexOf(a, i) else |a| + IndexOf(b, i)
    decreases |a|
  {
    if a == [] {
      assert a + b == b;
    } else {
      assert (a + b)[1..] == a[1..] + b;
      IndexOfConcat(a[1..], b, i);
    }
  }

  /** A contiguous block of wires reads and writes a slice of the state. */
  lemma GatherScatterRange(v: State, lo: nat, hi: nat, u: State)
    requires lo <= hi <= |v| && |u| == hi - lo
    ensures Gather(v, Range(lo, hi)) == v[lo..hi]
    ensures Scatter(v, Range(lo, hi), u) == v[..lo] + u + v[hi..]
  {
    forall i | 0 <= i < |v|
      ensures Scatter(v, Range(lo, hi), u)[i] == (v[..lo] + u + v[hi..])[i]
    {
      IndexOfRange(lo, hi, i);
    }
  }

  /**
   * The wires of x and target in a layout x, y, target, skipping y: an operation bound to
   * them sees x + target and leaves y alone.
   */
  lemma GatherScatterSkip(x: State, y: bool, t: State, x': State, t': State)
    requires |x'| == |x| && |t'| == |t|
    ensures Gather(x + [y] + t, Range(0, |x|) + Range(|x| + 1, |x| + 1 + |t|)) == x + t
    ensures Scatter(x + [y] + t, Range(0, |x|) + Range(|x| + 1, |x| + 1 + |t|), x' + t') == x' + [y] + t'
  {
    GatherSkip(x, y, t);
    var n, d := |x|, |t|;
    var v, ws, u, w := x + [y] + t, Range(0, n) + Range(n + 1, n + 1 + d), x' + t', x' + [y] + t';
    forall i | 0 <= i < n + 1 + d
      ensures Scatter(v, ws, u)[i] == w[i]
    {
      SkipIndex(n, d, i);
      ThreeIndex(x, y, t, i);
      ThreeIndex(x', y, t', i);
      if i != n {
        TwoIndex(x', t', if i < n then i else i - 1);
      }
      ScatterAt(v, ws, u, w, i);
    }
  }

  lemma GatherSkip(x: State, y: bool, t: State)
    ensures Gather(x + [y] + t, Range(0, |x|) + Range(|x| + 1, |x| + 1 + |t|)) == x + t
  {
  }

  /** Qubit i after a Scatter: from u when it is one of the wires, else unchanged. */
  lemma ScatterAt(v: State, ws: seq<nat>, u: State, w: State, i: nat)
    requires i < |v| && i < |w|
    requires w[i] == if IndexOf(ws, i) < |u| then u[IndexOf(ws, i)] else v[i]
    ensures Scatter(v, ws, u)[i] == w[i]
  {
  }

  lemma ThreeIndex<T>(a: seq<T>, b: T, c: seq<T>, i: nat)
    requires i < |a| + 1 + |c|
    ensures (a + [b] + c)[i] == if i < |a| then a[i] else if i == |a| then b else c[i - |a| - 1]
  {
  }

  lemma TwoIndex<T>(a: seq<T>, c: seq<T>, i: nat)
    requires i < |a| + |c|
    ensures (a + c)[i] == if i < |a| then a[i] else c[i - |a|]
  {
  }

  /** Where qubit i sits among the wires 0..n-1, n+1..n+d (n+d when it is qubit n). */
  lemma SkipIndex(n: nat, d: nat, i: nat)
    requires i < n + 1 + d
    ensures IndexOf(Range(0, n) + Range(n + 1, n + 1 + d), i) == if i < n then i else if i == n then n + d else i - 1
  {
    IndexOfConcat(Range(0, n), Range(n + 1, n + 1 + d), i);
    IndexOfRange(0, n, i);
    IndexOfRange(n + 1, n + 1 + d, i);
  }

  /** A frozen list without H, bound to every qubit in order, acts as the list itself. */
  lemma FrozenOnAll(name: string, body: seq<Gate>, v: State, ext: External)
    requires !HasH(body) && |Run(body, false, v, ext)| == |v|
    ensures Step(Append(Frozen(name, |v|, body), Range(0, |v|)), false, v, ext) == Run(body, false, v, ext)
  {
    GatherScatterRange(v, 0, |v|, Run(body, false, v, ext));
    assert v[0..|v|] == v && v[..0] == [] && v[|v|..] == [];
  }

  /** One more gate at the end: it acts last, or first when the list runs inverted. */
  lemma RunSnoc(gs: seq<Gate>, g: Gate, inv: bool, v: State, ext: External)
    ensures Run(gs + [g], inv, v, ext) ==
      if inv then Run(gs, inv, Step(g, inv, v, ext), ext) else Step(g, inv, Run(gs, inv, v, ext), ext)
  {
    assert (gs + [g])[..|gs + [g]| - 1] == gs;
  }

  lemma RunTwo(a: Gate, b: Gate, inv: bool, v: State, ext: External)
    ensures Run([a, b], inv, v, ext) ==
      if inv then Step(a, inv, Step(b, inv, v, ext), ext) else Step(b, inv, Step(a, inv, v, ext), ext)
  {
    assert [a, b][..1] == [a];
    assert [a][..0] == [];
    assert Run([a], inv, v, ext) == Step(a, inv, v, ext);
    assert Run([a], inv, Step(b, inv, v, ext), ext) == Step(a, inv, Step(b, inv, v, ext), ext);
  }

  lemma RunThree(a: Gate, b: Gate, c: Gate, v: State, ext: External)
    ensures Run([a, b, c], false, v, ext) == Step(c, false, Step(b, false, Step(a, false, v, ext), ext), ext)
  {
    assert [a, b, c][..2] == [a, b];
    RunTwo(a, b, false, v, ext);
  }

  /** Running a + b is running a, then b. */
  lemma {:induction false} RunConcat(a: seq<Gate>, b: seq<Gate>, v: State, ext: External)
    ensures Run(a + b, false, v, ext) == Run(b, false, Run(a, false, v, ext), ext)
    decreases |b|
  {
    if b == [] {
      assert a + b == a;
    } else {
      assert (a + b)[..|a + b| - 1] == a + b[..|b| - 1];
      assert (a + b)[|a + b| - 1] == b[|b| - 1];
      RunConcat(a, b[..|b| - 1], v, ext);
    }
  }

  /** An X on each of the qubits 0..k-1 negates exactly those qubits. */
  lemma {:induction false} RunXLayer(k: nat, v: State, ext: External)
    requires k <= |v|
    ensures Run(XLayer(Range(0, k)), false, v, ext) == seq(|v|, q requires 0 <= q < |v| => if q < k then !v[q] else v[q])
  {
    if k > 0 {
      var gs := XLayer(Range(0, k));
      assert gs[..k - 1] == XLayer(Range(0, k - 1));
      assert gs[k - 1] == X(k - 1);
      RunXLayer(k - 1, v, ext);
    }
  }
}
