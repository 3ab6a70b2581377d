/**
 * The quantum Fourier transform circuit on n qubits (`create_qft_circuit`) and the gates
 * made from it. Rows are processed from the most significant qubit down; the output qubits
 * are swapped at the end, so Fourier position p carries classical bit n-1-p.
 */
module Fourier {
  import opened Circuits

  /** Gates of the controlled-phase row of qubit i, for j = i, i-1, ..., lo. */
  function QftRow(i: nat, lo: nat): seq<Gate>
    decreases i + 1 - lo
  {
    if lo > i then [] else QftRow(i, lo + 1) + [if lo == i then H(i) else CP(i - lo, i, lo)]
  }

  /** Rows n-1, n-2, ..., lo. */
  function QftRows(n: nat, lo: nat): seq<Gate>
    decreases n - lo
  {
    if lo >= n then [] else QftRows(n, lo + 1) + QftRow(lo, 0)
  }

  /** The first k output swaps. */
  function QftSwaps(n: nat, k: nat): seq<Gate>
    requires k <= n / 2
  {
    seq(k, i requires 0 <= i < k => Swap(i, n - 1 - i))
  }

  /** The gate list `create_qft_circuit(n)` builds. */
  function QftGates(n: nat): seq<Gate>
  {
    QftRows(n, 0) + QftSwaps(n, n / 2)
  }

  /** The controlled phase of angle pi / 2^(c-t) between qubits c and t. */
  function PhasePair(c: nat, t: nat): Gate
    requires t <= c
  {
    CP(c - t, c, t)
  }

  /** The output swap of qubit k with its mirror n-1-k. */
  function MirrorSwap(n: nat, k: nat): Gate
    requires k < n
  {
    Swap(k, n - 1 - k)
  }

  /** `create_qft_gate(n)` */
  function QftGate(n: nat): Op
  {
    Frozen("QFT", n, QftGates(n))
  }

  /** `create_qft_inverse_gate(n)` */
  function QftInverseGate(n: nat): Op
  {
    Inverse(QftGate(n))
  }

  /** One more gate of row i, appended after any prefix. */
  lemma QftRowSnoc(pre: seq<Gate>, i: nat, j: nat)
    requires j <= i
    ensures pre + QftRow(i, j) == (pre + QftRow(i, j + 1)) + [if j == i then H(i) else CP(i - j, i, j)]
  {
  }

  /** One more output swap, appended after any prefix. */
  lemma QftSwapsSnoc(pre: seq<Gate>, n: nat, k: nat)
    requires k < n / 2
    ensures pre + QftSwaps(n, k + 1) == (pre + QftSwaps(n, k)) + [Swap(k, n - k - 1)]
  {
    assert QftSwaps(n, k + 1) == QftSwaps(n, k) + [Swap(k, n - k - 1)];
  }

  lemma QftGatesFit(n: nat, i: nat, j: nat)
    requires j <= i < n
    ensures Fits(H(i), n) && (j < i ==> Fits(CP(i - j, i, j), n))
    ensures j < n / 2 ==> Fits(Swap(j, n - j - 1), n)
  {
  }

  /** The inner loop of `create_qft_circuit` for qubit i: j = i, i-1, ..., 0. */
  method AddQftRow(qc: QuantumCircuit, i: nat)
    requires qc.Valid() && i < qc.width
    modifies qc
    ensures qc.Valid() && qc.gates == old(qc.gates) + QftRow(i, 0)
  {
    var j: int := i;
    while j >= 0
      invariant -1 <= j <= i
      invariant qc.Valid() && qc.gates == old(qc.gates) + QftRow(i, j + 1)
    {
      QftRowSnoc(old(qc.gates), i, j);
      QftGatesFit(qc.width, i, j);
      if i == j {
        qc.Add(H(i));
      } else {
        qc.Add(CP(i - j, i, j));
      }
      j := j - 1;
    }
  }

  method CreateQftCircuit(n: nat) returns (qc: QuantumCircuit)
    ensures fresh(qc) && qc.Valid() && qc.width == n
    ensures qc.gates == QftGates(n)
  {
    qc := new QuantumCircuit(n);
    var i: int := n - 1;
    while i >= 0
      invariant -1 <= i < n
      invariant qc.Valid() && qc.width == n && qc.gates == QftRows(n, i + 1)
    {
      AddQftRow(qc, i);
      i := i - 1;
    }
    var k := 0;
    while k < n / 2
      invariant 0 <= k <= n / 2
      invariant qc.Valid() && qc.width == n && qc.gates == QftRows(n, 0) + QftSwaps(n, k)
    {
      QftSwapsSnoc(QftRows(n, 0), n, k);
      QftGatesFit(n, n - 1, k);
      qc.Add(Swap(k, n - k - 1));
      k := k + 1;
    }
  }

  lemma {:induction false} QftRowCounts(i: nat, lo: nat)
    requires lo <= i + 1
    ensures Count(QftRow(i, lo), IsH) == if lo <= i then 1 else 0
    ensures Count(QftRow(i, lo), IsCP) == if lo <= i then i - lo else 0
    ensures Count(QftRow(i, lo), IsSwap) == 0
    decreases i + 1 - lo
  {
    if lo <= i {
      var g := if lo == i then H(i) else CP(i - lo, i, lo);
      QftRowCounts(i, lo + 1);
      CountConcat(QftRow(i, lo + 1), [g], IsH);
      CountConcat(QftRow(i, lo + 1), [g], IsCP);
      CountConcat(QftRow(i, lo + 1), [g], IsSwap);
    }
  }

  lemma {:induction false} QftRowsCounts(n: nat, lo: nat)
    requires lo <= n
    ensures Count(QftRows(n, lo), IsH) == n - lo
    ensures 2 * Count(QftRows(n, lo), IsCP) == n * (n - 1) - lo * (lo - 1)
    ensures Count(QftRows(n, lo), IsSwap) == 0
    decreases n - lo
  {
    if lo < n {
      QftRowsCounts(n, lo + 1);
      QftRowCounts(lo, 0);
      CountConcat(QftRows(n, lo + 1), QftRow(lo, 0), IsH);
      CountConcat(QftRows(n, lo + 1), QftRow(lo, 0), IsCP);
      CountConcat(QftRows(n, lo + 1), QftRow(lo, 0), IsSwap);
      PairsStep(Count(QftRows(n, lo), IsCP), Count(QftRows(n, lo + 1), IsCP), Count(QftRow(lo, 0), IsCP), n, lo);
    }
  }

  /** Row lo adds lo phase pairs to the n(n-1)/2 - (lo+1)lo/2 of the rows above it. */
  lemma PairsStep(total: nat, prev: nat, row: nat, n: nat, lo: nat)
    requires lo < n && total == prev + row && row == lo
    requires 2 * prev == n * (n - 1) - (lo + 1) * lo
    ensures 2 * total == n * (n - 1) - lo * (lo - 1)
  {
    assert (lo + 1) * lo == lo * (lo - 1) + 2 * lo;
  }

  lemma {:induction false} QftSwapsCounts(n: nat, k: nat)
    requires k <= n / 2
    ensures Count(QftSwaps(n, k), IsH) == 0 && Count(QftSwaps(n, k), IsCP) == 0
    ensures Count(QftSwaps(n, k), IsSwap) == k
  {
    if k > 0 {
      assert QftSwaps(n, k)[..k - 1] == QftSwaps(n, k - 1);
      QftSwapsCounts(n, k - 1);
    }
  }

  /** The QFT on n qubits has n Hadamards, n(n-1)/2 controlled phases and floor(n/2) swaps. */
  lemma QftCounts(n: nat)
    ensures Count(QftGates(n), IsH) == n
    ensures 2 * Count(QftGates(n), IsCP) == n * (n - 1)
    ensures Count(QftGates(n), IsSwap) == n / 2
  {
    QftRowsCounts(n, 0);
    QftSwapsCounts(n, n / 2);
    CountConcat(QftRows(n, 0), QftSwaps(n, n / 2), IsH);
    CountConcat(QftRows(n, 0), QftSwaps(n, n / 2), IsCP);
    CountConcat(QftRows(n, 0), QftSwaps(n, n / 2), IsSwap);
  }

  lemma {:induction false} QftRowMembers(i: nat, lo: nat)
    ensures forall g :: g in QftRow(i, lo) ==>
      (g == H(i) && lo <= i) || (g.CP? && g.control == i && lo <= g.target < i && g.k == i - g.target)
    ensures lo <= i ==> H(i) in QftRow(i, lo)
    ensures forall t: nat :: lo <= t < i ==> PhasePair(i, t) in QftRow(i, lo)
    decreases i + 1 - lo
  {
    if lo <= i {
      QftRowMembers(i, lo + 1);
    }
  }

  lemma {:induction false} QftRowsMembers(n: nat, lo: nat)
    ensures forall g :: g in QftRows(n, lo) ==>
      (g.H? && lo <= g.q < n) ||
      (g.CP? && g.target < g.control < n && lo <= g.control && g.k == g.control - g.target)
    ensures forall q: nat :: lo <= q < n ==> H(q) in QftRows(n, lo)
    ensures forall c: nat, t: nat :: t < c < n && lo <= c ==> PhasePair(c, t) in QftRows(n, lo)
    decreases n - lo
  {
    if lo < n {
      QftRowsMembers(n, lo + 1);
      QftRowMembers(lo, 0);
    }
  }

  /**
   * Which gates the QFT holds: H on every qubit, the phase pi/2^(c-t) on every pair t < c,
   * the swaps of qubit k with qubit n-1-k for k < n/2, and nothing else.
   */
  lemma QftMembers(n: nat)
    ensures forall g :: g in QftGates(n) ==>
      (g.H? && g.q < n) ||
      (g.CP? && g.target < g.control < n && g.k == g.control - g.target) ||
      (g.Swap? && g.a < n / 2 && g.b == n - 1 - g.a)
    ensures forall q: nat :: q < n ==> H(q) in QftGates(n)
    ensures forall c: nat, t: nat :: t < c < n ==> PhasePair(c, t) in QftGates(n)
    ensures forall k: nat :: k < n / 2 ==> MirrorSwap(n, k) in QftGates(n)
  {
    QftRowsMembers(n, 0);
    var s := QftSwaps(n, n / 2);
    forall k: nat | k < n / 2
      ensures MirrorSwap(n, k) in QftGates(n)
    {
      assert QftGates(n)[|QftRows(n, 0)| + k] == s[k];
    }
  }
}
