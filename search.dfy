/**
 * `find_indices`: the Grover search run for the number of iterations the counter suggests,
 * and the reversal of the measured keys, which qiskit prints with qubit 0 last.
 * Qubit layout: x = 0..n-1, y = n, target = n+1..n+d.
 */
module Search {
  import opened Binary
  import opened Circuits
  import opened Grover
  import opened Estimate

  /** `qc.h(qreg_x); qc.x(qreg_y); qc.h(qreg_y)`: x uniform, y in |->. */
  function SearchPrologue(n: nat): seq<Gate>
  {
    HLayer(Range(0, n)) + [X(n), H(n)]
  }

  /** The Grover gate on `qreg_x[:] + qreg_y[:] + qreg_target[:]`. */
  function SearchIterate(numbers: seq<nat>, e: nat, d: nat): Gate
  {
    Append(GroverGate(numbers, e, d), GroverWires(|numbers|, d))
  }

  /** The gates of the search circuit with `rounds` Grover iterations. */
  function SearchGates(numbers: seq<nat>, e: nat, d: nat, rounds: nat): seq<Gate>
  {
    SearchPrologue(|numbers|) + Repeat(SearchIterate(numbers, e, d), rounds)
  }

  lemma SearchIterateFits(numbers: seq<nat>, e: nat, d: nat)
    ensures Fits(SearchIterate(numbers, e, d), |numbers| + 1 + d)
  {
    var w := |numbers| + 1 + d;
    assert InRange(Range(0, w), w);
    assert Arity(GroverGate(numbers, e, d)) == w;
  }

  /** The gates of the prologue fit, and the H layer covers 0..n-1 alone. */
  lemma SearchPrologueFits(n: nat, w: nat)
    requires n < w
    ensures InRange(Range(0, n), w) && Fits(X(n), w) && Fits(H(n), w)
    ensures SearchPrologue(n) == HLayer(Range(0, n)) + [X(n)] + [H(n)]
  {
  }

  lemma SearchSnoc(pre: seq<Gate>, g: Gate, i: nat)
    ensures pre + Repeat(g, i + 1) == pre + Repeat(g, i) + [g]
  {
    assert Repeat(g, i + 1) == Repeat(g, i) + [g];
  }

  /** The search circuit of `find_indices`, up to the measurement of x. */
  method CreateSearchCircuit(numbers: seq<nat>, e: nat, d: nat, rounds: nat) returns (qc: QuantumCircuit)
    requires |numbers| >= 2 && d >= 1
    ensures fresh(qc) && qc.Valid() && qc.width == |numbers| + 1 + d
    ensures qc.gates == SearchGates(numbers, e, d, rounds)
  {
    var n := |numbers|;
    qc := new QuantumCircuit(n + 1 + d);
    SearchPrologueFits(n, n + 1 + d);
    qc.HEach(Range(0, n));
    qc.Add(X(n));
    qc.Add(H(n));
    var g := SearchIterate(numbers, e, d);
    SearchIterateFits(numbers, e, d);
    assert qc.gates == SearchPrologue(n) + Repeat(g, 0);
    for i := 0 to rounds
      invariant qc.Valid() && qc.width == n + 1 + d
      invariant qc.gates == SearchPrologue(n) + Repeat(g, i)
    {
      SearchSnoc(SearchPrologue(n), g, i);
      qc.Add(g);
    }
  }

  /** The search applies the Grover gate exactly `rounds` times, after n + 2 preparation gates. */
  lemma SearchShape(numbers: seq<nat>, e: nat, d: nat, rounds: nat)
    ensures |SearchGates(numbers, e, d, rounds)| == |numbers| + 2 + rounds
    ensures Count(SearchGates(numbers, e, d, rounds), g => Applies(GroverGate(numbers, e, d), g)) == rounds
    ensures forall i :: |numbers| + 2 <= i < |numbers| + 2 + rounds ==>
      SearchGates(numbers, e, d, rounds)[i] == SearchIterate(numbers, e, d)
  {
    var p := (g: Gate) => Applies(GroverGate(numbers, e, d), g);
    CountUniform(SearchPrologue(|numbers|), p, false);
    CountRepeat(SearchIterate(numbers, e, d), rounds, p);
    CountConcat(SearchPrologue(|numbers|), Repeat(SearchIterate(numbers, e, d), rounds), p);
  }

  /** A renaming of keys that undoes itself, as reading a string backwards does. */
  ghost predicate Involution(f: string -> string)
  {
    forall s :: f(f(s)) == s
  }

  /** `s[::-1]` as a function value. */
  const Backwards: string -> string := s => Reverse(s)

  lemma BackwardsInvolution()
    ensures Involution(Backwards)
  {
    forall s: string
      ensures Backwards(Backwards(s)) == s
    {
      ReverseInvolution(s);
    }
  }

  /** The histogram with every key renamed by f, each keeping its count. */
  function Rekeyed(counts: Histogram, f: string -> string): (r: Histogram)
    requires Involution(f)
  {
    map key | key in (set k | k in counts :: f(k)) :: counts[f(key)]
  }

  /** `counts_formatted`: every key written backwards, each with its count. */
  function ReversedCounts(counts: Histogram): (r: Histogram)
  {
    BackwardsInvolution();
    Rekeyed(counts, Backwards)
  }

  /** Every key appears renamed, with its own count, and nothing else appears. */
  lemma RekeyedEntries(counts: Histogram, f: string -> string)
    requires Involution(f)
    ensures forall key :: key in counts ==> f(key) in Rekeyed(counts, f) && Rekeyed(counts, f)[f(key)] == counts[key]
    ensures forall key :: key in Rekeyed(counts, f) ==> f(key) in counts
  {
  }

  /** Renaming twice gives the histogram back. */
  lemma RekeyedInvolution(counts: Histogram, f: string -> string)
    requires Involution(f)
    ensures Rekeyed(Rekeyed(counts, f), f) == counts
  {
    var r := Rekeyed(counts, f);
    RekeyedEntries(counts, f);
    RekeyedEntries(r, f);
    forall key | key in counts
      ensures key in Rekeyed(r, f) && Rekeyed(r, f)[key] == counts[key]
    {
      assert f(f(key)) == key;
    }
  }

  /** Removing a key before the renaming removes its new name after it. */
  lemma RekeyedRemove(counts: Histogram, f: string -> string, key: string)
    requires Involution(f) && key in counts
    ensures Rekeyed(counts - {key}, f) == Rekeyed(counts, f) - {f(key)}
  {
    var a, b := Rekeyed(counts - {key}, f), Rekeyed(counts, f) - {f(key)};
    RekeyedEntries(counts, f);
    RekeyedEntries(counts - {key}, f);
    forall k | k in b
      ensures k in a
    {
      assert f(f(k)) == k && f(f(key)) == key;
      assert f(k) in counts - {key};
    }
  }

  /** The renamed histogram has as many keys and as many shots as the original. */
  lemma {:induction false} RekeyedTotal(counts: Histogram, f: string -> string)
    requires Involution(f)
    ensures |Rekeyed(counts, f)| == |counts|
    ensures Total(Rekeyed(counts, f)) == Total(counts)
    decreases |counts|
  {
    var r := Rekeyed(counts, f);
    if counts == map[] {
      assert r == map[];
    } else {
      var key :| key in counts;
      RekeyedEntries(counts, f);
      RekeyedRemove(counts, f, key);
      RekeyedTotal(counts - {key}, f);
      TotalRemove(counts, key);
      TotalRemove(r, f(key));
      assert |(counts - {key}).Keys| == |counts.Keys| - 1;
      assert |(r - {f(key)}).Keys| == |r.Keys| - 1;
    }
  }

  /**
   * `find_indices` output against the measured histogram: same keys backwards with the same
   * counts, as many keys, as many shots, and reversing again restores it.
   */
  lemma ReversedCountsFaithful(counts: Histogram)
    ensures forall key :: key in counts ==>
      Reverse(key) in ReversedCounts(counts) && ReversedCounts(counts)[Reverse(key)] == counts[key]
    ensures forall key :: key in ReversedCounts(counts) ==> Reverse(key) in counts
    ensures |ReversedCounts(counts)| == |counts| && Total(ReversedCounts(counts)) == Total(counts)
    ensures ReversedCounts(ReversedCounts(counts)) == counts
  {
    BackwardsInvolution();
    RekeyedEntries(counts, Backwards);
    RekeyedTotal(counts, Backwards);
    RekeyedInvolution(counts, Backwards);
  }

  lemma ReverseBitString(s: string)
    requires IsBitString(s)
    ensures IsBitString(Reverse(s)) && |Reverse(s)| == |s|
  {
  }

  /** Keys read backwards are still keys of an m-bit register. */
  lemma ReversedCountsRegister(counts: Histogram, m: nat)
    requires RegisterKeys(counts, m)
    ensures RegisterKeys(ReversedCounts(counts), m)
  {
    BackwardsInvolution();
    RekeyedEntries(counts, Backwards);
    forall key | key in ReversedCounts(counts)
      ensures IsBitString(key) && |key| == m
    {
      var k := Reverse(key);
      assert k == Backwards(key) && k in counts;
      ReverseBitString(k);
      ReverseInvolution(key);
    }
  }

  /** A histogram holding exactly the keys of counts backwards, each with its count, is ReversedCounts. */
  lemma ReversedCountsUnique(counts: Histogram, formatted: Histogram)
    requires forall k :: k in formatted ==> Reverse(k) in counts && formatted[k] == counts[Reverse(k)]
    requires forall k :: k in counts ==> Reverse(k) in formatted
    ensures formatted == ReversedCounts(counts)
  {
    var spec := ReversedCounts(counts);
    BackwardsInvolution();
    RekeyedEntries(counts, Backwards);
    forall k | k in spec
      ensures k in formatted
    {
      ReverseInvolution(k);
      assert Reverse(Reverse(k)) in formatted;
    }
    forall k | k in formatted
      ensures k in spec && spec[k] == formatted[k]
    {
      ReverseInvolution(k);
      assert Backwards(Reverse(k)) == k;
    }
  }

  /** `for key in counts: counts_formatted[key[::-1]] = counts[key]` */
  method ReverseKeys(counts: Histogram) returns (formatted: Histogram)
    ensures formatted == ReversedCounts(counts)
  {
    formatted := map[];
    var rest := counts.Keys;
    while rest != {}
      invariant rest <= counts.Keys
      invariant forall k :: k in formatted ==> Reverse(k) in counts - rest && formatted[k] == counts[Reverse(k)]
      invariant forall k :: k in counts - rest ==> Reverse(k) in formatted
      decreases |rest|
    {
      var key :| key in rest;
      ReverseInvolution(key);
      formatted := formatted[Reverse(key) := counts[key]];
      rest := rest - {key};
    }
    ReversedCountsUnique(counts, formatted);
  }

  /** A non-negative number of iterations rounds to a non-negative count. */
  lemma RoundNonNegative(z: real)
    requires z >= 0.0
    ensures RoundHalfEven(z) >= 0
  {
  }

  /** What `find_indices` returns. */
  datatype SearchResult =
    | NotFound                                                    // `return False`
    | Failed                                                      // the counter's `max` raised
    | Found(rounds: nat, circuit: seq<Gate>, counts: Histogram)   // `counts_formatted`

  /**
   * `find_indices(numbers, expected_sum, digits, digits_counter, shots, shots_counter)` with
   * the two simulator runs replaced by their histograms: `counterCounts` from the counting
   * circuit and `searchCounts` from the search circuit this builds.
   */
  method FindIndices(numbers: seq<nat>, e: nat, d: nat, m: nat, counterCounts: Histogram, shotsCounter: nat,
                     searchCounts: Histogram) returns (res: SearchResult)
    requires |numbers| >= 2 && d >= 1 && RegisterKeys(counterCounts, m)
    ensures res.NotFound? <==> ZeroDominates(counterCounts, m, shotsCounter)
    ensures res.Failed? <==> !ZeroDominates(counterCounts, m, shotsCounter) && NonzeroOutcomes(counterCounts, m) == {}
    ensures res.Found? ==>
      exists r :: r == Largest(NonzeroOutcomes(counterCounts, m)) && 1 <= r < Pow2(m) &&
        res.rounds == RoundHalfEven(CalculateCounterResult(r, m).iterations) &&
        res.circuit == SearchGates(numbers, e, d, res.rounds) &&
        res.counts == ReversedCounts(searchCounts)
  {
    var est := CountOptimalIterations(counterCounts, m, shotsCounter);
    match est
    case NoSolutions =>
      res := NotFound;
    case Raised =>
      res := Failed;
    case Counted(r, c) =>
      RoundNonNegative(c.iterations);
      var rounds: nat := RoundHalfEven(c.iterations);
      var qc := CreateSearchCircuit(numbers, e, d, rounds);
      var formatted := ReverseKeys(searchCounts);
      res := Found(rounds, qc.gates, formatted);
  }
}
