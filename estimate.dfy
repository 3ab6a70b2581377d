/**
 * The classical side of quantum counting (`count_optimal_iterations` after the measurement,
 * and `calculate_counter_result`). The measured counting register gives an outcome r of m
 * bits; theta = pi * r / 2^m, folded into (0, pi/2], sets the number of Grover iterations
 * pi / (4 theta) - 1/2. Angles are kept as fractions of pi, on exact reals.
 */
module Estimate {
  import opened Binary

  /** theta / pi after the fold, and the optimal number of iterations (not yet rounded). */
  datatype CounterResult = CounterResult(turn: real, iterations: real)

  /** theta / pi folded into (0, 1/2]: a measured angle above pi/2 stands for pi - theta. */
  function Fold(t: real): real
  {
    if t > 0.5 then 1.0 - t else t
  }

  /** `pi / (4 * theta) - 0.5` for theta = turn * pi. */
  function Iterations(turn: real): real
    requires turn > 0.0
  {
    1.0 / (4.0 * turn) - 0.5
  }

  /**
   * `calculate_counter_result(result, len_numbers, digits_counter)` without the estimate of
   * the number of solutions. Outcomes above 2^(m-1) stand for pi - theta.
   */
  function CalculateCounterResult(r: nat, m: nat): (res: CounterResult)
    requires 1 <= r < Pow2(m)
    ensures 0.0 < res.turn <= 0.5
    ensures res.turn == r as real / Pow2(m) as real || res.turn == 1.0 - r as real / Pow2(m) as real
    ensures 4.0 * res.turn * (res.iterations + 0.5) == 1.0
    ensures res.iterations >= 0.0
  {
    var folded := Fold(r as real / Pow2(m) as real);
    CounterResult(folded, Iterations(folded))
  }

  lemma Complement(a: real, p: real)
    requires p > 0.0
    ensures (p - a) / p == 1.0 - a / p
  {
    assert (p - a) / p == p / p - a / p;
  }

  /** The outcomes r and 2^m - r stand for theta and pi - theta: the same result. */
  lemma CounterResultSymmetric(r: nat, m: nat)
    requires 1 <= r < Pow2(m)
    ensures CalculateCounterResult(r, m) == CalculateCounterResult(Pow2(m) - r, m)
  {
    var p := Pow2(m) as real;
    Complement(r as real, p);
    assert (Pow2(m) - r) as real == p - r as real;
    assert Fold(1.0 - r as real / p) == Fold(r as real / p);
  }

  lemma QuotientMonotone(a: real, b: real, p: real)
    requires 0.0 <= a <= b && p > 0.0
    ensures a / p <= b / p
  {
    assert b / p - a / p == (b - a) / p;
  }

  /** An outcome r with 2r <= 2^m is not folded: theta / pi is r / 2^m. */
  lemma TurnBelowFold(r: nat, m: nat)
    requires 1 <= r && 2 * r <= Pow2(m)
    ensures CalculateCounterResult(r, m).turn == r as real / Pow2(m) as real
  {
    var p := Pow2(m) as real;
    QuotientMonotone(r as real, p / 2.0, p);
    assert (p / 2.0) / p == 0.5;
  }

  /** The number of iterations falls as the angle grows. */
  lemma IterationsAntitone(t1: real, t2: real)
    requires 0.0 < t1 <= t2
    ensures Iterations(t1) >= Iterations(t2)
  {
    var a, b := 4.0 * t1, 4.0 * t2;
    assert 1.0 / a - 1.0 / b == (b - a) / (a * b);
  }

  /** Below the fold, a larger outcome (a larger angle) never needs more iterations. */
  lemma CounterResultMonotone(r1: nat, r2: nat, m: nat)
    requires 1 <= r1 <= r2 && 2 * r2 <= Pow2(m)
    ensures CalculateCounterResult(r1, m).iterations >= CalculateCounterResult(r2, m).iterations
  {
    var c1, c2 := CalculateCounterResult(r1, m), CalculateCounterResult(r2, m);
    assert c1.turn <= c2.turn by {
      TurnBelowFold(r1, m);
      TurnBelowFold(r2, m);
      QuotientMonotone(r1 as real, r2 as real, Pow2(m) as real);
    }
    IterationsAntitone(c1.turn, c2.turn);
  }

  /**
   * Python's `round` on a number: the nearest integer, ties to the even one
   * (`round(0.5) == 0`, `round(1.5) == 2`).
   */
  function RoundHalfEven(z: real): (k: int)
    ensures -0.5 <= k as real - z <= 0.5
    ensures (k as real - z == 0.5 || z - k as real == 0.5) ==> k % 2 == 0
  {
    var f := z.Floor;
    var frac := z - f as real;
    if frac < 0.5 then f
    else if frac > 0.5 then f + 1
    else if f % 2 == 0 then f
    else f + 1
  }

  /** The two properties of RoundHalfEven determine the rounded value. */
  lemma RoundHalfEvenUnique(z: real, k: int)
    requires -0.5 <= k as real - z <= 0.5
    requires (k as real - z == 0.5 || z - k as real == 0.5) ==> k % 2 == 0
    ensures k == RoundHalfEven(z)
  {
  }

  /** A measurement histogram: outcome string to number of shots. */
  type Histogram = map<string, nat>

  /** The keys `get_counts` gives for an m-bit classical register. */
  predicate RegisterKeys(counts: Histogram, m: nat)
  {
    forall key :: key in counts ==> IsBitString(key) && |key| == m
  }

  /** `int(key[0:m], 2)` */
  function Outcome(key: string, m: nat): (v: nat)
    ensures v < Pow2(m)
  {
    var k := if |key| <= m then |key| else m;
    Pow2Monotone(k, m);
    BinaryValue(key[..k])
  }

  /** The no-solution test: the all-zero outcome came up in more than half of the shots. */
  predicate ZeroDominates(counts: Histogram, m: nat, shots: nat)
  {
    Zeros(m) in counts && 2 * counts[Zeros(m)] > shots
  }

  /** The keys of `counts_int`: every nonzero outcome measured. */
  function NonzeroOutcomes(counts: Histogram, m: nat): set<nat>
  {
    set key | key in counts && Outcome(key, m) != 0 :: Outcome(key, m)
  }

  /** The largest element of a nonempty set of numbers: Python's `max` on a dict's keys. */
  ghost function Largest(s: set<nat>): (r: nat)
    requires s != {}
    ensures r in s && forall x :: x in s ==> x <= r
    decreases |s|
  {
    var y :| y in s;
    if s == {y} then y
    else
      var rest := Largest(s - {y});
      assert forall x :: x in s ==> x == y || x in s - {y};
      if y >= rest then y else rest
  }

  /** Shots over all outcomes. */
  ghost function Total(counts: Histogram): nat
    decreases |counts.Keys|
  {
    if counts == map[] then 0
    else
      var key :| key in counts;
      counts[key] + Total(counts - {key})
  }

  /** Total does not depend on the key it takes first. */
  lemma {:induction false} TotalRemove(counts: Histogram, key: string)
    requires key in counts
    ensures Total(counts) == counts[key] + Total(counts - {key})
    decreases |counts.Keys|
  {
    var first :| first in counts && Total(counts) == counts[first] + Total(counts - {first});
    if first != key {
      var both := counts - {first} - {key};
      assert (counts - {first}).Keys == counts.Keys - {first};
      TotalRemove(counts - {first}, key);
      assert counts - {first} - {key} == both;
      TotalRemove(counts - {key}, first);
      assert counts - {key} - {first} == both;
    }
  }

  /** The outcome of count_optimal_iterations. */
  datatype Estimate =
    | NoSolutions                                  // `return False`
    | Raised                                       // `max` of an empty dict raises ValueError
    | Counted(result: nat, counter: CounterResult)

  /** `result = max(counts_int)` */
  method MaxOutcome(s: set<nat>) returns (r: nat)
    requires s != {}
    ensures r == Largest(s)
  {
    var rest := s;
    r :| r in rest;
    while rest != {}
      invariant rest <= s && r in s
      invariant forall x :: x in s && x !in rest ==> x <= r
      decreases |rest|
    {
      var x :| x in rest;
      if x > r {
        r := x;
      }
      rest := rest - {x};
    }
    var l := Largest(s);
    assert l <= r && r <= l;
  }

  /**
   * `count_optimal_iterations` after the measurement: the no-solution test, `counts_int` of the
   * nonzero outcomes, and the counter result of the largest of them.
   */
  method CountOptimalIterations(counts: Histogram, m: nat, shots: nat) returns (est: Estimate)
    requires RegisterKeys(counts, m)
    ensures est.NoSolutions? <==> ZeroDominates(counts, m, shots)
    ensures est.Raised? <==> !ZeroDominates(counts, m, shots) && NonzeroOutcomes(counts, m) == {}
    ensures est.Counted? ==>
      NonzeroOutcomes(counts, m) != {} &&
      est.result == Largest(NonzeroOutcomes(counts, m)) &&
      1 <= est.result < Pow2(m) &&
      est.counter == CalculateCounterResult(est.result, m)
  {
    var zero := Zeros(m);
    if zero in counts && 2 * counts[zero] > shots {
      return NoSolutions;
    }
    var countsInt: map<nat, nat> := map[];
    var rest := counts.Keys;
    while rest != {}
      invariant rest <= counts.Keys
      invariant countsInt.Keys == set key | key in counts && key !in rest && Outcome(key, m) != 0 :: Outcome(key, m)
      decreases |rest|
    {
      var key :| key in rest;
      var v := Outcome(key, m);
      if v != 0 {
        countsInt := countsInt[v := counts[key]];
      }
      rest := rest - {key};
    }
    assert countsInt.Keys == NonzeroOutcomes(counts, m);
    if countsInt == map[] {
      return Raised;
    }
    var result := MaxOutcome(countsInt.Keys);
    est := Counted(result, CalculateCounterResult(result, m));
  }

  /**
   * When the histogram holds every shot, of which there is at least one, the nonzero outcomes
   * are empty only if the all-zero outcome took every shot; so past the no-solution test `max`
   * always has a value.
   */
  lemma CountingNeverRaises(counts: Histogram, m: nat, shots: nat)
    requires RegisterKeys(counts, m) && Total(counts) == shots >= 1
    requires !ZeroDominates(counts, m, shots)
    ensures NonzeroOutcomes(counts, m) != {}
  {
    if NonzeroOutcomes(counts, m) == {} {
      var key :| key in counts;
      forall k | k in counts
        ensures k == Zeros(m)
      {
        ZeroValueIsZeros(k);
        assert Outcome(k, m) == BinaryValue(k) by {
          assert k[..|k|] == k;
        }
        assert Outcome(k, m) !in NonzeroOutcomes(counts, m);
      }
      TotalRemove(counts, Zeros(m));
    }
  }
}
