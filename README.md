# Subset-sum search by Grover's algorithm and quantum counting, modelled in Dafny

`qosf_task_1.py` finds the subsets of a list of numbers that add up to an expected sum. It
builds a chain of qiskit circuits:

- a quantum Fourier transform (QFT);
- a Draper phase adder (`create_qft_add_circuit`);
- a register that adds the numbers selected by the index register x (`create_add_circuit`);
- a checker that compares the sum with `expected_sum`;
- the validator and the Grover oracle that flip y for a valid subset;
- the diffuser and the Grover iterate;
- a quantum-counting circuit that estimates how many Grover iterations to run.

It then post-processes the measured histograms classically. This project models both parts:

- **Circuits.** Every `create_*_circuit` is a method on a `QuantumCircuit` object. The object has a width and a gate list, and the method appends gates in the source's own loops. Each method is proved to build exactly a gate list given by a specification function, and lemmas state what those lists contain.
- **Gates.** `Gate` has the constructors H, X, Z, P(k, q), CP(k, c, t), Swap, MCX and Append(op, wires). A phase angle is kept as the exponent k of pi/2^k. `to_gate`, `.control()` and `.inverse()` become the `Op` constructors `Frozen`, `Control` and `Inverse`.
- **Basis-state semantics.** `Semantics.Run` says what a gate list does to a computational basis state. X, Swap and MCX permute bits; phases leave bits alone. Hadamards, and every frozen operation that holds one, are evaluated by an `External` function given as a parameter. With this, the checker, validator and oracle are proved to act on basis states as the comments at lines 206-208 describe.
- **Classical steps.** These are the no-solution test and the choice of the counting result in `count_optimal_iterations`, the angle fold and iteration formula of `calculate_counter_result` (on exact reals), Python's `round`, the search circuit of `find_indices`, and the bit-reversal of its output keys.

The two simulator runs are replaced by histograms passed in as parameters (`map<string, nat>`).

Modules follow the program's sections:
- `Binary` (`format`, `int(s, 2)`, `[::-1]`, bits);
- `Circuits` (gates, the circuit object);
- `Semantics`;
- `Fourier`, `Adder`, `Oracle` (checker, validator, oracle), `Grover` (diffuser, iterate) and `Counter`;
- `Estimate` (`calculate_counter_result`, `count_optimal_iterations`);
- `Search` (`find_indices`).

Qubit layout of the oracle, Grover and search circuits: x = 0..n-1, y = n, target = n+1..n+d. The counter puts the counting register t = 0..m-1 in front of these. The sum circuit and the validator have no y: x = 0..n-1, target = n..n+d-1.

The counting result is `max(counts_int)` (line 430). That is the largest nonzero outcome value, not the most frequently measured outcome, which is what a phase estimate would normally read off. The model follows the code (`Estimate.Largest`, `Estimate.MaxOutcome`).

## Model

| member | source | states |
|---|---|---|
| Circuits.QuantumCircuit.Add | qosf_task_1.py:26-28 | appending a gate whose qubits lie inside the circuit and are distinct, and whose appended operation has as many wires as its width, adds exactly that gate at the end and keeps the circuit valid |
| Circuits.QuantumCircuit.HEach | qosf_task_1.py:262 | `qc.h(register)` appends one H per qubit of the register, in register order |
| Circuits.QuantumCircuit.XEach | qosf_task_1.py:263 | `qc.x(register)` appends one X per qubit of the register, in register order |
| Fourier.AddQftRow | qosf_task_1.py:24-28 | the inner loop for qubit i appends H(i) and then CP(i-j, i, j) for j = i-1 down to 0 |
| Fourier.CreateQftCircuit | qosf_task_1.py:19-34 | builds on n qubits exactly the rows for i = n-1 down to 0, followed by Swap(k, n-k-1) for k < n/2 |
| Fourier.QftCounts | qosf_task_1.py:19-34 | the QFT has n H gates, n(n-1)/2 CP gates and n/2 (floor) swaps |
| Fourier.QftRowsCounts | qosf_task_1.py:23-28 | rows lo..n-1 hold n-lo H gates and n(n-1)/2 - lo(lo-1)/2 CP gates |
| Fourier.QftMembers | qosf_task_1.py:19-34 | every QFT gate is H(q) with q < n, CP(c-t, c, t) with t < c < n, or Swap(a, n-1-a) with a < n/2; each of these gates occurs |
| Fourier.QftRowsMembers | qosf_task_1.py:23-28 | the phase part holds only H(q) and CP(c-t, c, t) on qubits below n, and every one of them |
| Adder.ReversedFormatBits | qosf_task_1.py:67 | character j of `format(a, "0<digits>b")[::-1]` is bit j of a, for every j in the string, whatever a is |
| Adder.AddQftAddRow | qosf_task_1.py:75-79 | for position digits-i-1 appends P(i-j, digits-i-1) for j = i down to 0 exactly when `a_binary[j] == "1"` |
| Adder.CreateQftAddCircuit | qosf_task_1.py:61-81 | builds on `digits` qubits exactly the phase rows for i = digits-1 down to 0 |
| Adder.QftAddMembers | qosf_task_1.py:74-79 | the adder holds only single-qubit P gates inside the register; P(i-j, digits-1-i) is present iff bit j of a is 1 (j <= i) |
| Adder.QftAddPhaseSum | qosf_task_1.py:74-79 | at position digits-1-i the phases pi/2^k add up to pi * (a mod 2^(i+1)) / 2^i (weights 2^(i-k) sum to a mod 2^(i+1)) |
| Adder.QftAddRowsWeight | qosf_task_1.py:74-79 | rows lo..digits-1 contribute a mod 2^(i+1) at position digits-1-i when lo <= i, and nothing otherwise |
| Adder.QftAddRowWeight | qosf_task_1.py:75-79 | row i from j = lo on contributes a mod 2^(i+1) - a mod 2^lo at its own position and nothing elsewhere |
| Adder.CreateAddCircuit | qosf_task_1.py:111-127 | builds H on the target, one adder for numbers[i] controlled by x_i on `[x_i] + target`, and the inverse QFT on the target |
| Adder.AddGatesActive | qosf_task_1.py:119-125 | for a basis value of x, the phases selected by x are those of the controlled adders alone: the H layer and the inverse QFT hold no operation controlled by an x qubit |
| Adder.ControlledAdderActive | qosf_task_1.py:121-123 | controlled adder j acts, moved onto the target wires, exactly when x_j is 1 |
| Adder.BoundAdderWeight | qosf_task_1.py:122-123 | the adder for a, bound to the target wires, still weighs a mod 2^(i+1) at target position digits-1-i |
| Adder.ControlledAddsWeight | qosf_task_1.py:121-123 | the first k controlled adders weigh, at target position digits-1-i, the sum of numbers[j] mod 2^(i+1) over the selected j < k |
| Adder.LowSumCongruent | qosf_task_1.py:121-123 | that sum agrees with the subset sum selected by x modulo 2^(i+1) |
| Adder.AddPhasesBounded | qosf_task_1.py:74-79 | every phase the controlled adders selected by x apply is a P(k, q) on the target register, with k at most the exponent of q's own Fourier position |
| Adder.AddEncodesSubsetSum | qosf_task_1.py:111-127 | the phases that the controlled adders selected by x put on target position digits-1-i add up to a value congruent to the selected subset sum modulo 2^(i+1), for every i; none of them is finer than pi / 2^i |
| Oracle.CreateCheckerCircuit | qosf_task_1.py:150-156 | appends X(digits-i-1) for each i with `formatted[i] == "0"` |
| Oracle.CheckerMembers | qosf_task_1.py:150-156 | the checker holds only X gates on the register; for e < 2^d, X(q) is present iff bit q of e is 0; for larger e the digits are shifted by the surplus length |
| Oracle.CheckerPrefixRun | qosf_task_1.py:153-155 | the first k checker gates toggle, on a basis state, exactly the qubits q >= d-k whose digit is '0', run forwards or inverted |
| Oracle.CheckerCompares | qosf_task_1.py:150-156 | on a basis state t (e < 2^d), the checker or its inverse sets qubit q to 1 iff t_q equals bit q of e |
| Oracle.MatchesAllOnes | qosf_task_1.py:150-156 | after the checker every qubit is 1 iff the register's value equals e modulo 2^d; comparing twice restores the register |
| Oracle.CreateValidatorCircuit | qosf_task_1.py:179-192 | appends the sum gate on x + target and then the checker gate on the target |
| Oracle.ValidatorMarks | qosf_task_1.py:179-192 | if the sum gate adds, then from target 0 the validator leaves x and sets the target to the comparison of the subset sum with e; its inverse clears it again |
| Oracle.AddMarking | qosf_task_1.py:231-238 | appends an operation on x + target, the MCX from every target qubit onto y, and a second operation on x + target |
| Oracle.CreateGroverOracleCircuit | qosf_task_1.py:225-240 | builds validator, MCX(target, y) and inverse validator on x, y and target |
| Oracle.SkipStep | qosf_task_1.py:231-232 | an operation on `qreg_x[:] + qreg_target[:]` sees x + target and leaves y alone |
| Oracle.OracleMcxStep | qosf_task_1.py:235 | the MCX flips y exactly when every target qubit is 1 |
| Oracle.OracleFlipsY | qosf_task_1.py:206-240 | on basis states with target 0: x and target come back unchanged and y is toggled exactly when the subset selected by x adds up to e modulo 2^d |
| Grover.AddReflection | qosf_task_1.py:266-268 | appends H(0), the MCX from qubits 1..n-1 onto 0, and H(0) |
| Grover.AddTail | qosf_task_1.py:274-277 | appends Z(0), X(0), Z(0), X(0) |
| Grover.CreateDiffuserCircuit | qosf_task_1.py:259-279 | builds H and X layers on all n qubits, the reflection on qubit 0, X and H layers, then the Z X Z X tail |
| Grover.DiffuserCounts | qosf_task_1.py:259-279 | the diffuser has 4n+7 gates: 2n+2 H, 2n+2 X, two Z and one MCX |
| Grover.DiffuserMarksZero | qosf_task_1.py:263-270 | the X layers around the MCX flip qubit 0 of a basis state exactly when all other qubits are 0 |
| Grover.DiffuserTailKeepsBits | qosf_task_1.py:273-277 | the Z X Z X tail leaves every basis state's bits unchanged |
| Grover.CreateGroverCircuit | qosf_task_1.py:304-316 | builds the oracle gate on all qubits, then the diffuser gate on x |
| Grover.OracleStep | qosf_task_1.py:311-312 | the oracle gate on every qubit in order acts as the oracle's gate list |
| Grover.DiffuserStep | qosf_task_1.py:314 | the diffuser gate on x changes x only, as the external (quantum) evaluation says |
| Grover.GroverOnBasis | qosf_task_1.py:304-316 | the Grover iterate on a basis state with target 0: y toggled iff x selects a valid subset, target restored, x passed to the diffuser |
| Counter.AddPrologue | qosf_task_1.py:360-365 | appends H on x, H on t, then X and H on y |
| Counter.AddIterates | qosf_task_1.py:371-373 | appends reps copies of the controlled Grover gate on `[t_i] + x + y + target` |
| Counter.AddBlocks | qosf_task_1.py:369-374 | the doubling loop appends, for i = 0..m-1, 2^i controlled Grover gates controlled by t_i |
| Counter.AddCounting | qosf_task_1.py:359-376 | prologue, blocks, then one inverse QFT on t |
| Counter.CreateCounterCircuit | qosf_task_1.py:352-378 | builds the whole counting circuit on m + n + 1 + d qubits |
| Counter.CounterBlocksLength | qosf_task_1.py:369-374 | the blocks hold 2^m - 1 gates |
| Counter.CounterBlocksLayout | qosf_task_1.py:369-374 | positions 2^i - 1 .. 2^(i+1) - 2 hold the gate controlled by t_i: qubit 0's group comes first, groups are consecutive |
| Counter.CounterBlocksMembers | qosf_task_1.py:369-374 | every block gate is the controlled Grover gate controlled by some t_i with i < m |
| Counter.CounterBlocksCount | qosf_task_1.py:369-374 | t_i controls exactly 2^i gates (none when i >= m) |
| Counter.BlocksCount | qosf_task_1.py:369-374 | in total 2^m - 1 gates apply the controlled Grover operation |
| Counter.CounterShape | qosf_task_1.py:352-378 | n + m + 2^m + 2 gates, 2^m - 1 of them controlled Grover gates, the last one the inverse QFT on t |
| Estimate.CalculateCounterResult | qosf_task_1.py:387-398 | for 1 <= r < 2^m: theta/pi is r/2^m or 1 - r/2^m, folded into (0, 1/2]; iterations satisfy 4 theta/pi (it + 1/2) = 1 and are >= 0 |
| Estimate.CounterResultSymmetric | qosf_task_1.py:391-396 | outcomes r and 2^m - r give the same angle and the same number of iterations |
| Estimate.TurnBelowFold | qosf_task_1.py:394-395 | with 2r <= 2^m there is no fold: theta/pi = r/2^m |
| Estimate.IterationsAntitone | qosf_task_1.py:396 | pi/(4 theta) - 1/2 falls as theta grows |
| Estimate.CounterResultMonotone | qosf_task_1.py:394-396 | below the fold a larger outcome never needs more iterations |
| Estimate.RoundHalfEven | qosf_task_1.py:459 | `round`: within 1/2 of its argument, and even on a tie |
| Estimate.RoundHalfEvenUnique | qosf_task_1.py:459 | those two properties determine the rounded value |
| Estimate.Outcome | qosf_task_1.py:427 | `int(key[0:m], 2)` is below 2^m |
| Estimate.MaxOutcome | qosf_task_1.py:430 | `max(counts_int)` returns the largest key of a nonempty set |
| Estimate.CountOptimalIterations | qosf_task_1.py:419-431 | returns no-solution iff the all-zero key took more than half the shots; raises iff otherwise no nonzero outcome exists; else computes the result for the largest nonzero outcome r, 1 <= r < 2^m |
| Estimate.CountingNeverRaises | qosf_task_1.py:419-430 | when the histogram holds all of at least one shot and the zero test fails, a nonzero outcome exists, so `max` is defined |
| Search.CreateSearchCircuit | qosf_task_1.py:444-461 | builds H on x, X and H on y, then `rounds` Grover gates on all qubits |
| Search.SearchShape | qosf_task_1.py:451-461 | n + 2 + rounds gates, exactly `rounds` of them the Grover gate, all at the end |
| Search.ReverseKeys | qosf_task_1.py:471-475 | the loop builds the histogram with every key reversed |
| Search.ReversedCountsUnique | qosf_task_1.py:471-474 | a histogram holding exactly the reversed keys, each with its count, is that histogram |
| Search.ReversedCountsFaithful | qosf_task_1.py:471-475 | every reversed key keeps its count; nothing else appears; same number of keys and same total; reversing again restores the input |
| Search.RekeyedInvolution | qosf_task_1.py:473-474 | renaming keys by an involution twice gives the histogram back |
| Search.RekeyedTotal | qosf_task_1.py:473-474 | renaming keys by an involution keeps the number of keys and the total number of shots |
| Search.ReversedCountsRegister | qosf_task_1.py:473 | reversed keys of an m-bit register are still m-bit strings |
| Search.FindIndices | qosf_task_1.py:433-475 | no-solution and the `max` failure as in counting; otherwise round(iterations) Grover rounds for the largest nonzero outcome, that search circuit, and the measured keys reversed |
| Binary.FormatBits | qosf_task_1.py:152 | `format(v, "0<w>b")` has at least w binary digits, digit j from the right is bit j of v, and exactly w digits iff v < 2^w; `int(format(v, "0<w>b"), 2)` is v again |
| Binary.ZeroValueIsZeros | qosf_task_1.py:421-428 | a binary key has value 0 iff it is the all-zero key |

## Left out

- The simulator runs (`qiskit.execute`, the Aer backend, `get_counts`, lines 416-417 and 467-468) are not modelled. Their histograms are parameters of `Estimate.CountOptimalIterations` and `Search.FindIndices`. The circuit `count_optimal_iterations` builds around the counter and its measurements (lines 400-413, 464) is not modelled either.
- The amplitude semantics of H, P, CP, the QFT and the diffuser is not modelled. Complex linear algebra is out of reach here, so an operation that holds an H is evaluated by the `External` parameter, and phases only leave bits alone.
- The adder is therefore checked on its gate list (`Adder.AddEncodesSubsetSum`), but the claim that the sum circuit writes the subset sum into the target is the hypothesis `Oracle.AdderAdds`, not a theorem.
- Oracle.OracleFlipsY: stated for basis states whose target register is 0, and under the `AdderAdds` hypothesis. Superpositions are not covered.
- Grover.GroverOnBasis: the diffuser's effect on x is left to the `External` function; only the oracle half and the untouched registers are proved.
- `number_of_solutions = 2^n sin^2(theta)` (line 389) is not modelled. `Estimate.CalculateCounterResult` returns only the folded angle and the iterations.
- Floating point: angles are exact, as theta/pi on reals and as exponents k for pi/2^k. numpy's rounding of pi*r/2^m and of pi/(4 theta) is not modelled, so `round` acts on the exact value.
- Gate labels (`gate.label`) are kept only as the name of a frozen operation. The `create_*_gate` wrappers are the functions `QftGate`, `QftInverseGate`, `QftAddGate`, `QftAddControlledGate`, `AddGate`, `CheckerGate`, `ValidatorGate`, `ValidatorInverseGate`, `OracleGate`, `DiffuserGate`, `GroverGate`, `ControlledGroverGate` and `CounterGate`. They have no contracts of their own.
- Errors qiskit would raise are preconditions:
  - a qubit outside the circuit, repeated qubits, or an appended operation of the wrong width (`QuantumCircuit.Add`);
  - a multi-controlled X without controls (qiskit's controlled gates need at least one control), made part of `Circuits.Fits`;
  - hence the diffuser needs n >= 2: `create_diffuser_circuit(1)` calls `qc.mcx([], 0)`, and `create_diffuser_circuit(0)` addresses qubit 0 of an empty circuit;
  - and the oracle needs digits >= 1: with no target qubits, `qc.mcx(qreg_target[:], qreg_y)` has no controls;
  - so `Grover.CreateDiffuserCircuit` requires n >= 2, `Oracle.CreateGroverOracleCircuit` requires d >= 1, and the Grover iterate, the counter, the search circuit and `Search.FindIndices` require both.
- Estimate.CountOptimalIterations: assumes every key is an m-bit binary string, as `get_counts` gives for an m-bit register (`RegisterKeys`). For m = 0, Python raises in `int('', 2)` inside the loop; the model parses the empty key as 0 and reaches the same failure, `Raised`, at `max` instead.
- Estimate.CalculateCounterResult: requires 1 <= r < 2^m. r = 0 would divide by zero in Python, and the callers never pass it because outcome 0 is dropped from `counts_int`.
- The `__main__` block and `print` are not modelled.
