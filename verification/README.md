# has_unitary and PauliStringSampleCollector, modelled in Dafny

This project models two pieces of Cirq.

**`cirq.has_unitary`** (module `HasUnitary`). The function decides whether a value has a unitary
effect. It tries four strategies in order:

1. the value's own `_has_unitary_` answer;
2. one level of decomposition, with every part resolved recursively;
3. `_apply_unitary_` on a basis-state probe;
4. `_unitary_`.

The first conclusive answer decides, and the default is `false`. The module also models
`_try_decompose_into_operations_and_qubits`, which picks the qubits a decomposition acts on. Python's
duck-typed capabilities become optional fields of the datatype `Val`. A decomposition's parts are
structurally smaller values, which is the acyclicity the source relies on for termination.

**`PauliStringSampleCollector`** (modules `PauliStringCollector` and `SampleSchedule`). The collector
estimates the energy of a weighted sum of Pauli observables:

- `next_job` hands out sampling jobs term by term, each capped at `max_samples_per_job`;
- `on_job_result` accumulates parity counts per observable;
- `estimated_energy` averages them.

The collector's mutable state is the immutable datatype `Collector`, and each method is a function from
one state to the next. `SampleSchedule` models a driver that calls `next_job` until it signals
exhaustion. It proves the exact-quota property for a collector whose observables each act on at least
one qubit: the job stream is each term's block of batches, in term order, with exactly `samples_per_term`
repetitions per term. An empty observable, such as the identity term of a Hamiltonian, behaves as the
code does. `next_job` advances the counter and then fails the circuit construction's assertion, so
driving stops at that term.

`QubitOrder` holds the two qubit orderings the core uses:

- `LineQubit.range(n)`;
- `sorted(...)` over a set of qubits.

It proves that the sorted sequence is the unique strictly increasing sequence with those elements.

Where the docstring and the code disagree, the model follows the code:

- `_unitary_` returning `NotImplemented` is documented as inconclusive, but the code treats it as "not
  unitary". `HasUnitary.DocumentedUnitaryStrategyAgrees` proves that both readings give the same resolver
  answer.
- The constructor comment "Merge coefficients" folds each Pauli string's own coefficient into its weight.
  It does not sum duplicate entries: the items of the `LinearDict` are kept one term each, in iteration
  order. The copy `ops.PauliString(pauli_string)` is taken to keep the Paulis with coefficient 1, which
  is what the comment implies. Under that reading, terms whose observables coincide share one pair of
  counters, because the counters are keyed by observable.

## Model

| member | source | states |
|---|---|---|
| HasUnitary.FirstConclusive | cirq/protocols/has_unitary.py:105-111 | the decision rule: when every answer is inconclusive the result is `false`; otherwise it is the value of the first conclusive answer |
| HasUnitary.HasUnitary | cirq/protocols/has_unitary.py:51-111 | a conclusive `_has_unitary_` answer is returned verbatim; a value with no decomposition, no `_apply_unitary_`, no `_unitary_` and no conclusive flag is not unitary |
| HasUnitary.FromHasUnitary | cirq/protocols/has_unitary.py:114-120 | inconclusive exactly when the method is missing or returns `NotImplemented`; otherwise the method's own answer |
| HasUnitary.FromDecompose | cirq/protocols/has_unitary.py:132-140 | inconclusive exactly when there is no decomposition; an empty decomposition is unitary |
| HasUnitary.ProbeQubits | cirq/protocols/has_unitary.py:152-155 | a gate is probed on `LineQubit.range(num_qubits)` and an operation on its own qubits; any other value is not probed |
| HasUnitary.FromApplyUnitary | cirq/protocols/has_unitary.py:143-163 | inconclusive exactly when the method is missing, the value is neither a gate nor an operation, or it returns `NotImplemented`; `true` exactly for a returned buffer; `false` exactly for `None` |
| HasUnitary.FromUnitary | cirq/protocols/has_unitary.py:123-129 | inconclusive exactly when `_unitary_` is missing; `true` exactly when it returns a matrix |
| HasUnitary.ResolverIsFirstConclusive | cirq/protocols/has_unitary.py:99-111 | `has_unitary` equals the first conclusive strategy in the order has_unitary, decompose, apply_unitary, unitary, and is `false` when all four are inconclusive |
| HasUnitary.LaterStrategiesNotConsulted | cirq/protocols/has_unitary.py:105-108 | once strategy `k` is the first conclusive one, values that agree on what strategies `0..k` read get the same answer, whatever their later capabilities |
| HasUnitary.DecomposeIsConjunction | cirq/protocols/has_unitary.py:137-140 | the decomposition strategy is `true` iff every part is unitary, and `false` iff some part is not |
| HasUnitary.DecomposableResolvesToParts | cirq/protocols/has_unitary.py:132-140 | with an inconclusive flag, a decomposable value is unitary iff all its parts are |
| HasUnitary.UnitaryTreeResolvesTrue | cirq/protocols/has_unitary.py:65-71 | every finite decomposition tree whose leaves declare themselves unitary resolves to `true`, at any depth |
| HasUnitary.NonUnitaryPartPropagates | cirq/protocols/has_unitary.py:137-140 | one non-unitary part makes a value with an inconclusive flag non-unitary, whatever its later strategies say |
| HasUnitary.FromUnitaryAsDocumented | cirq/protocols/has_unitary.py:81-87 | the documented reading of strategy 4: inconclusive for a missing method or `NotImplemented`, `true` exactly for a returned matrix |
| HasUnitary.DocumentedUnitaryStrategyAgrees | cirq/protocols/has_unitary.py:81-91 | resolving with the documented strategy 4 gives the same answer as the code's strategy 4 for every value |
| HasUnitary.TouchedQubits | cirq/protocols/has_unitary.py:185 | a qubit is in the set iff some operation of the decomposition acts on it |
| HasUnitary.TryDecompose | cirq/protocols/has_unitary.py:166-188 | the decomposition is passed through unchanged; a gate gets `LineQubit.range(num_qubits)`; an operation gets its own qubits; another decomposable value gets the sorted, duplicate-free union of its parts' qubits; anything else gets `(None, ())` |
| HasUnitary.DecomposeStrategyUsesTryDecompose | cirq/protocols/has_unitary.py:134-136 | the decomposition strategy is inconclusive exactly when the first component of `_try_decompose_into_operations_and_qubits` is `None` |
| HasUnitary.ConjunctionExamples | cirq/protocols/has_unitary.py:137-140 | parts resolving to `[true, true, false]` give `false` even when later strategies would say unitary; parts resolving to `[true, true]` give `true` |
| QubitOrder.LineRange | cirq/protocols/has_unitary.py:177 | `LineQubit.range(n)` has `n` qubits, the `i`-th is qubit `i`, and they are strictly increasing |
| QubitOrder.SortedElements | cirq/protocols/has_unitary.py:185 | `sorted` of a set is strictly increasing, has exactly the set's elements and has the set's size |
| QubitOrder.StrictlyIncreasingUnique | cirq/protocols/has_unitary.py:185 | two strictly increasing sequences with the same elements are equal, so the sorted order is the only one possible |
| PauliStringCollector.Unscaled | cirq/work/pauli_string_collector.py:46 | copying a Pauli string keeps its Paulis and resets its coefficient to 1 |
| PauliStringCollector.MergeTerms | cirq/work/pauli_string_collector.py:44-48 | one term per dictionary item, in order; the observable has the item's Paulis with coefficient 1; the weight is the item's weight times the Pauli string's coefficient |
| PauliStringCollector.MergeKeepsWeightedTerms | cirq/work/pauli_string_collector.py:44-48 | each merged term, read back as weight times observable, is the weighted Pauli string it came from |
| PauliStringCollector.NewCollector | cirq/work/pauli_string_collector.py:28-52 | a new collector holds the merged terms and both parameters, has requested nothing, and reports zero counts for every observable |
| PauliStringCollector.CircuitFor | cirq/work/pauli_string_collector.py:89-102 | needs a non-empty observable; measures exactly its qubits, in sorted order and without duplicates, under the key `"out"` |
| PauliStringCollector.NextJob | cirq/work/pauli_string_collector.py:54-67 | no job exactly when `total // samples_per_term` is past the last term, and then the state is unchanged; otherwise the counter advances by the capped amount still owed to that term and the job measures that term's observable with that many repetitions; an empty observable fails after the counter has advanced |
| PauliStringCollector.NextJobStaysWithinQuota | cirq/work/pauli_string_collector.py:59-62 | a job never exceeds the cap and never requests beyond the current term's quota; it completes the term exactly when the amount still owed fits under the cap; it always progresses when the cap is positive; the total never exceeds what all terms need |
| PauliStringCollector.ZeroCapStalls | cirq/work/pauli_string_collector.py:61-62 | with `max_samples_per_job == 0` the state never changes and every job is empty |
| PauliStringCollector.OnJobResult | cirq/work/pauli_string_collector.py:69-76 | adds the even count to `zeros[job.id]` and the odd count to `ones[job.id]`; every other counter and all scheduling state are untouched; counts never decrease |
| PauliStringCollector.OnJobResultCommutes | cirq/work/pauli_string_collector.py:69-76 | applying two results in either order gives the same collector |
| PauliStringCollector.Expectation | cirq/work/pauli_string_collector.py:84-85 | with no samples the expectation is 0; otherwise it times `a + b` is `a - b` |
| PauliStringCollector.ExpectationInRange | cirq/work/pauli_string_collector.py:84-85 | an empirical expectation lies in `[-1, 1]` |
| PauliStringCollector.WeightedIsScaledExpectation | cirq/work/pauli_string_collector.py:84-85 | `coef * (a - b) / (a + b)`, skipped when `a + b == 0`, is the weight times the empirical expectation |
| PauliStringCollector.WeightedBounded | cirq/work/pauli_string_collector.py:85 | a weighted expectation is at most the absolute weight in absolute value |
| PauliStringCollector.ContributionBounded | cirq/work/pauli_string_collector.py:81-85 | a term contributes its weight times its observable's empirical expectation, so at most its absolute weight |
| PauliStringCollector.EnergyBounded | cirq/work/pauli_string_collector.py:78-86 | whatever the samples, the absolute estimate is at most the sum of the terms' absolute weights |
| PauliStringCollector.UnsampledEnergyIsZero | cirq/work/pauli_string_collector.py:84 | terms with no samples contribute nothing, so an unsampled collector estimates 0 without dividing by zero |
| PauliStringCollector.NewCollectorEstimatesZero | cirq/work/pauli_string_collector.py:49-52 | a collector nobody has driven estimates 0 |
| PauliStringCollector.EnergyDependsOnlyOnCounts | cirq/work/pauli_string_collector.py:82-83 | the estimate depends only on the counts the default dictionaries report, not on which zero entries they store |
| PauliStringCollector.EstimatedEnergy | cirq/work/pauli_string_collector.py:78-86 | the loop returns the sum of the terms' contributions; it leaves every count and the scheduling state as they were and stores an entry for each observable and no other new key; asking again gives the same value |
| PauliStringCollector.TouchAll | cirq/work/pauli_string_collector.py:81-83 | reading every term's counts from the default dictionaries stores exactly the terms' observables as new keys and changes no count |
| PauliStringCollector.SingleTermEstimate | cirq/work/pauli_string_collector.py:78-86 | one term of weight 2 with 30 even and 10 odd outcomes estimates 1 |
| SampleSchedule.Split | cirq/work/pauli_string_collector.py:59-62 | the batches for `n` owed samples add up to `n`, each is between 1 and the cap, and all but the last are full |
| SampleSchedule.ScheduleTotals | cirq/work/pauli_string_collector.py:54-67 | the reference schedule requests exactly `samples_per_term` times the number of terms |
| SampleSchedule.ScheduleBatchesBounded | cirq/work/pauli_string_collector.py:61 | every scheduled job has between 1 and `max_samples_per_job` repetitions |
| SampleSchedule.Drive | cirq/work/pauli_string_collector.py:54-67 | calling `next_job` until it stops changes only the counter; the counter grows by at least the jobs' total repetitions; every job has between 1 and the cap repetitions |
| SampleSchedule.NextJobAdvances | cirq/work/pauli_string_collector.py:59-62 | with a positive cap, an issued job is non-empty and within the cap, and the counter strictly grows without leaving the quota |
| SampleSchedule.AmountAtPosition | cirq/work/pauli_string_collector.py:59-61 | the amount requested is the rest of the current term's quota, `samples_per_term - total % samples_per_term`, capped |
| SampleSchedule.NextJobPosition | cirq/work/pauli_string_collector.py:55-62 | after one job either the next term starts (when the rest fits under the cap) or the current term advances by one full batch |
| SampleSchedule.ExhaustedPosition | cirq/work/pauli_string_collector.py:55-57 | a collector within its quota that signals exhaustion has requested exactly `samples_per_term` per term |
| SampleSchedule.NextJobTakesFirstScheduled | cirq/work/pauli_string_collector.py:54-67 | one `next_job` call issues exactly the first job still to come in the reference schedule and leaves the rest of the schedule to come |
| SampleSchedule.DriveFollowsSchedule | cirq/work/pauli_string_collector.py:54-67 | from any position within the quota, the job stream is the rest of the current term's block followed by the later terms' blocks, and it ends with every quota met |
| SampleSchedule.FreshCollectorRemaining | cirq/work/pauli_string_collector.py:52 | a collector that has requested nothing has the whole schedule ahead of it |
| SampleSchedule.FreshDriveIsSchedule | cirq/work/pauli_string_collector.py:54-67 | driving a fresh collector yields the whole reference schedule |
| SampleSchedule.FreshDriveExhausts | cirq/work/pauli_string_collector.py:55-57 | after driving a fresh collector it has requested `samples_per_term` per term and `next_job` returns nothing |
| SampleSchedule.ExhaustedAt | cirq/work/pauli_string_collector.py:55-57 | a collector that has requested `samples_per_term` for every term gets no further job |
| SampleSchedule.ExactQuota | cirq/work/pauli_string_collector.py:28-67 | a fresh collector with measurable observables emits the terms' blocks in term order; it requests exactly `samples_per_term` per term, in jobs of between 1 and `max_samples_per_job` repetitions, and then signals exhaustion |
| SampleSchedule.BatchingExample | cirq/work/pauli_string_collector.py:59-62 | one term, 2500 samples, cap 1000: the jobs request 1000, 1000 and 500, and the counter ends at 2500 |
| SampleSchedule.OrderingExample | cirq/work/pauli_string_collector.py:54-67 | two terms of 100 samples under a cap of 1000: the first job serves all of term 0, the second all of term 1, then exhaustion |

## Left out

- Probe buffers and linear algebra: the one-hot `numpy` state, the buffer and `ApplyUnitaryArgs` of strategy 3 are not modelled. Only what `_apply_unitary_` returns matters to the resolver, so that result is a field of `Val`.
- `decompose_once` and `decompose_once_with_qubits`: `cirq/protocols/decompose.py` is not part of this model. Their result is the `decomposition` field of `Val`.
- Duck typing: a `_has_unitary_` that returns something other than a boolean or `NotImplemented` is not modelled; the flag is a boolean.
- Decomposition parts: the parts of a decomposition are assumed to be operations, as the return type promises. `TryDecompose` requires this of values that are neither gates nor operations.
- `_strat_has_unitary_from_decompose`: the check for `None` or `NotImplemented` among the parts' answers is not modelled, because `has_unitary` always returns a boolean and the check never fires.
- Qubits: a qubit is its `LineQubit` index, and qubit ordering is integer ordering. Other qubit types are not modelled.
- Circuits: the base circuit, the Z-basis rotation moment and the `measure` gate are not modelled. A job's circuit records the observable, the measured qubits and the key, since the base circuit is the same for every job.
- Histogram: `TrialResult.histogram` and the parity fold in `on_job_result` are not modelled. `OnJobResult` takes the even and odd counts as parameters.
- Sampler, driver loop and asynchronous I/O: `cirq/work/collector.py` is not part of this model. `Drive` models only the driver's calls to `next_job`.
- Complex numbers: coefficients are modelled as exact reals, not complex values.
- Floating point: the estimate is an exact real, not a Python float with rounding.
- `estimated_energy` returns the integer `0` in the source when no term has been sampled; the model returns `0.0`.
- Unscaled: the `PauliString` constructor is not part of this model. The copy at line 46 is taken to keep the Paulis with coefficient 1, which is what the "Merge coefficients" comment at line 45 implies. `MergeTerms`'s unit-coefficient observable rests on that reading. The estimate does not depend on it, because the job id and the count lookup use the same copy.
- Negative `samples_per_term` or `max_samples_per_job`: not modelled, because the parameters are natural numbers.
- NextJob: requires `samples_per_term > 0`. With 0 the source raises `ZeroDivisionError`; that error path is not modelled.
- Drive: requires `max_samples_per_job > 0`. With 0 the source's driver would never terminate; `ZeroCapStalls` states that behaviour instead.
- `LinearDict` arithmetic: the collector's terms are given as the sequence of `(pauli_string, weight)` items the dictionary iterates.
