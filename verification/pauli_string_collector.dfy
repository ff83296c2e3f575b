/** `PauliStringSampleCollector`: estimates the energy of a weighted sum of
    Pauli observables by handing out bounded sampling jobs term by term,
    accumulating parity counts per observable, and averaging.

    The collector's mutable fields become the immutable datatype `Collector`;
    `next_job` and `on_job_result` become functions from one state to the next. */
module PauliStringCollector {
  import opened QubitOrder

  datatype Pauli = X | Y | Z

  /** A product of single-qubit Paulis with a scalar coefficient. The source's
      coefficients are complex; real ones are modelled here. */
  datatype PauliString = PauliString(paulis: map<Qubit, Pauli>, coefficient: real)

  /** `ops.PauliString(pauli_string)`: the same Paulis with coefficient 1. */
  function Unscaled(ps: PauliString): (r: PauliString)
    ensures r.paulis == ps.paulis && r.coefficient == 1.0
  {
    PauliString(ps.paulis, 1.0)
  }

  /** `coefficient * ps` as an operator. */
  function Scale(ps: PauliString, coefficient: real): PauliString {
    PauliString(ps.paulis, ps.coefficient * coefficient)
  }

  /** A term of the collector: an observable with unit coefficient and the
      weight its sampled expectation is multiplied by. */
  datatype Term = Term(observable: PauliString, coefficient: real)

  /** The circuit a job runs: the collector's base circuit followed by a
      moment rotating `observable` into the Z basis and a moment measuring
      `measured` under `key`. The base circuit is the same for every job and is
      left implicit. */
  datatype MeasurementCircuit = MeasurementCircuit(observable: PauliString, measured: seq<Qubit>, key: string)

  datatype Job = Job(circuit: MeasurementCircuit, repetitions: nat, id: PauliString)

  datatype Collector = Collector(
    terms: seq<Term>,
    samplesPerTerm: nat,
    maxSamplesPerJob: nat,
    totalSamplesRequested: nat,
    zeros: map<PauliString, nat>,
    ones: map<PauliString, nat>)

  /** The value a `defaultdict(lambda: 0)` reports for `key`. */
  function Count(m: map<PauliString, nat>, key: PauliString): nat {
    if key in m then m[key] else 0
  }

  /** The constructor's coefficient merge over `terms.items()`: one term per
      entry, in iteration order, whose observable drops the Pauli string's own
      coefficient and whose weight absorbs it. */
  function MergeTerms(items: seq<(PauliString, real)>): (terms: seq<Term>)
    ensures |terms| == |items|
    ensures forall i :: 0 <= i < |items| ==>
              && terms[i].observable.paulis == items[i].0.paulis
              && terms[i].observable.coefficient == 1.0
              && terms[i].coefficient == items[i].1 * items[i].0.coefficient
  {
    seq(|items|, i requires 0 <= i < |items| => Term(Unscaled(items[i].0), items[i].1 * items[i].0.coefficient))
  }

  /** Merging loses nothing: each term, read back as `coefficient * observable`,
      is the weighted Pauli string it came from. */
  lemma MergeKeepsWeightedTerms(items: seq<(PauliString, real)>, i: nat)
    requires i < |items|
    ensures Scale(MergeTerms(items)[i].observable, MergeTerms(items)[i].coefficient) == Scale(items[i].0, items[i].1)
  {
  }

  /** `PauliStringSampleCollector(circuit, samples_per_term, terms, max_samples_per_job)`. */
  function NewCollector(items: seq<(PauliString, real)>, samplesPerTerm: nat, maxSamplesPerJob: nat): (c: Collector)
    ensures c.terms == MergeTerms(items)
    ensures c.samplesPerTerm == samplesPerTerm && c.maxSamplesPerJob == maxSamplesPerJob
    ensures c.totalSamplesRequested == 0
    ensures forall key :: Count(c.zeros, key) == 0 && Count(c.ones, key) == 0
  {
    Collector(MergeTerms(items), samplesPerTerm, maxSamplesPerJob, 0, map[], map[])
  }

  /** `_circuit_plus_pauli_string_measurements`: the observable must act on at
      least one qubit (the source asserts it), and the measured qubits are its
      qubits in sorted order. */
  function CircuitFor(ps: PauliString): (circuit: MeasurementCircuit)
    requires |ps.paulis| > 0
    ensures circuit.observable == ps && circuit.key == "out"
    ensures StrictlyIncreasing(circuit.measured)
    ensures forall q :: q in circuit.measured <==> q in ps.paulis
    ensures |circuit.measured| == |ps.paulis| > 0
  {
    MeasurementCircuit(ps, SortedElements(ps.paulis.Keys), "out")
  }

  /** What `next_job` produces: the exhaustion signal, a job, or the assertion
      failure raised when the current term's observable is empty. */
  datatype JobOutcome = NoJob | Issued(job: Job) | EmptyObservable

  datatype Step = Step(collector: Collector, outcome: JobOutcome)

  function Min(a: int, b: int): int {
    if a < b then a else b
  }

  /** Floor division brackets its dividend. */
  lemma DivBounds(total: nat, samplesPerTerm: nat)
    requires samplesPerTerm > 0
    ensures samplesPerTerm * (total / samplesPerTerm) <= total < samplesPerTerm * (total / samplesPerTerm + 1)
  {
    var i := total / samplesPerTerm;
    assert total == samplesPerTerm * i + total % samplesPerTerm;
    assert samplesPerTerm * (i + 1) == samplesPerTerm * i + samplesPerTerm;
  }

  lemma MulMonotone(a: nat, b: nat, c: nat)
    requires b <= c
    ensures a * b <= a * c
  {
  }

  /** The collector has not requested more samples than all terms need. */
  predicate WithinQuota(c: Collector) {
    c.totalSamplesRequested <= c.samplesPerTerm * |c.terms|
  }

  /** `next_job`: serve term `total / samples_per_term`, requesting at most
      `max_samples_per_job` of the samples it is still owed. The counter is
      advanced before the circuit is built, so it also advances when the
      observable is empty and the circuit construction fails. */
  function NextJob(c: Collector): (step: Step)
    requires c.samplesPerTerm > 0
    ensures step.outcome.NoJob? <==> c.totalSamplesRequested / c.samplesPerTerm >= |c.terms|
    ensures step.outcome.NoJob? ==> step.collector == c
    ensures !step.outcome.NoJob? ==>
              var i := c.totalSamplesRequested / c.samplesPerTerm;
              && i < |c.terms|
              && step.collector == c.(totalSamplesRequested := c.totalSamplesRequested + Amount(c))
              && (step.outcome.EmptyObservable? <==> |c.terms[i].observable.paulis| == 0)
              && (step.outcome.Issued? ==>
                    && step.outcome.job.id == c.terms[i].observable
                    && step.outcome.job.repetitions == Amount(c)
                    && step.outcome.job.circuit == CircuitFor(c.terms[i].observable))
  {
    var i := c.totalSamplesRequested / c.samplesPerTerm;
    if i >= |c.terms| then Step(c, NoJob)
    else
      var pauli := c.terms[i].observable;
      var next := c.(totalSamplesRequested := c.totalSamplesRequested + Amount(c));
      if |pauli.paulis| == 0 then Step(next, EmptyObservable)
      else Step(next, Issued(Job(CircuitFor(pauli), Amount(c), pauli)))
  }

  /** `min(remaining, max_samples_per_job)`, where `remaining` is what the
      current term is still owed: `samples_per_term * (i + 1) - total`. */
  function Amount(c: Collector): (amount: nat)
    requires c.samplesPerTerm > 0
  {
    var i := c.totalSamplesRequested / c.samplesPerTerm;
    DivBounds(c.totalSamplesRequested, c.samplesPerTerm);
    Min(c.samplesPerTerm * (i + 1) - c.totalSamplesRequested, c.maxSamplesPerJob)
  }

  /** A job never exceeds the cap, is never empty when the cap is positive,
      never requests beyond the quota of the term it serves, and the collector
      never requests more than all terms need. */
  lemma NextJobStaysWithinQuota(c: Collector)
    requires c.samplesPerTerm > 0
    requires c.totalSamplesRequested / c.samplesPerTerm < |c.terms|
    ensures var i := c.totalSamplesRequested / c.samplesPerTerm;
            var after := NextJob(c).collector.totalSamplesRequested;
            && after - c.totalSamplesRequested <= c.maxSamplesPerJob
            && (c.maxSamplesPerJob > 0 ==> after > c.totalSamplesRequested)
            && after <= c.samplesPerTerm * (i + 1)
            && (after == c.samplesPerTerm * (i + 1) <==>
                c.samplesPerTerm * (i + 1) - c.totalSamplesRequested <= c.maxSamplesPerJob)
    ensures WithinQuota(c) ==> WithinQuota(NextJob(c).collector)
  {
    var i := c.totalSamplesRequested / c.samplesPerTerm;
    DivBounds(c.totalSamplesRequested, c.samplesPerTerm);
    MulMonotone(c.samplesPerTerm, i + 1, |c.terms|);
  }

  /** With `max_samples_per_job == 0` the collector never progresses: it keeps
      issuing empty jobs and its state does not change. */
  lemma ZeroCapStalls(c: Collector)
    requires c.samplesPerTerm > 0 && c.maxSamplesPerJob == 0
    requires c.totalSamplesRequested / c.samplesPerTerm < |c.terms|
    ensures NextJob(c).collector == c
    ensures NextJob(c).outcome.Issued? ==> NextJob(c).outcome.job.repetitions == 0
  {
  }

  /** `on_job_result`: add the even-parity count to `zeros[job.id]` and the
      odd-parity count to `ones[job.id]`. The parity histogram of the trial
      result is taken as the two counts. */
  function OnJobResult(c: Collector, job: Job, evens: nat, odds: nat): (next: Collector)
    ensures next.terms == c.terms && next.samplesPerTerm == c.samplesPerTerm
    ensures next.maxSamplesPerJob == c.maxSamplesPerJob
    ensures next.totalSamplesRequested == c.totalSamplesRequested
    ensures Count(next.zeros, job.id) == Count(c.zeros, job.id) + evens
    ensures Count(next.ones, job.id) == Count(c.ones, job.id) + odds
    ensures forall key :: key != job.id ==> Count(next.zeros, key) == Count(c.zeros, key)
    ensures forall key :: key != job.id ==> Count(next.ones, key) == Count(c.ones, key)
    ensures forall key :: Count(c.zeros, key) <= Count(next.zeros, key) && Count(c.ones, key) <= Count(next.ones, key)
  {
    c.(zeros := c.zeros[job.id := Count(c.zeros, job.id) + evens],
       ones := c.ones[job.id := Count(c.ones, job.id) + odds])
  }

  /** Results may be delivered in any order: applying two of them in either
      order gives the same collector. */
  lemma OnJobResultCommutes(c: Collector, j1: Job, e1: nat, o1: nat, j2: Job, e2: nat, o2: nat)
    ensures OnJobResult(OnJobResult(c, j1, e1, o1), j2, e2, o2) == OnJobResult(OnJobResult(c, j2, e2, o2), j1, e1, o1)
  {
    var a := OnJobResult(OnJobResult(c, j1, e1, o1), j2, e2, o2);
    var b := OnJobResult(OnJobResult(c, j2, e2, o2), j1, e1, o1);
    assert a.zeros == b.zeros;
    assert a.ones == b.ones;
  }

  /** The empirical expectation of a ±1-valued observable from `a` outcomes
      of +1 and `b` outcomes of -1; no samples means no contribution. */
  function Expectation(a: nat, b: nat): (e: real)
    ensures a + b == 0 ==> e == 0.0
    ensures a + b > 0 ==> e * (a as real + b as real) == (a as real - b as real)
  {
    if a + b == 0 then 0.0 else (a as real - b as real) / (a as real + b as real)
  }

  /** An empirical expectation lies in `[-1, 1]`. */
  lemma ExpectationInRange(a: nat, b: nat)
    ensures -1.0 <= Expectation(a, b) <= 1.0
  {
    if a + b > 0 {
      UnitBound(Expectation(a, b), a as real + b as real, a as real - b as real);
    }
  }

  /** A quantity `x` with `|x| <= n`, divided by `n`, lies in `[-1, 1]`. */
  lemma UnitBound(e: real, n: real, x: real)
    requires n > 0.0 && e * n == x && -n <= x <= n
    ensures -1.0 <= e <= 1.0
  {
  }

  /** What one term adds to the estimate: `coefficient * (a - b) / (a + b)`
      with the counts of its observable, or nothing when `a + b == 0`. It is
      the term's weight times the empirical expectation of its observable. */
  function Contribution(t: Term, zeros: map<PauliString, nat>, ones: map<PauliString, nat>): real
  {
    Weighted(t.coefficient, Count(zeros, t.observable), Count(ones, t.observable))
  }

  /** `coefficient * (a - b) / (a + b)`, skipped when `a + b == 0`. */
  function Weighted(coefficient: real, a: nat, b: nat): real
  {
    if a + b == 0 then 0.0 else coefficient * (a as real - b as real) / (a as real + b as real)
  }

  lemma ScaleQuotient(w: real, x: real, n: real)
    requires n != 0.0
    ensures w * x / n == w * (x / n)
  {
  }

  /** The source's `coefficient * (a - b) / (a + b)` is the weight times the
      empirical expectation, hence at most the absolute weight. */
  lemma WeightedIsScaledExpectation(w: real, a: nat, b: nat)
    ensures Weighted(w, a, b) == w * Expectation(a, b)
  {
    if a + b != 0 {
      ScaleQuotient(w, a as real - b as real, a as real + b as real);
    }
  }

  lemma WeightedBounded(w: real, a: nat, b: nat)
    ensures Abs(Weighted(w, a, b)) <= Abs(w)
  {
    WeightedIsScaledExpectation(w, a, b);
    ExpectationInRange(a, b);
    ScaledExpectationBounded(w, Expectation(a, b));
  }

  /** A term contributes its weight times its observable's empirical
      expectation, hence at most its absolute weight. */
  lemma ContributionBounded(t: Term, zeros: map<PauliString, nat>, ones: map<PauliString, nat>)
    ensures Contribution(t, zeros, ones) == t.coefficient * Expectation(Count(zeros, t.observable), Count(ones, t.observable))
    ensures Abs(Contribution(t, zeros, ones)) <= Abs(t.coefficient)
  {
    WeightedIsScaledExpectation(t.coefficient, Count(zeros, t.observable), Count(ones, t.observable));
    WeightedBounded(t.coefficient, Count(zeros, t.observable), Count(ones, t.observable));
  }

  /** The sum of the terms' contributions. */
  function Energy(terms: seq<Term>, zeros: map<PauliString, nat>, ones: map<PauliString, nat>): real
  {
    if |terms| == 0 then 0.0
    else Energy(terms[..|terms| - 1], zeros, ones) + Contribution(terms[|terms| - 1], zeros, ones)
  }

  function Abs(x: real): real {
    if x < 0.0 then -x else x
  }

  /** The sum of the absolute weights of the terms. */
  function TotalWeight(terms: seq<Term>): (w: real)
    ensures w >= 0.0
  {
    if |terms| == 0 then 0.0 else TotalWeight(terms[..|terms| - 1]) + Abs(terms[|terms| - 1].coefficient)
  }

  /** Scaling a value in `[-1, 1]` does not exceed the scale. */
  lemma ScaledExpectationBounded(w: real, e: real)
    requires -1.0 <= e <= 1.0
    ensures Abs(w * e) <= Abs(w)
  {
    if w >= 0.0 {
      assert w * e <= w * 1.0;
      assert w * (-1.0) <= w * e;
    } else {
      assert w * e <= w * (-1.0);
      assert w * 1.0 <= w * e;
    }
  }

  /** Every term contributes at most its absolute weight, so the estimate is
      bounded by the total absolute weight whatever the samples were. */
  lemma {:induction false} EnergyBounded(terms: seq<Term>, zeros: map<PauliString, nat>, ones: map<PauliString, nat>)
    ensures Abs(Energy(terms, zeros, ones)) <= TotalWeight(terms)
  {
    if |terms| > 0 {
      EnergyBounded(terms[..|terms| - 1], zeros, ones);
      ContributionBounded(terms[|terms| - 1], zeros, ones);
    }
  }

  /** Terms that have not been sampled contribute nothing: without samples the
      estimate is 0 rather than a division by zero. */
  lemma {:induction false} UnsampledEnergyIsZero(terms: seq<Term>, zeros: map<PauliString, nat>, ones: map<PauliString, nat>)
    requires forall i :: 0 <= i < |terms| ==> Count(zeros, terms[i].observable) + Count(ones, terms[i].observable) == 0
    ensures Energy(terms, zeros, ones) == 0.0
  {
    if |terms| > 0 {
      UnsampledEnergyIsZero(terms[..|terms| - 1], zeros, ones);
    }
  }

  /** A collector nobody has driven estimates 0. */
  lemma NewCollectorEstimatesZero(items: seq<(PauliString, real)>, samplesPerTerm: nat, maxSamplesPerJob: nat)
    ensures var c := NewCollector(items, samplesPerTerm, maxSamplesPerJob); Energy(c.terms, c.zeros, c.ones) == 0.0
  {
    var c := NewCollector(items, samplesPerTerm, maxSamplesPerJob);
    UnsampledEnergyIsZero(c.terms, c.zeros, c.ones);
  }

  /** The estimate only depends on the counts, not on which zero entries the
      maps happen to store. */
  lemma {:induction false} EnergyDependsOnlyOnCounts(terms: seq<Term>, z1: map<PauliString, nat>, o1: map<PauliString, nat>,
                                                     z2: map<PauliString, nat>, o2: map<PauliString, nat>)
    requires forall key :: Count(z1, key) == Count(z2, key) && Count(o1, key) == Count(o2, key)
    ensures Energy(terms, z1, o1) == Energy(terms, z2, o2)
  {
    if |terms| > 0 {
      var t := terms[|terms| - 1];
      EnergyDependsOnlyOnCounts(terms[..|terms| - 1], z1, o1, z2, o2);
      assert Count(z1, t.observable) == Count(z2, t.observable);
      assert Count(o1, t.observable) == Count(o2, t.observable);
    }
  }

  /** The estimate over one more term of the list adds that term's
      contribution. */
  lemma EnergyPrefixStep(terms: seq<Term>, k: nat, zeros: map<PauliString, nat>, ones: map<PauliString, nat>)
    requires k < |terms|
    ensures Energy(terms[..k + 1], zeros, ones) == Energy(terms[..k], zeros, ones) + Contribution(terms[k], zeros, ones)
  {
    assert terms[..k + 1][..k] == terms[..k] && terms[..k + 1][k] == terms[k];
  }

  /** The observables of a list of terms. */
  function Observables(terms: seq<Term>): (obs: set<PauliString>)
    ensures forall o :: o in obs <==> exists i :: 0 <= i < |terms| && terms[i].observable == o
  {
    if |terms| == 0 then {}
    else
      var prefix := terms[..|terms| - 1];
      assert forall i :: 0 <= i < |prefix| ==> prefix[i] == terms[i];
      Observables(prefix) + {terms[|terms| - 1].observable}
  }

  lemma UnionStep(a: set<PauliString>, b: set<PauliString>, x: PauliString)
    ensures (a + b) + {x} == a + (b + {x})
  {
  }

  /** Reading `key` from a `defaultdict`: afterwards the key is stored, and
      every key reports the count it reported before. */
  function Touch(m: map<PauliString, nat>, key: PauliString): (r: map<PauliString, nat>)
    ensures r.Keys == m.Keys + {key}
    ensures forall k :: Count(r, k) == Count(m, k)
  {
    m[key := Count(m, key)]
  }

  /** Reading the counts of every term's observable, in list order. */
  function TouchAll(m: map<PauliString, nat>, terms: seq<Term>): (r: map<PauliString, nat>)
    ensures r.Keys == m.Keys + Observables(terms)
    ensures forall k :: Count(r, k) == Count(m, k)
  {
    if |terms| == 0 then m
    else
      var prefix := terms[..|terms| - 1];
      UnionStep(m.Keys, Observables(prefix), terms[|terms| - 1].observable);
      Touch(TouchAll(m, prefix), terms[|terms| - 1].observable)
  }

  /** Reading one more term's counts touches that term's observable. */
  lemma TouchAllPrefixStep(m: map<PauliString, nat>, terms: seq<Term>, k: nat)
    requires k < |terms|
    ensures TouchAll(m, terms[..k + 1]) == Touch(TouchAll(m, terms[..k]), terms[k].observable)
  {
    assert terms[..k + 1][..k] == terms[..k] && terms[..k + 1][k] == terms[k];
  }

  /** One iteration of `estimated_energy`'s loop, on the estimate: with the
      counts `a` and `b` of term `k`'s observable, adding the term's guarded
      contribution extends the estimate by one term. */
  lemma EstimateStep(terms: seq<Term>, k: nat, zeros: map<PauliString, nat>, ones: map<PauliString, nat>, energy: real, a: nat, b: nat)
    requires k < |terms|
    requires energy == Energy(terms[..k], zeros, ones)
    requires a == Count(zeros, terms[k].observable) && b == Count(ones, terms[k].observable)
    ensures (if a + b != 0 then energy + Weighted(terms[k].coefficient, a, b) else energy) == Energy(terms[..k + 1], zeros, ones)
  {
    EnergyPrefixStep(terms, k, zeros, ones);
    GuardedWeighted(energy, terms[k].coefficient, a, b);
  }

  /** Skipping a term without samples is adding its zero contribution. */
  lemma GuardedWeighted(e: real, w: real, a: nat, b: nat)
    ensures (if a + b != 0 then e + Weighted(w, a, b) else e) == e + Weighted(w, a, b)
  {
  }

  /** `estimated_energy`. Reading a `defaultdict` inserts a zero entry for a
      missing key, so the method also returns the collector with an entry for
      every observable and no other new key; no count changes, and asking
      again gives the same estimate. */
  method EstimatedEnergy(c: Collector) returns (energy: real, touched: Collector)
    ensures energy == Energy(c.terms, c.zeros, c.ones)
    ensures touched.terms == c.terms && touched.totalSamplesRequested == c.totalSamplesRequested
    ensures touched.samplesPerTerm == c.samplesPerTerm && touched.maxSamplesPerJob == c.maxSamplesPerJob
    ensures forall key :: Count(touched.zeros, key) == Count(c.zeros, key) && Count(touched.ones, key) == Count(c.ones, key)
    ensures touched.zeros.Keys == c.zeros.Keys + Observables(c.terms)
    ensures touched.ones.Keys == c.ones.Keys + Observables(c.terms)
    ensures Energy(touched.terms, touched.zeros, touched.ones) == energy
  {
    energy := 0.0;
    var zeros: map<PauliString, nat> := c.zeros;
    var ones: map<PauliString, nat> := c.ones;
    var k := 0;
    while k < |c.terms|
      invariant 0 <= k <= |c.terms|
      invariant energy == Energy(c.terms[..k], c.zeros, c.ones)
      invariant zeros == TouchAll(c.zeros, c.terms[..k])
      invariant ones == TouchAll(c.ones, c.terms[..k])
    {
      var t := c.terms[k];
      var a := Count(zeros, t.observable);
      var b := Count(ones, t.observable);
      TouchAllPrefixStep(c.zeros, c.terms, k);
      TouchAllPrefixStep(c.ones, c.terms, k);
      EstimateStep(c.terms, k, c.zeros, c.ones, energy, a, b);
      zeros := Touch(zeros, t.observable);
      ones := Touch(ones, t.observable);
      if a + b != 0 {
        energy := energy + Weighted(t.coefficient, a, b);
      }
      k := k + 1;
    }
    assert c.terms[..|c.terms|] == c.terms;
    touched := c.(zeros := zeros, ones := ones);
    EnergyDependsOnlyOnCounts(c.terms, c.zeros, c.ones, zeros, ones);
  }

  /** One term of weight 2 whose observable saw 30 even and 10 odd outcomes
      estimates `2 * (30 - 10) / (30 + 10) = 1`. */
  lemma SingleTermEstimate(ps: PauliString)
    requires |ps.paulis| > 0 && ps.coefficient == 1.0
    ensures var c := OnJobResult(NewCollector([(ps, 2.0)], 40, 1000), Job(CircuitFor(ps), 40, ps), 30, 10);
            Energy(c.terms, c.zeros, c.ones) == 1.0
  {
    var c := OnJobResult(NewCollector([(ps, 2.0)], 40, 1000), Job(CircuitFor(ps), 40, ps), 30, 10);
    assert c.terms == [Term(ps, 2.0)];
    assert Count(c.zeros, ps) == 30 && Count(c.ones, ps) == 10;
    assert c.terms[..0] == [];
    assert Energy(c.terms, c.zeros, c.ones) == 0.0 + Weighted(2.0, 30, 10);
    assert Weighted(2.0, 30, 10) == 2.0 * 20.0 / 40.0;
  }
}
