/** The job stream a collector produces when a driver keeps calling
    `next_job` until it signals exhaustion, and the exact-quota property of
    that stream: every term receives exactly `samples_per_term` repetitions,
    in batches of at most `max_samples_per_job`, one term after the other.

    The driver itself (hand each job to a sampler, feed the result back) lives
    outside the collector; `Drive` models only its calls to `next_job`. */
module SampleSchedule {
  import opened PauliStringCollector

  function Sum(s: seq<nat>): nat {
    if |s| == 0 then 0 else s[0] + Sum(s[1..])
  }

  lemma {:induction false} SumConcat(a: seq<nat>, b: seq<nat>)
    ensures Sum(a + b) == Sum(a) + Sum(b)
    decreases |a|
  {
    if |a| > 0 {
      SumConcat(a[1..], b);
      assert (a + b)[1..] == a[1..] + b;
    } else {
      assert a + b == b;
    }
  }

  /** How `n` outstanding samples are requested under a per-job cap: full
      batches of `cap` and one final smaller batch. */
  function Split(n: nat, cap: nat): (batches: seq<nat>)
    requires cap > 0
    ensures Sum(batches) == n
    ensures forall j :: 0 <= j < |batches| ==> 0 < batches[j] <= cap
    ensures forall j :: 0 <= j < |batches| - 1 ==> batches[j] == cap
    decreases n
  {
    if n == 0 then []
    else if n <= cap then [n]
    else
      var rest := Split(n - cap, cap);
      assert ([cap] + rest)[1..] == rest;
      [cap] + rest
  }

  function Repetitions(jobs: seq<Job>): (reps: seq<nat>)
    ensures |reps| == |jobs|
    ensures forall j :: 0 <= j < |jobs| ==> reps[j] == jobs[j].repetitions
  {
    seq(|jobs|, j requires 0 <= j < |jobs| => jobs[j].repetitions)
  }

  /** Jobs for `observable`, one per batch size in `reps`. */
  function Tag(reps: seq<nat>, observable: PauliString): (jobs: seq<Job>)
    requires |observable.paulis| > 0
    ensures Repetitions(jobs) == reps
    ensures forall j :: 0 <= j < |jobs| ==> jobs[j].id == observable && jobs[j].circuit == CircuitFor(observable)
  {
    if |reps| == 0 then []
    else [Job(CircuitFor(observable), reps[0], observable)] + Tag(reps[1..], observable)
  }

  /** The jobs that serve the last `n` samples owed to one term. */
  function Block(t: Term, n: nat, cap: nat): seq<Job>
    requires cap > 0 && |t.observable.paulis| > 0
  {
    Tag(Split(n, cap), t.observable)
  }

  /** Every observable can be measured: the circuit construction's assertion
      never fails. */
  predicate Measurable(terms: seq<Term>) {
    forall i :: 0 <= i < |terms| ==> |terms[i].observable.paulis| > 0
  }

  /** The reference schedule: each term's full block, in list order. */
  function Schedule(terms: seq<Term>, samplesPerTerm: nat, cap: nat): seq<Job>
    requires cap > 0 && Measurable(terms)
  {
    if |terms| == 0 then []
    else Block(terms[0], samplesPerTerm, cap) + Schedule(terms[1..], samplesPerTerm, cap)
  }

  lemma RepetitionsConcat(a: seq<Job>, b: seq<Job>)
    ensures Repetitions(a + b) == Repetitions(a) + Repetitions(b)
  {
  }

  lemma MulSucc(a: nat, n: nat)
    ensures a * (n + 1) == a + a * n
  {
  }

  /** The schedule requests exactly `samples_per_term` for every term, and
      never more than the cap in one job. */
  lemma {:induction false} ScheduleTotals(terms: seq<Term>, samplesPerTerm: nat, cap: nat)
    requires cap > 0 && Measurable(terms)
    ensures Sum(Repetitions(Schedule(terms, samplesPerTerm, cap))) == samplesPerTerm * |terms|
  {
    if |terms| > 0 {
      var head := Block(terms[0], samplesPerTerm, cap);
      var tail := Schedule(terms[1..], samplesPerTerm, cap);
      ScheduleTotals(terms[1..], samplesPerTerm, cap);
      RepetitionsConcat(head, tail);
      SumConcat(Repetitions(head), Repetitions(tail));
      assert Sum(Repetitions(head)) == samplesPerTerm;
      MulSucc(samplesPerTerm, |terms| - 1);
    }
  }

  lemma {:induction false} ScheduleBatchesBounded(terms: seq<Term>, samplesPerTerm: nat, cap: nat)
    requires cap > 0 && Measurable(terms)
    ensures forall j :: 0 <= j < |Schedule(terms, samplesPerTerm, cap)| ==>
              0 < Schedule(terms, samplesPerTerm, cap)[j].repetitions <= cap
  {
    if |terms| > 0 {
      var head := Block(terms[0], samplesPerTerm, cap);
      ScheduleBatchesBounded(terms[1..], samplesPerTerm, cap);
      assert Repetitions(head) == Split(samplesPerTerm, cap);
      assert forall j :: 0 <= j < |head| ==> head[j].repetitions == Split(samplesPerTerm, cap)[j];
    }
  }

  /** The jobs still to come, according to the schedule, once term `i` has
      received `d` of its samples: the rest of term `i`'s block, then the
      blocks of the later terms. */
  function RemainingAt(terms: seq<Term>, samplesPerTerm: nat, cap: nat, i: nat, d: nat): seq<Job>
    requires cap > 0 && Measurable(terms) && d < samplesPerTerm
  {
    if i >= |terms| then []
    else Block(terms[i], samplesPerTerm - d, cap) + Schedule(terms[i + 1..], samplesPerTerm, cap)
  }

  /** The jobs still to come from a collector, according to the schedule. */
  function Remaining(c: Collector): seq<Job>
    requires c.samplesPerTerm > 0 && c.maxSamplesPerJob > 0 && Measurable(c.terms)
  {
    RemainingAt(c.terms, c.samplesPerTerm, c.maxSamplesPerJob,
                c.totalSamplesRequested / c.samplesPerTerm, c.totalSamplesRequested % c.samplesPerTerm)
  }

  /** The jobs a driver obtains by calling `next_job` until it returns nothing
      (or raises), and the collector it leaves behind. */
  datatype Run = Run(jobs: seq<Job>, final: Collector)

  function Drive(c: Collector): (r: Run)
    requires c.samplesPerTerm > 0 && c.maxSamplesPerJob > 0 && WithinQuota(c)
    ensures r.final.terms == c.terms && r.final.zeros == c.zeros && r.final.ones == c.ones
    ensures r.final.samplesPerTerm == c.samplesPerTerm && r.final.maxSamplesPerJob == c.maxSamplesPerJob
    ensures c.totalSamplesRequested + Sum(Repetitions(r.jobs)) <= r.final.totalSamplesRequested
    ensures forall j :: 0 <= j < |r.jobs| ==> 0 < r.jobs[j].repetitions <= c.maxSamplesPerJob
    decreases c.samplesPerTerm * |c.terms| - c.totalSamplesRequested
  {
    var step := NextJob(c);
    match step.outcome
    case NoJob => Run([], c)
    case EmptyObservable => Run([], step.collector)
    case Issued(job) =>
      NextJobAdvances(c);
      var rest := Drive(step.collector);
      SumRepetitionsCons(job, rest.jobs);
      Run([job] + rest.jobs, rest.final)
  }

  /** With a positive cap, a job is non-empty and the collector moves forward
      without leaving its quota. */
  lemma NextJobAdvances(c: Collector)
    requires c.samplesPerTerm > 0 && c.maxSamplesPerJob > 0 && WithinQuota(c)
    requires c.totalSamplesRequested / c.samplesPerTerm < |c.terms|
    ensures c.totalSamplesRequested < NextJob(c).collector.totalSamplesRequested <= c.samplesPerTerm * |c.terms|
    ensures NextJob(c).outcome.Issued? ==> 0 < NextJob(c).outcome.job.repetitions <= c.maxSamplesPerJob
  {
    NextJobStaysWithinQuota(c);
  }

  lemma SumRepetitionsCons(job: Job, jobs: seq<Job>)
    ensures Sum(Repetitions([job] + jobs)) == job.repetitions + Sum(Repetitions(jobs))
  {
    assert Repetitions([job] + jobs) == [job.repetitions] + Repetitions(jobs);
    assert ([job.repetitions] + Repetitions(jobs))[1..] == Repetitions(jobs);
  }

  /** `(q * d + r) / d == q` and `(q * d + r) % d == r` for `0 <= r < d`. */
  lemma DivModOf(d: nat, q: nat, r: nat)
    requires 0 <= r < d
    ensures (d * q + r) / d == q && (d * q + r) % d == r
  {
    var n := d * q + r;
    var q', r' := n / d, n % d;
    assert n == d * q' + r';
    if q' > q {
      assert d * q' >= d * (q + 1) by {
        MulMonotone(d, q + 1, q');
      }
    } else if q' < q {
      assert d * q >= d * (q' + 1) by {
        MulMonotone(d, q' + 1, q);
      }
    }
  }

  lemma {:induction false} ScheduleUnfold(terms: seq<Term>, k: nat, samplesPerTerm: nat, cap: nat)
    requires cap > 0 && Measurable(terms) && k < |terms|
    ensures Schedule(terms[k..], samplesPerTerm, cap) ==
            Block(terms[k], samplesPerTerm, cap) + Schedule(terms[k + 1..], samplesPerTerm, cap)
  {
    assert terms[k..][1..] == terms[k + 1..];
  }

  /** Where one call of `next_job` leaves the collector: if the current term
      is owed no more than the cap, the next term starts; otherwise the
      current term advances by a full batch. */
  lemma NextJobPosition(c: Collector)
    requires c.samplesPerTerm > 0 && c.totalSamplesRequested / c.samplesPerTerm < |c.terms|
    ensures var spt, d := c.samplesPerTerm, c.totalSamplesRequested % c.samplesPerTerm;
            var i := c.totalSamplesRequested / c.samplesPerTerm;
            var after := NextJob(c).collector.totalSamplesRequested;
            && Amount(c) == Min(spt - d, c.maxSamplesPerJob)
            && (spt - d <= c.maxSamplesPerJob ==> after / spt == i + 1 && after % spt == 0)
            && (spt - d > c.maxSamplesPerJob ==> after / spt == i && after % spt == d + c.maxSamplesPerJob)
  {
    assert !NextJob(c).outcome.NoJob?;
    assert NextJob(c).collector.totalSamplesRequested == c.totalSamplesRequested + Amount(c);
    AmountAtPosition(c);
    PositionStep(c.totalSamplesRequested, c.samplesPerTerm, c.maxSamplesPerJob, NextJob(c).collector.totalSamplesRequested);
  }

  /** What `next_job` requests, in terms of the position within the current
      term: the rest of the term's quota, capped. */
  lemma AmountAtPosition(c: Collector)
    requires c.samplesPerTerm > 0
    ensures Amount(c) == Min(c.samplesPerTerm - c.totalSamplesRequested % c.samplesPerTerm, c.maxSamplesPerJob)
  {
    var spt, total := c.samplesPerTerm, c.totalSamplesRequested;
    MulSucc(spt, total / spt);
    assert spt * (total / spt + 1) - total == spt - total % spt;
  }

  /** The arithmetic of one step: from position `(total / spt, total % spt)`,
      adding the capped rest of the term either reaches the start of the next
      term or moves `cap` further within the same term. */
  lemma PositionStep(total: nat, spt: nat, cap: nat, after: nat)
    requires spt > 0 && after == total + Min(spt - total % spt, cap)
    ensures spt - total % spt <= cap ==> after / spt == total / spt + 1 && after % spt == 0
    ensures spt - total % spt > cap ==> after / spt == total / spt && after % spt == total % spt + cap
  {
    var i, d := total / spt, total % spt;
    assert total == spt * i + d;
    if spt - d <= cap {
      MulSucc(spt, i);
      assert after == spt * (i + 1) + 0;
      DivModOf(spt, i + 1, 0);
    } else {
      assert after == spt * i + (d + cap);
      DivModOf(spt, i, d + cap);
    }
  }

  /** A collector within its quota that signals exhaustion has requested
      exactly the samples all terms need. */
  lemma ExhaustedPosition(c: Collector)
    requires c.samplesPerTerm > 0 && WithinQuota(c) && c.totalSamplesRequested / c.samplesPerTerm >= |c.terms|
    ensures c.totalSamplesRequested == c.samplesPerTerm * |c.terms|
  {
    DivBounds(c.totalSamplesRequested, c.samplesPerTerm);
    MulMonotone(c.samplesPerTerm, |c.terms|, c.totalSamplesRequested / c.samplesPerTerm);
  }

  /** The first batch of a block: the whole remainder when it fits under the
      cap, otherwise a full batch followed by the block for what is left. */
  lemma BlockStep(t: Term, n: nat, cap: nat)
    requires cap > 0 && |t.observable.paulis| > 0 && n > 0
    ensures n <= cap ==> Block(t, n, cap) == [Job(CircuitFor(t.observable), n, t.observable)]
    ensures n > cap ==> Block(t, n, cap) == [Job(CircuitFor(t.observable), cap, t.observable)] + Block(t, n - cap, cap)
  {
    if n > cap {
      var rest := Split(n - cap, cap);
      assert Split(n, cap) == [cap] + rest;
      assert ([cap] + rest)[1..] == rest;
    }
  }

  /** Past term `i`, the remainder is the schedule of the later terms. */
  lemma RemainingAtNextTerm(terms: seq<Term>, samplesPerTerm: nat, cap: nat, i: nat)
    requires cap > 0 && Measurable(terms) && 0 < samplesPerTerm && i < |terms|
    ensures RemainingAt(terms, samplesPerTerm, cap, i + 1, 0) == Schedule(terms[i + 1..], samplesPerTerm, cap)
  {
    if i + 1 < |terms| {
      ScheduleUnfold(terms, i + 1, samplesPerTerm, cap);
    } else {
      assert terms[i + 1..] == [];
    }
  }

  /** The schedule, one batch at a time, when the rest of term `i`'s samples
      fit in one batch: that batch, then the next term's block. */
  lemma RemainingAtLastBatch(terms: seq<Term>, samplesPerTerm: nat, cap: nat, i: nat, d: nat)
    requires cap > 0 && Measurable(terms) && d < samplesPerTerm && i < |terms|
    requires samplesPerTerm - d <= cap
    ensures RemainingAt(terms, samplesPerTerm, cap, i, d) ==
            [Job(CircuitFor(terms[i].observable), samplesPerTerm - d, terms[i].observable)]
            + RemainingAt(terms, samplesPerTerm, cap, i + 1, 0)
  {
    BlockStep(terms[i], samplesPerTerm - d, cap);
    RemainingAtNextTerm(terms, samplesPerTerm, cap, i);
  }

  /** The schedule, one batch at a time, when term `i` is owed more than one
      batch: a full batch, then the rest of the same term's block. */
  lemma RemainingAtFullBatch(terms: seq<Term>, samplesPerTerm: nat, cap: nat, i: nat, d: nat)
    requires cap > 0 && Measurable(terms) && d < samplesPerTerm && i < |terms|
    requires samplesPerTerm - d > cap
    ensures RemainingAt(terms, samplesPerTerm, cap, i, d) ==
            [Job(CircuitFor(terms[i].observable), cap, terms[i].observable)]
            + RemainingAt(terms, samplesPerTerm, cap, i, d + cap)
  {
    BlockFirstBatch(terms[i], samplesPerTerm, d, cap, Schedule(terms[i + 1..], samplesPerTerm, cap));
  }

  /** A full first batch, split off the front of a block that is followed by
      `later`; the block serves the samples from `d` on out of `samplesPerTerm`. */
  lemma BlockFirstBatch(t: Term, samplesPerTerm: nat, d: nat, cap: nat, later: seq<Job>)
    requires cap > 0 && |t.observable.paulis| > 0 && d + cap < samplesPerTerm
    ensures Block(t, samplesPerTerm - d, cap) + later ==
            [Job(CircuitFor(t.observable), cap, t.observable)] + (Block(t, samplesPerTerm - (d + cap), cap) + later)
  {
    BlockStep(t, samplesPerTerm - d, cap);
  }

  /** One call of `next_job` issues exactly the first job of the schedule's
      remainder and leaves the rest of the remainder to come. */
  lemma NextJobTakesFirstScheduled(c: Collector)
    requires c.samplesPerTerm > 0 && c.maxSamplesPerJob > 0 && Measurable(c.terms)
    requires c.totalSamplesRequested / c.samplesPerTerm < |c.terms|
    ensures NextJob(c).outcome.Issued?
    ensures Remaining(c) == [NextJob(c).outcome.job] + Remaining(NextJob(c).collector)
  {
    var spt, cap := c.samplesPerTerm, c.maxSamplesPerJob;
    var i, d := c.totalSamplesRequested / spt, c.totalSamplesRequested % spt;
    var obs := c.terms[i].observable;
    var step := NextJob(c);
    var next := step.collector;
    NextJobPosition(c);
    assert step.outcome == Issued(Job(CircuitFor(obs), Min(spt - d, cap), obs));
    assert next.terms == c.terms && next.samplesPerTerm == spt && next.maxSamplesPerJob == cap;
    assert Remaining(c) == RemainingAt(c.terms, spt, cap, i, d);
    if spt - d <= cap {
      RemainingAtLastBatch(c.terms, spt, cap, i, d);
      assert Remaining(next) == RemainingAt(c.terms, spt, cap, i + 1, 0);
    } else {
      RemainingAtFullBatch(c.terms, spt, cap, i, d);
      assert Remaining(next) == RemainingAt(c.terms, spt, cap, i, d + cap);
    }
  }

  /** The job stream follows the schedule: whatever the collector's position,
      driving it yields exactly the rest of the current term's block followed
      by the blocks of the later terms, and it stops with every quota met. */
  lemma {:induction false} DriveFollowsSchedule(c: Collector)
    requires c.samplesPerTerm > 0 && c.maxSamplesPerJob > 0 && WithinQuota(c) && Measurable(c.terms)
    ensures Drive(c).jobs == Remaining(c)
    ensures Drive(c).final.totalSamplesRequested == c.samplesPerTerm * |c.terms|
    decreases c.samplesPerTerm * |c.terms| - c.totalSamplesRequested
  {
    if c.totalSamplesRequested / c.samplesPerTerm >= |c.terms| {
      ExhaustedPosition(c);
    } else {
      NextJobAdvances(c);
      NextJobTakesFirstScheduled(c);
      var step := NextJob(c);
      DriveFollowsSchedule(step.collector);
      assert Drive(c).jobs == [step.outcome.job] + Drive(step.collector).jobs;
    }
  }

  /** A fresh collector has the whole schedule ahead of it. */
  lemma FreshCollectorRemaining(c: Collector)
    requires c.samplesPerTerm > 0 && c.maxSamplesPerJob > 0 && Measurable(c.terms)
    requires c.totalSamplesRequested == 0
    ensures Remaining(c) == Schedule(c.terms, c.samplesPerTerm, c.maxSamplesPerJob)
  {
    assert 0 / c.samplesPerTerm == 0 && 0 % c.samplesPerTerm == 0 by {
      DivModOf(c.samplesPerTerm, 0, 0);
    }
    assert Remaining(c) == RemainingAt(c.terms, c.samplesPerTerm, c.maxSamplesPerJob, 0, 0);
    if |c.terms| > 0 {
      ScheduleUnfold(c.terms, 0, c.samplesPerTerm, c.maxSamplesPerJob);
      assert c.terms[0..] == c.terms;
    }
  }

  /** Driving a fresh collector yields the whole schedule. */
  lemma FreshDriveIsSchedule(c: Collector)
    requires c.samplesPerTerm > 0 && c.maxSamplesPerJob > 0 && Measurable(c.terms)
    requires c.totalSamplesRequested == 0
    ensures Drive(c).jobs == Schedule(c.terms, c.samplesPerTerm, c.maxSamplesPerJob)
  {
    DriveFollowsSchedule(c);
    FreshCollectorRemaining(c);
  }

  /** Driving a fresh collector to exhaustion: it requests
      `samples_per_term` per term, and afterwards `next_job` signals
      exhaustion. */
  lemma FreshDriveExhausts(c: Collector)
    requires c.samplesPerTerm > 0 && c.maxSamplesPerJob > 0 && Measurable(c.terms)
    requires c.totalSamplesRequested == 0
    ensures Drive(c).final.totalSamplesRequested == c.samplesPerTerm * |c.terms|
    ensures NextJob(Drive(c).final).outcome.NoJob?
  {
    DriveFollowsSchedule(c);
    ExhaustedAt(Drive(c).final, c.terms, c.samplesPerTerm);
  }

  /** A collector that has requested `samples_per_term` for every term gets
      no further job. */
  lemma ExhaustedAt(f: Collector, terms: seq<Term>, samplesPerTerm: nat)
    requires samplesPerTerm > 0 && f.terms == terms && f.samplesPerTerm == samplesPerTerm
    requires f.totalSamplesRequested == samplesPerTerm * |terms|
    ensures NextJob(f).outcome.NoJob?
  {
    DivModOf(samplesPerTerm, |terms|, 0);
    assert f.totalSamplesRequested / samplesPerTerm == |terms|;
  }

  /** The exact-quota property: a fresh collector whose observables are all
      measurable hands out its terms' blocks in list order; in total it
      requests exactly `samples_per_term` per term, each job holds between 1
      and `max_samples_per_job` repetitions, and afterwards `next_job` signals
      exhaustion. */
  lemma ExactQuota(items: seq<(PauliString, real)>, samplesPerTerm: nat, maxSamplesPerJob: nat)
    requires samplesPerTerm > 0 && maxSamplesPerJob > 0
    requires forall i :: 0 <= i < |items| ==> |items[i].0.paulis| > 0
    ensures var c := NewCollector(items, samplesPerTerm, maxSamplesPerJob);
            && Drive(c).jobs == Schedule(c.terms, samplesPerTerm, maxSamplesPerJob)
            && Sum(Repetitions(Drive(c).jobs)) == samplesPerTerm * |items|
            && (forall j :: 0 <= j < |Drive(c).jobs| ==> 0 < Drive(c).jobs[j].repetitions <= maxSamplesPerJob)
            && Drive(c).final.totalSamplesRequested == samplesPerTerm * |items|
            && NextJob(Drive(c).final).outcome.NoJob?
  {
    var c := NewCollector(items, samplesPerTerm, maxSamplesPerJob);
    assert Measurable(c.terms);
    FreshDriveIsSchedule(c);
    FreshDriveExhausts(c);
    ScheduleTotals(c.terms, samplesPerTerm, maxSamplesPerJob);
  }

  /** One term, 2500 samples, at most 1000 per job: the driver sees batches of
      1000, 1000 and 500, after which 2500 samples have been requested. */
  lemma BatchingExample(ps: PauliString, weight: real)
    requires |ps.paulis| > 0
    ensures var c := NewCollector([(ps, weight)], 2500, 1000);
            && Repetitions(Drive(c).jobs) == [1000, 1000, 500]
            && Drive(c).final.totalSamplesRequested == 2500
  {
    var c := NewCollector([(ps, weight)], 2500, 1000);
    ExactQuota([(ps, weight)], 2500, 1000);
    assert c.terms[1..] == [];
    assert Split(2500, 1000) == [1000, 1000, 500] by {
      assert Split(500, 1000) == [500];
      assert Split(1500, 1000) == [1000, 500];
    }
    assert Drive(c).jobs == Block(c.terms[0], 2500, 1000) + [];
  }

  /** Two terms of 100 samples each under a cap of 1000: the first job serves
      the first term's whole quota before any job for the second term. */
  lemma OrderingExample(p0: PauliString, w0: real, p1: PauliString, w1: real)
    requires |p0.paulis| > 0 && |p1.paulis| > 0
    ensures var c := NewCollector([(p0, w0), (p1, w1)], 100, 1000);
            var first := NextJob(c);
            var second := NextJob(first.collector);
            && first.outcome.Issued? && first.outcome.job.id == Unscaled(p0) && first.outcome.job.repetitions == 100
            && second.outcome.Issued? && second.outcome.job.id == Unscaled(p1) && second.outcome.job.repetitions == 100
            && NextJob(second.collector).outcome.NoJob?
  {
  }
}
