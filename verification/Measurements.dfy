/**
  What a candidate's series leave behind (internal/campaign/candidate_eval.go): the runs of every
  seed, in the order in which they were started, and the readings derived from them.
 */
module Measurements {
  import opened Options
  import opened SampleFolds
  import Text

  // ---------- runs and readings ----------

  datatype Metric = Wall | Cpu | Memory

  /**
    One run: on which seed, of which binary, and `at`, its place in the order in which runs were
    started.
   */
  datatype Run = Run(wall: real, cpu: real, memory: real, exitCode: int, stdout: string, sortedLines: string,
    workload: string, candidate: bool, at: nat)

  /** The runs of both sides, paired by index. */
  datatype ABResult = ABResult(baseline: seq<Run>, candidate: seq<Run>)

  /** One representative seed's runs so far. */
  datatype SeedRuns = SeedRuns(id: string, deterministic: bool, ab: ABResult)

  /** What a reading is about. */
  datatype Subject = OfRuns(metric: Metric) | BinarySize

  /** A reading: the samples of both sides that its statistics are computed from. */
  datatype Comparison = Comparison(workload: string, subject: Subject, baseline: seq<real>, candidate: seq<real>)

  /** The sizes of the two binaries. */
  datatype Sizes = Sizes(baseline: real, candidate: real)

  function Value(r: Run, metric: Metric): real {
    match metric
    case Wall => r.wall
    case Cpu => r.cpu
    case Memory => r.memory
  }

  function MetricValues(runs: seq<Run>, metric: Metric): seq<real> {
    seq(|runs|, i requires 0 <= i < |runs| => Value(runs[i], metric))
  }

  function Side(s: SeedRuns, candidate: bool): seq<Run> {
    if candidate then s.ab.candidate else s.ab.baseline
  }

  function Series(seeds: seq<SeedRuns>, candidate: bool, metric: Metric): seq<seq<real>> {
    seq(|seeds|, i requires 0 <= i < |seeds| => MetricValues(Side(seeds[i], candidate), metric))
  }

  /** The readings of the primary metric. */
  function EligibleReadings(comparisons: seq<Comparison>, primary: Subject): (eligible: seq<Comparison>)
    ensures forall c :: c in eligible <==> c in comparisons && c.subject == primary
  {
    if comparisons == [] then []
    else if comparisons[0].subject == primary then [comparisons[0]] + EligibleReadings(comparisons[1..], primary)
    else EligibleReadings(comparisons[1..], primary)
  }

  function SeedReading(s: SeedRuns, metric: Metric): Comparison {
    Comparison(s.id, OfRuns(metric), MetricValues(s.ab.baseline, metric), MetricValues(s.ab.candidate, metric))
  }

  /** The binaries' sizes, unless one could not be read. */
  function SizeReadings(sizes: Option<Sizes>): seq<Comparison> {
    match sizes
    case Some(s) => [Comparison("", BinarySize, [s.baseline], [s.candidate])]
    case None => []
  }

  function WorkloadReading(s: SeedRuns): Comparison {
    SeedReading(s, Wall)
  }

  /** The wall times of all its pairs. */
  ghost predicate IsWorkloadReading(c: Comparison, s: SeedRuns) {
    |s.ab.baseline| == |s.ab.candidate| && IsReadingOf(c, s, 0, |s.ab.baseline|, Wall)
  }

  /** Memory is a high-water mark and folds to a maximum; time is additive and folds to a mean. */
  ghost predicate IsFold(metric: Metric, series: seq<seq<real>>, out: seq<real>) {
    if metric.Memory? then IsMaxFold(series, out) else IsMeanFold(series, out)
  }

  ghost predicate IsPooled(c: Comparison, metric: Metric, seeds: seq<SeedRuns>) {
    && c.workload == "" && c.subject == OfRuns(metric)
    && IsFold(metric, Series(seeds, false, metric), c.baseline)
    && IsFold(metric, Series(seeds, true, metric), c.candidate)
  }

  /** Sample by sample, what the runs of one binary from `from` up to `to` measured. */
  ghost predicate AreSamples(samples: seq<real>, runs: seq<Run>, from: nat, to: nat, metric: Metric) {
    && from <= to <= |runs| && |samples| == to - from
    && match metric
       case Wall => forall k | 0 <= k < |samples| :: samples[k] == runs[from + k].wall
       case Cpu => forall k | 0 <= k < |samples| :: samples[k] == runs[from + k].cpu
       case Memory => forall k | 0 <= k < |samples| :: samples[k] == runs[from + k].memory
  }

  /** The reading of this metric on this seed, from these of its pairs: the baseline's runs against the candidate's. */
  ghost predicate IsReadingOf(c: Comparison, s: SeedRuns, from: nat, to: nat, metric: Metric) {
    && c.workload == s.id && c.subject == OfRuns(metric)
    && AreSamples(c.baseline, s.ab.baseline, from, to, metric)
    && AreSamples(c.candidate, s.ab.candidate, from, to, metric)
  }

  ghost predicate IsReadingAbout(c: Comparison, s: SeedRuns, from: nat, to: nat, subject: Subject) {
    subject.OfRuns? && IsReadingOf(c, s, from, to, subject.metric)
  }

  lemma WorkloadReads(s: SeedRuns, n: nat)
    requires IsSeries(s, n)
    ensures IsWorkloadReading(WorkloadReading(s), s)
  {
    SeedReads(s, n, Wall);
  }

  lemma EquallyManyRuns(s: SeedRuns, n: nat)
    requires IsSeries(s, n)
    ensures |s.ab.baseline| == |s.ab.candidate| == n
  {
  }

  lemma FirstSeriesIsRead(toReplicate: Selector, s: SeedRuns, n: nat)
    requires IsStressMeasured(toReplicate, s, n)
    ensures AreGuardrailsOf(StressReadings(FirstRuns(s, n)), s, 0, n)
  {
    StressReads(s, n, |s.ab.baseline|);
  }

  lemma SeedReads(s: SeedRuns, n: nat, metric: Metric)
    requires |s.ab.baseline| == |s.ab.candidate| == n
    ensures IsReadingOf(SeedReading(s, metric), s, 0, n, metric)
  {
  }

  lemma SamplesAreValues(samples: seq<real>, runs: seq<Run>, metric: Metric)
    requires AreSamples(samples, runs, 0, |runs|, metric)
    ensures samples == MetricValues(runs, metric)
  {
  }

  /** Every reading is derived from these runs and sizes and no others. */
  ghost predicate AreReadings(comparisons: seq<Comparison>, seeds: seq<SeedRuns>, sizes: Option<Sizes>) {
    && |comparisons| >= |seeds| + 3 && comparisons[|seeds| + 3..] == SizeReadings(sizes)
    && (forall i | 0 <= i < |seeds| :: IsWorkloadReading(comparisons[i], seeds[i]))
    && IsPooled(comparisons[|seeds|], Wall, seeds)
    && IsPooled(comparisons[|seeds| + 1], Cpu, seeds)
    && IsPooled(comparisons[|seeds| + 2], Memory, seeds)
  }

  function Behind(s: SeedRuns, start: nat): SeedRuns {
    if start <= |s.ab.baseline| && start <= |s.ab.candidate|
    then s.(ab := ABResult(s.ab.baseline[start..], s.ab.candidate[start..]))
    else s
  }

  /** What each seed measured behind the first pairs it held. */
  function AllBehind(seeds: seq<SeedRuns>, starts: seq<nat>): seq<SeedRuns>
    requires |starts| == |seeds|
  {
    seq(|seeds|, i requires 0 <= i < |seeds| => Behind(seeds[i], starts[i]))
  }

  function SeriesStarts(seeds: seq<SeedRuns>): seq<nat> {
    seq(|seeds|, i requires 0 <= i < |seeds| => |seeds[i].ab.baseline|)
  }

  /** The readings that name a workload, or those that do not, in their order. */
  function Keyed(comparisons: seq<Comparison>, pooled: bool): seq<Comparison> {
    if comparisons == [] then []
    else (if (comparisons[0].workload == "") == pooled then [comparisons[0]] else []) + Keyed(comparisons[1..], pooled)
  }

  lemma {:induction false} KeyedConcat(a: seq<Comparison>, b: seq<Comparison>, pooled: bool)
    ensures Keyed(a + b, pooled) == Keyed(a, pooled) + Keyed(b, pooled)
  {
    if a == [] {
      assert a + b == b;
    } else {
      assert (a + b)[1..] == a[1..] + b;
      KeyedConcat(a[1..], b, pooled);
      var first := if (a[0].workload == "") == pooled then [a[0]] else [];
      Text.Associative(first, Keyed(a[1..], pooled), Keyed(b, pooled));
    }
  }

  lemma {:induction false} KeyedTwice(comparisons: seq<Comparison>)
    ensures Keyed(Keyed(comparisons, false), false) == Keyed(comparisons, false)
    ensures Keyed(Keyed(comparisons, false), true) == []
  {
    if comparisons != [] {
      KeyedTwice(comparisons[1..]);
      var rest := Keyed(comparisons[1..], false);
      if comparisons[0].workload != "" {
        assert Keyed(comparisons, false)[1..] == rest;
      } else {
        assert Keyed(comparisons, false) == rest;
      }
    }
  }

  /** Fresh pooled readings take the place of older ones, and those that name a workload stay. */
  lemma FreshReplacePooled(comparisons: seq<Comparison>, cpu: Comparison, memory: Comparison)
    requires cpu.workload == "" && memory.workload == ""
    ensures Keyed(Keyed(comparisons, false) + [cpu, memory], true) == [cpu, memory]
    ensures Keyed(Keyed(comparisons, false) + [cpu, memory], false) == Keyed(comparisons, false)
  {
    hide Keyed;
    var named := Keyed(comparisons, false);
    KeyedTwice(comparisons);
    KeyedOne(cpu);
    KeyedOne(memory);
    assert [cpu, memory] == [cpu] + [memory] && named + [] == named;
    forall pooled ensures Keyed(named + [cpu, memory], pooled)
      == Keyed(named, pooled) + (Keyed([cpu], pooled) + Keyed([memory], pooled)) {
      KeyedConcat([cpu], [memory], pooled);
      KeyedConcat(named, [cpu, memory], pooled);
    }
  }

  lemma KeyedOne(c: Comparison)
    requires c.workload == ""
    ensures Keyed([c], true) == [c] && Keyed([c], false) == []
  {
    var one := [c];
    assert one[1..] == [];
  }

  ghost predicate AreGuardrailReadings(comparisons: seq<Comparison>, seeds: seq<SeedRuns>) {
    |comparisons| == 2 && IsPooled(comparisons[0], Cpu, seeds) && IsPooled(comparisons[1], Memory, seeds)
  }

  // ---------- seeds that can only veto ----------

  /** The two guardrails read on a seed kept out of acceptance. */
  function StressReadings(s: SeedRuns): seq<Comparison> {
    [SeedReading(s, Cpu), SeedReading(s, Memory)]
  }

  function FirstRuns(s: SeedRuns, n: nat): SeedRuns {
    if n <= |s.ab.baseline| && n <= |s.ab.candidate|
    then s.(ab := ABResult(s.ab.baseline[..n], s.ab.candidate[..n]))
    else s
  }

  /** The two guardrails on this seed, from these of its pairs. */
  ghost predicate AreGuardrailsOf(readings: seq<Comparison>, s: SeedRuns, from: nat, to: nat) {
    && |readings| == 2
    && IsReadingOf(readings[0], s, from, to, Cpu) && IsReadingOf(readings[1], s, from, to, Memory)
  }

  /** Read from the first pairs alone, or from those behind them. */
  lemma StressReads(s: SeedRuns, n: nat, m: nat)
    requires n <= m && |s.ab.baseline| == |s.ab.candidate| == m
    ensures AreGuardrailsOf(StressReadings(FirstRuns(s, n)), s, 0, n)
    ensures AreGuardrailsOf(StressReadings(Behind(s, n)), s, n, m)
  {
  }

  function FirstAbout(readings: seq<Comparison>, subject: Subject): seq<Comparison> {
    if readings == [] then []
    else if readings[0].subject == subject then [readings[0]]
    else FirstAbout(readings[1..], subject)
  }

  /** For each breach, the reading on the same guardrail. */
  function Replicated(breaches: seq<Comparison>, readings: seq<Comparison>): seq<Comparison> {
    if breaches == [] then []
    else Replicated(breaches[..|breaches| - 1], readings) + FirstAbout(readings, breaches[|breaches| - 1].subject)
  }

  lemma OneMoreAnswered(breaches: seq<Comparison>, i: nat, readings: seq<Comparison>)
    requires i < |breaches|
    ensures Replicated(breaches[..0], readings) == []
    ensures Replicated(breaches[..i + 1], readings)
         == Replicated(breaches[..i], readings) + FirstAbout(readings, breaches[i].subject)
  {
    assert breaches[..i + 1][..i] == breaches[..i];
  }

  predicate IsGuardrail(subject: Subject) {
    subject.OfRuns? && !subject.metric.Wall?
  }

  lemma AnsweredBreach(s: SeedRuns, n: nat, m: nat, subject: Subject)
    requires n <= m && |s.ab.baseline| == |s.ab.candidate| == m && IsGuardrail(subject)
    ensures var answer := FirstAbout(StressReadings(Behind(s, n)), subject);
            |answer| == 1 && IsReadingAbout(answer[0], s, n, m, subject)
  {
    var readings := StressReadings(Behind(s, n));
    StressReads(s, n, m);
    assert readings[1..] == [readings[1]];
    assert readings[0].subject == OfRuns(Cpu) && readings[1].subject == OfRuns(Memory);
  }

  /** Every breach of a guardrail is answered by what the pairs behind the first `n` read on it. */
  lemma {:induction false} ReplicatedReads(breaches: seq<Comparison>, s: SeedRuns, n: nat, m: nat)
    requires n <= m && |s.ab.baseline| == |s.ab.candidate| == m
    requires forall i | 0 <= i < |breaches| :: IsGuardrail(breaches[i].subject)
    ensures var fresh_ := Replicated(breaches, StressReadings(Behind(s, n)));
            && |fresh_| == |breaches|
            && forall i | 0 <= i < |breaches| :: IsReadingAbout(fresh_[i], s, n, m, breaches[i].subject)
    decreases |breaches|
  {
    hide IsReadingAbout, FirstAbout, StressReadings, IsGuardrail;
    if breaches != [] {
      var last := breaches[|breaches| - 1];
      assert forall i | 0 <= i < |breaches| - 1 :: breaches[..|breaches| - 1][i] == breaches[i];
      ReplicatedReads(breaches[..|breaches| - 1], s, n, m);
      AnsweredBreach(s, n, m, last.subject);
    }
  }

  lemma BreachesAreAnswered(breaches: seq<Comparison>, s: SeedRuns, n: nat, before: seq<Comparison>)
    requires IsSeries(s, n + n)
    ensures var all := before + Replicated(breaches, StressReadings(Behind(s, n)));
            (forall i | 0 <= i < |breaches| :: IsGuardrail(breaches[i].subject)) ==>
              && |all| == |before| + |breaches|
              && forall i | 0 <= i < |breaches| ::
                   IsReadingAbout(all[|before| + i], s, n, n + n, breaches[i].subject)
  {
    hide IsReadingAbout, StressReadings, IsSeries, Replicated;
    if forall i | 0 <= i < |breaches| :: IsGuardrail(breaches[i].subject) {
      EquallyManyRuns(s, n + n);
      ReplicatedReads(breaches, s, n, n + n);
    }
  }

  type Selector = seq<Comparison> -> seq<Comparison>

  /** One series, and a second one exactly when a reading of the first asks for it. */
  ghost predicate IsStressMeasured(toReplicate: Selector, s: SeedRuns, n: nat) {
    IsSeries(s, if toReplicate(StressReadings(FirstRuns(s, n))) == [] then n else n + n)
  }

  /** The readings a second series on this seed reproduces, from that series alone. */
  function StressFresh(toReplicate: Selector, s: SeedRuns, n: nat): seq<Comparison> {
    Replicated(toReplicate(StressReadings(FirstRuns(s, n))), StressReadings(Behind(s, n)))
  }

  /** A seed with one series that asks for no second one. */
  lemma StressDone(toReplicate: Selector, s: SeedRuns, n: nat)
    requires IsSeries(s, n) && toReplicate(StressReadings(s)) == []
    ensures FirstRuns(s, n) == s && IsStressMeasured(toReplicate, s, n) && StressFresh(toReplicate, s, n) == []
  {
    assert s.ab.baseline[..n] == s.ab.baseline && s.ab.candidate[..n] == s.ab.candidate;
  }

  /** A seed with the second series its first one asked for. */
  lemma StressRepeated(toReplicate: Selector, s: SeedRuns, first: SeedRuns, n: nat)
    requires IsSeries(first, n) && IsSeries(s, n + n) && Extends(s, first) && toReplicate(StressReadings(first)) != []
    ensures FirstRuns(s, n) == first && IsStressMeasured(toReplicate, s, n)
    ensures StressFresh(toReplicate, s, n)
            == Replicated(toReplicate(StressReadings(first)), StressReadings(Behind(s, n)))
  {
    assert s.ab.baseline[..n] == first.ab.baseline && s.ab.candidate[..n] == first.ab.candidate;
  }

  function AllStressReadings(stress: seq<SeedRuns>, n: nat): seq<Comparison> {
    if stress == [] then []
    else AllStressReadings(stress[..|stress| - 1], n) + StressReadings(FirstRuns(stress[|stress| - 1], n))
  }

  function AllStressFresh(toReplicate: Selector, stress: seq<SeedRuns>, n: nat): seq<Comparison> {
    if stress == [] then []
    else AllStressFresh(toReplicate, stress[..|stress| - 1], n) + StressFresh(toReplicate, stress[|stress| - 1], n)
  }

  /** The readings of all these seeds' first series, two for each. */
  ghost predicate AreStressReadings(readings: seq<Comparison>, stress: seq<SeedRuns>, n: nat) {
    && |readings| == 2 * |stress|
    && forall i | 0 <= i < |stress| :: AreGuardrailsOf(readings[2 * i..2 * i + 2], stress[i], 0, n)
  }

  lemma {:induction false} AllStressReads(stress: seq<SeedRuns>, n: nat)
    requires forall s | s in stress :: n <= |s.ab.baseline| == |s.ab.candidate|
    ensures AreStressReadings(AllStressReadings(stress, n), stress, n)
    decreases |stress|
  {
    hide AreGuardrailsOf, StressReadings, FirstRuns;
    if stress != [] {
      var front, s := stress[..|stress| - 1], stress[|stress| - 1];
      assert s in stress && forall x | x in front :: x in stress;
      AllStressReads(front, n);
      StressReads(s, n, |s.ab.baseline|);
      var before, all := AllStressReadings(front, n), AllStressReadings(stress, n);
      TwoReadings(s, n);
      forall i | 0 <= i < |stress| ensures AreGuardrailsOf(all[2 * i..2 * i + 2], stress[i], 0, n) {
        if i < |front| {
          assert all[2 * i..2 * i + 2] == before[2 * i..2 * i + 2] && front[i] == stress[i];
        } else {
          assert all[2 * i..2 * i + 2] == StressReadings(FirstRuns(s, n));
        }
      }
    }
  }

  lemma TwoReadings(s: SeedRuns, n: nat)
    ensures |StressReadings(FirstRuns(s, n))| == 2
  {
  }

  lemma NoStressSeeds(toReplicate: Selector, n: nat)
    ensures AllStressReadings([], n) == [] && AllStressFresh(toReplicate, [], n) == []
  {
  }

  lemma OneMoreStressSeed(toReplicate: Selector, stress: seq<SeedRuns>, s: SeedRuns, n: nat)
    ensures AllStressReadings(stress + [s], n) == AllStressReadings(stress, n) + StressReadings(FirstRuns(s, n))
    ensures AllStressFresh(toReplicate, stress + [s], n)
            == AllStressFresh(toReplicate, stress, n) + StressFresh(toReplicate, s, n)
  {
    hide StressReadings, StressFresh;
    assert (stress + [s])[..|stress|] == stress;
  }

  // ---------- behaviour ----------

  ghost predicate SameStdout(runs: seq<Run>) {
    forall r | r in runs :: r.stdout == runs[0].stdout
  }

  method HasSameStdout(runs: seq<Run>) returns (same: bool)
    ensures same <==> SameStdout(runs)
  {
    for i := Min(1, |runs|) to |runs|
      invariant forall k | 0 <= k < i && k < |runs| :: runs[k].stdout == runs[0].stdout
    {
      if runs[i].stdout != runs[0].stdout {
        return false;
      }
    }
    return true;
  }

  /** Byte for byte when the baseline always printed the same, and up to line order otherwise. */
  method RecordBehaviorMatch(ab: ABResult, deterministic: bool) returns (matches: bool)
    requires |ab.baseline| == |ab.candidate|
    ensures matches <==>
            var exact := deterministic && SameStdout(ab.baseline);
            forall i | 0 <= i < |ab.baseline| ::
              var b, c := ab.baseline[i], ab.candidate[i];
              && b.exitCode == c.exitCode
              && if exact then b.stdout == c.stdout else b.sortedLines == c.sortedLines && b.sortedLines != ""
  {
    var exact := deterministic;
    if exact {
      exact := HasSameStdout(ab.baseline);
    }
    for i := 0 to |ab.baseline|
      invariant forall k | 0 <= k < i ::
                  var b, c := ab.baseline[k], ab.candidate[k];
                  && b.exitCode == c.exitCode
                  && if exact then b.stdout == c.stdout else b.sortedLines == c.sortedLines && b.sortedLines != ""
    {
      var b, c := ab.baseline[i], ab.candidate[i];
      var stdoutOK := b.stdout == c.stdout;
      if !exact {
        stdoutOK := b.sortedLines == c.sortedLines && b.sortedLines != "";
      }
      if stdoutOK && b.exitCode == c.exitCode {
        continue;
      }
      return false;
    }
    return true;
  }

  // ---------- seeds ----------

  /** The same exit code, and the same output at least up to the order of its lines. */
  ghost predicate BehaveAlike(b: Run, c: Run) {
    b.exitCode == c.exitCode && (b.stdout == c.stdout || (b.sortedLines == c.sortedLines && b.sortedLines != ""))
  }

  ghost predicate AreRunsOf(runs: seq<Run>, workload: string, candidate: bool) {
    forall r | r in runs :: r.workload == workload && r.candidate == candidate
  }

  /** `n` pairs of runs on this seed, the baseline's on one side, the candidate's on the other, that behaved alike. */
  ghost predicate IsSeries(s: SeedRuns, n: nat) {
    && |s.ab.baseline| == n && |s.ab.candidate| == n
    && AreRunsOf(s.ab.baseline, s.id, false) && AreRunsOf(s.ab.candidate, s.id, true)
    && (forall i | 0 <= i < n :: BehaveAlike(s.ab.baseline[i], s.ab.candidate[i]))
    && (s.deterministic && SameStdout(s.ab.baseline) ==>
          forall i | 0 <= i < n :: s.ab.baseline[i].stdout == s.ab.candidate[i].stdout)
  }

  /** A series of pairs that behaved the same, behind those a seed has. */
  lemma SeriesAppended(s: SeedRuns, n: nat, ab: ABResult, count: nat)
    requires IsSeries(s, n) && |ab.baseline| == |ab.candidate| == count
    requires AreRunsOf(ab.baseline, s.id, false) && AreRunsOf(ab.candidate, s.id, true)
    requires forall i | 0 <= i < count ::
               var b, c := ab.baseline[i], ab.candidate[i];
               && b.exitCode == c.exitCode
               && if s.deterministic && SameStdout(ab.baseline) then b.stdout == c.stdout
                  else b.sortedLines == c.sortedLines && b.sortedLines != ""
    ensures IsSeries(s.(ab := ABResult(s.ab.baseline + ab.baseline, s.ab.candidate + ab.candidate)), n + count)
  {
    var baseline, candidate := s.ab.baseline + ab.baseline, s.ab.candidate + ab.candidate;
    forall i | 0 <= i < n + count ensures BehaveAlike(baseline[i], candidate[i]) {
      if i >= n {
        assert baseline[i] == ab.baseline[i - n] && candidate[i] == ab.candidate[i - n];
      }
    }
    if s.deterministic && SameStdout(baseline) {
      SameStdoutInParts(s.ab.baseline, ab.baseline);
      forall i | 0 <= i < n + count ensures baseline[i].stdout == candidate[i].stdout {
        if i >= n {
          assert baseline[i] == ab.baseline[i - n] && candidate[i] == ab.candidate[i - n];
        }
      }
    }
  }

  lemma SameStdoutInParts(a: seq<Run>, b: seq<Run>)
    requires SameStdout(a + b)
    ensures SameStdout(a) && SameStdout(b)
  {
    forall r | r in a ensures r.stdout == a[0].stdout {
      assert r in a + b && a[0] == (a + b)[0];
    }
    forall r | r in b ensures r.stdout == b[0].stdout {
      assert r in a + b && b[0] in a + b;
    }
  }

  ghost predicate Within(runs: seq<Run>, from: nat, to: nat) {
    forall r | r in runs :: from <= r.at < to
  }

  /** Every run of the seed was started at or after `from` and before `to`. */
  ghost predicate MeasuredWithin(s: SeedRuns, from: nat, to: nat) {
    Within(s.ab.baseline, from, to) && Within(s.ab.candidate, from, to)
  }

  ghost predicate AllWithin(seeds: seq<SeedRuns>, from: nat, to: nat) {
    forall i | 0 <= i < |seeds| :: MeasuredWithin(seeds[i], from, to)
  }

  /** The same seed with more pairs behind the ones it had. */
  ghost predicate Extends(s: SeedRuns, was: SeedRuns) {
    && s.id == was.id && s.deterministic == was.deterministic
    && was.ab.baseline <= s.ab.baseline && was.ab.candidate <= s.ab.candidate
  }

  ghost predicate AllSeries(seeds: seq<SeedRuns>, n: nat) {
    forall i | 0 <= i < |seeds| :: IsSeries(seeds[i], n)
  }

  ghost predicate SameSeeds(a: seq<SeedRuns>, b: seq<SeedRuns>) {
    |a| == |b| && forall i | 0 <= i < |a| :: a[i].id == b[i].id && a[i].deterministic == b[i].deterministic
  }

  ghost predicate AllExtend(seeds: seq<SeedRuns>, was: seq<SeedRuns>) {
    |seeds| == |was| && forall i | 0 <= i < |seeds| :: Extends(seeds[i], was[i])
  }

  function IndexOf(seeds: seq<SeedRuns>, id: string): (i: int)
    ensures -1 <= i < |seeds|
    ensures i >= 0 ==> seeds[i].id == id
    ensures forall k | 0 <= k < |seeds| && (i < 0 || k < i) :: seeds[k].id != id
  {
    if seeds == [] then -1
    else if seeds[0].id == id then 0
    else
      var i := IndexOf(seeds[1..], id);
      assert forall k | 1 <= k < |seeds| :: seeds[k] == seeds[1..][k - 1];
      if i < 0 then -1 else i + 1
  }

  function Ids(seeds: seq<SeedRuns>): (ids: set<string>)
    ensures forall id :: id in ids <==> exists i :: 0 <= i < |seeds| && seeds[i].id == id
    ensures |ids| <= |seeds|
  {
    if seeds == [] then {}
    else
      assert forall i | 1 <= i < |seeds| :: seeds[i] == seeds[1..][i - 1];
      {seeds[0].id} + Ids(seeds[1..])
  }

  lemma {:induction false} IdsOfSame(a: seq<SeedRuns>, b: seq<SeedRuns>)
    requires SameSeeds(a, b)
    ensures Ids(a) == Ids(b)
    ensures forall id :: IndexOf(a, id) == IndexOf(b, id)
  {
    if a != [] {
      assert SameSeeds(a[1..], b[1..]);
      IdsOfSame(a[1..], b[1..]);
    }
  }

  lemma SubsetGrows(s: set<string>, all: set<string>, x: string)
    requires s <= all && x in all && x !in s
    ensures s + {x} <= all && |s + {x}| == |s| + 1 && |s| < |all|
  {
    Subset(s + {x}, all);
  }

  lemma {:induction false} Subset(s: set<string>, all: set<string>)
    requires s <= all
    ensures |s| <= |all|
  {
    if s != {} {
      var x :| x in s;
      Subset(s - {x}, all - {x});
    }
  }

  /** The runs of `n` pairs on each of so many seeds. */
  function RunCount(n: int, seeds: nat): (runs: int)
    ensures n >= 0 ==> runs >= 0
    ensures n == 0 || seeds == 0 ==> runs == 0
  {
    2 * n * seeds
  }

  lemma ExtendsItself(seeds: seq<SeedRuns>)
    ensures AllExtend(seeds, seeds)
  {
  }

  /** Whatever kept its runs when the selection was confirmed still extends what it was before. */
  lemma FreshOrExtended(seeds: seq<SeedRuns>, middle: seq<SeedRuns>, was: seq<SeedRuns>, began: nat, to: nat)
    requires SameSeeds(seeds, middle) && AllExtend(middle, was)
    requires forall i | 0 <= i < |seeds| && i < |middle| :: seeds[i] == middle[i] || MeasuredWithin(seeds[i], began, to)
    ensures SameSeeds(seeds, was) && |seeds| == |was|
    ensures forall i | 0 <= i < |seeds| :: Extends(seeds[i], was[i]) || MeasuredWithin(seeds[i], began, to)
  {
  }

  /** The fresh guardrail readings come from runs behind the first `n` pairs alone. */
  ghost predicate FreshGuardrailsOf(readings: seq<Comparison>, was: seq<SeedRuns>, n: nat, from: nat, to: nat) {
    exists seeds ::
      && AllExtend(seeds, was)
      && AreGuardrailReadings(readings, AllBehind(seeds, SeriesStarts(was)))
      && forall i | 0 <= i < |was| :: MeasuredWithin(Behind(seeds[i], n), from, to)
  }

  lemma SameAsItself(seeds: seq<SeedRuns>)
    ensures SameSeeds(seeds, seeds)
  {
  }

  lemma SameTwice(a: seq<SeedRuns>, b: seq<SeedRuns>, c: seq<SeedRuns>)
    requires SameSeeds(a, b) && SameSeeds(b, c)
    ensures SameSeeds(a, c)
  {
  }

  lemma FewerSeeds(n: nat, few: nat, many: nat)
    requires few <= many
    ensures RunCount(n, few) <= RunCount(n, many)
  {
    var x, y := 2 * n, many - few;
    assert x * many == x * few + x * y;
  }

  /** The seeds named in `done` were measured again since `from`; every other one may be as it was. */
  ghost predicate Remeasured(seeds: seq<SeedRuns>, was: seq<SeedRuns>, done: set<string>, from: nat, to: nat) {
    && SameSeeds(seeds, was) && done <= Ids(seeds)
    && (forall i | 0 <= i < |seeds| :: seeds[i] == was[i] || MeasuredWithin(seeds[i], from, to))
    && forall id | id in done :: IsFresh(seeds, id, from, to)
  }

  /** The first seed of that name was measured in this period. */
  ghost predicate IsFresh(seeds: seq<SeedRuns>, id: string, from: nat, to: nat) {
    IndexOf(seeds, id) >= 0 && MeasuredWithin(seeds[IndexOf(seeds, id)], from, to)
  }

  lemma NothingRemeasured(seeds: seq<SeedRuns>, from: nat)
    ensures Remeasured(seeds, seeds, {}, from, from)
  {
  }

  lemma OneMoreRemeasured(seeds: seq<SeedRuns>, before: seq<SeedRuns>, was: seq<SeedRuns>, done: set<string>,
      workload: string, from: nat, began: nat, to: nat)
    requires Remeasured(before, was, done, from, began) && workload !in done && from <= began <= to
    requires |seeds| == |before| && SameSeeds(seeds, before) && IndexOf(before, workload) >= 0
    requires seeds == before[IndexOf(before, workload) := seeds[IndexOf(before, workload)]]
    requires MeasuredWithin(seeds[IndexOf(before, workload)], began, to)
    ensures Remeasured(seeds, was, done + {workload}, from, to)
    ensures Ids(seeds) == Ids(before) && |done + {workload}| == |done| + 1 && |done| < |Ids(before)|
  {
    hide MeasuredWithin, Ids, IndexOf, SameSeeds, IsFresh, Remeasured;
    var seed := IndexOf(before, workload);
    RemeasuredMeans(before, was, done, from, began);
    IdsOfSame(seeds, before);
    SameTwice(seeds, before, was);
    SubsetGrows(done, Ids(before), workload);
    LaterClock(seeds[seed], began, from, to, to);
    StaysRemeasured(seeds, before, seed, from, began, to);
    NowFresh(seeds, workload, from, to);
    forall id | id in done ensures IsFresh(seeds, id, from, to) {
      StaysFresh(seeds, before, id, from, began, to);
    }
    AreRemeasured(seeds, was, done + {workload}, from, to);
  }

  lemma NowFresh(seeds: seq<SeedRuns>, id: string, from: nat, to: nat)
    requires IndexOf(seeds, id) >= 0 && MeasuredWithin(seeds[IndexOf(seeds, id)], from, to)
    ensures IsFresh(seeds, id, from, to)
  {
  }

  lemma AreRemeasured(seeds: seq<SeedRuns>, was: seq<SeedRuns>, done: set<string>, from: nat, to: nat)
    requires |seeds| == |was| && SameSeeds(seeds, was) && done <= Ids(seeds)
    requires forall i | 0 <= i < |seeds| :: seeds[i] == was[i] || MeasuredWithin(seeds[i], from, to)
    requires forall id | id in done :: IsFresh(seeds, id, from, to)
    ensures Remeasured(seeds, was, done, from, to)
  {
  }

  lemma StaysFresh(seeds: seq<SeedRuns>, before: seq<SeedRuns>, id: string, from: nat, began: nat, to: nat)
    requires IsFresh(before, id, from, began) && |seeds| == |before| && IndexOf(seeds, id) == IndexOf(before, id)
    requires forall i | 0 <= i < |seeds| && MeasuredWithin(before[i], from, began) :: MeasuredWithin(seeds[i], from, to)
    ensures IsFresh(seeds, id, from, to)
  {
  }

  lemma StaysRemeasured(seeds: seq<SeedRuns>, before: seq<SeedRuns>, seed: nat, from: nat, began: nat, to: nat)
    requires seed < |before| && |seeds| == |before| && seeds == before[seed := seeds[seed]]
    requires MeasuredWithin(seeds[seed], from, to) && from <= began <= to
    ensures forall i | 0 <= i < |seeds| && MeasuredWithin(before[i], from, began) :: MeasuredWithin(seeds[i], from, to)
    ensures forall i | 0 <= i < |seeds| && i != seed :: seeds[i] == before[i]
  {
    hide MeasuredWithin;
    forall i | 0 <= i < |seeds| && MeasuredWithin(before[i], from, began) ensures MeasuredWithin(seeds[i], from, to) {
      if i != seed {
        LaterClock(seeds[i], from, from, began, to);
      }
    }
  }

  lemma RemeasuredMeans(seeds: seq<SeedRuns>, was: seq<SeedRuns>, done: set<string>, from: nat, to: nat)
    requires Remeasured(seeds, was, done, from, to)
    ensures |done| <= |seeds| && done <= Ids(seeds) && |seeds| == |was| && SameSeeds(seeds, was)
    ensures forall i | 0 <= i < |seeds| :: seeds[i] == was[i] || MeasuredWithin(seeds[i], from, to)
    ensures forall id | id in done :: IsFresh(seeds, id, from, to)
  {
    Subset(done, Ids(seeds));
  }

  lemma LengthOf(s: SeedRuns, n: nat)
    requires IsSeries(s, n)
    ensures |s.ab.baseline| == n
  {
  }

  lemma NothingMeasured(s: SeedRuns, clock: nat)
    requires s.ab == ABResult([], [])
    ensures IsSeries(s, 0) && MeasuredWithin(s, clock, clock)
  {
  }

  lemma FreshAppended(s: SeedRuns, was: SeedRuns, n: nat, from: nat, before: nat, to: nat)
    requires IsSeries(was, n) && Extends(s, was)
    requires MeasuredWithin(was, from, before) && MeasuredWithin(Behind(s, n), before, to) && from <= before <= to
    ensures MeasuredWithin(s, from, to) && s.id == was.id && s.deterministic == was.deterministic
  {
    assert s.ab.baseline == was.ab.baseline + s.ab.baseline[n..];
    assert s.ab.candidate == was.ab.candidate + s.ab.candidate[n..];
  }

  lemma BothSeriesWithin(s: SeedRuns, was: SeedRuns, n: nat, from: nat, to: nat)
    requires IsSeries(was, n) && Extends(s, was)
    requires MeasuredWithin(was, 0, from) && MeasuredWithin(Behind(s, n), from, to) && from <= to
    ensures MeasuredWithin(s, 0, to)
  {
    FreshAppended(s, was, n, 0, from, to);
  }

  lemma LaterClock(s: SeedRuns, from: nat, earlier: nat, to: nat, later: nat)
    requires MeasuredWithin(s, from, to) && earlier <= from && to <= later
    ensures MeasuredWithin(s, earlier, later)
  {
  }

  lemma AllLater(seeds: seq<SeedRuns>, from: nat, earlier: nat, to: nat, later: nat)
    requires AllWithin(seeds, from, to) && earlier <= from && to <= later
    ensures AllWithin(seeds, earlier, later)
  {
    hide MeasuredWithin;
    forall i | 0 <= i < |seeds| ensures MeasuredWithin(seeds[i], earlier, later) {
      LaterClock(seeds[i], from, earlier, to, later);
    }
  }

  lemma NothingWithin(clock: nat)
    ensures AllWithin([], clock, clock)
  {
  }

  lemma OneMoreWithin(seeds: seq<SeedRuns>, s: SeedRuns, from: nat, before: nat, to: nat)
    requires AllWithin(seeds, from, before) && MeasuredWithin(s, before, to) && from <= before <= to
    ensures AllWithin(seeds + [s], from, to)
  {
    hide MeasuredWithin;
    AllLater(seeds, from, from, before, to);
    LaterClock(s, before, from, to, to);
  }

  lemma OneMoreSeed(n: int, seeds: nat)
    ensures RunCount(n, seeds + 1) == RunCount(n, seeds) + 2 * n
  {
  }

  lemma SeriesLengths(seeds: seq<SeedRuns>, candidate: bool, metric: Metric, n: nat)
    requires AllSeries(seeds, n)
    ensures EquallyLong(Series(seeds, candidate, metric), n)
  {
    var series := Series(seeds, candidate, metric);
    forall s | s in series ensures |s| == n {
      var i :| 0 <= i < |series| && series[i] == s;
      assert IsSeries(seeds[i], n);
    }
  }

  /**
    What equal lengths are for: the pooled reading of a time metric holds one sample per pair of a
    seed and keeps the total over all runs of all seeds, on both sides; the pooled memory reading
    keeps the highest peak of any run.
   */
  lemma PooledReadingsKeepEveryRun(comparisons: seq<Comparison>, seeds: seq<SeedRuns>, sizes: Option<Sizes>, n: nat,
      candidate: bool, peak: real)
    requires AreReadings(comparisons, seeds, sizes) && AllSeries(seeds, n) && seeds != []
    ensures forall k | |seeds| <= k < |seeds| + 2 ::
              comparisons[k].subject.OfRuns? &&
              var pooled := SamplesOf(comparisons[k], candidate);
              |pooled| == n && Total(pooled) * |seeds| as real
                == GrandTotal(Series(seeds, candidate, comparisons[k].subject.metric))
    ensures Total(SamplesOf(comparisons[|seeds|], candidate)) * |seeds| as real
            == GrandTotal(AllSamples(comparisons[..|seeds|], candidate))
    ensures var pooled := SamplesOf(comparisons[|seeds| + 2], candidate);
            |pooled| == n && (IsMaximum(pooled, peak) <==> IsPeak(Series(seeds, candidate, Memory), peak))
  {
    hide AllSeries, Series, IsFold, Total, GrandTotal, IsMaximum, IsPeak;
    PooledTimeKeepsTotal(comparisons[|seeds|], seeds, Wall, n, candidate);
    PooledTimeKeepsTotal(comparisons[|seeds| + 1], seeds, Cpu, n, candidate);
    PooledMemoryKeepsPeak(comparisons[|seeds| + 2], seeds, n, candidate, peak);
    WorkloadReadingsAreSeries(comparisons, seeds, sizes, candidate);
  }

  /** The samples of these readings on one side. */
  function AllSamples(comparisons: seq<Comparison>, candidate: bool): seq<seq<real>> {
    seq(|comparisons|, i requires 0 <= i < |comparisons| => SamplesOf(comparisons[i], candidate))
  }

  lemma WorkloadReadingsAreSeries(comparisons: seq<Comparison>, seeds: seq<SeedRuns>, sizes: Option<Sizes>,
      candidate: bool)
    requires AreReadings(comparisons, seeds, sizes)
    ensures AllSamples(comparisons[..|seeds|], candidate) == Series(seeds, candidate, Wall)
  {
    hide IsFold, AreSamples, MetricValues;
    forall i | 0 <= i < |seeds| ensures SamplesOf(comparisons[i], candidate)
                                        == MetricValues(Side(seeds[i], candidate), Wall) {
      assert IsWorkloadReading(comparisons[i], seeds[i]);
      SamplesAreValues(SamplesOf(comparisons[i], candidate), Side(seeds[i], candidate), Wall);
    }
  }

  lemma PooledTimeKeepsTotal(c: Comparison, seeds: seq<SeedRuns>, metric: Metric, n: nat, candidate: bool)
    requires IsPooled(c, metric, seeds) && !metric.Memory? && AllSeries(seeds, n) && seeds != []
    ensures |SamplesOf(c, candidate)| == n
    ensures Total(SamplesOf(c, candidate)) * |seeds| as real == GrandTotal(Series(seeds, candidate, metric))
  {
    hide AllSeries, Series, IsMeanFold, EquallyLong, Total, GrandTotal;
    SeriesLengths(seeds, candidate, metric, n);
    SeriesCount(seeds, candidate, metric);
    MeanFoldKeepsTotal(Series(seeds, candidate, metric), n, SamplesOf(c, candidate));
  }

  lemma PooledMemoryKeepsPeak(c: Comparison, seeds: seq<SeedRuns>, n: nat, candidate: bool, peak: real)
    requires IsPooled(c, Memory, seeds) && AllSeries(seeds, n) && seeds != []
    ensures |SamplesOf(c, candidate)| == n
    ensures IsMaximum(SamplesOf(c, candidate), peak) <==> IsPeak(Series(seeds, candidate, Memory), peak)
  {
    hide AllSeries, Series, IsMaxFold, EquallyLong, IsMaximum, IsPeak;
    SeriesLengths(seeds, candidate, Memory, n);
    SeriesCount(seeds, candidate, Memory);
    MaxFoldKeepsPeak(Series(seeds, candidate, Memory), n, SamplesOf(c, candidate), peak);
  }

  lemma SeriesCount(seeds: seq<SeedRuns>, candidate: bool, metric: Metric)
    ensures |Series(seeds, candidate, metric)| == |seeds|
  {
  }

  function SamplesOf(c: Comparison, candidate: bool): seq<real> {
    if candidate then c.candidate else c.baseline
  }

  method PooledReading(seeds: seq<SeedRuns>, metric: Metric) returns (c: Comparison)
    ensures IsPooled(c, metric, seeds) && c.workload == ""
  {
    hide IsMaxFold, IsMeanFold;
    var baseline, candidate;
    if metric == Memory {
      baseline := MaxPerRepetition(Series(seeds, false, metric));
      candidate := MaxPerRepetition(Series(seeds, true, metric));
    } else {
      baseline := MeanPerRepetition(Series(seeds, false, metric));
      candidate := MeanPerRepetition(Series(seeds, true, metric));
    }
    c := Comparison("", OfRuns(metric), baseline, candidate);
  }

  /** A reading that names a workload is a seed's. */
  lemma NamedReadingIsASeeds(comparisons: seq<Comparison>, seeds: seq<SeedRuns>, sizes: Option<Sizes>, c: Comparison)
    requires AreReadings(comparisons, seeds, sizes) && c in comparisons && c.workload != ""
    ensures IndexOf(seeds, c.workload) >= 0
  {
    hide IsFold;
    var k :| 0 <= k < |comparisons| && comparisons[k] == c;
    PooledBehindSeeds(comparisons, seeds, sizes, k);
    assert IsWorkloadReading(comparisons[k], seeds[k]);
  }

  lemma PooledBehindSeeds(comparisons: seq<Comparison>, seeds: seq<SeedRuns>, sizes: Option<Sizes>, k: nat)
    requires AreReadings(comparisons, seeds, sizes) && k < |comparisons|
    ensures k >= |seeds| ==> comparisons[k].workload == ""
  {
    hide IsFold;
    if k >= |seeds| + 3 {
      assert comparisons[k] == comparisons[|seeds| + 3..][k - |seeds| - 3];
    }
  }
}
