/**
  Re-measurement (internal/campaign/candidate_eval.go). A candidate's first series may be followed
  by one series on every seed, and by a series that replaces the runs of a workload an accept would
  rest on. What the verdict reads afterwards is decided here; the verdict itself, internal/policy,
  stays a parameter.
 */
module Confirmation {
  import opened Options
  import opened Measurements
  import Text

  // ---------- the policy ----------

  datatype Decision = Accepted | Inconclusive | Rejected

  /** What the policy judges. */
  datatype Evidence = Evidence(
    behaviorMatches: bool,
    comparisons: seq<Comparison>,
    stressComparisons: seq<Comparison>,
    firstGuardrails: seq<Comparison>,
    freshGuardrails: seq<Comparison>)

  /**
    The policy's questions. `bestImprovement` is the place, among the eligible readings, of the one
    an accept would rest on.
   */
  datatype Policy = Policy(
    primary: Subject,
    decide: Evidence -> Decision,
    unconfirmedRegressions: seq<Comparison> -> seq<Comparison>,
    unconfirmedGuardrails: seq<Comparison> -> seq<Comparison>,
    guardrailsToReplicate: seq<Comparison> -> seq<Comparison>,
    replicatedGuardrails: seq<Comparison> -> seq<Comparison>,
    unconfirmedImprovements: seq<Comparison> -> seq<Comparison>,
    borderlineImprovements: seq<Comparison> -> seq<Comparison>,
    stressGuardrailsToReplicate: seq<Comparison> -> seq<Comparison>,
    bestImprovement: seq<Comparison> -> Option<nat>)

  /** The reading an accept would rest on, unless it is the pooled one. */
  function SelectedImprovements(policy: Policy, eligible: seq<Comparison>): (selected: seq<Comparison>)
    ensures |selected| <= 1 && forall c | c in selected :: c in eligible && c.workload != ""
  {
    match policy.bestImprovement(eligible)
    case Some(i) => if i < |eligible| && eligible[i].workload != "" then [eligible[i]] else []
    case None => []
  }

  const CONFIRMED := "interleaved-ab-confirmation"

  const FIRST_JOBS := ["build", "test-suite", "interleaved-ab"]

  /** The workload an accept would rest on, when it would not rest on the pooled reading. */
  function RestsOn(policy: Policy, evidence: Evidence): Option<string> {
    if policy.decide(evidence) != Accepted then None
    else
      var selected := SelectedImprovements(policy, EligibleReadings(evidence.comparisons, policy.primary));
      if selected == [] then None else Some(selected[0].workload)
  }

  predicate RegressionsNeedASeries(policy: Policy, evidence: Evidence) {
    || policy.unconfirmedRegressions(EligibleReadings(evidence.comparisons, policy.primary)) != []
    || policy.unconfirmedGuardrails(evidence.comparisons) != []
    || policy.guardrailsToReplicate(evidence.comparisons) != []
  }

  predicate ImprovementsNeedASeries(policy: Policy, evidence: Evidence) {
    match policy.decide(evidence)
    case Inconclusive => policy.unconfirmedImprovements(EligibleReadings(evidence.comparisons, policy.primary)) != []
    case Accepted => policy.borderlineImprovements(EligibleReadings(evidence.comparisons, policy.primary)) != []
    case Rejected => false
  }

  /** The readings of a first series ask for a second one. */
  predicate AsksForSeries(policy: Policy, evidence: Evidence) {
    RegressionsNeedASeries(policy, evidence) || ImprovementsNeedASeries(policy, evidence)
  }

  lemma SelectionIsASeed(policy: Policy, evidence: Evidence, seeds: seq<SeedRuns>, sizes: Option<Sizes>)
    requires AreReadings(evidence.comparisons, seeds, sizes)
    ensures RestsOn(policy, evidence).Some? ==> IndexOf(seeds, RestsOn(policy, evidence).value) >= 0
  {
    hide AreReadings, IndexOf, EligibleReadings, SelectedImprovements;
    if RestsOn(policy, evidence).Some? {
      var selected := SelectedImprovements(policy, EligibleReadings(evidence.comparisons, policy.primary));
      assert selected[0] in selected;
      NamedReadingIsASeeds(evidence.comparisons, seeds, sizes, selected[0]);
    }
  }

  // ---------- the evaluator ----------

  class Evaluator {
    const policy: Policy
    const pairs: int
    /** What running a binary (the candidate's or the baseline's) on a seed yields at each moment. */
    const execute: (string, bool, nat) -> Option<Run>
    const sizes: Option<Sizes>

    var clock: nat
    var seeds: seq<SeedRuns>
    var evidence: Evidence
    var jobs: seq<string>
    /** The runs of the seeds kept out of acceptance; the program keeps only their readings. */
    ghost var stress: seq<SeedRuns>
    /** The runs of every seed in a pass thrown away because the machine was contended. */
    ghost var discarded: seq<SeedRuns>

    constructor (policy: Policy, pairs: int, execute: (string, bool, nat) -> Option<Run>, sizes: Option<Sizes>)
      ensures this.policy == policy && this.pairs == pairs && this.execute == execute && this.sizes == sizes
      ensures clock == 0 && seeds == [] && jobs == [] && stress == [] && discarded == []
      ensures evidence == Evidence(false, [], [], [], [])
    {
      this.policy, this.pairs, this.execute, this.sizes := policy, pairs, execute, sizes;
      clock, seeds, jobs, stress, discarded := 0, [], [], [], [];
      evidence := Evidence(false, [], [], [], []);
    }

    /** The seeds hold `n` pairs each, and the evidence reads exactly those. */
    ghost predicate Measured(n: nat)
      reads this`clock, this`seeds, this`evidence
    {
      && AllSeries(seeds, n)
      && (forall i | 0 <= i < |seeds| :: MeasuredWithin(seeds[i], 0, clock))
      && AreReadings(evidence.comparisons, seeds, sizes)
      && evidence.behaviorMatches
    }

    /** Both binaries always do the same: every run succeeds, exits and prints as the first one would. */
    ghost predicate AlwaysAgrees() {
      forall id, candidate, at ::
        execute(id, candidate, at).Some? && BehavesAsFirst(execute(id, candidate, at).value, id)
    }

    ghost predicate BehavesAsFirst(r: Run, id: string) {
      var first := execute(id, false, 0);
      && first.Some? && r.exitCode == first.value.exitCode && r.stdout == first.value.stdout
      && r.sortedLines == first.value.sortedLines && r.sortedLines != ""
    }

    /** Two runs of the baseline in a row, where both succeed, print the same. */
    ghost predicate ProbesAgree(id: string, at: nat) {
      var a, b := execute(id, false, at), execute(id, false, at + 1);
      a.Some? && b.Some? ==> a.value.stdout == b.value.stdout
    }

    method Run(id: string, candidate: bool) returns (run: Option<Run>)
      modifies this`clock
      ensures clock == old(clock) + 1
      ensures run.Some? <==> execute(id, candidate, old(clock)).Some?
      ensures run.Some? ==>
                run.value == execute(id, candidate, old(clock)).value.(workload := id, candidate := candidate,
                  at := old(clock))
    {
      run := execute(id, candidate, clock);
      if run.Some? {
        run := Some(run.value.(workload := id, candidate := candidate, at := clock));
      }
      clock := clock + 1;
    }

    /** Pairs of runs; the side that runs first alternates. */
    method RunInterleaved(id: string, repetitions: int) returns (ok: bool, ab: ABResult)
      modifies this`clock
      ensures clock >= old(clock)
      ensures ok ==> repetitions > 0 && |ab.baseline| == repetitions && |ab.candidate| == repetitions
      ensures ok ==> clock == old(clock) + 2 * repetitions
      ensures ok ==> Within(ab.baseline, old(clock), clock) && Within(ab.candidate, old(clock), clock)
      ensures ok ==> AreRunsOf(ab.baseline, id, false) && AreRunsOf(ab.candidate, id, true)
      ensures AlwaysAgrees() && repetitions > 0 ==> ok
      ensures AlwaysAgrees() ==> forall r | r in ab.baseline || r in ab.candidate :: BehavesAsFirst(r, id)
      ensures ok ==> forall i | 0 <= i < repetitions :: ab.baseline[i].at < ab.candidate[i].at <==> i % 2 == 0
    {
      ab := ABResult([], []);
      if repetitions <= 0 {
        return false, ab;
      }
      for i := 0 to repetitions
        invariant |ab.baseline| == i && |ab.candidate| == i && clock == old(clock) + 2 * i
        invariant Within(ab.baseline, old(clock), clock) && Within(ab.candidate, old(clock), clock)
        invariant AreRunsOf(ab.baseline, id, false) && AreRunsOf(ab.candidate, id, true)
        invariant AlwaysAgrees() ==> forall r | r in ab.baseline || r in ab.candidate :: BehavesAsFirst(r, id)
        invariant forall k | 0 <= k < i :: ab.baseline[k].at < ab.candidate[k].at <==> k % 2 == 0
      {
        var candidateFirst := i % 2 == 1;
        var first := Run(id, candidateFirst);
        if first == None {
          return false, ab;
        }
        var second := Run(id, !candidateFirst);
        if second == None {
          return false, ab;
        }
        if candidateFirst {
          ab := ABResult(ab.baseline + [second.value], ab.candidate + [first.value]);
        } else {
          ab := ABResult(ab.baseline + [first.value], ab.candidate + [second.value]);
        }
      }
      return true, ab;
    }

    /** One more series behind the runs a seed has; a failing one leaves the behaviour unverified. */
    method RunSeries(runs: SeedRuns, count: int, ghost n: nat) returns (ok: bool, extended: SeedRuns)
      requires IsSeries(runs, n)
      modifies this`clock, this`evidence
      ensures clock >= old(clock)
      ensures ok ==> count > 0 && clock == old(clock) + 2 * count && evidence == old(evidence)
      ensures ok ==> IsSeries(extended, n + count) && Extends(extended, runs) && extended.id == runs.id
      ensures ok ==> MeasuredWithin(Behind(extended, n), old(clock), clock)
      ensures !ok ==> !evidence.behaviorMatches
      ensures AlwaysAgrees() && count > 0 ==> ok
    {
      hide IsSeries;
      EquallyManyRuns(runs, n);
      extended := runs;
      var ab;
      ok, ab := RunInterleaved(runs.id, count);
      if ok {
        ok := RecordBehaviorMatch(ab, runs.deterministic);
      }
      if !ok {
        evidence := evidence.(behaviorMatches := false);
        return;
      }
      SeriesAppended(runs, n, ab, count);
      extended := runs.(ab := ABResult(runs.ab.baseline + ab.baseline, runs.ab.candidate + ab.candidate));
      assert Behind(extended, n) == runs.(ab := ab);
    }

    /** Every comparison again, from the runs measured so far. */
    method Rederive(ghost n: nat)
      requires AllSeries(seeds, n)
      modifies this`evidence
      ensures evidence.behaviorMatches && AreReadings(evidence.comparisons, seeds, sizes)
      ensures evidence.behaviorMatches && OnlyReread(old(evidence))
    {
      hide IsFold, IsSeries, IsWorkloadReading;
      var comparisons := [];
      for i := 0 to |seeds|
        invariant |comparisons| == i && forall k | 0 <= k < i :: IsWorkloadReading(comparisons[k], seeds[k])
        invariant evidence == old(evidence)
      {
        WorkloadReads(seeds[i], n);
        comparisons := comparisons + [WorkloadReading(seeds[i])];
      }
      var wall := PooledReading(seeds, Wall);
      var cpu := PooledReading(seeds, Cpu);
      var memory := PooledReading(seeds, Memory);
      comparisons := comparisons + [wall, cpu, memory];
      evidence := evidence.(comparisons := comparisons + SizeReadings(sizes), behaviorMatches := true);
    }

    /** One more series on every seed. */
    method ExtendEverySeed(ghost n: nat) returns (ok: bool)
      requires AllSeries(seeds, n)
      modifies this`clock, this`seeds, this`evidence
      ensures clock >= old(clock)
      ensures ok ==> AllExtend(seeds, old(seeds)) && evidence == old(evidence)
      ensures ok && seeds != [] ==> pairs > 0 && AllSeries(seeds, n + pairs)
      ensures ok && seeds != [] ==> clock == old(clock) + RunCount(pairs, |seeds|)
      ensures ok ==> forall i | 0 <= i < |seeds| :: MeasuredWithin(Behind(seeds[i], n), old(clock), clock)
      ensures !ok ==> !evidence.behaviorMatches
      ensures AlwaysAgrees() && pairs > 0 ==> ok
    {
      hide RunCount, MeasuredWithin, IsSeries, Extends, Behind, AlwaysAgrees;
      ghost var was := seeds;
      for i := 0 to |seeds|
        invariant |seeds| == |was| && evidence == old(evidence) && clock >= old(clock)
        invariant forall k | 0 <= k < i :: pairs > 0 && IsSeries(seeds[k], n + pairs) && Extends(seeds[k], was[k])
        invariant forall k | 0 <= k < i :: MeasuredWithin(Behind(seeds[k], n), old(clock), clock)
        invariant forall k | i <= k < |seeds| :: seeds[k] == was[k]
        invariant i > 0 ==> pairs > 0
        invariant clock == old(clock) + RunCount(pairs, i)
      {
        assert IsSeries(was[i], n);
        ghost var before := clock;
        var extended;
        ok, extended := RunSeries(seeds[i], pairs, n);
        if !ok {
          return false;
        }
        seeds := seeds[i := extended];
        forall k | 0 <= k <= i ensures MeasuredWithin(Behind(seeds[k], n), old(clock), clock) {
          ghost var from, to := if k < i then old(clock) else before, if k < i then before else clock;
          LaterClock(Behind(seeds[k], n), from, old(clock), to, clock);
        }
        OneMoreSeed(pairs, i);
      }
      return true;
    }

    /**
      The second series of a candidate: every reading is derived again from both series, and the
      replicated guardrails are read from the second one alone.
     */
    method MeasureSecondSeries(ghost n: nat) returns (ok: bool)
      requires Measured(n) && seeds != []
      modifies this`clock, this`seeds, this`evidence, this`jobs
      ensures clock >= old(clock)
      ensures !ok ==> !evidence.behaviorMatches
      ensures AlwaysAgrees() && pairs > 0 ==> ok
      ensures ok ==> pairs > 0 && Measured(n + pairs) && AllExtend(seeds, old(seeds))
      ensures ok ==> clock == old(clock) + RunCount(pairs, |seeds|) && jobs == old(jobs) + [CONFIRMED]
      ensures ok ==> forall i | 0 <= i < |seeds| :: MeasuredWithin(Behind(seeds[i], n), old(clock), clock)
      ensures ok ==> evidence.firstGuardrails == policy.replicatedGuardrails(old(evidence.comparisons))
      ensures ok ==>
              AreGuardrailReadings(Keyed(evidence.freshGuardrails, true), AllBehind(seeds, SeriesStarts(old(seeds))))
      ensures ok ==> KeepsStress(old(evidence))
    {
      hide AreReadings, MeasuredWithin, IsSeries, Extends, Behind, IsPooled, AlwaysAgrees;
      var firstSeries, starts := policy.replicatedGuardrails(evidence.comparisons), SeriesStarts(seeds);
      ghost var was := seeds;
      ok := ExtendEverySeed(n);
      if !ok {
        return;
      }
      Rederive(n + pairs);
      var second := AllBehind(seeds, starts);
      var cpu := PooledReading(second, Cpu);
      var memory := PooledReading(second, Memory);
      FreshReplacePooled(evidence.freshGuardrails, cpu, memory);
      var kept := Keyed(evidence.freshGuardrails, false);
      evidence := evidence.(firstGuardrails := firstSeries, freshGuardrails := kept + [cpu, memory]);
      jobs := jobs + [CONFIRMED];
      forall i | 0 <= i < |seeds| ensures MeasuredWithin(seeds[i], 0, clock) {
        assert IsSeries(was[i], n);
        BothSeriesWithin(seeds[i], was[i], n, old(clock), clock);
      }
    }

    /** Nothing but the readings and the behaviour flag differs. */
    ghost predicate OnlyReread(was: Evidence)
      reads this`evidence
    {
      && evidence.stressComparisons == was.stressComparisons
      && evidence.firstGuardrails == was.firstGuardrails && evidence.freshGuardrails == was.freshGuardrails
    }

    /** What was read on the seeds that can only veto, in the first series and in fresh ones. */
    ghost predicate KeepsStress(was: Evidence)
      reads this`evidence
    {
      && evidence.stressComparisons == was.stressComparisons
      && Keyed(evidence.freshGuardrails, false) == Keyed(was.freshGuardrails, false)
    }

    method ConfirmRegressions(ghost n: nat) returns (ok: bool)
      requires Measured(n) && seeds != []
      modifies this`clock, this`seeds, this`evidence, this`jobs
      ensures clock >= old(clock)
      ensures !ok ==> !evidence.behaviorMatches
      ensures AlwaysAgrees() && pairs > 0 ==> ok
      ensures ok && !RegressionsNeedASeries(policy, old(evidence)) ==> unchanged(this)
      ensures ok && RegressionsNeedASeries(policy, old(evidence)) ==>
              SecondSeries(old(seeds), old(clock), n) && jobs == old(jobs) + [CONFIRMED]
      ensures ok ==> KeepsStress(old(evidence))
    {
      hide AreReadings, AreGuardrailReadings, MeasuredWithin, IsSeries, Extends, Behind, AlwaysAgrees;
      if RegressionsNeedASeries(policy, evidence) {
        ok := MeasureSecondSeries(n);
      } else {
        ok := true;
      }
    }

    method ConfirmImprovements(ghost n: nat) returns (ok: bool)
      requires Measured(n) && seeds != []
      modifies this`clock, this`seeds, this`evidence, this`jobs
      ensures clock >= old(clock)
      ensures !ok ==> !evidence.behaviorMatches
      ensures AlwaysAgrees() && pairs > 0 ==> ok
      ensures ok && (CONFIRMED in old(jobs) || !ImprovementsNeedASeries(policy, old(evidence))) ==> unchanged(this)
      ensures ok && !(CONFIRMED in old(jobs) || !ImprovementsNeedASeries(policy, old(evidence))) ==>
                SecondSeries(old(seeds), old(clock), n) && jobs == old(jobs) + [CONFIRMED]
      ensures ok ==> KeepsStress(old(evidence))
    {
      hide AreReadings, AreGuardrailReadings, MeasuredWithin, IsSeries, Extends, Behind, AlwaysAgrees;
      if CONFIRMED in jobs {
        return true;
      }
      if ImprovementsNeedASeries(policy, evidence) {
        ok := MeasureSecondSeries(n);
      } else {
        ok := true;
      }
    }

    /** One series more than `was`, measured since `from`, on every seed. */
    ghost predicate SecondSeries(was: seq<SeedRuns>, from: nat, n: nat)
      reads this
    {
      && pairs > 0 && Measured(n + pairs) && AllExtend(seeds, was)
      && clock == from + RunCount(pairs, |seeds|)
      && (forall i | 0 <= i < |seeds| :: MeasuredWithin(Behind(seeds[i], n), from, clock))
      && AreGuardrailReadings(Keyed(evidence.freshGuardrails, true), AllBehind(seeds, SeriesStarts(was)))
    }

    /** The reading an accept would rest on, unless its workload was measured again already. */
    function SelectedToRemeasure(remeasured: set<string>): Option<string>
      reads this
    {
      var workload := RestsOn(policy, evidence);
      if workload.Some? && workload.value in remeasured then None else workload
    }

    /** Replaces one seed's runs by a fresh series of the same length. */
    method RemeasureSelectedWorkload(seed: nat, ghost n: nat) returns (ok: bool)
      requires Measured(n) && seed < |seeds|
      modifies this`clock, this`seeds, this`evidence
      ensures clock >= old(clock)
      ensures !ok ==> !evidence.behaviorMatches
      ensures AlwaysAgrees() && pairs > 0 ==> ok
      ensures ok ==> Measured(n) && clock == old(clock) + 2 * n
      ensures ok ==> |seeds| == |old(seeds)| && seeds == old(seeds)[seed := seeds[seed]]
      ensures ok ==> SameSeeds(seeds, old(seeds)) && MeasuredWithin(seeds[seed], old(clock), clock)
      ensures ok ==> evidence.behaviorMatches && OnlyReread(old(evidence))
    {
      hide AreReadings, IsSeries, Extends, Behind, MeasuredWithin, AlwaysAgrees;
      assert IsSeries(seeds[seed], n);
      LengthOf(seeds[seed], n);
      var latest := SeedRuns(seeds[seed].id, seeds[seed].deterministic, ABResult([], []));
      NothingMeasured(latest, clock);
      var step := if pairs > 1 then pairs else 1;
      var remaining: int := |seeds[seed].ab.baseline|;
      ghost var done: nat := 0;
      while remaining > 0
        invariant done <= n && (remaining > 0 ==> done == n - remaining) && (remaining <= 0 ==> done == n)
        invariant IsSeries(latest, done) && MeasuredWithin(latest, old(clock), clock) && clock == old(clock) + 2 * done
        invariant seeds == old(seeds) && evidence == old(evidence)
        invariant latest.id == seeds[seed].id && latest.deterministic == seeds[seed].deterministic
      {
        ghost var was, before := latest, clock;
        var count := if step < remaining then step else remaining;
        ok, latest := RunSeries(latest, count, done);
        if !ok {
          return;
        }
        FreshAppended(latest, was, done, old(clock), before, clock);
        done := done + count;
        remaining := remaining - step;
      }
      seeds := seeds[seed := latest];
      Rederive(n);
      forall i | 0 <= i < |seeds| ensures MeasuredWithin(seeds[i], 0, clock) {
        LaterClock(seeds[i], if i == seed then old(clock) else 0, 0, if i == seed then clock else old(clock), clock);
      }
      LaterClock(seeds[seed], old(clock), old(clock), clock, clock);
      return true;
    }

    /**
      Measures the workload an accept would rest on again, until the accept rests on a workload
      measured here, on the pooled reading, or is gone.
     */
    method ConfirmSelection(ghost n: nat) returns (ok: bool)
      requires Measured(n)
      modifies this`clock, this`seeds, this`evidence, this`jobs
      ensures clock >= old(clock)
      ensures !ok ==> !evidence.behaviorMatches
      ensures AlwaysAgrees() && pairs > 0 ==> ok
      ensures ok ==> Measured(n) && SameSeeds(seeds, old(seeds))
      ensures ok ==> clock <= old(clock) + RunCount(n, |seeds|)
      ensures ok ==> |seeds| == |old(seeds)|
      ensures ok ==>
              forall i | 0 <= i < |seeds| :: seeds[i] == old(seeds)[i] || MeasuredWithin(seeds[i], old(clock), clock)
      ensures ok && |seeds| >= 2 ==> SelectionIsFresh(old(clock))
      ensures ok ==> OnlyReread(old(evidence))
      ensures ok && |seeds| < 2 ==> unchanged(this)
      ensures ok ==> jobs == old(jobs) || (CONFIRMED !in old(jobs) && jobs == old(jobs) + [CONFIRMED])
    {
      hide RunCount, Measured, MeasuredWithin, SameSeeds, Ids, IndexOf, IsFresh, RestsOn, Remeasured, AlwaysAgrees;
      SameAsItself(seeds);
      if |seeds| < 2 {
        return true;
      }
      ghost var was := seeds;
      var remeasured: set<string> := {};
      NothingRemeasured(seeds, clock);
      while true
        invariant Measured(n) && jobs == old(jobs) && |seeds| == |was|
        invariant OnlyReread(old(evidence))
        invariant clock == old(clock) + RunCount(n, |remeasured|)
        invariant Remeasured(seeds, was, remeasured, old(clock), clock)
        decreases |Ids(seeds)| - |remeasured|
      {
        var selected := SelectedToRemeasure(remeasured);
        if selected == None {
          break;
        }
        var workload := selected.value;
        var seed := IndexOf(seeds, workload);
        if seed < 0 {
          break;
        }
        ghost var before, began := seeds, clock;
        ok := RemeasureSelectedWorkload(seed, n);
        if !ok {
          return;
        }
        OneMoreSeed(n, |remeasured|);
        OneMoreRemeasured(seeds, before, was, remeasured, workload, old(clock), began, clock);
        remeasured := remeasured + {workload};
      }
      RemeasuredMeans(seeds, was, remeasured, old(clock), clock);
      FewerSeeds(n, |remeasured|, |seeds|);
      SelectionOfMeasured(n);
      if remeasured != {} && CONFIRMED !in jobs {
        jobs := jobs + [CONFIRMED];
      }
      return true;
    }

    lemma SelectionOfMeasured(n: nat)
      requires Measured(n)
      ensures RestsOn(policy, evidence).Some? ==> IndexOf(seeds, RestsOn(policy, evidence).value) >= 0
    {
      SelectionIsASeed(policy, evidence, seeds, sizes);
    }

    /** An accept that rests on one workload rests on runs started at or after `from`. */
    ghost predicate SelectionIsFresh(from: nat)
      reads this`clock, this`seeds, this`evidence
    {
      var workload := RestsOn(policy, evidence);
      workload.Some? ==> IsFresh(seeds, workload.value, from, clock)
    }

    /**
      The steps behind the first series. Every seed ends with one series or with two; an accept
      that rests on one of several workloads rests on runs started when the rest was over.
     */
    method SecondLook(ghost n: nat) returns (ok: bool)
      requires Measured(n) && seeds != [] && CONFIRMED !in jobs
      modifies this`clock, this`seeds, this`evidence, this`jobs
      ensures clock >= old(clock)
      ensures !ok ==> !evidence.behaviorMatches
      ensures AlwaysAgrees() && pairs > 0 ==> ok
      ensures ok ==>
                var extra := if AsksForSeries(policy, old(evidence)) then pairs else 0;
                var began := old(clock) + RunCount(extra, |seeds|);
                && extra >= 0 && Measured(n + extra) && SameSeeds(seeds, old(seeds))
                && began <= clock <= began + RunCount(n + extra, |seeds|)
                && (|seeds| >= 2 ==> SelectionIsFresh(began))
                && |seeds| == |old(seeds)|
                && (forall i | 0 <= i < |seeds| ::
                   Extends(seeds[i], old(seeds)[i]) || MeasuredWithin(seeds[i], began, clock))
                && (extra > 0 ==>
                   FreshGuardrailsOf(Keyed(evidence.freshGuardrails, true), old(seeds), n, old(clock), began))
      ensures ok ==> jobs == old(jobs) || jobs == old(jobs) + [CONFIRMED]
      ensures ok ==> KeepsStress(old(evidence))
    {
      hide Measured, AreReadings, AreGuardrailReadings, MeasuredWithin, IsSeries, Extends, Behind, SelectionIsFresh,
           AlwaysAgrees;
      hide RunCount, FreshGuardrailsOf, SecondSeries, AllExtend, SameSeeds;
      ghost var was, started := seeds, clock;
      ExtendsItself(seeds);
      ok := ConfirmRegressions(n);
      if !ok {
        return;
      }
      ghost var first := RegressionsNeedASeries(policy, old(evidence));
      if first {
        SecondSeriesMeans(was, started, n);
      }
      ok := ConfirmImprovements(n + if first then pairs else 0);
      if !ok {
        return;
      }
      ghost var second := ImprovementsNeedASeries(policy, old(evidence));
      if !first && second {
        SecondSeriesMeans(was, started, n);
      }
      ghost var extra := if first || second then pairs else 0;
      ghost var middle, began := seeds, clock;
      ok := ConfirmSelection(n + extra);
      if ok {
        FreshOrExtended(seeds, middle, was, began, clock);
      }
    }

    lemma SecondSeriesMeans(was: seq<SeedRuns>, from: nat, n: nat)
      requires SecondSeries(was, from, n)
      ensures pairs > 0 && Measured(n + pairs) && AllExtend(seeds, was) && |seeds| == |was|
      ensures clock == from + RunCount(pairs, |seeds|)
              && FreshGuardrailsOf(Keyed(evidence.freshGuardrails, true), was, n, from, clock)
    {
    }

    method OutputIsDeterministic(id: string) returns (deterministic: bool)
      modifies this`clock
      ensures old(clock) < clock <= old(clock) + 2
      ensures deterministic <==> ProbesAgree(id, old(clock))
    {
      var a := Run(id, false);
      if a.Some? {
        var b := Run(id, false);
        if b.Some? && a.value.stdout != b.value.stdout {
          return false;
        }
      }
      return true;
    }

    /** Whether a seed's output is taken for deterministic was read off two runs of the baseline in a row. */
    ghost predicate IsProbed(s: SeedRuns) {
      exists at: nat :: s.deterministic <==> ProbesAgree(s.id, at)
    }

    /** The first series of every seed, behind a warm-up run and a probe whose runs are discarded. */
    method MeasureSeedWorkloads(ids: seq<string>) returns (ok: bool)
      requires seeds == []
      modifies this`clock, this`seeds, this`evidence
      ensures clock >= old(clock)
      ensures !ok ==> !evidence.behaviorMatches
      ensures AlwaysAgrees() && pairs > 0 ==> ok
      ensures ok ==> |seeds| == |ids| && evidence == old(evidence)
      ensures ok && seeds != [] ==> pairs > 0 && clock >= old(clock) + RunCount(pairs, |ids|)
      ensures ok ==> forall i | 0 <= i < |ids| ::
                seeds[i].id == ids[i] && IsSeries(seeds[i], pairs) && MeasuredWithin(seeds[i], old(clock), clock)
      ensures ok ==> forall i | 0 <= i < |ids| :: IsProbed(seeds[i])
    {
      hide RunCount, MeasuredWithin, IsSeries, Extends, Behind, AlwaysAgrees;
      for i := 0 to |ids|
        invariant |seeds| == i && evidence == old(evidence) && (i > 0 ==> pairs > 0)
        invariant clock >= old(clock) + RunCount(pairs, i) && clock >= old(clock)
        invariant forall k | 0 <= k < i ::
                    seeds[k].id == ids[k] && IsSeries(seeds[k], pairs) && MeasuredWithin(seeds[k], old(clock), clock)
        invariant forall k | 0 <= k < i :: IsProbed(seeds[k])
      {
        ghost var before := clock;
        var _ := Run(ids[i], true);
        ghost var probed := clock;
        var deterministic := OutputIsDeterministic(ids[i]);
        assert deterministic <==> ProbesAgree(ids[i], probed);
        var empty := SeedRuns(ids[i], deterministic, ABResult([], []));
        NothingMeasured(empty, clock);
        ghost var began := clock;
        var runs;
        ok, runs := RunSeries(empty, pairs, 0);
        if !ok {
          return;
        }
        FreshAppended(runs, empty, 0, began, began, clock);
        seeds := seeds + [runs];
        forall k | 0 <= k <= i ensures MeasuredWithin(seeds[k], old(clock), clock) {
          LaterClock(seeds[k], if k < i then old(clock) else began, old(clock), if k < i then before else clock, clock);
        }
        OneMoreSeed(pairs, i);
      }
      return true;
    }

    ghost predicate IsStress(s: SeedRuns) {
      IsStressMeasured(policy.stressGuardrailsToReplicate, s, SeriesLength())
    }

    function SeriesLength(): nat {
      if pairs > 0 then pairs else 0
    }

    /**
      One series on a seed kept out of acceptance, and a second one where a reading of the first
      asks for it. The readings it returns stay the first series' own.
     */
    method MeasureStressSeed(id: string) returns (ok: bool, readings: seq<Comparison>)
      modifies this`clock, this`evidence, this`stress
      ensures clock >= old(clock)
      ensures !ok ==> !evidence.behaviorMatches
      ensures AlwaysAgrees() && pairs > 0 ==> ok
      ensures ok ==> |stress| == |old(stress)| + 1 && stress == old(stress) + [stress[|old(stress)|]]
      ensures ok ==> MeasuredWithin(stress[|old(stress)|], old(clock), clock)
      ensures ok ==>
                var s := stress[|old(stress)|];
                && s.id == id && IsStress(s)
                && readings == StressReadings(FirstRuns(s, SeriesLength()))
                && AreGuardrailsOf(readings, s, 0, SeriesLength())
                && evidence == old(evidence).(freshGuardrails :=
                     old(evidence.freshGuardrails) + StressFresh(policy.stressGuardrailsToReplicate, s, SeriesLength()))
    {
      hide MeasuredWithin, IsSeries, Extends, Behind, StressReadings, FirstRuns, StressFresh, IsStressMeasured,
           Replicated, AreGuardrailsOf, AlwaysAgrees;
      var deterministic := OutputIsDeterministic(id);
      var runs := SeedRuns(id, deterministic, ABResult([], []));
      NothingMeasured(runs, clock);
      ghost var empty, began := runs, clock;
      ok, runs := RunSeries(runs, pairs, 0);
      if !ok {
        return false, [];
      }
      FreshAppended(runs, empty, 0, began, began, clock);
      ghost var once := clock;
      readings := StressReadings(runs);
      var breaches := policy.stressGuardrailsToReplicate(readings);
      ghost var first, earlier := runs, evidence;
      if breaches == [] {
        StressDone(policy.stressGuardrailsToReplicate, runs, pairs);
        assert evidence.freshGuardrails + [] == evidence.freshGuardrails;
      } else {
        ok, runs := ReplicateStressBreach(runs, breaches);
        if !ok {
          return false, [];
        }
        StressRepeated(policy.stressGuardrailsToReplicate, runs, first, pairs);
        FreshAppended(runs, first, pairs, began, once, clock);
      }
      LaterClock(runs, began, old(clock), clock, clock);
      FirstSeriesIsRead(policy.stressGuardrailsToReplicate, runs, pairs);
      stress := stress + [runs];
    }

    /** A fresh series on a seed whose reading breached, and that series' own readings. */
    method ReplicateStressBreach(runs: SeedRuns, breaches: seq<Comparison>) returns (ok: bool, extended: SeedRuns)
      requires pairs > 0 && IsSeries(runs, pairs)
      modifies this`clock, this`evidence
      ensures clock >= old(clock)
      ensures !ok ==> !evidence.behaviorMatches
      ensures AlwaysAgrees() ==> ok
      ensures ok ==> IsSeries(extended, pairs + pairs) && Extends(extended, runs) && extended.id == runs.id
      ensures ok ==> MeasuredWithin(Behind(extended, pairs), old(clock), clock)
      ensures ok ==> evidence == old(evidence).(freshGuardrails :=
                       old(evidence.freshGuardrails) + Replicated(breaches, StressReadings(Behind(extended, pairs))))
      ensures ok && (forall i | 0 <= i < |breaches| :: IsGuardrail(breaches[i].subject)) ==>
                var before := |old(evidence.freshGuardrails)|;
                && |evidence.freshGuardrails| == before + |breaches|
                && forall i | 0 <= i < |breaches| ::
                     IsReadingAbout(evidence.freshGuardrails[before + i], extended, pairs, pairs + pairs,
                       breaches[i].subject)
    {
      hide MeasuredWithin, IsSeries, Extends, Behind, StressReadings, IsReadingAbout, FirstAbout, AlwaysAgrees;
      var start := |runs.ab.baseline|;
      LengthOf(runs, pairs);
      ok, extended := RunSeries(runs, pairs, pairs);
      if !ok {
        return;
      }
      ghost var after := clock;
      var again := StressReadings(Behind(extended, start));
      for i := 0 to |breaches|
        invariant clock == after
        invariant evidence == old(evidence).(freshGuardrails := old(evidence.freshGuardrails)
                  + Replicated(breaches[..i], again))
      {
        OneMoreAnswered(breaches, i, again);
        Text.Associative(old(evidence.freshGuardrails), Replicated(breaches[..i], again),
          FirstAbout(again, breaches[i].subject));
        evidence := evidence.(freshGuardrails := evidence.freshGuardrails + FirstAbout(again, breaches[i].subject));
      }
      assert breaches[..|breaches|] == breaches;
      BreachesAreAnswered(breaches, extended, pairs, old(evidence.freshGuardrails));
    }

    /** The seeds kept out of acceptance, each measured by itself. */
    method MeasureStressSeeds(ids: seq<string>) returns (ok: bool)
      requires stress == []
      modifies this`clock, this`evidence, this`stress
      ensures clock >= old(clock)
      ensures !ok ==> !evidence.behaviorMatches
      ensures AlwaysAgrees() && pairs > 0 ==> ok
      ensures ok ==> StressIsRead(ids, old(evidence.freshGuardrails)) && AllWithin(stress, old(clock), clock)
      ensures ok ==> evidence.comparisons == old(evidence.comparisons)
      ensures ok ==> evidence.firstGuardrails == old(evidence.firstGuardrails)
      ensures ok ==> evidence.behaviorMatches == old(evidence.behaviorMatches)
    {
      hide IsStressMeasured, StressReadings, StressFresh, FirstRuns, AllStressReadings, AllStressFresh, AllWithin,
           AlwaysAgrees;
      NothingWithin(clock);
      NoStressSeeds(policy.stressGuardrailsToReplicate, SeriesLength());
      var readings := [];
      for i := 0 to |ids|
        invariant |stress| == i && clock >= old(clock)
        invariant forall k | 0 <= k < i ::
                    stress[k].id == ids[k] && IsStress(stress[k])
        invariant AllWithin(stress, old(clock), clock)
        invariant readings == AllStressReadings(stress, SeriesLength())
        invariant evidence == old(evidence).(freshGuardrails := old(evidence.freshGuardrails)
                    + AllStressFresh(policy.stressGuardrailsToReplicate, stress, SeriesLength()))
      {
        ghost var was, before := stress, clock;
        var got;
        ok, got := MeasureStressSeed(ids[i]);
        if !ok {
          return;
        }
        OneMoreWithin(was, stress[i], old(clock), before, clock);
        OneMoreStressSeed(policy.stressGuardrailsToReplicate, was, stress[i], SeriesLength());
        Text.Associative(
          old(evidence.freshGuardrails),
          AllStressFresh(policy.stressGuardrailsToReplicate, was, SeriesLength()),
          StressFresh(policy.stressGuardrailsToReplicate, stress[i], SeriesLength()));
        readings := readings + got;
      }
      evidence := evidence.(stressComparisons := readings);
      return true;
    }

    /** The stress readings are those of these seeds, and fresh ones stand behind `fresh_`. */
    ghost predicate StressIsRead(ids: seq<string>, fresh_: seq<Comparison>)
      reads this`stress, this`evidence
    {
      var n := SeriesLength();
      && |stress| == |ids|
      && (forall k | 0 <= k < |ids| ::
            stress[k].id == ids[k] && IsStress(stress[k]))
      && evidence.stressComparisons == AllStressReadings(stress, n)
      && evidence.freshGuardrails == fresh_ + AllStressFresh(policy.stressGuardrailsToReplicate, stress, n)
    }

    /** What a verdict may rest on and what may veto it, measured once. */
    method MeasurePass(ids: seq<string>, stressIds: seq<string>) returns (ok: bool)
      requires seeds == [] && stress == []
      modifies this`clock, this`seeds, this`evidence, this`stress
      ensures clock >= old(clock)
      ensures !ok ==> !evidence.behaviorMatches
      ensures AlwaysAgrees() && pairs > 0 ==> ok
      ensures ok ==> AreMeasured(ids, old(clock))
      ensures ok && seeds == [] ==> evidence == old(evidence)
      ensures ok && seeds != [] ==> pairs > 0 && clock >= old(clock) + RunCount(pairs, |ids|)
      ensures ok && seeds != [] ==> StressIsRead(stressIds, old(evidence.freshGuardrails))
      ensures ok && seeds != [] ==> AllWithin(stress, old(clock), clock)
      ensures ok ==> evidence.firstGuardrails == old(evidence.firstGuardrails)
    {
      hide MeasuredWithin, IsSeries, AreReadings, RunCount, StressIsRead, AllWithin, AlwaysAgrees;
      ok := MeasureSeedWorkloads(ids);
      if !ok || seeds == [] {
        return;
      }
      ghost var measured := clock;
      Rederive(pairs);
      ok := MeasureStressSeeds(stressIds);
      if !ok {
        return;
      }
      AllLater(stress, measured, old(clock), clock, clock);
      forall i | 0 <= i < |seeds|
        ensures MeasuredWithin(seeds[i], 0, clock) && MeasuredWithin(seeds[i], old(clock), clock)
      {
        LaterClock(seeds[i], old(clock), 0, measured, clock);
        LaterClock(seeds[i], old(clock), old(clock), measured, clock);
      }
    }

    /** One series on each of these seeds, started at or after `from`. */
    ghost predicate AreMeasured(ids: seq<string>, from: nat)
      reads this`clock, this`seeds, this`evidence
    {
      && |seeds| == |ids| && (seeds != [] ==> pairs > 0 && Measured(pairs))
      && forall i | 0 <= i < |ids| :: seeds[i].id == ids[i] && MeasuredWithin(seeds[i], from, clock)
    }

    /** Everything held was started at or after `from`, the seeds that can only veto included. */
    ghost predicate HeldSince(ids: seq<string>, from: nat)
      reads this`clock, this`seeds, this`evidence, this`stress
    {
      AreMeasured(ids, from) && AllWithin(stress, from, clock)
    }

    /** A whole pass that is held no more: a series on every seed, run between `from` and `to`. */
    ghost predicate IsDiscarded(ids: seq<string>, stressIds: seq<string>, from: nat, to: nat)
      reads this`discarded
    {
      && |discarded| == |ids| + |stressIds| && AllWithin(discarded, from, to)
      && (forall i | 0 <= i < |ids| :: discarded[i].id == ids[i] && IsSeries(discarded[i], SeriesLength()))
      && forall i | 0 <= i < |stressIds| ::
           discarded[|ids| + i].id == stressIds[i] && IsStress(discarded[|ids| + i])
    }

    /**
      Measures every seed again from scratch, once, when the machine was contended. What is kept then
      was started when the pass that is thrown away was over.
     */
    method MeasureSeedsOnQuietMachine(ids: seq<string>, stressIds: seq<string>, contended: bool) returns (ok: bool)
      requires seeds == [] && stress == []
      modifies this`clock, this`seeds, this`evidence, this`stress, this`discarded
      ensures clock >= old(clock)
      ensures !ok ==> !evidence.behaviorMatches
      ensures AlwaysAgrees() && pairs > 0 ==> ok
      ensures ok ==> AreMeasured(ids, old(clock))
      ensures ok && seeds == [] ==> evidence == old(evidence)
      ensures ok && seeds != [] ==> pairs > 0 && clock >= old(clock) + RunCount(pairs, |ids|)
      ensures ok && seeds != [] && contended ==> AreMeasured(ids, old(clock) + RunCount(pairs, |ids|))
      ensures ok && seeds != [] ==> StressIsRead(stressIds, old(evidence.freshGuardrails))
      ensures ok && seeds != [] ==> exists from: nat :: KeptSince(ids, stressIds, contended, old(clock), from)
      ensures ok ==> evidence.firstGuardrails == old(evidence.firstGuardrails)
    {
      hide AreMeasured, RunCount, StressIsRead, AllWithin, IsDiscarded, AlwaysAgrees;
      var before := evidence;
      ok := MeasurePass(ids, stressIds);
      if !ok || seeds == [] {
        return;
      }
      if !contended {
        assert KeptSince(ids, stressIds, contended, old(clock), old(clock));
        return;
      }
      ThrownAway(seeds, stress, ids, stressIds, old(evidence.freshGuardrails), old(clock));
      discarded := seeds + stress;
      ghost var began := clock;
      DiscardedNow(seeds, stress, ids, stressIds, old(clock), began);
      seeds, stress, evidence := [], [], before;
      ok := MeasurePass(ids, stressIds);
      if ok {
        MeasuredSince(ids, began, old(clock));
        if seeds != [] {
          MeasuredSince(ids, began, old(clock) + RunCount(pairs, |ids|));
          assert KeptSince(ids, stressIds, contended, old(clock), began);
        }
      }
    }

    /** A discarded pass, if there was one, lies between `started` and `from`, and what is held behind it. */
    ghost predicate KeptSince(ids: seq<string>, stressIds: seq<string>, contended: bool, started: nat, from: nat)
      reads this`clock, this`seeds, this`evidence, this`stress, this`discarded
    {
      && started <= from <= clock && HeldSince(ids, from)
      && (contended ==> IsDiscarded(ids, stressIds, started, from))
    }

    lemma HeldMeans(ids: seq<string>, from: nat)
      requires HeldSince(ids, from)
      ensures AllWithin(seeds, from, clock) && AllWithin(stress, from, clock)
      ensures seeds != [] ==> Measured(pairs) && AllSeries(seeds, pairs)
    {
      hide MeasuredWithin, AreReadings, IsSeries;
    }

    ghost predicate IsWholePass(first: seq<SeedRuns>, veto: seq<SeedRuns>, ids: seq<string>, stressIds: seq<string>) {
      && |first| == |ids| && |veto| == |stressIds|
      && (forall i | 0 <= i < |ids| :: first[i].id == ids[i] && IsSeries(first[i], SeriesLength()))
      && forall i | 0 <= i < |stressIds| :: veto[i].id == stressIds[i] && IsStress(veto[i])
    }

    lemma ThrownAway(first: seq<SeedRuns>, veto: seq<SeedRuns>, ids: seq<string>, stressIds: seq<string>,
      fresh_: seq<Comparison>, from: nat)
      requires seeds != [] && AreMeasured(ids, from) && StressIsRead(stressIds, fresh_) && first == seeds
               && veto == stress
      ensures IsWholePass(first, veto, ids, stressIds) && AllWithin(first, from, clock)
    {
      hide MeasuredWithin, IsSeries, AreReadings, IsStress;
    }

    lemma DiscardedNow(first: seq<SeedRuns>, veto: seq<SeedRuns>, ids: seq<string>, stressIds: seq<string>, from: nat,
      to: nat)
      requires IsWholePass(first, veto, ids, stressIds) && discarded == first + veto
      requires AllWithin(first, from, to) && AllWithin(veto, from, to)
      ensures IsDiscarded(ids, stressIds, from, to)
    {
      hide MeasuredWithin, IsSeries, IsStress;
      forall i | 0 <= i < |stressIds| ensures discarded[|ids| + i] == veto[i] {
      }
    }

    lemma MeasuredSince(ids: seq<string>, from: nat, earlier: nat)
      requires AreMeasured(ids, from) && earlier <= from
      ensures AreMeasured(ids, earlier)
    {
      hide Measured, MeasuredWithin;
      forall i | 0 <= i < |ids| ensures MeasuredWithin(seeds[i], earlier, clock) {
        LaterClock(seeds[i], from, earlier, clock, clock);
      }
    }

    /**
      Between `from` and `began` a first series was run on every seed and read as `judged`. Every
      seed then got a second one exactly when those readings ask for it, and holds both, or runs of
      its own started at or after `began`; an accept that rests on one of several workloads rests on
      such runs.
     */
    ghost predicate IsConfirmed(first: seq<SeedRuns>, judged: Evidence, from: nat, began: nat)
      reads this`clock, this`seeds, this`evidence, this`stress
    {
      && from <= began <= clock && |first| == |seeds|
      && AllSeries(first, SeriesLength()) && AllWithin(first, from, began) && AllWithin(stress, from, began)
      && AreReadings(judged.comparisons, first, sizes) && judged.behaviorMatches && judged.firstGuardrails == []
      && judged.stressComparisons == AllStressReadings(stress, SeriesLength())
      && judged.freshGuardrails == AllStressFresh(policy.stressGuardrailsToReplicate, stress, SeriesLength())
      && Measured(if AsksForSeries(policy, judged) then SeriesLength() + SeriesLength() else SeriesLength())
      && (forall i | 0 <= i < |seeds| ::
            Extends(seeds[i], first[i])
            || (seeds[i].id == first[i].id && MeasuredWithin(seeds[i], began, clock)))
      && (|seeds| >= 2 ==> SelectionIsFresh(began))
    }

    /**
      A whole candidate. When it succeeds, every seed holds one series or two, every reading is
      derived from exactly the runs held, and an accept that rests on one of several workloads
      rests on a series none of whose runs took part in selecting it. The readings of the seeds that
      can only veto are the ones of their own series still. On a contended machine all of that was
      run when the pass that is thrown away was over.
     */
    method MeasureAndFinalize(ids: seq<string>, stressIds: seq<string>, contended: bool) returns (ok: bool)
      requires seeds == [] && stress == [] && jobs == [] && evidence == Evidence(false, [], [], [], [])
      modifies this
      ensures !ok ==> !evidence.behaviorMatches
      ensures AlwaysAgrees() && pairs > 0 && ids != [] ==> ok
      ensures ok ==> |seeds| == |ids| > 0 && pairs > 0 && (Measured(pairs) || Measured(2 * pairs))
      ensures ok ==> exists first, judged, from: nat, began: nat ::
                && IsConfirmed(first, judged, from, began) && old(clock) <= from
                && (contended ==> IsDiscarded(ids, stressIds, old(clock), from))
      ensures ok ==> jobs == FIRST_JOBS || jobs == FIRST_JOBS + [CONFIRMED]
      ensures ok ==> |stress| == |stressIds|
      ensures ok ==> forall k | 0 <= k < |stress| ::
                stress[k].id == stressIds[k] && IsStress(stress[k])
      ensures ok ==> evidence.stressComparisons == AllStressReadings(stress, SeriesLength())
      ensures ok ==> AreStressReadings(evidence.stressComparisons, stress, SeriesLength())
      ensures ok ==> Keyed(evidence.freshGuardrails, false)
                     == Keyed(AllStressFresh(policy.stressGuardrailsToReplicate, stress, SeriesLength()), false)
    {
      hide RunCount, MeasuredWithin, SelectionIsFresh, FreshGuardrailsOf, Extends, RestsOn, AsksForSeries, AlwaysAgrees;
      hide IsStress, AllStressReadings, AllStressFresh, Keyed, AreReadings, AllSeries, IsDiscarded, AllWithin;
      hide AreStressReadings;
      ok := MeasureSeedsOnQuietMachine(ids, stressIds, contended);
      if !ok {
        return;
      }
      if seeds == [] {
        return false;
      }
      ghost var from: nat :| KeptSince(ids, stressIds, contended, old(clock), from);
      jobs := jobs + FIRST_JOBS;
      assert [] + AllStressFresh(policy.stressGuardrailsToReplicate, stress, SeriesLength())
          == AllStressFresh(policy.stressGuardrailsToReplicate, stress, SeriesLength());
      HeldMeans(ids, from);
      ghost var first, judged, measured := seeds, evidence, clock;
      ghost var began: nat := clock + RunCount(if AsksForSeries(policy, evidence) then pairs else 0, |seeds|);
      ok := SecondLook(pairs);
      if ok {
        AllLater(first, from, from, measured, began);
        AllLater(stress, from, from, measured, began);
        assert IsConfirmed(first, judged, from, began);
        StressIsReadBySample();
      }
    }

    /**
      When the verdict is an accept and the reading it would rest on names a workload, that workload's
      seed, the first of that name, holds runs started when all series were over.
     */
    lemma AcceptRestsOnFreshRuns(first: seq<SeedRuns>, judged: Evidence, from: nat, began: nat, i: nat, k: nat)
      requires IsConfirmed(first, judged, from, began) && |seeds| >= 2
      requires policy.decide(evidence) == Accepted
      requires var eligible := EligibleReadings(evidence.comparisons, policy.primary);
               policy.bestImprovement(eligible) == Some(i) && i < |eligible|
               && eligible[i].workload != "" && k < |seeds| && seeds[k].id == eligible[i].workload
               && forall j | 0 <= j < k :: seeds[j].id != eligible[i].workload
      ensures MeasuredWithin(seeds[k], began, clock)
    {
      hide AreReadings, MeasuredWithin, Extends, EligibleReadings, AllStressReadings, AllStressFresh, AllSeries,
           Measured;
      var workload := EligibleReadings(evidence.comparisons, policy.primary)[i].workload;
      assert RestsOn(policy, evidence) == Some(workload);
      assert IndexOf(seeds, workload) == k;
    }

    lemma StressIsReadBySample()
      requires forall k | 0 <= k < |stress| :: IsStress(stress[k])
      ensures AreStressReadings(AllStressReadings(stress, SeriesLength()), stress, SeriesLength())
    {
      hide AreStressReadings, AllStressReadings;
      AllStressReads(stress, SeriesLength());
    }

    /**
      A seed is left with its first series alone exactly when nothing the policy reads in it calls
      for more samples.
     */
    lemma OneSeriesIff(first: seq<SeedRuns>, judged: Evidence, from: nat, began: nat)
      requires IsConfirmed(first, judged, from, began) && pairs > 0 && seeds != []
      ensures var all, eligible := judged.comparisons, EligibleReadings(judged.comparisons, policy.primary);
              |seeds[0].ab.baseline| == pairs <==>
              && policy.unconfirmedRegressions(eligible) == []
              && policy.unconfirmedGuardrails(all) == [] && policy.guardrailsToReplicate(all) == []
              && (policy.decide(judged) == Inconclusive ==> policy.unconfirmedImprovements(eligible) == [])
              && (policy.decide(judged) == Accepted ==> policy.borderlineImprovements(eligible) == [])
    {
      hide AreReadings, SelectionIsFresh, MeasuredWithin, Extends, EligibleReadings, AllStressReadings, AllStressFresh;
    }
  }
}
