/**
  Making a verdict durable (internal/campaign/adk.go, the save-then-append step of
  internal/campaign/engine.go, and internal/orchestrator/ledger.go). The disk answers every access
  as its script says: a write may fail or the process may die before, within or behind it, and a
  write that reports a failure may have reached the disk all the same.
 */
module Settlement {
  import opened Options
  import opened TokenUsage

  datatype Decision = Accepted | Inconclusive | Rejected

  /** The identifier a candidate's attempt number and patch text determine. */
  datatype CandidateId = CandidateId(attempt: nat, patch: string)

  /** A candidate; its patch file holds the patch it is named after. */
  datatype Candidate = Candidate(id: CandidateId, patchPath: string)

  datatype Record = Record(attempt: nat, candidate: Candidate, decision: Decision, accepted: bool)

  datatype Tallies = Tallies(tried: nat, failures: nat, inconclusive: nat)

  datatype State = State(records: seq<Record>, failures: nat, inconclusive: nat, usage: Table)

  /** The content of a file in accepted/; `Torn` is a copy cut short. */
  datatype File = Whole(content: string) | Torn

  datatype Disk = Disk(state: State, accepted: map<CandidateId, File>, events: seq<string>)

  datatype Reach = Nothing | Part | All
  datatype Ending = Returns | Errors | Dies

  /** How the disk answers one access. */
  datatype Outcome = Outcome(reach: Reach, ending: Ending)

  // ---------- the ledger ----------

  function Max(a: nat, b: nat): nat {
    if a < b then b else a
  }

  function After(t: Tallies, decision: Decision, separate: bool): Tallies {
    match decision
    case Accepted => t.(failures := 0, inconclusive := 0)
    case Rejected => t.(failures := t.failures + 1, inconclusive := 0)
    case Inconclusive =>
      t.(failures := t.failures + (if separate then 0 else 1), inconclusive := t.inconclusive + 1)
  }

  function TalliesOf(ledger: seq<Record>, separate: bool): Tallies {
    if ledger == [] then Tallies(0, 0, 0)
    else
      var t := TalliesOf(ledger[..|ledger| - 1], separate);
      var r := ledger[|ledger| - 1];
      After(t.(tried := Max(t.tried, r.attempt)), r.decision, separate)
  }

  method FoldTallies(ledger: seq<Record>, separate: bool) returns (t: Tallies)
    ensures t == TalliesOf(ledger, separate)
  {
    t := Tallies(0, 0, 0);
    for i := 0 to |ledger|
      invariant t == TalliesOf(ledger[..i], separate)
    {
      assert ledger[..i + 1][..i] == ledger[..i];
      t := After(t.(tried := Max(t.tried, ledger[i].attempt)), ledger[i].decision, separate);
    }
    assert ledger[..|ledger|] == ledger;
  }

  ghost predicate NoneAccepted(ledger: seq<Record>) {
    forall r | r in ledger :: !r.decision.Accepted?
  }

  ghost predicate AllInconclusive(ledger: seq<Record>) {
    forall r | r in ledger :: r.decision.Inconclusive?
  }

  function Rejections(ledger: seq<Record>): nat {
    if ledger == [] then 0
    else Rejections(ledger[..|ledger| - 1]) + if ledger[|ledger| - 1].decision.Rejected? then 1 else 0
  }

  lemma SuffixOf(ledger: seq<Record>, i: nat)
    requires i < |ledger|
    ensures ledger[i..] == ledger[..|ledger| - 1][i..] + [ledger[|ledger| - 1]]
    ensures ledger[i..][..|ledger| - 1 - i] == ledger[..|ledger| - 1][i..]
  {
  }

  /**
    The failures read off the ledger itself: behind the last accepted record they are every record,
    or the rejections when inconclusive verdicts have a bound of their own.
   */
  lemma {:induction false} FailuresSinceAccepted(ledger: seq<Record>, separate: bool) returns (accepted: nat)
    ensures accepted <= |ledger| && NoneAccepted(ledger[accepted..])
    ensures accepted > 0 ==> ledger[accepted - 1].decision.Accepted?
    ensures TalliesOf(ledger, separate).failures == if separate then Rejections(ledger[accepted..])
            else |ledger| - accepted
  {
    if ledger == [] {
      return 0;
    }
    var front, last := ledger[..|ledger| - 1], ledger[|ledger| - 1];
    accepted := FailuresSinceAccepted(front, separate);
    if last.decision.Accepted? {
      accepted := |ledger|;
    } else {
      SuffixOf(ledger, accepted);
    }
  }

  /** The inconclusive streak is the longest run of inconclusive verdicts the ledger ends with. */
  lemma {:induction false} InconclusiveSuffix(ledger: seq<Record>, separate: bool) returns (unresolved: nat)
    ensures unresolved <= |ledger| && AllInconclusive(ledger[unresolved..])
    ensures unresolved > 0 ==> !ledger[unresolved - 1].decision.Inconclusive?
    ensures TalliesOf(ledger, separate).inconclusive == |ledger| - unresolved
  {
    hide Max;
    if ledger == [] {
      return 0;
    }
    var front, last := ledger[..|ledger| - 1], ledger[|ledger| - 1];
    unresolved := InconclusiveSuffix(front, separate);
    if last.decision.Inconclusive? {
      SuffixOf(ledger, unresolved);
    } else {
      unresolved := |ledger|;
    }
  }

  // ---------- what the disk promises ----------

  /** Every accepted record with a patch path has its finished copy. */
  ghost predicate CopiesKept(records: seq<Record>, accepted: map<CandidateId, File>) {
    forall r | r in records && r.accepted && r.candidate.patchPath != "" ::
      r.candidate.id in accepted && accepted[r.candidate.id] == Whole(r.candidate.id.patch)
  }

  /** The first record is attempt 1, and each record names the attempt its candidate was made in. */
  ghost predicate IsLedger(records: seq<Record>) {
    forall i | 0 <= i < |records| ::
      && records[i].attempt == i + 1 && records[i].candidate.id.attempt == i + 1
      && records[i].accepted == records[i].decision.Accepted?
  }

  /** The counters count the first so many of these records, and nothing else. */
  ghost predicate CountsRecords(records: seq<Record>, failures: nat, inconclusive: nat, separate: bool) {
    exists k: nat :: k <= |records| && CountsFirst(records, k, failures, inconclusive, separate)
  }

  ghost predicate CountsFirst(records: seq<Record>, k: nat, failures: nat, inconclusive: nat, separate: bool)
    requires k <= |records|
  {
    var t := TalliesOf(records[..k], separate);
    failures == t.failures && inconclusive == t.inconclusive
  }

  ghost predicate KeepsPromises(disk: Disk, processes: seq<Table>, separate: bool) {
    && IsLedger(disk.state.records)
    && CopiesKept(disk.state.records, disk.accepted)
    && CountsRecords(disk.state.records, disk.state.failures, disk.state.inconclusive, separate)
    && IsSum(disk.state.usage, processes)
  }

  lemma {:induction false} TriedIsTheLength(records: seq<Record>, separate: bool)
    requires IsLedger(records)
    ensures TalliesOf(records, separate).tried == |records|
  {
    if records != [] {
      TriedIsTheLength(records[..|records| - 1], separate);
    }
  }

  /** A record added to a ledger, when its copy is kept. */
  lemma AppendRecord(records: seq<Record>, r: Record, accepted: map<CandidateId, File>)
    requires IsLedger(records) && CopiesKept(records, accepted)
    requires r.attempt == |records| + 1 && r.candidate.id.attempt == |records| + 1 && r.accepted == r.decision.Accepted?
    requires r.accepted && r.candidate.patchPath != "" ==>
               r.candidate.id in accepted && accepted[r.candidate.id] == Whole(r.candidate.id.patch)
    ensures IsLedger(records + [r]) && CopiesKept(records + [r], accepted)
  {
  }

  /** A new candidate's file is none the ledger refers to, so writing it, even in part, harms none. */
  lemma NewFileHarmsNone(records: seq<Record>, accepted: map<CandidateId, File>, id: CandidateId, file: File)
    requires IsLedger(records) && CopiesKept(records, accepted) && id.attempt == |records| + 1
    ensures CopiesKept(records, accepted[id := file])
  {
    forall r | r in records ensures r.candidate.id != id {
      var i :| 0 <= i < |records| && records[i] == r;
    }
  }

  lemma StillCounts(records: seq<Record>, r: Record, failures: nat, inconclusive: nat, separate: bool)
    requires CountsRecords(records, failures, inconclusive, separate)
    ensures CountsRecords(records + [r], failures, inconclusive, separate)
  {
    var k: nat :| k <= |records| && CountsFirst(records, k, failures, inconclusive, separate);
    assert (records + [r])[..k] == records[..k];
    assert CountsFirst(records + [r], k, failures, inconclusive, separate);
  }

  lemma CountsAll(records: seq<Record>, separate: bool)
    ensures var t := TalliesOf(records, separate); CountsRecords(records, t.failures, t.inconclusive, separate)
  {
    var t := TalliesOf(records, separate);
    assert records[..|records|] == records;
    assert CountsFirst(records, |records|, t.failures, t.inconclusive, separate);
  }

  /** An attempt to store a state that extends what is on disk. */
  lemma StateStored(disk: Disk, state: State, processes: seq<Table>, separate: bool)
    requires IsLedger(state.records) && CopiesKept(state.records, disk.accepted)
             && CountsRecords(state.records, state.failures, state.inconclusive, separate)
    requires IsSum(state.usage, processes)
    ensures KeepsPromises(disk.(state := state), processes, separate)
  {
  }

  lemma FirstProcess()
    ensures var one: seq<Table> := [map[]];
            one[..|one| - 1] == [] && IsSum(map[], one) && IsSum(map[], one[..|one| - 1])
              && IsSum(map[], one[..|one| - 1] + [map[]])
  {
    var one: seq<Table> := [map[]];
    assert one[..0] == [] && [] + [map[]] == one;
    assert IsSum(map[], []);
    SumWithNothing(map[], []);
  }

  // ---------- the engine ----------

  class Engine {
    const separate: bool
    const script: nat -> Outcome

    var disk: Disk
    /** How often the disk was accessed. */
    var accesses: nat
    /** The process runs; a dead one reaches nothing any more. */
    var alive: bool

    var state: State
    var baseline: Option<Table>
    var collector: Table
    var attached: bool
    /** The tallies of the graph while it runs. */
    var graph: Option<Tallies>

    /** What each process' collector showed when its usage was last stored. */
    ghost var stored: seq<Table>
    /** What this process' collector showed when its usage was last recorded. */
    ghost var recorded: Table

    /** A campaign is created on an empty disk. */
    constructor (separate: bool, script: nat -> Outcome)
      ensures Valid() && alive && disk.state.records == [] && this.separate == separate && this.script == script
      ensures state.records == [] && graph == None
    {
      hide IsSum, CountsRecords;
      this.separate, this.script := separate, script;
      state := State([], 0, 0, map[]);
      disk := Disk(State([], 0, 0, map[]), map[], []);
      accesses, alive, baseline, collector, attached, graph := 0, true, None, map[], false, None;
      stored, recorded := [map[]], map[];
      new;
      CountsAll([], separate);
      FirstProcess();
    }

    ghost function Past(): seq<Table>
      reads this`stored
      requires stored != []
    {
      stored[..|stored| - 1]
    }

    ghost predicate UsageFits()
      reads this`stored, this`state, this`baseline, this`recorded
    {
      && stored != [] && IsSum(state.usage, Past() + [recorded])
      && (baseline.Some? ==> IsSum(baseline.value, Past()))
      && (baseline.None? ==> IsSum(state.usage, Past()))
    }

    ghost predicate MemoryFits()
      reads this`disk, this`state
    {
      && disk.state.records <= state.records
      && IsLedger(state.records) && CopiesKept(state.records, disk.accepted)
         && CountsRecords(state.records, state.failures, state.inconclusive, separate)
    }

    /** The disk keeps its promises, and so will it if the memory is stored. */
    ghost predicate Valid()
      reads this
    {
      && KeepsPromises(disk, stored, separate)
      && MemoryFits() && UsageFits()
      && (graph.Some? ==> graph.value == TalliesOf(state.records, separate))
    }

    /** No access fails, and the process never dies of one. */
    ghost predicate DiskWorks() {
      forall n :: script(n) == Outcome(All, Returns)
    }

    /** One access; a dead process makes none. */
    method Access() returns (outcome: Outcome)
      modifies this`accesses, this`alive
      ensures !old(alive) ==> !alive && outcome == Outcome(Nothing, Dies)
      ensures outcome.ending.Dies? ==> !alive
      ensures !outcome.ending.Dies? ==> alive
      ensures DiskWorks() && old(alive) ==> alive && outcome == Outcome(All, Returns)
    {
      if !alive {
        return Outcome(Nothing, Dies);
      }
      outcome := script(accesses);
      accesses := accesses + 1;
      alive := !outcome.ending.Dies?;
    }

    /** Stores the state, wholly or not at all. */
    method Save() returns (ok: bool)
      requires Valid()
      modifies this`disk, this`accesses, this`alive, this`stored
      ensures Valid() && disk.accepted == old(disk.accepted) && disk.events == old(disk.events)
      ensures (disk == old(disk) && stored == old(stored)) || (disk.state == state && stored == Past() + [recorded])
      ensures |stored| == |old(stored)| && Past() == old(Past())
      ensures ok ==> alive && disk.state == state && stored == Past() + [recorded]
      ensures !old(alive) ==> !alive && disk == old(disk)
      ensures DiskWorks() && old(alive) ==> alive && ok
    {
      hide KeepsPromises, IsSum, CopiesKept, IsLedger, CountsRecords, DiskWorks;
      var outcome := Access();
      if outcome.reach.All? {
        disk := disk.(state := state);
        stored := Past() + [recorded];
        StateStored(disk, state, stored, separate);
      }
      ok := outcome == Outcome(All, Returns);
    }

    method AppendEvent(event: string) returns (ok: bool)
      requires Valid()
      modifies this`disk, this`accesses, this`alive
      ensures Valid() && disk.(events := old(disk.events)) == old(disk)
      ensures disk.events == old(disk.events) || disk.events == old(disk.events) + [event]
      ensures ok ==> alive && disk.events == old(disk.events) + [event]
      ensures !old(alive) ==> !alive && disk == old(disk)
      ensures DiskWorks() && old(alive) ==> alive && ok
    {
      hide IsSum, CopiesKept, IsLedger, CountsRecords, DiskWorks;
      var outcome := Access();
      if outcome.reach.All? {
        disk := disk.(events := disk.events + [event]);
      }
      ok := outcome == Outcome(All, Returns);
    }

    /** Adds this process' spend to what was persisted before it; calling it again changes nothing. */
    method RecordTokenUsage()
      requires UsageFits()
      modifies this`state, this`baseline, this`recorded
      ensures UsageFits() && state == old(state).(usage := state.usage) && recorded == collector
    {
      hide IsSum;
      if baseline == None {
        baseline := Some(state.usage);
      }
      var merged := MergeTokenUsage(baseline.value, collector);
      SumWithAnother(baseline.value, Past(), collector, merged);
      state := state.(usage := merged);
      recorded := collector;
    }

    method SaveEvent(event: string) returns (ok: bool)
      requires Valid()
      modifies this`disk, this`accesses, this`alive, this`stored, this`state, this`baseline, this`recorded
      ensures Valid() && disk.accepted == old(disk.accepted) && state == old(state).(usage := state.usage)
      ensures |stored| == |old(stored)| && Past() == old(Past())
      ensures ok ==> alive && disk.state == state && disk.events == old(disk.events) + [event]
      ensures ok && attached ==> stored == Past() + [collector]
      ensures !old(alive) ==> !alive && disk == old(disk)
      ensures DiskWorks() && old(alive) ==> alive && ok
    {
      hide KeepsPromises, IsSum, CopiesKept, IsLedger, CountsRecords, DiskWorks;
      if attached {
        RecordTokenUsage();
      }
      ok := Save();
      if ok {
        ok := AppendEvent(event);
      }
    }

    /** Copies the patch into accepted/; the copy may be cut short. */
    method KeepAcceptedPatch(candidate: Candidate) returns (ok: bool)
      requires Valid() && candidate.id.attempt == |state.records| + 1
      modifies this`disk, this`accesses, this`alive
      ensures Valid() && disk.(accepted := old(disk.accepted)) == old(disk)
      ensures ok && candidate.patchPath != "" ==>
                candidate.id in disk.accepted && disk.accepted[candidate.id] == Whole(candidate.id.patch)
      ensures !old(alive) ==> !alive && !ok && disk == old(disk)
      ensures DiskWorks() && old(alive) ==> alive && ok
    {
      hide IsSum, CountsRecords, CopiesKept, IsLedger, DiskWorks;
      var directory := Access();
      if directory.ending != Returns {
        return false;
      }
      if candidate.patchPath == "" {
        return true;
      }
      var read := Access();
      if read.ending != Returns {
        return false;
      }
      var write := Access();
      if write.reach != Nothing {
        var file := if write.reach.All? then Whole(candidate.id.patch) else Torn;
        NewFileHarmsNone(state.records, disk.accepted, candidate.id, file);
        FirstRecordsKept(disk.state.records, state.records, disk.accepted[candidate.id := file]);
        disk := disk.(accepted := disk.accepted[candidate.id := file]);
      }
      return write == Outcome(All, Returns);
    }

    method PersistVerdict(candidate: Candidate, decision: Decision) returns (ok: bool)
      requires Valid() && graph == None && candidate.id.attempt == |state.records| + 1
      requires decision.Accepted? && candidate.patchPath != "" ==>
                 candidate.id in disk.accepted && disk.accepted[candidate.id] == Whole(candidate.id.patch)
      modifies this`disk, this`accesses, this`alive, this`stored, this`state, this`baseline, this`recorded
      ensures Valid() && disk.accepted == old(disk.accepted)
      ensures state.records == old(state.records)
              + [Record(|old(state.records)| + 1, candidate, decision, decision.Accepted?)]
      ensures |stored| == |old(stored)| && Past() == old(Past())
      ensures ok ==> disk.state == state
      ensures !old(alive) ==> !alive && disk == old(disk)
      ensures DiskWorks() && old(alive) ==> alive && ok
    {
      hide KeepsPromises, IsSum, CountsRecords, CopiesKept, IsLedger, DiskWorks;
      var record := Record(|state.records| + 1, candidate, decision, decision.Accepted?);
      AppendRecord(state.records, record, disk.accepted);
      StillCounts(state.records, record, state.failures, state.inconclusive, separate);
      state := state.(records := state.records + [record]);
      ok := SaveEvent("candidate_evaluated");
    }

    /**
      Makes one verdict durable. When it reports success, the record, its copy and the counters are
      on disk, even if saving the verdict itself failed first.
     */
    method Settle(candidate: Candidate, decision: Decision, progress: Tallies) returns (ok: bool)
      requires Valid() && graph == None && candidate.id.attempt == |state.records| + 1
      requires progress == After(TalliesOf(state.records, separate).(tried := |state.records| + 1), decision, separate)
      modifies this`disk, this`accesses, this`alive, this`stored, this`state, this`baseline, this`recorded
      ensures Valid()
      ensures |stored| == |old(stored)| && Past() == old(Past())
      ensures ok ==>
              state.records == old(state.records)
                + [Record(|old(state.records)| + 1, candidate, decision, decision.Accepted?)]
      ensures ok ==> disk.state == state && progress == TalliesOf(state.records, separate)
      ensures ok ==> state.failures == progress.failures && state.inconclusive == progress.inconclusive
      ensures ok && attached ==> stored == Past() + [collector]
      ensures !old(alive) ==> !alive && disk == old(disk)
      ensures DiskWorks() && old(alive) ==> alive && ok
    {
      hide KeepsPromises, IsSum, CountsRecords, CopiesKept, IsLedger, TalliesOf, After, DiskWorks;
      if decision.Accepted? {
        var kept := KeepAcceptedPatch(candidate);
        if !kept {
          return false;
        }
      }
      ProgressCounts(state.records, candidate, decision, separate);
      var _ := PersistVerdict(candidate, decision);
      if decision.Accepted? {
        var announced := SaveEvent("candidate_accepted");
        if !announced {
          return false;
        }
      }
      CountsAll(state.records, separate);
      state := state.(failures := progress.failures, inconclusive := progress.inconclusive);
      ok := SaveEvent("adk_progress");
    }

    // ---------- a campaign's processes ----------

    /** The graph starts from the recorded candidates. */
    method StartGraph()
      requires Valid()
      modifies this`graph
      ensures Valid() && graph == Some(TalliesOf(state.records, separate))
    {
      var tallies := FoldTallies(state.records, separate);
      graph := Some(tallies);
    }

    /** One candidate of the running graph is settled; the graph ends where that fails. */
    method ApplyPolicy(patch: string, patchPath: string, decision: Decision) returns (ok: bool)
      requires Valid()
      modifies this
      ensures Valid() && |stored| == |old(stored)| && Past() == old(Past())
      ensures ok ==> old(graph).Some? && graph == Some(TalliesOf(state.records, separate)) && disk.state == state
      ensures ok ==> state.records == old(state.records)
                     + [Record(|old(state.records)| + 1,
                       Candidate(CandidateId(|old(state.records)| + 1, patch), patchPath), decision,
                         decision.Accepted?)]
      ensures !old(alive) ==> !alive && disk == old(disk)
      ensures old(graph).None? ==>
              !ok && graph == None && state == old(state) && disk == old(disk) && alive == old(alive)
      ensures DiskWorks() && old(alive) ==> alive && (old(graph).Some? ==> ok)
    {
      hide KeepsPromises, IsSum, CountsRecords, CopiesKept, IsLedger, DiskWorks;
      if graph == None {
        return false;
      }
      var tallies := graph.value;
      TriedIsTheLength(state.records, separate);
      var attempt := tallies.tried + 1;
      var progress := After(tallies.(tried := attempt), decision, separate);
      graph := None;
      ok := Settle(Candidate(CandidateId(attempt, patch), patchPath), decision, progress);
      if ok {
        graph := Some(progress);
      }
    }

    /** A new process reads the state back; its collector starts at nothing. */
    method Restart()
      requires Valid()
      modifies this`alive, this`state, this`baseline, this`collector, this`attached, this`graph, this`stored,
               this`recorded
      ensures Valid() && alive && state == disk.state && stored == old(stored) + [map[]] && graph == None
    {
      hide IsSum, CountsRecords, CopiesKept, IsLedger;
      alive, state, baseline, collector, attached, graph := true, disk.state, None, map[], false, None;
      SumWithNothing(disk.state.usage, stored);
      stored, recorded := stored + [map[]], map[];
      assert Past() == old(stored);
    }

    method Spend(role: string, usage: Usage)
      requires Valid()
      modifies this`collector
      ensures Valid()
      ensures forall r ::
                At(collector, r) == if r == role then Plus(At(old(collector), r), usage) else At(old(collector), r)
    {
      collector := collector[role := Plus(At(collector, role), usage)];
    }

    method Obey(command: Command)
      requires Valid()
      modifies this
      ensures Valid()
      ensures DiskWorks() && old(alive) && old(disk.state.records) == old(state.records) ==>
                && alive && disk.state.records == state.records
                && state.records == RecordedBy(old(state.records), old(graph).Some?, command)
                && (graph.Some? <==> RunsAfter(old(graph).Some?, command))
    {
      hide KeepsPromises, IsSum, CountsRecords, CopiesKept, IsLedger, TalliesOf, DiskWorks;
      match command
      case Restarts => Restart();
      case Attach(on) => attached := on;
      case Starts => StartGraph();
      case Judge(patch, patchPath, decision) =>
        var _ := ApplyPolicy(patch, patchPath, decision);
      case Note(event) =>
        var _ := SaveEvent(event);
      case Spends(role, usage) => Spend(role, usage);
      case Finishes =>
        RecordTokenUsage();
        graph := None;
    }

    /**
      A campaign over any number of processes: whatever is asked for, in whatever order, and
      wherever writes fail or the process dies, the disk keeps its promises at every moment, because
      a dead process leaves it as it was when it died.
     */
    method Campaign(commands: seq<Command>)
      requires Valid()
      modifies this
      ensures Valid() && KeepsPromises(disk, stored, separate)
      ensures DiskWorks() && old(alive) && old(disk.state.records) == old(state.records) ==>
                disk.state.records == Judged(old(state.records), old(graph).Some?, commands)
    {
      hide KeepsPromises, IsSum, CountsRecords, CopiesKept, IsLedger, TalliesOf, DiskWorks, RecordedBy, RunsAfter;
      for i := 0 to |commands|
        invariant Valid()
        invariant DiskWorks() && old(alive) && old(disk.state.records) == old(state.records) ==>
                    && alive && disk.state.records == state.records
                    && state.records == Judged(old(state.records), old(graph).Some?, commands[..i])
                    && (graph.Some? <==> Runs(old(graph).Some?, commands[..i]))
      {
        OneMoreCommand(old(state.records), old(graph).Some?, commands, i);
        Obey(commands[i]);
      }
      assert commands[..|commands|] == commands;
    }
  }

  /** What may happen to a campaign's engine. */
  datatype Command =
    | Restarts
    | Attach(on: bool)
    | Starts
    | Judge(patch: string, patchPath: string, decision: Decision)
    | Note(event: string)
    | Spends(role: string, usage: Usage)
    | Finishes

  /** The graph runs once it has been started, until it finishes or the process is replaced. */
  predicate RunsAfter(running: bool, command: Command) {
    command.Starts? || (running && !command.Restarts? && !command.Finishes?)
  }

  predicate Runs(running: bool, commands: seq<Command>) {
    if commands == [] then running else RunsAfter(Runs(running, commands[..|commands| - 1]), commands[|commands| - 1])
  }

  /** A running graph records its verdict under the next number. */
  function RecordedBy(records: seq<Record>, running: bool, command: Command): seq<Record> {
    match command
    case Judge(patch, patchPath, decision) =>
      var n := |records| + 1;
      if !running then records
      else records + [Record(n, Candidate(CandidateId(n, patch), patchPath), decision, decision.Accepted?)]
    case _ => records
  }

  /** What is on record when every access succeeds. */
  function Judged(records: seq<Record>, running: bool, commands: seq<Command>): seq<Record> {
    if commands == [] then records
    else
      var front := commands[..|commands| - 1];
      RecordedBy(Judged(records, running, front), Runs(running, front), commands[|commands| - 1])
  }

  lemma OneMoreCommand(records: seq<Record>, running: bool, commands: seq<Command>, i: nat)
    requires i < |commands|
    ensures Judged(records, running, commands[..i + 1])
         == RecordedBy(Judged(records, running, commands[..i]), Runs(running, commands[..i]), commands[i])
    ensures Runs(running, commands[..i + 1]) == RunsAfter(Runs(running, commands[..i]), commands[i])
  {
    assert commands[..i + 1][..i] == commands[..i];
  }

  lemma FirstRecordsKept(first: seq<Record>, records: seq<Record>, accepted: map<CandidateId, File>)
    requires first <= records && CopiesKept(records, accepted)
    ensures CopiesKept(first, accepted)
  {
    forall r | r in first ensures r in records {
    }
  }

  lemma ProgressCounts(records: seq<Record>, candidate: Candidate, decision: Decision, separate: bool)
    requires IsLedger(records)
    ensures var r := Record(|records| + 1, candidate, decision, decision.Accepted?);
            TalliesOf(records + [r], separate)
            == After(TalliesOf(records, separate).(tried := |records| + 1), decision, separate)
  {
    var r := Record(|records| + 1, candidate, decision, decision.Accepted?);
    assert (records + [r])[..|records|] == records;
    TriedIsTheLength(records, separate);
  }
}
