/**
  Token accounting (internal/campaign/adk.go). A process adds its collector's running total to what
  was persisted before it started, so recording any number of times counts nothing twice.
 */
module TokenUsage {
  import opened Samples

  datatype Usage = Usage(requests: nat, prompt: nat, completion: nat, total: nat)

  type Table = map<string, Usage>

  const NONE := Usage(0, 0, 0, 0)

  function Plus(a: Usage, b: Usage): Usage {
    Usage(a.requests + b.requests, a.prompt + b.prompt, a.completion + b.completion, a.total + b.total)
  }

  function At(t: Table, role: string): Usage {
    if role in t then t[role] else NONE
  }

  /** Adding per role what one process spent so far to what was persisted before it. */
  method MergeTokenUsage(base: Table, processTotal: Table) returns (merged: Table)
    ensures merged.Keys == base.Keys + processTotal.Keys
    ensures forall role :: At(merged, role) == Plus(At(base, role), At(processTotal, role))
    ensures forall role ::
              && At(merged, role).requests == At(base, role).requests + At(processTotal, role).requests
              && At(merged, role).prompt == At(base, role).prompt + At(processTotal, role).prompt
              && At(merged, role).completion == At(base, role).completion + At(processTotal, role).completion
              && At(merged, role).total == At(base, role).total + At(processTotal, role).total
  {
    hide Plus;
    merged := base;
    var roles := processTotal.Keys;
    while roles != {}
      invariant roles <= processTotal.Keys
      invariant merged.Keys == base.Keys + (processTotal.Keys - roles)
      invariant forall role :: At(merged, role) == Partly(base, processTotal, roles, role)
      decreases roles
    {
      var role :| role in roles;
      ghost var before, left := merged, roles;
      merged := merged[role := Plus(At(merged, role), processTotal[role])];
      roles := roles - {role};
      forall r ensures At(merged, r) == Partly(base, processTotal, roles, r) {
        assert At(before, r) == Partly(base, processTotal, left, r);
      }
    }
    forall role ensures At(merged, role) == Plus(At(base, role), At(processTotal, role)) {
      PlusNone(At(base, role));
    }
    PlusAdds();
  }

  lemma PlusAdds()
    ensures forall a, b ::
              && Plus(a, b).requests == a.requests + b.requests && Plus(a, b).prompt == a.prompt + b.prompt
              && Plus(a, b).completion == a.completion + b.completion && Plus(a, b).total == a.total + b.total
  {
  }

  /** The merged entry of a role while the roles in `left` are still to come. */
  function Partly(base: Table, processTotal: Table, left: set<string>, role: string): Usage {
    if role in left || role !in processTotal then At(base, role) else Plus(At(base, role), At(processTotal, role))
  }

  lemma PlusNone(u: Usage)
    ensures Plus(u, NONE) == u
  {
  }

  /** What a role spent over all these processes. */
  function SpentBy(processes: seq<Table>, role: string): Usage {
    if processes == [] then NONE else Plus(SpentBy(processes[..|processes| - 1], role),
      At(processes[|processes| - 1], role))
  }

  function RequestsOf(role: string): Table -> int {
    t => At(t, role).requests
  }

  function PromptOf(role: string): Table -> int {
    t => At(t, role).prompt
  }

  function CompletionOf(role: string): Table -> int {
    t => At(t, role).completion
  }

  function TotalOf(role: string): Table -> int {
    t => At(t, role).total
  }

  /** Counter by counter, the sum of what each process spent. */
  lemma {:induction false} SpentIsTheSum(processes: seq<Table>, role: string)
    ensures SpentBy(processes, role).requests == Sum(processes, RequestsOf(role))
    ensures SpentBy(processes, role).prompt == Sum(processes, PromptOf(role))
    ensures SpentBy(processes, role).completion == Sum(processes, CompletionOf(role))
    ensures SpentBy(processes, role).total == Sum(processes, TotalOf(role))
  {
    if processes != [] {
      SpentIsTheSum(processes[..|processes| - 1], role);
    }
  }

  /** The table holds the sum over the processes. */
  ghost predicate IsSum(t: Table, processes: seq<Table>) {
    forall role :: At(t, role) == SpentBy(processes, role)
  }

  lemma SumWithAnother(t: Table, processes: seq<Table>, another: Table, merged: Table)
    requires IsSum(t, processes)
    requires forall role :: At(merged, role) == Plus(At(t, role), At(another, role))
    ensures IsSum(merged, processes + [another])
  {
    hide Plus, At;
    assert (processes + [another])[..|processes|] == processes;
    forall role ensures At(merged, role) == SpentBy(processes + [another], role) {
      assert At(t, role) == SpentBy(processes, role);
    }
  }

  lemma SumWithNothing(t: Table, processes: seq<Table>)
    requires IsSum(t, processes)
    ensures IsSum(t, processes + [map[]])
  {
    hide IsSum, SpentBy, Plus;
    forall role ensures At(t, role) == Plus(At(t, role), At(map[], role)) {
      PlusNone(At(t, role));
    }
    SumWithAnother(t, processes, map[], t);
  }
}
