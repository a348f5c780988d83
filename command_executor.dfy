/** Running the commands of the sorted targets (pancake.cpp, runCommands).
    Spawning a shell and waiting for it is replaced by an oracle `ok` that
    says whether a command succeeds. */
module CommandExecutor {
  import opened Common

  /** How the run ends: every command succeeded, or it stopped with an error. */
  datatype Outcome = Done | Failed(error: Error)

  /** The number of leading names in `sorted` that are targets: `graph.at`
      throws at the first name after them. */
  function KnownPrefix(graph: Graph, sorted: seq<string>): (n: nat)
    ensures n <= |sorted|
    ensures forall k :: 0 <= k < n ==> sorted[k] in graph
    ensures n < |sorted| ==> sorted[n] !in graph
  {
    if |sorted| == 0 || sorted[0] !in graph then 0
    else 1 + KnownPrefix(graph, sorted[1..])
  }

  /** The commands of `targets`, target after target, each target's in
      declaration order; a single target contributes exactly its own. */
  function Schedule(graph: Graph, targets: seq<string>): (s: seq<string>)
    requires forall k :: 0 <= k < |targets| ==> targets[k] in graph
    ensures |targets| == 0 ==> s == []
    ensures |targets| == 1 ==> s == graph[targets[0]].commands
  {
    if |targets| == 0 then []
    else Schedule(graph, targets[..|targets| - 1]) + graph[targets[|targets| - 1]].commands
  }

  /** The commands the executor reaches if none fails: those of the
      targets before the first name that is not a target. */
  function Planned(graph: Graph, sorted: seq<string>): (p: seq<string>)
    ensures (forall k :: 0 <= k < |sorted| ==> sorted[k] in graph) ==> p == Schedule(graph, sorted)
  {
    assert sorted[..|sorted|] == sorted;
    Schedule(graph, sorted[..KnownPrefix(graph, sorted)])
  }

  /** `runCommands`: for each target in order, run each of its commands in
      order, and stop at the first that fails. `ran` is the sequence of
      commands started. */
  method RunCommands(graph: Graph, sorted: seq<string>, ok: string -> bool)
    returns (ran: seq<string>, outcome: Outcome)
    ensures ran <= Planned(graph, sorted)
    ensures forall k :: 0 <= k < |ran| - 1 ==> ok(ran[k])
    ensures outcome == Failed(ChildFailed) <==>
            exists k :: 0 <= k < |Planned(graph, sorted)| && !ok(Planned(graph, sorted)[k])
    ensures outcome == Failed(ChildFailed) ==> |ran| > 0 && !ok(ran[|ran| - 1])
    ensures outcome != Failed(ChildFailed) ==> ran == Planned(graph, sorted)
    ensures outcome == Failed(OutOfRange) ==> KnownPrefix(graph, sorted) < |sorted|
    ensures outcome == Done ==> KnownPrefix(graph, sorted) == |sorted|
    ensures outcome in {Done, Failed(ChildFailed), Failed(OutOfRange)}
  {
    ran := [];
    var i := 0;
    while i < |sorted|
      invariant 0 <= i <= KnownPrefix(graph, sorted)
      invariant ran == Schedule(graph, sorted[..i])
      invariant forall k :: 0 <= k < |ran| ==> ok(ran[k])
    {
      if sorted[i] !in graph {
        return ran, Failed(OutOfRange);
      }
      var cmds := graph[sorted[i]].commands;
      var j := 0;
      while j < |cmds|
        invariant 0 <= j <= |cmds|
        invariant ran == Schedule(graph, sorted[..i]) + cmds[..j]
        invariant forall k :: 0 <= k < |ran| ==> ok(ran[k])
      {
        ran := ran + [cmds[j]];
        if !ok(cmds[j]) {
          FailingCommand(graph, sorted, i, j, ran);
          return ran, Failed(ChildFailed);
        }
        j := j + 1;
      }
      assert cmds[..j] == cmds;
      assert sorted[..i + 1][..i] == sorted[..i];
      i := i + 1;
    }
    assert sorted[..i] == sorted;
    outcome := Done;
  }

  /** The commands started up to and including the `j`-th command of the
      `i`-th target are a prefix of the plan that ends with that command. */
  lemma FailingCommand(graph: Graph, sorted: seq<string>, i: nat, j: nat, ran: seq<string>)
    requires i < KnownPrefix(graph, sorted)
    requires j < |graph[sorted[i]].commands|
    requires ran == Schedule(graph, sorted[..i]) + graph[sorted[i]].commands[..j] + [graph[sorted[i]].commands[j]]
    ensures ran <= Planned(graph, sorted)
    ensures Planned(graph, sorted)[|ran| - 1] == graph[sorted[i]].commands[j]
  {
    var cmds := graph[sorted[i]].commands;
    SchedulePrefix(graph, sorted, i + 1, KnownPrefix(graph, sorted));
    assert cmds[..j] + [cmds[j]] == cmds[..j + 1];
    assert cmds[..j + 1] <= cmds;
  }

  /** The schedule of a prefix of the targets is a prefix of the schedule
      of a longer one, and one more target adds its commands. */
  lemma SchedulePrefix(graph: Graph, sorted: seq<string>, i: nat, n: nat)
    requires i <= n <= |sorted|
    requires forall k :: 0 <= k < n ==> sorted[k] in graph
    ensures Schedule(graph, sorted[..i]) <= Schedule(graph, sorted[..n])
    ensures i > 0 ==> Schedule(graph, sorted[..i]) == Schedule(graph, sorted[..i - 1]) + graph[sorted[i - 1]].commands
  {
    ScheduleAppend(graph, sorted[..i], sorted[i..n]);
    assert sorted[..i] + sorted[i..n] == sorted[..n];
    if i > 0 {
      assert sorted[..i][..i - 1] == sorted[..i - 1];
    }
  }

  /** The schedule of two runs of targets is the two schedules in turn. */
  lemma {:induction false} ScheduleAppend(graph: Graph, a: seq<string>, b: seq<string>)
    requires forall k :: 0 <= k < |a| ==> a[k] in graph
    requires forall k :: 0 <= k < |b| ==> b[k] in graph
    ensures Schedule(graph, a + b) == Schedule(graph, a) + Schedule(graph, b)
    decreases |b|
  {
    if |b| == 0 {
      assert a + b == a;
    } else {
      var b' := b[..|b| - 1];
      ScheduleAppend(graph, a, b');
      assert (a + b)[..|a + b| - 1] == a + b';
    }
  }

  /** Every command of every scheduled target is in the schedule. */
  lemma {:induction false} ScheduleHolds(graph: Graph, targets: seq<string>, k: nat, c: string)
    requires forall j :: 0 <= j < |targets| ==> targets[j] in graph
    requires k < |targets| && c in graph[targets[k]].commands
    ensures c in Schedule(graph, targets)
  {
    var n := |targets| - 1;
    if k < n {
      ScheduleHolds(graph, targets[..n], k, c);
    }
  }
}
