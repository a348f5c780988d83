/** Small graphs run through the sorter and the executor: the two-target
    build file shown below, two targets that do not depend on each other,
    and a target that depends on itself. */
module Scenarios {
  import opened Common
  import opened TopologicalSorter
  import opened CommandExecutor

  /** The graph of the build file
        build: compile
        <tab>echo linking
        compile:
        <tab>echo compiling */
  const Example: Graph := map[
    "build" := Target(["compile"], ["echo linking"]),
    "compile" := Target([], ["echo compiling"])
  ]

  /** A target listed among its own dependencies. */
  const SelfLoop: Graph := map["a" := Target(["a"], [])]

  /** The only path with an edge in `Example` is build, compile. */
  lemma {:induction false} ExamplePaths(p: seq<string>)
    requires IsPath(Example, p) && |p| >= 2
    ensures p == ["build", "compile"]
    decreases |p|
  {
    var q := p[..|p| - 1];
    assert Edge(Example, p[|p| - 2], p[|p| - 1]);
    if |q| >= 2 {
      ExamplePaths(q);
      assert false;
    }
  }

  lemma ExampleAcyclic()
    ensures Acyclic(Example)
  {
    forall p | IsPath(Example, p) && |p| >= 2 ensures p[0] != p[|p| - 1] {
      ExamplePaths(p);
    }
  }

  /** Whichever order the map enumerates its keys in, the sorter puts
      `compile` before `build`. */
  method SortExample(order: seq<string>) returns (r: Result<seq<string>>)
    requires Elems(order) == Example.Keys
    ensures r == Ok(["compile", "build"])
  {
    ExampleAcyclic();
    assert Closed(Example);
    r := TopologicalSort(Example, order);
    var s := r.value;
    assert "build" in Elems(s) && "compile" in Elems(s);
    var ib :| 0 <= ib < |s| && s[ib] == "build";
    TopoOrderedAt(Example, s, ib, "compile");
    var ic :| 0 <= ic < ib && s[ic] == "compile";
    assert Example.Keys == {"build", "compile"};
    assert |s| == 2;
    assert ic == 0 && ib == 1;
    assert s == [s[0], s[1]];
  }

  /** A target that depends on itself is accepted: the cycle goes
      undetected and the target is output once. */
  method SortSelfLoop() returns (r: Result<seq<string>>)
    ensures r == Ok(["a"])
  {
    assert Elems(["a"]) == SelfLoop.Keys;
    assert Closed(SelfLoop);
    r := TopologicalSort(SelfLoop, ["a"]);
    var s := r.value;
    assert "a" in Elems(s);
    assert |s| == 1;
    assert s[0] in Elems(s);
    assert s == [s[0]];
  }

  /** Two targets without dependencies. */
  const Independent: Graph := map["a" := Target([], []), "b" := Target([], [])]

  /** Targets that do not depend on each other come out in the order the
      map enumerates them: the output is fixed by the graph and that order. */
  lemma IndependentInKeyOrder()
    ensures SortSpec(Independent, ["a", "b"]) == Ok(["a", "b"])
  {
    var order := ["a", "b"];
    var s0 := SortState({}, []);
    var s1 := SortState({"a"}, ["a"]);
    var s2 := SortState({"a", "b"}, ["a", "b"]);
    assert "a" in Independent && "b" in Independent && "a" != "b";
    VisitLeaf(Independent, "a", s0);
    assert SortState(s0.visited + {"a"}, s0.sorted + ["a"]) == s1;
    VisitLeaf(Independent, "b", s1);
    assert SortState(s1.visited + {"b"}, s1.sorted + ["b"]) == s2;
    SortFromStep(Independent, order, 0, s0);
    SortFromStep(Independent, order, 1, s1);
    assert SortFromSpec(Independent, order, 2, s2) == Ok(s2);
    assert SortFromSpec(Independent, order, 0, s0) == Ok(s2);
  }

  /** The sort itself on that graph and order. */
  method SortInKeyOrder() returns (r: Result<seq<string>>)
    ensures r == Ok(["a", "b"])
  {
    assert Elems(["a", "b"]) == Independent.Keys;
    IndependentInKeyOrder();
    r := TopologicalSort(Independent, ["a", "b"]);
  }

  /** With every command succeeding, the commands run in dependency order. */
  method RunExample() returns (ran: seq<string>, outcome: Outcome)
    ensures ran == ["echo compiling", "echo linking"] && outcome == Done
  {
    var sorted := ["compile", "build"];
    assert KnownPrefix(Example, sorted) == 2;
    assert sorted[..2] == sorted && sorted[..1] == ["compile"];
    assert Schedule(Example, ["compile"]) == ["echo compiling"];
    assert Planned(Example, sorted) == ["echo compiling", "echo linking"];
    ran, outcome := RunCommands(Example, sorted, _ => true);
  }

  /** When `compile`'s command fails, `build`'s is never started. */
  method RunExampleFailing() returns (ran: seq<string>, outcome: Outcome)
    ensures ran == ["echo compiling"] && outcome == Failed(ChildFailed)
  {
    var sorted := ["compile", "build"];
    assert KnownPrefix(Example, sorted) == 2;
    assert sorted[..2] == sorted && sorted[..1] == ["compile"];
    assert Schedule(Example, ["compile"]) == ["echo compiling"];
    var plan := ["echo compiling", "echo linking"];
    assert Planned(Example, sorted) == plan;
    var ok := c => c != "echo compiling";
    ran, outcome := RunCommands(Example, sorted, ok);
    assert !ok(plan[0]);
  }
}
