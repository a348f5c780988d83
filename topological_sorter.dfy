/** Ordering the targets so that dependencies come first (pancake.cpp,
    both overloads of topologicalSort): a depth-first search that marks a
    node visited before visiting its dependencies and appends it after. */
module TopologicalSorter {
  import opened Common

  /** The visited set and the output vector that the recursion threads
      through by reference. */
  datatype SortState = SortState(visited: set<string>, sorted: seq<string>)

  /** The elements of `s` as a set. */
  function Elems(s: seq<string>): set<string>
  {
    set x | x in s
  }

  /** Every dependency of every target names a target. */
  predicate Closed(graph: Graph)
  {
    forall k, m :: k in graph && m in graph[k].neighbours ==> m in graph
  }

  /** `a` is a target that lists `b` among its dependencies. */
  ghost predicate Edge(graph: Graph, a: string, b: string)
  {
    a in graph && b in graph[a].neighbours
  }

  /** `p` follows dependency edges from each element to the next. */
  ghost predicate IsPath(graph: Graph, p: seq<string>)
  {
    |p| <= 1 || (IsPath(graph, p[..|p| - 1]) && Edge(graph, p[|p| - 2], p[|p| - 1]))
  }

  /** No path of one edge or more leads from a target back to itself. */
  ghost predicate Acyclic(graph: Graph)
  {
    forall p {:trigger IsPath(graph, p)} :: IsPath(graph, p) && |p| >= 2 ==> p[0] != p[|p| - 1]
  }

  /** `n` is a target whose dependencies all occur in `done`. */
  ghost predicate DepsIn(graph: Graph, n: string, done: seq<string>)
  {
    n in graph && forall m :: m in graph[n].neighbours ==> m in done
  }

  /** Every target in `sorted` comes after all of its dependencies, stated
      one appended node at a time. */
  ghost predicate TopoOrdered(graph: Graph, sorted: seq<string>)
  {
    |sorted| == 0 ||
    (TopoOrdered(graph, sorted[..|sorted| - 1]) && DepsIn(graph, sorted[|sorted| - 1], sorted[..|sorted| - 1]))
  }

  /** What holds of the search state between calls, with `stack` the nodes
      whose visit has begun and not ended (the recursion's ancestors):
      visited nodes are targets, each either finished (in `sorted`, once)
      or on the stack; every finished node has only targets as dependencies. */
  ghost predicate Inv(graph: Graph, st: SortState, stack: seq<string>)
  {
    && (forall x :: x in st.visited <==> x in st.sorted || x in stack)
    && (forall x :: x in st.sorted ==> x !in stack)
    && Distinct(st.sorted)
    && st.visited <= graph.Keys
    && forall x :: x in st.sorted ==> DepsKnown(graph, x)
  }

  /** `x` is a target whose dependencies all name targets. */
  ghost predicate DepsKnown(graph: Graph, x: string)
  {
    x in graph && forall m :: m in graph[x].neighbours ==> m in graph
  }

  /** What the recursive `topologicalSort(node, ...)` computes: fail on a
      name that is not a target, leave the state alone for a visited one,
      otherwise mark it visited, visit its dependencies in order and append
      it. Every visit only adds targets to the visited set. */
  function VisitSpec(graph: Graph, node: string, st: SortState): (r: Result<SortState>)
    requires st.visited <= graph.Keys
    ensures r.Ok? ==> st.visited <= r.value.visited <= graph.Keys && node in r.value.visited
    decreases |graph.Keys - st.visited|, 1, 0
  {
    if node !in graph then Err(InvalidNode)
    else if node in st.visited then Ok(st)
    else
      FewerUnvisited(graph.Keys, st.visited, st.visited + {node}, node);
      match VisitListSpec(graph, graph[node].neighbours, 0, SortState(st.visited + {node}, st.sorted))
      case Err(e) => Err(e)
      case Ok(cur) => Ok(SortState(cur.visited, cur.sorted + [node]))
  }

  /** The visits of `nbrs[i..]` in order, stopping at the first failure. */
  function VisitListSpec(graph: Graph, nbrs: seq<string>, i: nat, st: SortState): (r: Result<SortState>)
    requires i <= |nbrs| && st.visited <= graph.Keys
    ensures r.Ok? ==> st.visited <= r.value.visited <= graph.Keys
    decreases |graph.Keys - st.visited| + 1, 0, |nbrs| - i
  {
    if i == |nbrs| then Ok(st)
    else
      match VisitSpec(graph, nbrs[i], st)
      case Err(e) => Err(e)
      case Ok(next) =>
        SubsetCard(graph.Keys - next.visited, graph.Keys - st.visited);
        VisitListSpec(graph, nbrs, i + 1, next)
  }

  /** The outer loop: the visits of `order[i..]` in order. */
  function SortFromSpec(graph: Graph, order: seq<string>, i: nat, st: SortState): (r: Result<SortState>)
    requires i <= |order| && st.visited <= graph.Keys
    ensures r.Ok? ==> st.visited <= r.value.visited <= graph.Keys
    decreases |order| - i
  {
    if i == |order| then Ok(st)
    else
      match VisitSpec(graph, order[i], st)
      case Err(e) => Err(e)
      case Ok(next) => SortFromSpec(graph, order, i + 1, next)
  }

  /** The output of the outer `topologicalSort(graph, sortedNodes)` for the
      key order `order`: a function of the graph and that order alone. */
  function SortSpec(graph: Graph, order: seq<string>): (r: Result<seq<string>>)
    ensures r.Err? ==> r.error == InvalidNode
  {
    match SortFromSpec(graph, order, 0, SortState({}, []))
    case Err(_) => Err(InvalidNode)
    case Ok(st) => Ok(st.sorted)
  }

  /** One step of `VisitListSpec`: the visit of `nbrs[i]`, then the rest. */
  lemma VisitListStep(graph: Graph, nbrs: seq<string>, i: nat, st: SortState)
    requires i < |nbrs| && st.visited <= graph.Keys
    ensures VisitSpec(graph, nbrs[i], st).Err? ==> VisitListSpec(graph, nbrs, i, st) == Err(VisitSpec(graph, nbrs[i], st).error)
    ensures VisitSpec(graph, nbrs[i], st).Ok? ==>
            VisitListSpec(graph, nbrs, i, st) == VisitListSpec(graph, nbrs, i + 1, VisitSpec(graph, nbrs[i], st).value)
  {
  }

  /** A fresh target without dependencies is marked visited and appended. */
  lemma VisitLeaf(graph: Graph, node: string, st: SortState)
    requires st.visited <= graph.Keys && node in graph && node !in st.visited
    requires graph[node].neighbours == []
    ensures VisitSpec(graph, node, st) == Ok(SortState(st.visited + {node}, st.sorted + [node]))
  {
    assert VisitListSpec(graph, [], 0, SortState(st.visited + {node}, st.sorted)).Ok?;
  }

  /** One step of `SortFromSpec`: the visit of `order[i]`, then the rest. */
  lemma SortFromStep(graph: Graph, order: seq<string>, i: nat, st: SortState)
    requires i < |order| && st.visited <= graph.Keys
    ensures VisitSpec(graph, order[i], st).Err? ==> SortFromSpec(graph, order, i, st).Err?
    ensures VisitSpec(graph, order[i], st).Ok? ==>
            SortFromSpec(graph, order, i, st) == SortFromSpec(graph, order, i + 1, VisitSpec(graph, order[i], st).value)
  {
  }

  /** The recursive `topologicalSort(node, graph, visited, sortedNodes)`:
      fail on a name that is not a target, do nothing for a visited one,
      otherwise mark it visited, visit its dependencies and append it. */
  method Visit(graph: Graph, node: string, st: SortState, ghost stack: seq<string>, ghost acyclic: bool)
    returns (r: Result<SortState>)
    requires Inv(graph, st, stack)
    requires IsPath(graph, stack + [node])
    requires acyclic ==> Acyclic(graph) && TopoOrdered(graph, st.sorted)
    ensures node !in graph ==> r == Err(InvalidNode)
    ensures r.Err? ==> r.error == InvalidNode && (node !in graph || !Closed(graph))
    ensures node in graph && node in st.visited ==> r == Ok(st)
    ensures r.Ok? ==> && Inv(graph, r.value, stack)
                      && node in r.value.visited
                      && st.visited <= r.value.visited
                      && st.sorted <= r.value.sorted
    ensures r.Ok? && node !in st.visited ==>
              |r.value.sorted| > |st.sorted| && r.value.sorted[|r.value.sorted| - 1] == node
    ensures r.Ok? && node !in st.visited ==> Elems(graph[node].neighbours) <= r.value.visited
    ensures r.Ok? && acyclic ==> TopoOrdered(graph, r.value.sorted)
    ensures r == VisitSpec(graph, node, st)
    decreases |graph.Keys - st.visited|, 1
  {
    if node !in graph {
      return Err(InvalidNode);
    }
    if node in st.visited {
      return Ok(st);
    }
    StartNode(graph, st, stack, node);
    var cur := SortState(st.visited + {node}, st.sorted);
    FewerUnvisited(graph.Keys, st.visited, cur.visited, node);
    var res := VisitNeighbours(graph, node, cur, stack + [node], acyclic);
    if res.Err? {
      return res;
    }
    cur := res.value;
    FinishNode(graph, cur, stack, node, acyclic);
    r := Ok(SortState(cur.visited, cur.sorted + [node]));
  }

  /** The loop of the recursive `topologicalSort` over the dependencies of
      `node`, in declaration order, which stops at the first failure. */
  method VisitNeighbours(graph: Graph, node: string, cur0: SortState, ghost path: seq<string>, ghost acyclic: bool)
    returns (r: Result<SortState>)
    requires node in graph && node in cur0.visited
    requires |path| > 0 && path[|path| - 1] == node
    requires Inv(graph, cur0, path)
    requires IsPath(graph, path)
    requires acyclic ==> Acyclic(graph) && TopoOrdered(graph, cur0.sorted)
    ensures r.Err? ==> r.error == InvalidNode && !Closed(graph)
    ensures r.Ok? ==> && Inv(graph, r.value, path)
                      && cur0.visited <= r.value.visited
                      && cur0.sorted <= r.value.sorted
                      && (forall m :: m in graph[node].neighbours ==> m in r.value.visited)
    ensures r.Ok? && acyclic ==> TopoOrdered(graph, r.value.sorted)
    ensures r == VisitListSpec(graph, graph[node].neighbours, 0, cur0)
    decreases |graph.Keys - cur0.visited| + 1, 0
  {
    var cur := cur0;
    var nbrs := graph[node].neighbours;
    var i := 0;
    while i < |nbrs|
      invariant 0 <= i <= |nbrs|
      invariant Inv(graph, cur, path)
      invariant cur0.visited <= cur.visited
      invariant cur0.sorted <= cur.sorted
      invariant forall k :: 0 <= k < i ==> nbrs[k] in cur.visited
      invariant acyclic ==> TopoOrdered(graph, cur.sorted)
      invariant VisitListSpec(graph, nbrs, i, cur) == VisitListSpec(graph, nbrs, 0, cur0)
    {
      SubsetCard(graph.Keys - cur.visited, graph.Keys - cur0.visited);
      ExtendPath(graph, path, nbrs[i]);
      VisitListStep(graph, nbrs, i, cur);
      var res := Visit(graph, nbrs[i], cur, path, acyclic);
      if res.Err? {
        assert nbrs[i] in graph[node].neighbours;
        return Err(InvalidNode);
      }
      assert nbrs[i] in res.value.visited;
      assert cur.visited <= res.value.visited;
      cur := res.value;
      i := i + 1;
    }
    r := Ok(cur);
  }

  /** Marking a fresh target visited pushes it on the stack. */
  lemma StartNode(graph: Graph, st: SortState, stack: seq<string>, node: string)
    requires Inv(graph, st, stack) && node in graph && node !in st.visited
    ensures Inv(graph, SortState(st.visited + {node}, st.sorted), stack + [node])
  {
  }

  /** Once all its dependencies are visited, a node leaves the stack and is
      appended to the output; in an acyclic graph its dependencies are then
      all finished, so the output stays in topological order. */
  lemma FinishNode(graph: Graph, cur: SortState, stack: seq<string>, node: string, acyclic: bool)
    requires Inv(graph, cur, stack + [node]) && node in graph && node !in stack
    requires IsPath(graph, stack + [node])
    requires forall m :: m in graph[node].neighbours ==> m in cur.visited
    requires acyclic ==> Acyclic(graph) && TopoOrdered(graph, cur.sorted)
    ensures Inv(graph, SortState(cur.visited, cur.sorted + [node]), stack)
    ensures acyclic ==> TopoOrdered(graph, cur.sorted + [node])
  {
    var path := stack + [node];
    var sorted := cur.sorted + [node];
    if acyclic {
      forall m | m in graph[node].neighbours ensures m in cur.sorted {
        NoBackEdge(graph, path, m);
      }
      assert sorted[..|sorted| - 1] == cur.sorted;
    }
  }

  /** The outer `topologicalSort(graph, sortedNodes)`: visit every key in
      the order `order` in which the map enumerates them. */
  method TopologicalSort(graph: Graph, order: seq<string>) returns (r: Result<seq<string>>)
    requires Elems(order) == graph.Keys
    ensures r.Err? <==> !Closed(graph)
    ensures r.Err? ==> r.error == InvalidNode
    ensures r.Ok? ==> Distinct(r.value) && Elems(r.value) == graph.Keys
    ensures r.Ok? ==> |r.value| == |graph|
    ensures r.Ok? && Acyclic(graph) ==> TopoOrdered(graph, r.value)
    ensures r == SortSpec(graph, order)
  {
    var st := SortState({}, []);
    var i := 0;
    while i < |order|
      invariant 0 <= i <= |order|
      invariant Inv(graph, st, [])
      invariant forall k :: 0 <= k < i ==> order[k] in st.visited
      invariant Acyclic(graph) ==> TopoOrdered(graph, st.sorted)
      invariant SortFromSpec(graph, order, i, st) == SortFromSpec(graph, order, 0, SortState({}, []))
    {
      assert order[i] in Elems(order);
      SortFromStep(graph, order, i, st);
      var res := Visit(graph, order[i], st, [], Acyclic(graph));
      if res.Err? {
        return Err(InvalidNode);
      }
      st := res.value;
      i := i + 1;
    }
    SortComplete(graph, order, st);
    r := Ok(st.sorted);
  }

  /** Once every key has been visited from the top, with no visit in
      progress, the output holds every target once and the graph is closed. */
  lemma SortComplete(graph: Graph, order: seq<string>, st: SortState)
    requires Elems(order) == graph.Keys && Inv(graph, st, [])
    requires forall k :: 0 <= k < |order| ==> order[k] in st.visited
    ensures Elems(st.sorted) == graph.Keys && |st.sorted| == |graph|
    ensures Closed(graph)
  {
    assert Elems(st.sorted) == graph.Keys by {
      forall k | k in graph.Keys ensures k in st.visited {
        assert k in Elems(order);
      }
    }
    forall k, m | k in graph && m in graph[k].neighbours ensures m in graph {
      assert k in Elems(st.sorted);
      assert DepsKnown(graph, k);
    }
    DistinctCount(st.sorted);
  }

  /** A sequence without repetitions has as many elements as its set. */
  lemma {:induction false} DistinctCount(s: seq<string>)
    requires Distinct(s)
    ensures |Elems(s)| == |s|
  {
    if |s| > 0 {
      var q := s[..|s| - 1];
      DistinctCount(q);
      assert Elems(s) == Elems(q) + {s[|s| - 1]};
      assert s[|s| - 1] !in Elems(q);
    }
  }

  /** Visiting a fresh node shrinks the set of unvisited targets. */
  lemma FewerUnvisited(keys: set<string>, before: set<string>, after: set<string>, node: string)
    requires node in keys && node !in before && before + {node} <= after
    ensures |keys - after| < |keys - before|
  {
    var a, b := keys - after, keys - before;
    assert a <= b - {node};
    SubsetCard(a, b - {node});
  }

  lemma {:induction false} SubsetCard(a: set<string>, b: set<string>)
    requires a <= b
    ensures |a| <= |b|
    decreases b
  {
    if a != {} {
      var x :| x in a;
      SubsetCard(a - {x}, b - {x});
    }
  }

  /** A path extended by one more dependency edge. */
  lemma ExtendPath(graph: Graph, p: seq<string>, m: string)
    requires IsPath(graph, p) && |p| > 0
    requires Edge(graph, p[|p| - 1], m)
    ensures IsPath(graph, p + [m])
  {
    assert (p + [m])[..|p|] == p;
  }

  /** A path without its first `j` elements is still a path. */
  lemma {:induction false} PathSuffix(graph: Graph, p: seq<string>, j: nat)
    requires IsPath(graph, p) && j <= |p|
    ensures IsPath(graph, p[j..])
    decreases |p|
  {
    if j < |p| - 1 {
      var q := p[..|p| - 1];
      PathSuffix(graph, q, j);
      assert p[j..][..|p[j..]| - 1] == q[j..];
    }
  }

  /** In an acyclic graph a dependency of the last node of a path is not
      on the path: it would close a cycle. */
  lemma NoBackEdge(graph: Graph, p: seq<string>, m: string)
    requires Acyclic(graph) && IsPath(graph, p) && |p| > 0
    requires Edge(graph, p[|p| - 1], m)
    ensures m !in p
  {
    ExtendPath(graph, p, m);
    forall j | 0 <= j < |p| ensures p[j] != m {
      PathSuffix(graph, p + [m], j);
      var q := (p + [m])[j..];
      assert IsPath(graph, q) && |q| >= 2;
    }
  }

  /** The one-step definition of `TopoOrdered` read as a whole: every
      dependency of the target at index `i` occurs before index `i`. */
  lemma {:induction false} TopoOrderedAt(graph: Graph, sorted: seq<string>, i: nat, m: string)
    requires TopoOrdered(graph, sorted) && i < |sorted|
    ensures sorted[i] in graph
    ensures m in graph[sorted[i]].neighbours ==> m in sorted[..i]
  {
    var n := |sorted| - 1;
    if i < n {
      TopoOrderedAt(graph, sorted[..n], i, m);
      assert sorted[..n][..i] == sorted[..i];
      assert sorted[..n][i] == sorted[i];
    }
  }
}
