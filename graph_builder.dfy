/** Building the graph from the lines of the build file (pancake.cpp,
    buildGraph). `Step` and `Build` state what one line and a whole file
    do; the method `BuildGraph` is the source's loop, proved to agree. */
module GraphBuilder {
  import opened Common
  import opened LineClassifier
  import opened Tokenizer

  /** What the builder carries from line to line: the graph so far and
      the name of the most recently declared target (the cursor). */
  datatype Builder = Builder(graph: Graph, cursor: string)

  /** The name and the dependency text of a target line: the trimmed line
      is split at its first ':', and the part after it is trimmed of spaces. */
  function Declaration(line: string): (r: (string, string))
    requires IsTarget(line)
    ensures ':' !in r.0
    ensures var cur := Trim(line, Whitespace);
            && |r.0| < |cur| && cur[..|r.0|] == r.0 && cur[|r.0|] == ':'
            && r.1 == Trim(cur[|r.0| + 1..], {' '})
    ensures r.1 == [] || (r.1[0] != ' ' && r.1[|r.1| - 1] != ' ')
  {
    TargetLineKeepsColon(line);
    var cur := Trim(line, Whitespace);
    var split := Find(cur, ':').index;
    (cur[..split], Trim(cur[split + 1..], {' '}))
  }

  /** `target` with `ts` appended to its dependencies. */
  function AddNeighbours(t: Target, ts: seq<string>): Target
  {
    t.(neighbours := t.neighbours + ts)
  }

  /** `target` with `cmd` appended to its commands. */
  function AddCommand(t: Target, cmd: string): Target
  {
    t.(commands := t.commands + [cmd])
  }

  /** The target stored under `name`, or the empty target that
      `graph[name]` default-constructs when the key is absent. */
  function Lookup(graph: Graph, name: string): Target
  {
    if name in graph then graph[name] else Target([], [])
  }

  /** The effect of one line on the builder: it fails, with NoValidTarget,
      exactly on a command line while the cursor names no target, and it
      never removes a target. */
  function Step(b: Builder, line: string): (r: Result<Builder>)
    ensures r.Err? <==> IsCommand(line) && b.cursor !in b.graph
    ensures r.Err? ==> r.error == NoValidTarget
    ensures r.Ok? ==> b.graph.Keys <= r.value.graph.Keys
  {
    ClassesExclusive(line);
    if IsTarget(line) && |Trim(line, Whitespace)| > 0 then
      var (name, depend) := Declaration(line);
      var t := Lookup(b.graph, name);
      Ok(Builder(b.graph[name := AddNeighbours(t, Tokens(depend))], name))
    else if IsCommand(line) then
      if b.cursor in b.graph then
        var cmd := Trim(line, Whitespace);
        if |cmd| > 0 then
          Ok(b.(graph := b.graph[b.cursor := AddCommand(b.graph[b.cursor], cmd)]))
        else
          Ok(b)
      else
        Err(NoValidTarget)
    else
      Ok(b)
  }

  /** The effect of the lines, in order, on a graph, starting with the
      cursor at "" and stopping at the first error; the only error is
      NoValidTarget, and no target is ever removed. */
  function Build(graph: Graph, lines: seq<string>): (r: Result<Builder>)
    ensures r.Err? ==> r.error == NoValidTarget
    ensures r.Ok? ==> graph.Keys <= r.value.graph.Keys
  {
    if |lines| == 0 then Ok(Builder(graph, ""))
    else
      match Build(graph, lines[..|lines| - 1])
      case Err(e) => Err(e)
      case Ok(b) => Step(b, lines[|lines| - 1])
  }

  /** The graph that `Build` leaves, or its error. */
  function BuiltGraph(graph: Graph, lines: seq<string>): Result<Graph>
  {
    match Build(graph, lines)
    case Ok(b) => Ok(b.graph)
    case Err(e) => Err(e)
  }

  /** `buildGraph`: one pass over the lines with a cursor, adding targets,
      dependencies and commands to `graph` in place. */
  method BuildGraph(lines: seq<string>, graph0: Graph) returns (r: Result<Graph>)
    ensures r == BuiltGraph(graph0, lines)
  {
    var graph := graph0;
    var target := "";
    var i := 0;
    while i < |lines|
      invariant 0 <= i <= |lines|
      invariant Build(graph0, lines[..i]) == Ok(Builder(graph, target))
    {
      BuildNext(graph0, lines, i, Builder(graph, target));
      ghost var expected := Step(Builder(graph, target), lines[i]);
      assert Build(graph0, lines[..i + 1]) == expected;
      var next := ProcessLine(graph, target, lines[i]);
      if next.Err? {
        BuildStopsAtError(graph0, lines, i + 1);
        assert Build(graph0, lines) == Err(next.error);
        return Err(next.error);
      }
      graph, target := next.value.graph, next.value.cursor;
      i := i + 1;
    }
    assert lines[..i] == lines;
    assert Build(graph0, lines) == Ok(Builder(graph, target));
    r := Ok(graph);
  }

  /** The body of the loop of `buildGraph` for one line `cur`. */
  method ProcessLine(graph0: Graph, target0: string, cur0: string) returns (r: Result<Builder>)
    ensures r == Step(Builder(graph0, target0), cur0)
  {
    var graph, target, cur := graph0, target0, cur0;
    if IsTarget(cur) && |Trim(cur, Whitespace)| > 0 {
      TargetLineKeepsColon(cur);
      cur := Trim(cur, Whitespace);
      var split := Find(cur, ':').index;
      target := cur[..split];
      if target !in graph {
        graph := graph[target := Target([], [])];
      }
      var depend := Trim(cur[split + 1..], {' '});
      ghost var t := Lookup(graph0, target);
      assert graph[target] == t;
      var neighbours := AppendDependencies(graph[target].neighbours, depend);
      graph := graph[target := graph[target].(neighbours := neighbours)];
      assert graph == graph0[target := AddNeighbours(t, Tokens(depend))];
      StepOnTargetLine(Builder(graph0, target0), cur0);
      assert Declaration(cur0) == (target, depend);
      return Ok(Builder(graph, target));
    } else if IsCommand(cur) {
      if target in graph {
        cur := Trim(cur, Whitespace);
        if |cur| > 0 {
          graph := graph[target := AddCommand(graph[target], cur)];
        }
      } else {
        return Err(NoValidTarget);
      }
    }
    r := Ok(Builder(graph, target));
  }

  /** The scan of `depend` in `buildGraph`: append the piece before each
      single space, then the remainder after the last space if any, to the
      dependencies of the target being declared. */
  method AppendDependencies(neighbours0: seq<string>, depend: string) returns (neighbours: seq<string>)
    ensures neighbours == neighbours0 + Tokens(depend)
  {
    neighbours := neighbours0;
    var start := 0;
    var pos := FindFrom(depend, ' ', start);
    while pos.At?
      invariant start <= |depend|
      invariant pos == FindFrom(depend, ' ', start)
      invariant neighbours + TokensFrom(depend, start) == neighbours0 + Tokens(depend)
      decreases |depend| - start
    {
      var token := depend[start..pos.index];
      neighbours := neighbours + [token];
      start := pos.index + 1;
      pos := FindFrom(depend, ' ', start);
    }
    if start < |depend| {
      neighbours := neighbours + [depend[start..]];
    }
  }

  /** Building one more line applies one more step. */
  lemma BuildNext(graph: Graph, lines: seq<string>, i: nat, b: Builder)
    requires i < |lines| && Build(graph, lines[..i]) == Ok(b)
    ensures Build(graph, lines[..i + 1]) == Step(b, lines[i])
  {
    assert lines[..i + 1][..i] == lines[..i];
  }

  /** `Step` on a target line, unfolded. */
  lemma StepOnTargetLine(b: Builder, line: string)
    requires IsTarget(line)
    ensures var (name, depend) := Declaration(line);
            Step(b, line) == Ok(Builder(b.graph[name := AddNeighbours(Lookup(b.graph, name), Tokens(depend))], name))
  {
    TargetLineKeepsColon(line);
  }

  /** Once a line fails, the whole build fails with that error. */
  lemma {:induction false} BuildStopsAtError(graph: Graph, lines: seq<string>, i: nat)
    requires i <= |lines| && Build(graph, lines[..i]).Err?
    ensures Build(graph, lines) == Build(graph, lines[..i])
    decreases |lines| - i
  {
    if i < |lines| {
      assert lines[..i + 1][..i] == lines[..i];
      BuildStopsAtError(graph, lines, i + 1);
    } else {
      assert lines[..i] == lines;
    }
  }

  /** A target line: the name before the first ':' becomes a key (even
      with no dependencies) and the cursor, and the tokens of the
      dependency text are appended to the name's existing dependencies
      (see `AppendedTokens` for what they are). Commands and every other
      target are unchanged. */
  lemma TargetLineEffect(b: Builder, line: string)
    requires IsTarget(line)
    ensures Step(b, line).Ok?
    ensures var (name, depend) := Declaration(line);
            var b' := Step(b, line).value;
            var before := Lookup(b.graph, name);
            && b'.cursor == name
            && b'.graph.Keys == b.graph.Keys + {name}
            && b'.graph[name].neighbours == before.neighbours + Tokens(depend)
            && b'.graph[name].commands == before.commands
            && (forall k :: k in b.graph && k != name ==> b'.graph[k] == b.graph[k])
  {
    StepOnTargetLine(b, line);
  }

  /** The dependency list after the tokens of a space-trimmed text are
      appended: the old list is kept as a prefix, and the new part joins
      back to the text, holds no space and has one entry per space plus
      one (none for the empty text). */
  lemma AppendedTokens(ns: seq<string>, depend: string)
    requires depend == [] || depend[|depend| - 1] != ' '
    ensures var after := ns + Tokens(depend);
            && |ns| <= |after|
            && after[..|ns|] == ns
            && Join(after[|ns|..]) == depend
            && (forall k :: |ns| <= k < |after| ==> ' ' !in after[k])
            && (depend == [] ==> after == ns)
            && (depend != [] ==> |after| == |ns| + CountSpaces(depend) + 1)
  {
    var after := ns + Tokens(depend);
    assert after[|ns|..] == Tokens(depend);
    assert after[..|ns|] == ns;
    JoinTokens(depend);
    CountTokens(depend);
  }

  /** A command line: it fails with NoValidTarget exactly when the cursor
      names no target, whatever the line holds (the check comes before the
      trim). Otherwise its trimmed text, when not empty, is appended to the
      commands of the cursor's target, and nothing else changes. */
  lemma CommandLineEffect(b: Builder, line: string)
    requires IsCommand(line)
    ensures Step(b, line).Err? <==> b.cursor !in b.graph
    ensures Step(b, line).Err? ==> Step(b, line).error == NoValidTarget
    ensures Step(b, line).Ok? ==>
            var b' := Step(b, line).value;
            var cmd := Trim(line, Whitespace);
            && b'.cursor == b.cursor
            && b'.graph.Keys == b.graph.Keys
            && b'.graph[b.cursor].neighbours == b.graph[b.cursor].neighbours
            && b'.graph[b.cursor].commands == b.graph[b.cursor].commands + (if |cmd| > 0 then [cmd] else [])
            && (forall k :: k in b.graph && k != b.cursor ==> b'.graph[k] == b.graph[k])
  {
    ClassesExclusive(line);
  }

  /** A line that is neither a target nor a command changes nothing. */
  lemma OtherLineIgnored(b: Builder, line: string)
    requires !IsTarget(line) && !IsCommand(line)
    ensures Step(b, line) == Ok(b)
  {
  }

  /** The names declared by the target lines among `lines`. */
  function DeclaredNames(lines: seq<string>): set<string>
  {
    if |lines| == 0 then {}
    else
      var last := lines[|lines| - 1];
      DeclaredNames(lines[..|lines| - 1]) + (if IsTarget(last) then {Declaration(last).0} else {})
  }

  /** A successful build has exactly the keys it started with plus every
      declared name. */
  lemma {:induction false} BuildKeys(graph: Graph, lines: seq<string>)
    requires Build(graph, lines).Ok?
    ensures Build(graph, lines).value.graph.Keys == graph.Keys + DeclaredNames(lines)
  {
    if |lines| > 0 {
      var prefix := lines[..|lines| - 1];
      var last := lines[|lines| - 1];
      BuildKeys(graph, prefix);
      var b := Build(graph, prefix).value;
      if IsTarget(last) {
        TargetLineEffect(b, last);
      } else if IsCommand(last) {
        CommandLineEffect(b, last);
      }
    }
  }

  /** A command line before any target line fails the build with
      NoValidTarget, provided the graph starts without the key "" (the
      initial cursor). */
  lemma CommandBeforeTarget(graph: Graph, lines: seq<string>, k: nat)
    requires "" !in graph
    requires k < |lines| && IsCommand(lines[k])
    requires forall j :: 0 <= j < k ==> !IsTarget(lines[j])
    ensures Build(graph, lines) == Err(NoValidTarget)
  {
    NoTargetYet(graph, lines, k);
    if Build(graph, lines[..k]).Ok? {
      BuildNext(graph, lines, k, Builder(graph, ""));
      CommandLineEffect(Builder(graph, ""), lines[k]);
    } else {
      assert lines[..k + 1][..k] == lines[..k];
    }
    BuildStopsAtError(graph, lines, k + 1);
  }

  /** Before the first target line the builder is where it started, or
      has already failed with NoValidTarget. */
  lemma {:induction false} NoTargetYet(graph: Graph, lines: seq<string>, k: nat)
    requires "" !in graph
    requires k <= |lines|
    requires forall j :: 0 <= j < k ==> !IsTarget(lines[j])
    ensures Build(graph, lines[..k]) in {Ok(Builder(graph, "")), Err(NoValidTarget)}
  {
    if k > 0 {
      NoTargetYet(graph, lines, k - 1);
      if Build(graph, lines[..k - 1]).Ok? {
        BuildNext(graph, lines, k - 1, Builder(graph, ""));
        if !IsCommand(lines[k - 1]) {
          OtherLineIgnored(Builder(graph, ""), lines[k - 1]);
        }
      } else {
        assert lines[..k][..k - 1] == lines[..k - 1];
      }
    }
  }
}
