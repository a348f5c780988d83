# pancake, modelled in Dafny

pancake is a small make-like build engine written in one C++ file. It works in three stages:

- It reads a build file in which a line `name: dep1 dep2` declares a target and its dependencies.
- A tab-first line adds a shell command to the most recently declared target.
- It then orders the targets by a depth-first search, dependencies first, and runs their commands in that order. It stops at the first command that fails.

This project models the core of that engine and proves its properties:

- **Line classification and trimming:** `isTarget`, `isCommand` and `trimLine`. `std::string::npos` is an explicit "not found" position that compares greater than every index.
- **Graph construction:** `buildGraph`.
  - `GraphBuilder.Step` and `GraphBuilder.Build` state what one line and a whole file do.
  - `GraphBuilder.BuildGraph` is the loop itself, with the tokenizing inner loop in `AppendDependencies`, proved equal to `Build`.
- **Topological sort:** both overloads of `topologicalSort`.
  - A recursive `Visit` threads the visited set and the output through the search.
  - A ghost stack of the nodes whose visit is in progress carries the acyclicity argument.
  - The order in which the hash map enumerates its keys is a parameter.
- **Command execution:** `runCommands`. Whether a command succeeds is decided by an oracle `ok: string -> bool`, which replaces process spawning.

The C++ exceptions become a `Result` or an `Outcome` carrying one of these error kinds:

- `NoValidTarget`: "No valid target".
- `InvalidNode`: "Invalid node".
- `ChildFailed`: a failing command.
- `OutOfRange`: `graph.at` on a name that is not a target.

The modules are:

- `Common`: the data model.
- `LineClassifier`.
- `Tokenizer`: splitting on single spaces, and its inverse `Join`.
- `GraphBuilder`.
- `TopologicalSorter`.
- `CommandExecutor`.
- `Scenarios`: concrete graphs run through the sorter and the executor.

## Model

| member | source | states |
|---|---|---|
| LineClassifier.FindFrom | pancake.cpp:108 | `find(c, from)` is "not found" exactly when no character at or after `from` is `c`; otherwise it is the first such index |
| LineClassifier.Find | pancake.cpp:69 | `find` of a character is "not found" exactly when the character is absent; otherwise it is the index of its first occurrence |
| LineClassifier.IsTarget | pancake.cpp:67-70 | a line is a target line iff it has a ':' with no tab before the first ':' (an absent tab counts as npos) |
| LineClassifier.IsCommand | pancake.cpp:72-75 | a line is a command line iff it is non-empty and starts with a tab |
| LineClassifier.ClassesExclusive | pancake.cpp:67-75 | no line is both a target line and a command line |
| LineClassifier.FirstNotOf | pancake.cpp:81 | `find_first_not_of`: every character before the result is in the set, and the one at the result is not |
| LineClassifier.EndOfLastNotOf | pancake.cpp:82 | `find_last_not_of + 1`, with npos+1 wrapping to 0: every character from the result on is in the set, and the one before it is not |
| LineClassifier.Trim | pancake.cpp:77-84 | the trimmed line is empty iff every character is in the set; otherwise its first and last characters are not in the set; it is no longer than the line |
| LineClassifier.TrimIsInfix | pancake.cpp:81-82 | the trimmed line is a contiguous piece of the line, and what is cut off on both sides consists only of trimmed characters |
| LineClassifier.TrimIdempotent | pancake.cpp:77-84 | trimming twice gives the same result as trimming once |
| LineClassifier.TrimKeeps | pancake.cpp:81-82 | a character not in the set survives trimming |
| LineClassifier.TargetLineKeepsColon | pancake.cpp:95-96 | a target line still contains ':' after trimming, so it trims to a non-empty line |
| Tokenizer.TokensFrom | pancake.cpp:107-117 | the tokens cut from a dependency text contain no spaces |
| Tokenizer.Tokens | pancake.cpp:107-117 | the scan of a dependency text yields no tokens exactly when the text is empty, and no token holds a space |
| Tokenizer.JoinTokens | pancake.cpp:104-117 | joining the tokens of a space-trimmed dependency text with single spaces gives the text back |
| Tokenizer.CountTokens | pancake.cpp:107-117 | an empty dependency text yields no tokens; any other text yields one more token than it has spaces, so runs of spaces yield empty tokens |
| Tokenizer.TokensOfJoin | pancake.cpp:107-117 | tokens without spaces whose last one is non-empty, joined with single spaces, split back into themselves |
| GraphBuilder.Declaration | pancake.cpp:95-105 | the target name is the part of the trimmed line before its first ':' and holds no ':'. The dependency text is what follows that ':', trimmed of spaces, so it neither starts nor ends with a space |
| GraphBuilder.Step | pancake.cpp:93-126 | one line fails, with NoValidTarget, exactly when it is a command line and the cursor names no target; a line never removes a target. A target line goes through the helper `Lookup`, the default-constructing `graph[target]` of pancake.cpp:101, so a redeclared target keeps its earlier dependencies and commands, as `GraphBuilder.TargetLineEffect` states |
| GraphBuilder.Build | pancake.cpp:92-127 | a whole file, line after line from the cursor "", fails only with NoValidTarget and never removes a target |
| GraphBuilder.BuildGraph | pancake.cpp:86-128 | the loop over the lines leaves the graph that the line-by-line definition gives, or its first error |
| GraphBuilder.ProcessLine | pancake.cpp:93-126 | the body of the loop for one line has the effect of `Step` on the graph and the cursor |
| GraphBuilder.AppendDependencies | pancake.cpp:107-117 | the tokenizing loop appends exactly the tokens of the dependency text to the neighbour list |
| GraphBuilder.BuildNext | pancake.cpp:92-93 | building one more line applies one more step to the state after the earlier lines |
| GraphBuilder.BuildStopsAtError | pancake.cpp:125 | once a line throws, building any longer prefix of the file fails with the same error |
| GraphBuilder.TargetLineEffect | pancake.cpp:95-117 | a target line makes its name a key (even with no dependencies) and the cursor. It appends the tokens of the dependency text to the name's existing neighbours rather than resetting them. The commands and every other target are unchanged |
| GraphBuilder.AppendedTokens | pancake.cpp:104-117 | after the tokens of a space-trimmed dependency text are appended, the old neighbours remain a prefix. The new entries join back to the text with single spaces and contain no space. They number one more than the spaces in the text, or none when it is empty |
| GraphBuilder.CommandLineEffect | pancake.cpp:119-126 | a command line fails with NoValidTarget iff the cursor is not a key, even when it trims to empty. Otherwise it appends its trimmed text to the cursor's commands when that text is non-empty, and changes nothing else |
| GraphBuilder.OtherLineIgnored | pancake.cpp:95-126 | a line that is neither a target line nor a command line leaves the graph and the cursor unchanged |
| GraphBuilder.BuildKeys | pancake.cpp:95-102 | a successful build's keys are the initial keys plus the names declared in the file |
| GraphBuilder.CommandBeforeTarget | pancake.cpp:119-125 | a command line before any target line fails with NoValidTarget when "" is not a key |
| TopologicalSorter.Visit | pancake.cpp:130-149 | the recursive visit computes exactly `VisitSpec`. It fails with InvalidNode on a name that is not a target, and returns the state unchanged for a visited target. A fresh target is marked visited and appended last, after its dependencies have been visited. The output stays repetition-free and grows by extension, and in an acyclic graph it stays in topological order |
| TopologicalSorter.VisitSpec | pancake.cpp:130-149 | the search as a function of the graph, the node and the state: every visit only adds targets to the visited set and marks the node visited |
| TopologicalSorter.VisitListSpec | pancake.cpp:142-147 | the visits of a node's dependencies in order, stopping at the first failure, only add targets to the visited set |
| TopologicalSorter.SortFromSpec | pancake.cpp:156-157 | the visits of the keys from position `i` onwards, in the enumeration order, stopping at the first failure; they only add targets to the visited set |
| TopologicalSorter.SortSpec | pancake.cpp:151-158 | the output of the whole sort is a function of the graph and the key order alone, and its only error is InvalidNode |
| TopologicalSorter.VisitLeaf | pancake.cpp:138-148 | a fresh target without dependencies is marked visited and appended to the output |
| TopologicalSorter.VisitNeighbours | pancake.cpp:142-147 | the loop over a node's dependencies computes exactly `VisitListSpec`. It visits every dependency, or fails with InvalidNode only when some dependency is not a target |
| TopologicalSorter.StartNode | pancake.cpp:141 | marking a fresh target visited keeps the search invariant, with the node pushed on the stack of visits in progress |
| TopologicalSorter.FinishNode | pancake.cpp:148 | appending a node whose dependencies are all visited keeps the invariant. In an acyclic graph its dependencies are then all in the output already |
| TopologicalSorter.TopologicalSort | pancake.cpp:151-158 | for any enumeration order of the keys, the sort computes exactly `SortSpec`, so the same graph and order give the same output. It fails with InvalidNode iff some dependency of some target is not a target. Otherwise it outputs every target exactly once, and for an acyclic graph every dependency before its dependent |
| TopologicalSorter.SortComplete | pancake.cpp:155-157 | once the outer loop has visited every key, the output holds each target exactly once and every dependency names a target |
| TopologicalSorter.DistinctCount | pancake.cpp:148 | an output without repetitions has as many entries as it has distinct names |
| TopologicalSorter.NoBackEdge | pancake.cpp:138-147 | in an acyclic graph a dependency of the node being visited is never one of the visits in progress |
| TopologicalSorter.TopoOrderedAt | pancake.cpp:148 | in a topologically ordered output, every dependency of the target at index i occurs before index i |
| CommandExecutor.KnownPrefix | pancake.cpp:189-190 | the number of leading sorted names that are targets, so that `graph.at` throws at the first name after them |
| CommandExecutor.Schedule | pancake.cpp:189-190 | the commands of the targets in turn: none for no target, and exactly its own commands for a single target |
| CommandExecutor.Planned | pancake.cpp:189-190 | the commands up to the first name that is not a target; when every name is a target, the full schedule |
| CommandExecutor.ScheduleHolds | pancake.cpp:189-190 | every command of every scheduled target is in the schedule |
| CommandExecutor.RunCommands | pancake.cpp:183-200 | it runs a prefix of the commands of the sorted targets in order, all but the last succeeding. It fails with ChildFailed iff some planned command fails, having started exactly the commands up to that first failure. Otherwise it has run all of them, ending with Done when every name is a target and OutOfRange otherwise |
| CommandExecutor.FailingCommand | pancake.cpp:189-197 | the commands started up to a failing command of a target form a prefix of the plan that ends with that command |
| CommandExecutor.SchedulePrefix | pancake.cpp:189-190 | the commands of fewer leading targets are a prefix of the commands of more, and one more target adds its own commands |
| CommandExecutor.ScheduleAppend | pancake.cpp:189-190 | the commands of two runs of targets are the commands of the first run followed by those of the second |
| Scenarios.ExampleAcyclic | pancake.cpp:142-147 | the two-target example graph (build depends on compile) has no cycle |
| Scenarios.SortExample | pancake.cpp:151-158 | whatever the key order, the example graph sorts to compile, build |
| Scenarios.SortSelfLoop | pancake.cpp:138-148 | a target that depends on itself is output once, with no error |
| Scenarios.IndependentInKeyOrder | pancake.cpp:151-158 | two targets without dependencies, enumerated a then b, sort to a, b |
| Scenarios.SortInKeyOrder | pancake.cpp:151-158 | the sort itself returns a, b on that graph and order |
| Scenarios.RunExample | pancake.cpp:189-198 | with every command succeeding, the example runs compile's command and then build's |
| Scenarios.RunExampleFailing | pancake.cpp:189-197 | when compile's command fails, build's command never starts |

## Left out

- `readLines` (pancake.cpp:51-65): file I/O. The input is a given sequence of lines.
- `runCommand` (pancake.cpp:160-181): `fork`, `execvp` and `waitpid`. These are replaced by the oracle `ok`.
- The `status < 0` spawn-failure error is not distinguished: it and the `WIFEXITED`/`WEXITSTATUS` decoding (pancake.cpp:194-197) all collapse into `ok(cmd) == false`, reported as ChildFailed.
- Printing: the command echo (pancake.cpp:191), the `operator<<` renderings (pancake.cpp:26-49) and `main`'s output.
- `main`: the argument-count check, and the call sequence that feeds each stage's output to the next.
- `std::unordered_map` and `std::unordered_set` hashing and iteration order. They are Dafny `map` and `set`, and the outer sort loop takes the key order as the parameter `order`.
- Side effects of a thrown exception: `buildGraph` and `topologicalSort` leave their by-reference arguments partly updated. The model returns only the error, since the program ends there.
- LineClassifier.Trim: `trimLine` trims its argument in place and returns the new length. The model returns the trimmed string, whose length is that value.
- GraphBuilder.BuildGraph: `buildGraph` also trims the entries of `lines` in place. Nothing reads them afterwards, so the model leaves the lines unchanged.
- CommandExecutor.RunCommands: the oracle `ok` gives one verdict per command text, so a text scheduled twice succeeds or fails both times; a real command could behave differently on each run.
- CommandExecutor.RunCommands: the commands of a target are started in order and their effects are not modelled. In `main` the sorted names all come from the graph, so OutOfRange cannot arise there.
- TopologicalSorter.Visit: the C++ recursion can overflow the stack on a very deep dependency chain; the model has unbounded recursion.
- Scenarios.SortExample: the example graph is written out directly; no lemma derives it from the five lines of its build file through `Build`.
