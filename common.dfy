/** The data model shared by every stage of the build engine. */
module Common {

  /** A node of the build graph: the names it depends on and the shell
      commands it runs, both in declaration order (duplicates kept). */
  datatype Target = Target(neighbours: seq<string>, commands: seq<string>)

  /** Target name to target record. */
  type Graph = map<string, Target>

  /** The fatal errors the engine raises (C++ exceptions in pancake.cpp). */
  datatype Error =
    | NoValidTarget   // a command line before any declared target
    | InvalidNode     // a dependency that names no target
    | ChildFailed     // a command that could not run or exited unsuccessfully
    | OutOfRange      // the executor was handed a name that is not a target

  datatype Result<T> = Ok(value: T) | Err(error: Error)

  /** No element occurs twice. */
  predicate Distinct<T(==)>(s: seq<T>)
  {
    forall i, j :: 0 <= i < j < |s| ==> s[i] != s[j]
  }
}
