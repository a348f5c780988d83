/** Line classification and trimming (pancake.cpp, isTarget, isCommand and
    trimLine). */
module LineClassifier {

  /** The characters trimmed from target and command lines: " \t\n". */
  const Whitespace: set<char> := {' ', '\t', '\n'}

  /** A result of `std::string::find`: an index, or `npos`, the largest
      `size_t`, which compares greater than every index. */
  datatype Pos = At(index: nat) | NPos {
    /** `this < other` on `size_t`. */
    predicate Before(other: Pos)
    {
      match (this, other)
      case (At(i), At(j)) => i < j
      case (At(_), NPos) => true
      case (NPos, _) => false
    }
  }

  /** Every character of `s` belongs to `chars`. */
  predicate AllIn(s: string, chars: set<char>)
  {
    forall k :: 0 <= k < |s| ==> s[k] in chars
  }

  /** `s.find(c, from)`: the first index at or after `from` holding `c`,
      or npos when there is none. */
  function FindFrom(s: string, c: char, from: nat): (r: Pos)
    requires from <= |s|
    ensures r.At? ==> from <= r.index < |s| && s[r.index] == c
    ensures forall k :: from <= k < |s| && (r.NPos? || k < r.index) ==> s[k] != c
    decreases |s| - from
  {
    if from == |s| then NPos
    else if s[from] == c then At(from)
    else FindFrom(s, c, from + 1)
  }

  /** `s.find(c)`. */
  function Find(s: string, c: char): (r: Pos)
    ensures r.NPos? <==> c !in s
    ensures r.At? ==> r.index < |s| && s[r.index] == c && c !in s[..r.index]
  {
    FindFrom(s, c, 0)
  }

  /** `isTarget`: the first ':' comes before the first tab, a missing tab
      counting as npos; a missing ':' is npos and comes before nothing. */
  function IsTarget(line: string): (b: bool)
    ensures b <==> exists i :: 0 <= i < |line| && line[i] == ':' && '\t' !in line[..i]
  {
    Find(line, ':').Before(Find(line, '\t'))
  }

  /** `isCommand`: the first tab is at index 0, that is, the line starts
      with a tab (an empty line has no tab: npos is not 0). */
  function IsCommand(line: string): (b: bool)
    ensures b <==> |line| > 0 && line[0] == '\t'
  {
    var r := Find(line, '\t');
    assert r.At? && r.index > 0 ==> line[0] in line[..r.index];
    r == At(0)
  }

  /** A line that starts with a tab is never a target line, so the two
      classes are disjoint. */
  lemma ClassesExclusive(line: string)
    ensures !(IsTarget(line) && IsCommand(line))
  {
  }

  /** The number of leading characters `erase(0, find_first_not_of(chars))`
      removes: the first index whose character is not in `chars`, or `|s|`
      when there is none (`find_first_not_of` then gives npos, and `erase`
      clamps the count to the length). */
  function FirstNotOf(s: string, chars: set<char>): (r: nat)
    ensures r <= |s|
    ensures AllIn(s[..r], chars)
    ensures r < |s| ==> s[r] !in chars
    ensures |s| > 0 && s[0] !in chars ==> r == 0
  {
    if |s| == 0 || s[0] !in chars then 0
    else 1 + FirstNotOf(s[1..], chars)
  }

  /** `find_last_not_of(chars) + 1`: one past the last character not in
      `chars`; when there is none, npos + 1 wraps around to 0. */
  function EndOfLastNotOf(s: string, chars: set<char>): (r: nat)
    ensures r <= |s|
    ensures AllIn(s[r..], chars)
    ensures r > 0 ==> s[r - 1] !in chars
    ensures |s| > 0 && s[|s| - 1] !in chars ==> r == |s|
  {
    if |s| == 0 || s[|s| - 1] !in chars then |s|
    else EndOfLastNotOf(s[..|s| - 1], chars)
  }

  /** `trimLine(s, chars)`: erase the leading run of `chars`, then the
      trailing run. The source returns the new length, which is `|Trim(s, chars)|`. */
  function Trim(s: string, chars: set<char>): (r: string)
    ensures |r| <= |s|
    ensures r == [] <==> AllIn(s, chars)
    ensures r != [] ==> r[0] !in chars && r[|r| - 1] !in chars
  {
    var t := s[FirstNotOf(s, chars)..];
    t[..EndOfLastNotOf(t, chars)]
  }

  /** The trimmed text is a contiguous piece of `s`, and what was cut off on
      either side consists of `chars` only. */
  lemma TrimIsInfix(s: string, chars: set<char>)
    ensures exists i :: 0 <= i <= |s| - |Trim(s, chars)| && Trim(s, chars) == s[i..i + |Trim(s, chars)|]
                        && AllIn(s[..i], chars) && AllIn(s[i + |Trim(s, chars)|..], chars)
  {
    var i := FirstNotOf(s, chars);
    var t := s[i..];
    var j := EndOfLastNotOf(t, chars);
    assert s[i..][..j] == s[i..i + j];
    assert s[i + j..] == t[j..];
  }

  /** Trimming twice changes nothing. */
  lemma TrimIdempotent(s: string, chars: set<char>)
    ensures Trim(Trim(s, chars), chars) == Trim(s, chars)
  {
    var r := Trim(s, chars);
    if r != [] {
      assert r[0..] == r;
    }
  }

  /** A character outside `chars` that lies in `s` survives trimming. */
  lemma TrimKeeps(s: string, chars: set<char>, k: nat)
    requires k < |s| && s[k] !in chars
    ensures s[k] in Trim(s, chars)
  {
    var i := FirstNotOf(s, chars);
    var t := s[i..];
    var j := EndOfLastNotOf(t, chars);
    assert t[..j][k - i] == s[k];
  }

  /** On a target line the ':' survives the trim of whitespace, so
      `trimLine(cur, " \t\n") > 0` always holds there, and the trimmed line
      still has a first ':' to split at. */
  lemma TargetLineKeepsColon(line: string)
    requires IsTarget(line)
    ensures ':' in Trim(line, Whitespace)
    ensures |Trim(line, Whitespace)| > 0
  {
    var i :| 0 <= i < |line| && line[i] == ':' && '\t' !in line[..i];
    TrimKeeps(line, Whitespace, i);
  }
}
