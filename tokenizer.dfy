/** Splitting the dependency text of a target line into names
    (pancake.cpp, buildGraph, the scan over `depend`). */
module Tokenizer {
  import opened LineClassifier

  /** The tokens the scan appends when it starts at `start`: each piece up
      to the next single space, then whatever non-empty remainder follows
      the last space. Two spaces in a row give an empty token. */
  function TokensFrom(d: string, start: nat): (ts: seq<string>)
    requires start <= |d|
    ensures forall k :: 0 <= k < |ts| ==> ' ' !in ts[k]
    decreases |d| - start
  {
    match FindFrom(d, ' ', start)
    case At(pos) =>
      assert ' ' !in d[start..pos] by {
        forall k | 0 <= k < pos - start ensures d[start..pos][k] != ' ' {
          assert d[start..pos][k] == d[start + k];
        }
      }
      [d[start..pos]] + TokensFrom(d, pos + 1)
    case NPos =>
      assert ' ' !in d[start..] by {
        forall k | 0 <= k < |d| - start ensures d[start..][k] != ' ' {
          assert d[start..][k] == d[start + k];
        }
      }
      if start < |d| then [d[start..]] else []
  }

  /** All the tokens of `depend`: none exactly for the empty text, and
      none of them holds a space. */
  function Tokens(d: string): (ts: seq<string>)
    ensures ts == [] <==> d == []
    ensures forall k :: 0 <= k < |ts| ==> ' ' !in ts[k]
  {
    TokensFrom(d, 0)
  }

  /** The tokens written back with a single space between each two. */
  function Join(ts: seq<string>): string
  {
    if |ts| == 0 then ""
    else if |ts| == 1 then ts[0]
    else ts[0] + " " + Join(ts[1..])
  }

  /** The number of spaces in `s`. */
  function CountSpaces(s: string): nat
  {
    if |s| == 0 then 0
    else (if s[0] == ' ' then 1 else 0) + CountSpaces(s[1..])
  }

  /** Joining the tokens gives back the text they came from, provided the
      text does not end in a space (a trailing space is lost). */
  lemma {:induction false} JoinTokensFrom(d: string, start: nat)
    requires start <= |d|
    requires |d| == 0 || d[|d| - 1] != ' '
    ensures Join(TokensFrom(d, start)) == d[start..]
    decreases |d| - start
  {
    match FindFrom(d, ' ', start)
    case At(pos) =>
      assert pos + 1 < |d|;
      JoinTokensFrom(d, pos + 1);
      var rest := TokensFrom(d, pos + 1);
      assert rest != [] by {
        assert |d[pos + 1..]| > 0;
      }
      var ts := TokensFrom(d, start);
      assert ts == [d[start..pos]] + rest;
      assert ts[1..] == rest;
      assert Join(ts) == d[start..pos] + " " + Join(rest);
      assert d[start..] == d[start..pos] + " " + d[pos + 1..];
    case NPos =>
  }

  /** The tokens of a text with no trailing space, joined with single
      spaces, give the text back. */
  lemma JoinTokens(d: string)
    requires |d| == 0 || d[|d| - 1] != ' '
    ensures Join(Tokens(d)) == d
  {
    JoinTokensFrom(d, 0);
  }

  /** A non-empty text without a trailing space has one token more than
      it has spaces; the empty text has none. */
  lemma {:induction false} CountTokensFrom(d: string, start: nat)
    requires start <= |d|
    requires |d| == 0 || d[|d| - 1] != ' '
    ensures start == |d| ==> TokensFrom(d, start) == []
    ensures start < |d| ==> |TokensFrom(d, start)| == CountSpaces(d[start..]) + 1
    decreases |d| - start
  {
    match FindFrom(d, ' ', start)
    case At(pos) =>
      assert pos + 1 < |d|;
      CountTokensFrom(d, pos + 1);
      TokensFromAt(d, start, pos);
      CountSpacesAt(d, start, pos);
    case NPos =>
      if start < |d| {
        forall j | 0 <= j < |d| - start ensures d[start..][j] != ' ' {
          assert d[start..][j] == d[start + j];
        }
        NoSpaceCount(d[start..]);
      }
  }

  /** One step of the scan: the piece before the space found at `pos`,
      then the tokens after it. */
  lemma TokensFromAt(d: string, start: nat, pos: nat)
    requires start <= |d| && FindFrom(d, ' ', start) == At(pos)
    ensures TokensFrom(d, start) == [d[start..pos]] + TokensFrom(d, pos + 1)
  {
  }

  /** The last step of the scan: no space is left, and what remains is the
      last token unless it is empty. */
  lemma TokensFromEnd(d: string, start: nat)
    requires start <= |d| && FindFrom(d, ' ', start) == NPos
    ensures TokensFrom(d, start) == if start < |d| then [d[start..]] else []
  {
  }

  /** The spaces from `start` on are the one found at `pos` and those after it. */
  lemma CountSpacesAt(d: string, start: nat, pos: nat)
    requires start <= |d| && FindFrom(d, ' ', start) == At(pos)
    ensures CountSpaces(d[start..]) == 1 + CountSpaces(d[pos + 1..])
  {
    var e := d[start..];
    var k := pos - start;
    CountSpacesSplit(e, k);
    assert e[k + 1..] == d[pos + 1..];
    forall j | 0 <= j < k ensures e[..k][j] != ' ' {
      assert e[..k][j] == d[start + j];
    }
    NoSpaceCount(e[..k]);
  }

  /** Dependency count of a declaration: spaces plus one, or zero for an
      empty dependency text. */
  lemma CountTokens(d: string)
    requires |d| == 0 || d[|d| - 1] != ' '
    ensures |d| == 0 ==> Tokens(d) == []
    ensures |d| > 0 ==> |Tokens(d)| == CountSpaces(d) + 1
  {
    CountTokensFrom(d, 0);
    assert d[0..] == d;
  }

  /** Splitting `s` at a space at index `k`. */
  lemma {:induction false} CountSpacesSplit(s: string, k: nat)
    requires k < |s| && s[k] == ' '
    ensures CountSpaces(s) == CountSpaces(s[..k]) + 1 + CountSpaces(s[k + 1..])
  {
    if k > 0 {
      CountSpacesSplit(s[1..], k - 1);
      assert s[1..][..k - 1] == s[..k][1..];
      assert s[1..][k..] == s[k + 1..];
    }
  }

  /** A text with no space counts zero spaces. */
  lemma {:induction false} NoSpaceCount(s: string)
    requires forall j :: 0 <= j < |s| ==> s[j] != ' '
    ensures CountSpaces(s) == 0
  {
    if |s| > 0 {
      assert forall j :: 0 <= j < |s| - 1 ==> s[1..][j] == s[j + 1];
      NoSpaceCount(s[1..]);
    }
  }

  /** A search in `p + q` past `p` is a search in `q`, shifted by `|p|`. */
  lemma {:induction false} FindFromShift(p: string, q: string, c: char, s: nat)
    requires s <= |q|
    ensures FindFrom(q, c, s).NPos? ==> FindFrom(p + q, c, |p| + s).NPos?
    ensures FindFrom(q, c, s).At? ==> FindFrom(p + q, c, |p| + s) == At(|p| + FindFrom(q, c, s).index)
    decreases |q| - s
  {
    if s < |q| {
      assert (p + q)[|p| + s] == q[s];
      if q[s] != c {
        FindFromShift(p, q, c, s + 1);
      }
    }
  }

  /** Scanning `p + q` past `p` yields the tokens of `q`. */
  lemma {:induction false} TokensFromShift(p: string, q: string, s: nat)
    requires s <= |q|
    ensures TokensFrom(p + q, |p| + s) == TokensFrom(q, s)
    decreases |q| - s
  {
    FindFromShift(p, q, ' ', s);
    var x := p + q;
    var f := FindFrom(q, ' ', s);
    if f.At? {
      var i := f.index;
      TokensFromShift(p, q, i + 1);
      TokensFromAt(q, s, i);
      TokensFromAt(x, |p| + s, |p| + i);
      SliceShift(p, q, s, i);
    } else {
      TokensFromEnd(q, s);
      TokensFromEnd(x, |p| + s);
      SliceShift(p, q, s, |q|);
      assert q[s..|q|] == q[s..] && x[|p| + s..|x|] == x[|p| + s..];
    }
  }

  /** A slice of `p + q` past `p` is a slice of `q`. */
  lemma SliceShift(p: string, q: string, a: nat, b: nat)
    requires a <= b <= |q|
    ensures (p + q)[|p| + a..|p| + b] == q[a..b]
  {
  }

  /** A single name without spaces is its own only token, unless empty. */
  lemma TokensOfName(t: string)
    requires ' ' !in t && t != ""
    ensures Tokens(t) == [t]
  {
    assert FindFrom(t, ' ', 0) == NPos;
    assert t[0..] == t;
  }

  /** A name without spaces, a space, then more text: the name is the first
      token and the text supplies the rest. */
  lemma TokensOfCons(t: string, y: string)
    requires ' ' !in t
    ensures Tokens((t + " ") + y) == [t] + Tokens(y)
  {
    var x := (t + " ") + y;
    FindAfterName(t, y);
    TokensFromAt(x, 0, |t|);
    assert x[0..|t|] == t;
    TokensFromShift(t + " ", y, 0);
  }

  /** Conversely, names without spaces whose last one is not empty come
      back unchanged from joining them and splitting the result. */
  lemma {:induction false} TokensOfJoin(ts: seq<string>)
    requires forall k :: 0 <= k < |ts| ==> ' ' !in ts[k]
    requires |ts| == 0 || ts[|ts| - 1] != ""
    ensures Tokens(Join(ts)) == ts
  {
    if |ts| == 1 {
      TokensOfName(ts[0]);
    } else if |ts| > 1 {
      var rest := ts[1..];
      assert ts[|ts| - 1] == rest[|rest| - 1];
      TokensOfJoin(rest);
      assert Join(ts) == (ts[0] + " ") + Join(rest);
      TokensOfCons(ts[0], Join(rest));
      assert ts == [ts[0]] + rest;
    }
  }

  /** In a name without spaces followed by a space, the first space is the
      one after the name. */
  lemma FindAfterName(t: string, y: string)
    requires ' ' !in t
    ensures FindFrom((t + " ") + y, ' ', 0) == At(|t|)
  {
    var x := (t + " ") + y;
    forall k | 0 <= k < |t| ensures x[k] != ' ' {
      assert x[k] == t[k];
    }
    assert x[|t|] == ' ';
  }
}
