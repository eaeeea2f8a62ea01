/** String primitives shared by the extractor: line boundaries and the
    Python `str.split('\n')` / `'\n'.join(...)` pair. Positions index the
    whole string. */
module Text {

  /** Index of the first '\n' at or after `i`, or |s| when there is none. */
  function LineEnd(s: string, i: nat): (k: nat)
    requires i <= |s|
    ensures i <= k <= |s|
    ensures k < |s| ==> s[k] == '\n'
    ensures forall j :: i <= j < k ==> s[j] != '\n'
    decreases |s| - i
  {
    if i == |s| || s[i] == '\n' then i else LineEnd(s, i + 1)
  }

  /** Every position of a line has the same line end. */
  lemma LineEndWithin(s: string, i: nat, p: nat)
    requires i <= |s| && i <= p <= LineEnd(s, i)
    ensures LineEnd(s, p) == LineEnd(s, i)
  {
  }

  /** Dropping a first character that is not '\n' shortens the first line
      by one. */
  lemma LineEndTail(s: string)
    requires |s| > 0 && s[0] != '\n'
    ensures LineEnd(s, 0) == 1 + LineEnd(s[1..], 0)
  {
    var k := LineEnd(s[1..], 0);
    assert forall j :: 0 <= j < k ==> s[1..][j] == s[j + 1];
    assert k < |s[1..]| ==> s[k + 1] == '\n';
  }

  /** Dropping the first character commutes with taking a prefix. */
  lemma TailPrefix(s: string, j: nat)
    requires 1 <= j <= |s|
    ensures s[1..][..j - 1] == s[..j][1..]
  {
    assert forall i :: 0 <= i < j - 1 ==> s[1..][..j - 1][i] == s[..j][1..][i];
  }

  /** Dropping the first character commutes with taking a suffix. */
  lemma TailSuffix(s: string, j: nat)
    requires 1 <= j <= |s|
    ensures s[1..][j - 1..] == s[j..]
  {
  }

  /** The first line of a text holds no '\n'. */
  lemma LinePrefix(s: string)
    ensures '\n' !in s[..LineEnd(s, 0)]
  {
    var k := LineEnd(s, 0);
    assert forall j :: 0 <= j < k ==> s[..k][j] == s[j];
  }

  /** `s.split('\n')`: the empty string splits into one empty line. */
  function Split(s: string): (lines: seq<string>)
    ensures |lines| >= 1
    decreases |s|
  {
    var k := LineEnd(s, 0);
    if k == |s| then [s] else [s[..k]] + Split(s[k + 1..])
  }

  /** `sep.join(parts)`: the first piece comes first, whole. */
  function Join(sep: string, parts: seq<string>): (r: string)
    ensures |parts| >= 1 ==> |parts[0]| <= |r| && r[..|parts[0]|] == parts[0]
  {
    if |parts| == 0 then ""
    else if |parts| == 1 then parts[0]
    else parts[0] + sep + Join(sep, parts[1..])
  }

  /** Inverse of joining a list of lines: the empty field stands for no lines. */
  function Unjoin(field: string): (parts: seq<string>)
    ensures field != "" ==> |parts| >= 1
  {
    if field == "" then [] else Split(field)
  }

  /** No line of a split holds a '\n'. */
  lemma {:induction false} SplitLines(s: string)
    ensures forall j :: 0 <= j < |Split(s)| ==> '\n' !in Split(s)[j]
    decreases |s|
  {
    var k := LineEnd(s, 0);
    LinePrefix(s);
    if k < |s| {
      SplitLines(s[k + 1..]);
      SplitStep(s);
    }
  }

  /** Unfolds one line of a split. */
  lemma SplitStep(s: string)
    requires LineEnd(s, 0) < |s|
    ensures Split(s) == [s[..LineEnd(s, 0)]] + Split(s[LineEnd(s, 0) + 1..])
  {
  }

  /** A newline-free first line followed by '\n' splits off as one line. */
  lemma SplitCons(a: string, b: string)
    requires '\n' !in a
    ensures Split(a + "\n" + b) == [a] + Split(b)
  {
    var s := a + "\n" + b;
    assert s[|a|] == '\n';
    assert forall i :: 0 <= i < |a| ==> s[i] == a[i];
    assert LineEnd(s, 0) == |a|;
    assert s[..|a|] == a;
    assert s[|a| + 1..] == b;
    SplitStep(s);
  }

  /** A string without '\n' is a single line. */
  lemma SplitOneLine(a: string)
    requires '\n' !in a
    ensures Split(a) == [a]
  {
  }

  /** Splitting the '\n'-join of newline-free lines gives back the lines. */
  lemma {:induction false} SplitJoin(parts: seq<string>)
    requires |parts| >= 1
    requires forall i :: 0 <= i < |parts| ==> '\n' !in parts[i]
    ensures Split(Join("\n", parts)) == parts
  {
    if |parts| == 1 {
      SplitOneLine(parts[0]);
    } else {
      var tail := parts[1..];
      assert forall i :: 0 <= i < |tail| ==> '\n' !in tail[i];
      SplitJoin(tail);
      SplitCons(parts[0], Join("\n", tail));
      assert parts == [parts[0]] + tail;
    }
  }

  /** Unfolds one piece of a join. */
  lemma JoinStep(a: string, tail: seq<string>)
    requires |tail| >= 1
    ensures Join("\n", [a] + tail) == a + "\n" + Join("\n", tail)
  {
    assert ([a] + tail)[1..] == tail;
  }

  /** A line break splits a suffix into the line before it and the rest. */
  lemma BreakAt(s: string, i: nat, k: nat)
    requires i <= k < |s| && s[k] == '\n'
    ensures s[i..] == s[i..k] + "\n" + s[k + 1..]
  {
    assert s[i..] == s[i..k] + s[k..];
    assert s[k..] == [s[k]] + s[k + 1..];
  }

  /** Joining the lines of a split string with '\n' rebuilds the string. */
  lemma {:induction false} JoinSplit(s: string)
    ensures Join("\n", Split(s)) == s
    decreases |s|
  {
    var k := LineEnd(s, 0);
    if k < |s| {
      var rest := s[k + 1..];
      JoinSplit(rest);
      SplitStep(s);
      JoinStep(s[..k], Split(rest));
      BreakAt(s, 0, k);
      assert s[0..] == s && s[0..k] == s[..k];
    }
  }

  /** A list of non-empty, newline-free pieces survives the join/unjoin
      round trip; the empty list joins to the empty field. */
  lemma UnjoinJoin(parts: seq<string>)
    requires forall i :: 0 <= i < |parts| ==> '\n' !in parts[i] && parts[i] != ""
    ensures Unjoin(Join("\n", parts)) == parts
  {
    if |parts| >= 1 {
      JoinNonEmpty(parts);
      SplitJoin(parts);
    }
  }

  lemma {:induction false} JoinNonEmpty(parts: seq<string>)
    requires |parts| >= 1 && parts[0] != ""
    ensures Join("\n", parts) != ""
  {
    if |parts| > 1 {
      assert |Join("\n", parts)| >= |parts[0]|;
    }
  }
}
