/** The documentation extraction of `parse_generated_response`:
    `re.findall(r'- (Label: .+)', response)` for the three labels. The
    pattern has no anchors or look-behind, so whether it matches at a
    position depends only on the text from there on; the scan is therefore
    written over suffixes of the reply. */
module Bullets {

  import opened Text
  import opened Wrappers

  /** The three documentation sections the reply is mined for. */
  datatype Section = Overview | Feature | Extension

  /** The captured prefix of each section's pattern. */
  function Label(sec: Section): (l: string)
    ensures |l| > 0 && '\n' !in l
  {
    match sec
    case Overview => "Overview: "
    case Feature => "Feature: "
    case Extension => "Extension: "
  }

  /** The literal text the pattern starts with: "- " and the label. */
  function Marker(sec: Section): string
  {
    "- " + Label(sec)
  }

  /** The pattern matches at the start of `s`: the marker, then `.+`, at
      least one character that is not '\n'. */
  predicate StartsBullet(s: string, sec: Section)
  {
    var m := Marker(sec);
    |s| > |m| && s[..|m|] == m && s[|m|] != '\n'
  }

  /** A capture of the group: the label, then a non-empty rest of line. */
  ghost predicate IsCapture(t: string, sec: Section)
  {
    var l := Label(sec);
    |t| > |l| && t[..|l|] == l && '\n' !in t
  }

  /** A match at the start of `s` runs to the end of its line, and the
      group is everything after "- ". */
  lemma BulletLine(s: string, sec: Section)
    requires StartsBullet(s, sec)
    ensures |Marker(sec)| < LineEnd(s, 0)
    ensures IsCapture(s[2..LineEnd(s, 0)], sec)
  {
    var m := Marker(sec);
    assert forall i :: 0 <= i < |m| ==> s[i] == m[i];
    assert forall i :: 0 <= i <= |m| ==> s[i] != '\n';
    var t := s[2..LineEnd(s, 0)];
    assert t[..|Label(sec)|] == m[2..];
  }

  /** `re.findall`: try the pattern at each position from left to right; a
      match resumes the scan where it ended (greedy `.+` ends at the line
      end), a miss moves on by one character. */
  function FindAll(s: string, sec: Section): (caps: seq<string>)
    ensures forall i :: 0 <= i < |caps| ==> IsCapture(caps[i], sec)
    decreases |s|
  {
    if |s| == 0 then []
    else if StartsBullet(s, sec) then
      BulletLine(s, sec);
      var k := LineEnd(s, 0);
      [s[2..k]] + FindAll(s[k..], sec)
    else FindAll(s[1..], sec)
  }

  /** The leftmost position at or after `i` where the pattern matches in
      `line`. */
  function FirstMatch(line: string, i: nat, sec: Section): (r: Option<nat>)
    requires i <= |line|
    ensures r.Some? ==> i <= r.value < |line| && StartsBullet(line[r.value..], sec)
    ensures r.Some? ==> forall q :: i <= q < r.value ==> !StartsBullet(line[q..], sec)
    ensures r.None? ==> forall q :: i <= q <= |line| ==> !StartsBullet(line[q..], sec)
    decreases |line| - i
  {
    if i == |line| then None
    else if StartsBullet(line[i..], sec) then Some(i)
    else FirstMatch(line, i + 1, sec)
  }

  /** The leftmost match inside one line, if any; the capture runs to the
      end of the line. */
  function FirstBullet(line: string, sec: Section): (r: Option<string>)
    ensures r.Some? ==> exists p :: && 0 <= p < |line| && StartsBullet(line[p..], sec)
                                   && (forall q :: 0 <= q < p ==> !StartsBullet(line[q..], sec))
                                   && r.value == line[p + 2..]
    ensures r.None? <==> forall p :: 0 <= p <= |line| ==> !StartsBullet(line[p..], sec)
  {
    match FirstMatch(line, 0, sec)
    case Some(p) => Some(line[p + 2..])
    case None => None
  }

  /** The scan of a line without its first character, started one
      position earlier, finds the same match one position earlier. */
  lemma {:induction false} FirstMatchShift(line: string, i: nat, sec: Section)
    requires 1 <= i <= |line|
    ensures FirstMatch(line[1..], i - 1, sec).Some? <==> FirstMatch(line, i, sec).Some?
    ensures FirstMatch(line, i, sec).Some? ==>
              FirstMatch(line[1..], i - 1, sec).value == FirstMatch(line, i, sec).value - 1
    decreases |line| - i
  {
    assert line[1..][i - 1..] == line[i..];
    if i < |line| && !StartsBullet(line[i..], sec) {
      FirstMatchShift(line, i + 1, sec);
    }
  }

  /** Dropping a first character that starts no match moves the line's
      leftmost match one position to the left. */
  lemma FirstMatchTail(line: string, sec: Section)
    requires |line| > 0 && !StartsBullet(line, sec)
    ensures FirstMatch(line[1..], 0, sec).Some? <==> FirstMatch(line, 0, sec).Some?
    ensures FirstMatch(line, 0, sec).Some? ==>
              FirstMatch(line[1..], 0, sec).value == FirstMatch(line, 0, sec).value - 1
  {
    assert line[0..] == line;
    FirstMatchShift(line, 1, sec);
  }

  /** Dropping a first character that starts no match leaves the line's
      leftmost capture in place. */
  lemma FirstBulletTail(line: string, sec: Section)
    requires |line| > 0 && !StartsBullet(line, sec)
    ensures FirstBullet(line, sec) == FirstBullet(line[1..], sec)
  {
    FirstMatchTail(line, sec);
    if FirstMatch(line, 0, sec).Some? {
      TailSuffix(line, FirstMatch(line, 0, sec).value + 2);
    }
  }

  /** A match at the start of a prefix is a match at the start of the whole
      text. */
  lemma BulletOfPrefix(s: string, k: nat, sec: Section)
    requires k <= |s| && StartsBullet(s[..k], sec)
    ensures StartsBullet(s, sec)
  {
    var m := Marker(sec);
    assert s[..k][..|m|] == s[..|m|];
  }

  /** Reference reading of the same scan: split the reply into lines and
      keep, from each line, its leftmost match. */
  function PerLine(lines: seq<string>, sec: Section): seq<string>
  {
    if |lines| == 0 then []
    else OptSeq(FirstBullet(lines[0], sec)) + PerLine(lines[1..], sec)
  }

  function OptSeq(o: Option<string>): seq<string>
  {
    match o
    case Some(t) => [t]
    case None => []
  }

  /** A match at the start of a text is also the leftmost match of its
      first line. */
  lemma BulletFirstLine(s: string, sec: Section)
    requires StartsBullet(s, sec)
    ensures '\n' !in s[..LineEnd(s, 0)]
    ensures FirstBullet(s[..LineEnd(s, 0)], sec) == Some(s[2..LineEnd(s, 0)])
  {
    var k := LineEnd(s, 0);
    LinePrefix(s);
    BulletLine(s, sec);
    var m := Marker(sec);
    assert s[..k][..|m|] == s[..|m|];
    assert s[..k][0..] == s[..k];
    assert s[..k][2..] == s[2..k];
  }

  /** Without a match at the start, the first line's leftmost match is the
      leftmost match of the line without its first character. */
  lemma NoBulletFirstLine(s: string, sec: Section)
    requires |s| > 0 && s[0] != '\n' && !StartsBullet(s, sec)
    ensures '\n' !in s[..LineEnd(s, 0)] && '\n' !in s[1..][..LineEnd(s[1..], 0)]
    ensures FirstBullet(s[..LineEnd(s, 0)], sec) == FirstBullet(s[1..][..LineEnd(s[1..], 0)], sec)
    ensures s[1..][LineEnd(s[1..], 0)..] == s[LineEnd(s, 0)..]
  {
    var k := LineEnd(s, 0);
    var t := s[1..];
    LinePrefix(s);
    LinePrefix(t);
    LineEndTail(s);
    TailPrefix(s, k);
    PrefixTail(s, k, sec);
  }

  /** A prefix of a text that starts no match keeps its leftmost match when
      its first character is dropped. */
  lemma PrefixTail(s: string, k: nat, sec: Section)
    requires 0 < k <= |s| && !StartsBullet(s, sec)
    ensures FirstBullet(s[..k], sec) == FirstBullet(s[..k][1..], sec)
  {
    if StartsBullet(s[..k], sec) {
      BulletOfPrefix(s, k, sec);
    }
    FirstBulletTail(s[..k], sec);
  }

  /** The scan of a text equals the leftmost match of its first line
      followed by the scan of the rest, from the line break on. */
  lemma {:induction false} FirstLine(s: string, sec: Section)
    ensures '\n' !in s[..LineEnd(s, 0)]
    ensures FindAll(s, sec) == OptSeq(FirstBullet(s[..LineEnd(s, 0)], sec)) + FindAll(s[LineEnd(s, 0)..], sec)
    decreases |s|
  {
    LinePrefix(s);
    if |s| == 0 || s[0] == '\n' {
      assert s[..LineEnd(s, 0)] == "";
      assert s[LineEnd(s, 0)..] == s;
    } else if StartsBullet(s, sec) {
      BulletFirstLine(s, sec);
    } else {
      FirstLine(s[1..], sec);
      NoBulletFirstLine(s, sec);
    }
  }

  /** A line break never starts a match, so the scan steps over it. */
  lemma SkipNewline(t: string, sec: Section)
    requires |t| > 0 && t[0] == '\n'
    ensures FindAll(t, sec) == FindAll(t[1..], sec)
  {
    assert !StartsBullet(t, sec);
  }

  /** The scan agrees with the per-line reference on every reply: at most
      one capture per line, in line order. */
  lemma {:induction false} FindAllPerLine(s: string, sec: Section)
    ensures FindAll(s, sec) == PerLine(Split(s), sec)
    decreases |s|
  {
    var k := LineEnd(s, 0);
    FirstLine(s, sec);
    if k == |s| {
      assert s[..k] == s;
      assert s[k..] == "";
      assert Split(s) == [s];
    } else {
      var rest := s[k + 1..];
      SkipNewline(s[k..], sec);
      assert s[k..][1..] == rest;
      FindAllPerLine(rest, sec);
      var lines := Split(s);
      assert lines == [s[..k]] + Split(rest);
      assert lines[1..] == Split(rest);
    }
  }

  /** `findall` returns no capture exactly when the pattern matches at no
      position of the reply. */
  lemma {:induction false} FindAllEmpty(s: string, sec: Section)
    ensures FindAll(s, sec) == [] <==> forall p :: 0 <= p <= |s| ==> !StartsBullet(s[p..], sec)
    decreases |s|
  {
    assert s[0..] == s;
    if |s| > 0 && !StartsBullet(s, sec) {
      FindAllEmpty(s[1..], sec);
      assert forall p :: 1 <= p <= |s| ==> s[1..][p - 1..] == s[p..];
    }
  }
}
