/** The code-block extraction of `parse_generated_response`: a leftmost
    search for the pattern  ```[\w+]*\n(.*?)```  in DOTALL mode, returning
    the first group. Positions index the whole reply. */
module CodeFence {

  import opened Wrappers

  /** `\w`, approximated by its ASCII members. */
  predicate IsWordChar(c: char)
  {
    ('a' <= c <= 'z') || ('A' <= c <= 'Z') || ('0' <= c <= '9') || c == '_'
  }

  /** The character class `[\w+]` of the language tag after an opening fence. */
  predicate IsTagChar(c: char)
  {
    IsWordChar(c) || c == '+'
  }

  /** Three backticks start at position `i` of `s`. */
  predicate FenceAt(s: string, i: nat)
  {
    i + 3 <= |s| && s[i] == '`' && s[i + 1] == '`' && s[i + 2] == '`'
  }

  /** `t` contains "```" somewhere. */
  ghost predicate ContainsFence(t: string)
  {
    exists i: nat :: FenceAt(t, i)
  }

  /** One match of the pattern: the opening fence at `open`, the group
      `s[body..close]`, the closing fence at `close`. */
  datatype CodeMatch = CodeMatch(open: nat, body: nat, close: nat)

  /** The pattern can match at `m.open` with its group spanning
      `[m.body, m.close)`: fence, a run of tag characters, '\n', any text,
      fence. This ignores which of several candidates the engine prefers. */
  ghost predicate Accepts(s: string, m: CodeMatch)
  {
    && m.open + 3 < m.body <= m.close
    && FenceAt(s, m.open)
    && FenceAt(s, m.close)
    && (forall j :: m.open + 3 <= j < m.body - 1 ==> IsTagChar(s[j]))
    && s[m.body - 1] == '\n'
  }

  /** The candidate the engine returns at a start position: the lazy body
      makes it the accepted match there with the earliest closing fence. */
  ghost predicate Chosen(s: string, m: CodeMatch)
  {
    && Accepts(s, m)
    && forall m' :: Accepts(s, m') && m'.open == m.open ==> m.close <= m'.close
  }

  /** What `re.search` returns: the chosen match at the leftmost start
      position where the pattern matches at all. */
  ghost predicate Leftmost(s: string, m: CodeMatch)
  {
    && Chosen(s, m)
    && forall m' :: Accepts(s, m') ==> m.open <= m'.open
  }

  /** End of the maximal run of tag characters starting at `k`. */
  function TagEnd(s: string, k: nat): (r: nat)
    requires k <= |s|
    ensures k <= r <= |s|
    ensures forall j :: k <= j < r ==> IsTagChar(s[j])
    ensures r < |s| ==> !IsTagChar(s[r])
    decreases |s| - k
  {
    if k == |s| || !IsTagChar(s[k]) then k else TagEnd(s, k + 1)
  }

  /** The first fence at or after `k`. */
  function NextFence(s: string, k: nat): (r: Option<nat>)
    requires k <= |s|
    ensures r.Some? ==> k <= r.value && FenceAt(s, r.value)
    ensures r.Some? ==> forall j :: k <= j < r.value ==> !FenceAt(s, j)
    ensures r.None? ==> forall j :: k <= j ==> !FenceAt(s, j)
    decreases |s| - k
  {
    if FenceAt(s, k) then Some(k)
    else if k + 3 > |s| then None
    else NextFence(s, k + 1)
  }

  /** The engine's attempt at one start position. */
  function MatchAt(s: string, i: nat): (r: Option<CodeMatch>)
    requires i <= |s|
    ensures r.Some? ==> r.value.open == i && Chosen(s, r.value)
    ensures r.None? ==> forall m :: Accepts(s, m) ==> m.open != i
  {
    if !FenceAt(s, i) then None
    else
      var j := TagEnd(s, i + 3);
      if j < |s| && s[j] == '\n' then
        match NextFence(s, j + 1)
        case Some(p) =>
          TagRunUnique(s, i, j);
          Some(CodeMatch(i, j + 1, p))
        case None =>
          TagRunUnique(s, i, j);
          None
      else
        TagRunUnique(s, i, j);
        None
  }

  /** Every accepted match at `i` has its '\n' exactly at the end of the
      maximal tag run: a shorter run is followed by a tag character and a
      longer one would have to cross the first non-tag character. */
  lemma TagRunUnique(s: string, i: nat, j: nat)
    requires FenceAt(s, i) && j == TagEnd(s, i + 3)
    ensures forall m :: Accepts(s, m) && m.open == i ==> m.body == j + 1
  {
  }

  /** The scan of `re.search` from position `from` on. */
  function Search(s: string, from: nat): (r: Option<CodeMatch>)
    requires from <= |s|
    ensures r.Some? ==> from <= r.value.open && Chosen(s, r.value)
    ensures r.Some? ==> forall m :: Accepts(s, m) && from <= m.open ==> r.value.open <= m.open
    ensures r.None? ==> forall m :: Accepts(s, m) ==> m.open < from
    decreases |s| - from
  {
    match MatchAt(s, from)
    case Some(m) => Some(m)
    case None =>
      if from == |s| then None else Search(s, from + 1)
  }

  /** `re.search` over the whole reply finds the leftmost match, and finds
      none exactly when the pattern matches nowhere. */
  lemma SearchIsLeftmost(s: string)
    ensures Search(s, 0).Some? ==> Leftmost(s, Search(s, 0).value)
    ensures Search(s, 0).None? <==> forall m :: !Accepts(s, m)
  {
  }

  /** Wherever the pattern matches at all, a leftmost lazy match exists. */
  lemma LeftmostExists(s: string, m: CodeMatch)
    requires Accepts(s, m)
    ensures exists m' :: Leftmost(s, m')
  {
    SearchIsLeftmost(s);
  }

  /** The regex semantics fixes a single result. */
  lemma LeftmostUnique(s: string, m1: CodeMatch, m2: CodeMatch)
    requires Leftmost(s, m1) && Leftmost(s, m2)
    ensures m1 == m2
  {
    assert m1.open == m2.open;
    assert m1.close == m2.close;
    TagRunUnique(s, m1.open, TagEnd(s, m1.open + 3));
  }

  /** Any leftmost lazy match is the one the search of the whole reply
      returns. */
  lemma SearchFindsEveryLeftmost(s: string)
    ensures forall m :: Leftmost(s, m) ==> Search(s, 0) == Some(m)
  {
    forall m | Leftmost(s, m)
      ensures Search(s, 0) == Some(m)
    {
      SearchIsLeftmost(s);
      LeftmostUnique(s, Search(s, 0).value, m);
    }
  }

  /** `code_match.group(1)` if the search succeeds, else the default ''. */
  function ExtractCode(s: string): (code: string)
    ensures !ContainsFence(code)
    ensures forall m :: Leftmost(s, m) ==> code == s[m.body..m.close]
    ensures (forall m :: !Accepts(s, m)) ==> code == ""
  {
    SearchIsLeftmost(s);
    SearchFindsEveryLeftmost(s);
    match Search(s, 0)
    case Some(m) =>
      var code := s[m.body..m.close];
      BodyHasNoFence(s, m);
      code
    case None => ""
  }

  /** The engine's result at a start is the only chosen match there. */
  lemma ChosenIsMatchAt(s: string, m: CodeMatch)
    requires Chosen(s, m)
    ensures m.open <= |s| && MatchAt(s, m.open) == Some(m)
  {
    TagRunUnique(s, m.open, TagEnd(s, m.open + 3));
  }

  /** The lazy body stops at the nearest closing fence, so the group itself
      contains no fence. */
  lemma BodyHasNoFence(s: string, m: CodeMatch)
    requires Chosen(s, m)
    ensures !ContainsFence(s[m.body..m.close])
  {
    ChosenIsMatchAt(s, m);
    assert NextFence(s, m.body) == Some(m.close);
    var code := s[m.body..m.close];
    forall i: nat | i + 3 <= |code|
      ensures !FenceAt(code, i)
    {
      assert !FenceAt(s, m.body + i);
    }
  }
}
