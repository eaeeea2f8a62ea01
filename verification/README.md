# AI code generator: reply extraction, prompt fragments and routing

A Dafny model of the deterministic core of `AIdebugger.py`, the "AI Code
Generator Pro" panel of a code-debugging assistant. The panel builds a prompt,
sends it to a hosted text-generation model, and turns the markdown reply into
four fields:

- `code` is the group of the leftmost match of the DOTALL pattern
  ```` ```[\w+]*\n(.*?)``` ````.
- `overview`, `features` and `extensions` are the `'\n'`-joined results of
  `re.findall(r'- (Overview: .+)')`, `re.findall(r'- (Feature: .+)')` and
  `re.findall(r'- (Extension: .+)')`.

The model is pure functions over `string` (`seq<char>`). Each regex is written
twice:

- as an executable scan (`CodeFence.Search`, `Bullets.FindAll`);
- as a declarative reading of the regex semantics: any accepted match
  (`CodeFence.Accepts`), the lazy choice at one start (`CodeFence.Chosen`), the
  leftmost one (`CodeFence.Leftmost`), and for the bullets one leftmost capture
  per line (`Bullets.PerLine`).

Lemmas connect the two readings for every input. The model also covers:

- the template and refinement fragments of `generate_code_from_text`;
- the `"**Generation Error**: "` sentinel returned on the exception path;
- the caller's `startswith("**")` test;
- the `get_extension` table.

Modules follow the source's pieces:

- `Text`: line ends and `str.split('\n')` / `'\n'.join`.
- `CodeFence`: the code-block search.
- `Bullets`: the bullet `findall`.
- `Response`: `parse_generated_response`.
- `Generator`: fragments and the returned reply.
- `Dispatch`: the error test and branch.
- `Extensions`: `get_extension`.
- `Wrappers`: `Option` and `Result`.

`parse_generated_response` uses one code-block regex and three bullet regexes;
it does not parse JSON.

## Model

| member | source | states |
|---|---|---|
| Text.LineEnd | AIdebugger.py:55 | the position where greedy `.+` stops: the first '\n' at or after a position, or the end of the reply; no '\n' before it |
| Text.Join | AIdebugger.py:55-57 | `'\n'.join(...)` of the captures: the first piece comes first, whole; `SplitJoin` and `JoinSplit` make it the inverse of `str.split('\n')` |
| Text.SplitJoin | AIdebugger.py:55-57 | splitting a `'\n'`-join of newline-free pieces on '\n' gives back exactly those pieces |
| Text.JoinSplit | AIdebugger.py:55-57 | `'\n'`-joining the lines of a string rebuilds the string |
| Text.UnjoinJoin | AIdebugger.py:55-57 | a list of non-empty newline-free captures can be read back from its join, and the empty list joins to '' |
| CodeFence.TagEnd | AIdebugger.py:50 | the `[\w+]*` run after a fence is maximal: every character before the returned end is a tag character, and the one at it is not |
| CodeFence.NextFence | AIdebugger.py:50 | returns the nearest "```" at or after a position, or none when no fence starts there or later |
| CodeFence.TagRunUnique | AIdebugger.py:50 | every match accepted at a start has its '\n' right after the maximal tag run, so backtracking into the tag never yields another match |
| CodeFence.MatchAt | AIdebugger.py:50 | at one start the engine returns the accepted match whose lazy body ends at the earliest closing fence; none means no accepted match starts there |
| CodeFence.Search | AIdebugger.py:50 | scanning from a position returns the chosen match with the smallest start at or after it; none only when no accepted match starts at or after it |
| CodeFence.SearchIsLeftmost | AIdebugger.py:50-51 | the search of the whole reply returns the leftmost lazy match, and returns nothing exactly when the pattern matches nowhere |
| CodeFence.LeftmostExists | AIdebugger.py:50-51 | whenever the pattern matches at some start, a leftmost lazy match exists, so `re.search` cannot fail on a reply that holds a match |
| CodeFence.SearchFindsEveryLeftmost | AIdebugger.py:50-51 | whatever leftmost lazy match the semantics admits is exactly the one the search of the whole reply returns |
| CodeFence.LeftmostUnique | AIdebugger.py:50 | the regex semantics determines a single result: two leftmost lazy matches are equal |
| CodeFence.BodyHasNoFence | AIdebugger.py:50 | the lazily matched group contains no "```" |
| CodeFence.ExtractCode | AIdebugger.py:49-52 | `code` contains no "```"; it is the group of the leftmost lazy match, the slice between that opening line's '\n' and the nearest closing fence; it is '' when no fence is followed by a tag run, '\n' and a later fence |
| Bullets.BulletLine | AIdebugger.py:55 | a bullet match runs to the end of its line; its group is the label followed by at least one character, with no '\n' |
| Bullets.FindAll | AIdebugger.py:55-57 | every capture of `findall` starts with its label ("Overview: ", "Feature: " or "Extension: "), has a non-empty rest and contains no '\n' |
| Bullets.FirstMatch | AIdebugger.py:55 | the scan of one line from a position returns the leftmost position at or after it where the pattern matches, or none exactly when no such position exists |
| Bullets.FirstBullet | AIdebugger.py:55 | inside one line: a result is the rest of the line from the leftmost position where the pattern matches (no earlier position matches), and there is none exactly when no position of the line matches |
| Bullets.FirstBulletTail | AIdebugger.py:55 | dropping a first character that starts no match leaves a line's leftmost capture unchanged, which is how the scan advances by one character on a miss |
| Bullets.FirstLine | AIdebugger.py:55 | the left-to-right scan yields the first line's leftmost capture (if any), then the scan of the text from that line's '\n' on |
| Bullets.FindAllPerLine | AIdebugger.py:55-57 | the non-overlapping left-to-right `findall` equals the per-line reference: one capture per line at most, the leftmost, in line order |
| Bullets.FindAllEmpty | AIdebugger.py:55-57 | `findall` returns nothing exactly when the pattern matches at no position of the reply |
| Response.DocField | AIdebugger.py:55-57 | a documentation field is a join from which the captures can be read back, in order |
| Response.Parse | AIdebugger.py:40-59 | the four-field record: `code` is '' without a match, else the leftmost lazy group, never containing "```"; each documentation field unjoins to its section's captures |
| Response.ParseDocs | AIdebugger.py:55-57 | a documentation field is '' exactly when its marker never starts a match; its lines are the per-line leftmost captures, each starting with the label and newline-free |
| Response.ParseDefaults | AIdebugger.py:42-47 | a reply with no code-block match and no bullet match leaves all four fields at their initial '' |
| Generator.TemplateFragment | AIdebugger.py:5-7 | the fragment is '' exactly when the template is absent, '' or "Custom"; otherwise the template name can be read back from it |
| Generator.RefinementFragment | AIdebugger.py:9-11 | the fragment is '' exactly when the refinement is absent or ''; otherwise it starts on a new line and the feedback can be read back from it |
| Generator.GenerateReply | AIdebugger.py:33-38 | a failed call returns the prefix "**Generation Error**: " followed by the exception message; a successful call returns the reply text unchanged |
| Dispatch.IsErrorReply | AIdebugger.py:88 | `startswith("**")`: the test holds exactly when the reply is "**" followed by some text; `FailureIsShownAsError` shows every exception-path reply passes it |
| Dispatch.Handle | AIdebugger.py:88-113 | a reply is shown verbatim as an error exactly when it starts with "**"; every other reply is parsed into the tabs |
| Dispatch.FailureIsShownAsError | AIdebugger.py:88 | every exception-path reply passes the `startswith("**")` test, so it is shown as an error and never parsed |
| Dispatch.SuccessIsParsed | AIdebugger.py:88-89 | a successful reply not starting with "**" is parsed |
| Dispatch.BoldReplyShownAsError | AIdebugger.py:88 | a successful reply that opens in bold markdown is shown as an error |
| Dispatch.HandleOutcome | AIdebugger.py:88 | corrected routing (see ## Findings): routing by the call's outcome: the error view appears exactly when the call raised, and every successful reply is parsed |
| Extensions.GetExtension | AIdebugger.py:116-125 | the result is one of py, js, java, go, cs, ts, txt, and it is "txt" exactly when the language is not in the table |
| Extensions.ExtensionRoundTrip | AIdebugger.py:117-124 | the extension of a table language maps back to that language through an independently written inverse table; the default maps to nothing |
| Extensions.ExtensionInjective | AIdebugger.py:117-124 | distinct table languages get distinct extensions |
| Extensions.UiLanguagesCovered | AIdebugger.py:78-79 | every language offered in the generator's select box gets its own extension, never "txt" |

## Left out

- The Streamlit UI (lines 62-113): widgets, columns, tabs, spinner, download button, `st.session_state` and `st.rerun`. Only the branch at line 88 is modelled.
- The empty-prompt check `prompt_text.strip()` (line 82) and `gen_lang.lower()` in the tab and the file name (lines 96-98). They are presentation.
- The model call (lines 33-35). It is a nondeterministic network call. It enters the model as a `Result<string, string>`, and `Failure` carries `str(e)`.
- The full prompt text (lines 13-31). It is fixed boilerplate around the two fragments.
- CodeFence.IsWordChar: Python's `\w` on `str` patterns is Unicode-aware. The model admits only ASCII letters, digits and '_'. So an opening fence whose tag holds a non-ASCII letter is accepted by Python but not by the model.
- `get_extension` is called at line 98 but defined at line 116. This is a module-level ordering problem of the script, not part of the function.
- Template and refinement arguments of types other than `str` or `None`. The UI only passes strings, so they are modelled as `Option<string>`.

## Findings

| source | as written | input that shows it | evidently intended | confidence | as-written member | corrected member |
|---|---|---|---|---|---|---|
| AIdebugger.py:88 | the reply is classed as an error when its text starts with "**" | a successful call whose reply is `"**Summary**\n```python\nprint(1)\n```\n"` is shown as an error, and its code block is never parsed | only the exception path's `"**Generation Error**: "` replies reach the error branch; model replies are parsed | medium, not executed | Dispatch.BoldReplyShownAsError | Dispatch.HandleOutcome |
