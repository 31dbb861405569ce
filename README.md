# Selenium self-healing agent: a verified model of its core

The agent dumps the important elements of a web page, hands the dump and a
failing Selenium script to a language model, and asks it for a repaired
script. It tries at most three answers. The first answer that yields
non-empty code that parses is written over the script file, its `# FIX:`
comments are listed as a fix log, and the script is run.

This project models that core in Dafny and proves what it does:

- `text.dfy` (`Text`): the parts of Python's string library the agent
  relies on. These are `str.isspace` (the same set as the regex class `\s`),
  `strip`, `lstrip`, `splitlines` on `'\n'` and `"\n".join`.
- `ui_scraper.dfy` (`UiScraper`): the element records of the dump. It covers
  the allow-listed attributes, the important tags, `clean_element` and
  `filter_element`.
- `extraction.dfy` (`Extraction`): how `run_llm_agent` cuts a candidate
  script out of an answer, and the fix log. Each of its three regular
  expressions is written out as a scan:
  - the fenced-block search;
  - the fallback line match;
  - the `# FIX:` findall.
- `tools.dfy` (`Tools`): the two files the tools work on, in a `Workspace`
  class. It covers the sentinel replies for missing files, the guarded write,
  the pre-checks of `run_selenium`, and the tool wrappers.
- `agent.dfy` (`Agent`): the filter loop of `dump_ui`, and the retry loop of
  `run_llm_agent` as a method. That method is proved against a reference
  function `Run`.
- `wrappers.dfy` (`Wrappers`): `Option`.

The following are parameters of the model:

- The language model is a sequence of answers, or None when `get_llm()`
  gives None. Running out of answers stands for `invoke` raising.
- `ast.parse` is a function value `Parser` that gives `Parsed` or a
  `SyntaxError` with its message.
- The text that running the script prints is an opaque string, `execution`.
- What the webdriver reports about an element is a `DomElement` value. An
  element that raises while it is being cleaned is `Stale`.

## Model

| member | source | states |
|---|---|---|
| Text.Strip | main.py:76 | Python's `str.strip`: the text between the leading and the trailing whitespace run; StripSplits and StripUnique pin it down |
| Text.IsSpace | main.py:76 | the characters `str.isspace` and the regex class `\s` treat as whitespace: space, `'\t'` to `'\r'`, `'\x1c'` to `'\x1f'`, `'\x85'`, `'\xa0'`, `'\u1680'`, `'\u2000'` to `'\u200a'`, `'\u2028'`, `'\u2029'`, `'\u202f'`, `'\u205f'` and `'\u3000'` |
| Text.LStrip | main.py:87 | the text after the leading whitespace run, which is also what the regex `^\s*` passes over |
| Text.LStripOverSpace | main.py:87 | whitespace put in front of a text does not change what `lstrip`, or `^\s*`, leaves of it |
| Text.JoinLines | main.py:90 | `"\n".join`: the lines with one `'\n'` between neighbours; JoinSplitLines and SplitJoinLines relate it to SplitLines |
| Text.StripSplits | main.py:90 | `strip` returns a stripped middle of its argument with only whitespace before and after it |
| Text.StripUnique | main.py:90 | whatever whitespace surrounds a stripped text, `strip` returns exactly that text |
| Text.StripEmpty | agent/tools.py:44 | `not code.strip()` holds exactly when the code is all whitespace |
| Text.StripDropLastSpace | main.py:90 | dropping a trailing whitespace character does not change `strip` |
| Text.StripDropFirstSpace | main.py:122 | dropping a leading whitespace character does not change `strip` |
| Text.SplitLines | main.py:84 | no line returned by `splitlines` contains a line break |
| Text.JoinSplitLines | main.py:84-90 | joining the split lines gives the text back, minus one final line break |
| Text.SplitJoinLines | main.py:84-90 | splitting joined lines gives them back when they hold no break and the last is non-empty |
| Extraction.FindFence | main.py:79 | the result is a fence at or after the start, with no fence before it, or None when there is none |
| Extraction.IsPythonTag | main.py:79 | the six letters of `(?:python)` under `re.I`: `python` with each letter in either case |
| Extraction.PythonTagAt | main.py:79 | the optional tag is there at a position when the six characters from it spell `python` in any case |
| Extraction.FencedBlockFound | main.py:79-80 | the fence pattern matches exactly when the answer holds two non-overlapping triple backticks |
| Extraction.FencedBlock | main.py:79-81 | the group of the fence pattern's leftmost match: the text between the optional tag and the next fence, stripped, or None; its behaviour is what FencedBlockFound and FencedBlockOfWrapped prove |
| Extraction.FencedBlockOfWrapped | main.py:79-81 | a stripped script wrapped in a fence (optional `python` tag in any case, any whitespace) is extracted unchanged. When no tag is written, the text right after the opening fence must not start with `python` in any case, since the optional tag would take those six letters (FencedBlockUntaggedPythonExample). The text before the fence may quote names in single backticks if it holds no triple backtick and does not end in a backtick. The script may quote names too if it holds no triple backtick and ends in a backtick only when whitespace follows it. Anything may follow the closing fence |
| Extraction.FencedBlockQuotedExample | main.py:79-81 | ``Use `id`:`` before the fence and ``# see `id` `` inside it: the block extracted is ``# see `id` `` |
| Extraction.FencedBlockUntaggedPythonExample | main.py:79-81 | an untagged fence around `python_x = 1` gives `_x = 1`: the optional tag takes the script's first six letters |
| Extraction.StartIndex | main.py:84-89 | `start_index` after the scan: the first line that looks like code, or 0; FindStartIndex is proved to compute it |
| Extraction.FallbackCandidate | main.py:84-90 | the lines from `start_index` on, joined with `'\n'` and stripped; FallbackStartsAtCodeLine and FallbackWholeResponse describe it |
| Extraction.Candidate | main.py:79-90 | the fenced block when the fence pattern matches, the fallback otherwise; CandidateStripped and ExtractCandidate are the lemmas and the method about it |
| Extraction.LooksLikeCode | main.py:87 | the fallback's line test: after its indentation the line starts with `import`, `from`, `def`, `class`, `driver` or `#`, as a prefix only; LooksLikeCodeIgnoresIndent and LooksLikeCodeExample are proved about it |
| Extraction.LooksLikeCodeIgnoresIndent | main.py:87 | whitespace indentation does not change whether a line looks like code |
| Extraction.LooksLikeCodeExample | main.py:87 | `driver.quit()` looks like code, so does `important = 1` because only a prefix is matched, and `x = 1` does not |
| Extraction.NextCodeLine | main.py:86-88 | the result is the first line at or after the start that looks like code, or the end |
| Extraction.FindStartIndex | main.py:85-89 | the scanning loop stops at the first line that looks like code, and keeps 0 when no line does |
| Extraction.ExtractCandidate | main.py:79-90 | the candidate is the fenced block when there is one and the fallback otherwise, and it is stripped |
| Extraction.CandidateStripped | main.py:79-90 | both ways of cutting a candidate leave no whitespace at either end |
| Extraction.FallbackStartsAtCodeLine | main.py:82-90 | without a fence, the candidate is the lines from the first code-like line on, joined and stripped, and it looks like code itself |
| Extraction.FallbackWholeResponse | main.py:82-90 | without a fence and without a code-like line, the candidate is the whole answer, stripped |
| Extraction.FixMatchAt | main.py:118 | a match of the fix pattern from a position ends after that position, inside the text |
| Extraction.FixSpans | main.py:118 | the matches `findall` reports lie inside the text, in increasing order, without overlapping |
| Extraction.FixSpansSound | main.py:118 | every reported match starts at a line start and is the pattern's match from there |
| Extraction.FixComments | main.py:118 | the texts `findall` returns: the text of each span FixSpans reports, in order; FixSpansSound and FixSpansComplete tie them to the pattern |
| Extraction.FixSpansComplete | main.py:118 | every line start from which the pattern matches lies inside a reported match |
| Extraction.FixLineMatches | main.py:118 | a whole-line `# FIX:` comment is matched from its line start, and the match is exactly that line |
| Extraction.InlineCommentNotMatched | main.py:118 | when a line's first non-blank character is not `#`, no match starts at that line's start |
| Extraction.InlineCommentNotListed | main.py:118 | when a line's first non-blank character is not `#` and the line does not start with `FIX:`, no reported match overlaps that line, so a trailing `# FIX:` comment after code on it is not listed |
| Extraction.FixAcrossLineBreakExample | main.py:118 | a `#` alone on its line followed by a line starting `FIX:` is one match, which runs to the end of that second line, trailing comment included |
| Extraction.FixEntryAsWritten | main.py:122 | the entry main.py prints for one match, `comment[2:].strip()`; FixEntryAsWrittenAgrees and FixEntryAsWrittenDropsLetter say when it is right and when not |
| Extraction.FixLogAsWritten | main.py:118-122 | the fix log main.py prints: that entry for each match, in order; FixLogAsWrittenAgrees relates it to the intended log |
| Extraction.FixEntry | main.py:122 | the entry the log evidently means: the match without its indentation and its `#`, stripped; FixEntryOfMatch proves it starts with `FIX:` |
| Extraction.FixLog | main.py:118-122 | the intended fix log: that entry for each match, in order; FixLogEntriesStartWithFix is proved about it |
| Extraction.FixEntryAsWrittenAgrees | main.py:122 | when a match starts with `#` and one whitespace character, in either order, the printed entry is the intended one |
| Extraction.FixLogAsWrittenAgrees | main.py:118-122 | the printed and the intended log have one entry per match, and they agree at every match that starts with `#` and one whitespace character, in either order |
| Extraction.FixLogExample | main.py:118-122 | for the code `#FIX: use id` main.py prints the log `IX: use id`, where the intended log reads `FIX: use id` |
| Extraction.FixEntryAsWrittenKeepsHash | main.py:122 | an indented comment `    # FIX: a` is printed as `# FIX: a` |
| Extraction.FixEntryAsWrittenDropsLetter | main.py:121-122 | for a comment written `#FIX:` the printed entry starts with `IX:` |
| Extraction.FixCommentExample | main.py:118 | `#FIX: use id` is one whole match |
| Extraction.FixEntryAsWrittenExample | main.py:122 | `#FIX: use id` is printed as `IX: use id` |
| Extraction.FixLogEntriesStartWithFix | main.py:119-122 | with indentation and `#` dropped before stripping, every fix-log entry starts with `FIX:` |
| Extraction.FixEntryOfMatch | main.py:122 | the corrected entry of any single match starts with `FIX:` |
| UiScraper.Clean | ui_scraper.py:21-37 | attribute keys are allow-listed; a name is kept iff its value is present and non-empty; values are copied; text is stripped; tag, visibility, enabled state, location and size are copied |
| UiScraper.Truthy | ui_scraper.py:25-26 | `if value:` for an attribute: `get_attribute` gives a value and it is not the empty string |
| UiScraper.Kept | ui_scraper.py:24-27 | the attributes the loop keeps from a set of names: exactly the truthy ones, with their values; KeptAdd and CleanElement are proved about it |
| UiScraper.KeptAdd | ui_scraper.py:24-27 | one more pass of the loop adds the attribute with its value exactly when it is truthy, and leaves the rest unchanged |
| UiScraper.CleanElement | ui_scraper.py:24-27 | the loop over the allow-list builds exactly the record `Clean` describes |
| UiScraper.FilterElement | ui_scraper.py:40-41 | a record passes iff its tag is one of button, input, a, select, textarea, img, label |
| Tools.Workspace.ReadUiJson | agent/tools.py:12-16 | the exact not-found message when the dump is absent, its full content otherwise |
| Tools.Workspace.ReadSeleniumScript | agent/tools.py:25-29 | the exact not-found message when the script is absent, its full content otherwise |
| Tools.Workspace.ScriptValid | agent/tools.py:44-55 | the store's invariant: a stored script parses; WriteSeleniumScript preserves it, and under it RunSelenium always runs an existing script |
| Tools.Workspace.WriteSeleniumScript | agent/tools.py:38-55 | blank code: `ERROR: Empty code received.` and no change; unparseable code: a `REJECTED:` message with the parser's message and no change; otherwise the file becomes exactly the code, the reply is the success message, and a read returns the code; a changed file always parses, so a parsing file stays parsing |
| Tools.Workspace.RunSelenium | agent/tools.py:64-78 | a missing file gives the not-found error; an unparseable file gives the invalid-script error with the parser's message; a parsing file is run |
| Tools.Workspace.ReadUiJsonTool | agent/tools.py:19-22 | the wrapper replies what `read_ui_json` replies |
| Tools.Workspace.ReadSeleniumScriptTool | agent/tools.py:32-35 | the wrapper replies what `read_selenium_script` replies |
| Tools.Workspace.WriteSeleniumScriptTool | agent/tools.py:58-61 | the wrapper writes its input exactly as `write_selenium_script` would |
| Tools.Workspace.RunSeleniumTool | agent/tools.py:96-99 | the wrapper replies what `run_selenium` replies |
| Tools.ToolInputIgnored | agent/tools.py:96-99 | the read and run wrappers reply the same whatever their input |
| Agent.Snapshot | main.py:21-30 | the dump of a list of scraped elements: the cleaned record of each attached element with an important tag, in page order; SnapshotMembers, SnapshotConcat and SnapshotFiltered are proved about it |
| Agent.DumpUi | main.py:21-30 | the loop builds exactly the dump `Snapshot` describes |
| Agent.SnapshotConcat | main.py:24-28 | the dump of two runs of elements is their two dumps in order, so page order is kept |
| Agent.SnapshotMembers | main.py:24-30 | a record is in the dump iff it is the cleaned record of an attached element whose tag is important |
| Agent.SnapshotFiltered | main.py:27-28 | every record in the dump has an important tag, and the dump is no longer than the element list |
| Agent.Assess | main.py:94-111 | what one answer gives: no code for an empty candidate, the parser's error for one that does not parse, the candidate otherwise; ValidCodeWritable is proved about it |
| Agent.Run | main.py:72-129 | the attempts from one number on: the first answer with usable code heals the run, the answers running out is a failed invocation, and the third unusable answer gives up; RunHealedAtFirstUsable, RunUnhealed and RunHealsIffUsable are proved about it |
| Agent.Outcome | main.py:64-129 | no attempt without a model, and otherwise the run from attempt 1 on the stripped answers; RunLlmAgent is proved to end as it says |
| Agent.StripAll | main.py:76 | each answer is used stripped |
| Agent.ValidCodeWritable | main.py:113-114 | usable code is the candidate, is not blank, parses and is stripped, so the write at line 114 succeeds |
| Agent.RunHealedAtFirstUsable | main.py:72-129 | a healed run stops at the first attempt with usable code, within three attempts and the answers given; it writes that code, reports success, gives the fix log of that code as main.py prints it and as it is evidently meant, and gives the run's output |
| Agent.RunUnhealed | main.py:94-111 | a run that does not heal had no usable answer in its window; it either gave up after the third answer, showing that answer, or failed on the attempt after the last answer |
| Agent.RunHealsIffUsable | main.py:72-129 | a run heals exactly when one of its first three answers gives usable code |
| Agent.HealedCodeParses | main.py:102-114 | the code a healed run writes is the candidate of its answer, is not blank, and parses |
| Agent.BlankAnswersGiveUp | main.py:94-99 | three blank answers end the run with a give-up that shows the empty last answer |
| Agent.RunLlmAgent | main.py:64-129 | the method ends as `Outcome` says: no attempt without a model; the script file holds the healed code after a healed run and is unchanged otherwise |

## Left out

- Webdriver access, the browser, the JSON form of the dump and writing it to `ui_dump.json` are left out. `DumpUi` returns the records, and `uiDump` is an input to the workspace.
- The prompt text, `json.dumps`, `repr`, the printing, the emoji messages and the timing in main.py are left out. `RunLlmAgent` reads both files as main.py does, but it does not build the prompt.
- A healed outcome carries the fix log twice: `printedLog` is what main.py prints (`FixLogAsWritten`), and `fixLog` is the log it evidently means (`FixLog`, see Findings). Printing itself is left out.
- The subprocess call of `run_selenium` (agent/tools.py:80-93) is left out. That covers the 60-second timeout, output capture and the `STDOUT:`/`STDERR:` formatting; all of this is the `execution` string.
- `ast.parse` and the Python grammar are a `Parser` parameter.
- `ast.parse` can raise exceptions other than `SyntaxError`. Examples are `ValueError` on a null byte before Python 3.12 and `RecursionError` on deeply nested code. Such an exception escapes main.py:103-105 and agent/tools.py:48-51, and the `Parser` parameter cannot express it.
- Tools.Workspace.ReadSeleniumScript: the files are exact strings. `read_text` and `write_text` (agent/tools.py:16, 29, 54, 72) work in text mode. Reading turns `'\r'` and `"\r\n"` into `'\n'`, and on Windows writing turns `'\n'` into `"\r\n"`. So for code holding `'\r'` a read after a write does not return exactly the code, and `run_selenium` parses the translated text rather than the written one. The model does not capture this newline translation.
- A file that is not valid UTF-8 makes `read_text(encoding="utf-8")` raise. The model's files are always readable.
- Text.SplitLines: breaks lines only at `'\n'`. Python's `splitlines` also breaks at `'\r'`, `"\r\n"`, `'\x0b'`, `'\x0c'`, `'\x1c'`-`'\x1e'`, `'\x85'`, `'\u2028'` and `'\u2029'`.
- The general regular-expression engine is left out. Only the three patterns of main.py are written out. In the fix pattern `\s` also matches line breaks, as Python's engine does, so a match may begin on a blank line before the comment. It also lets a `#` alone on one line pair with `FIX:` at the start of the next. That match runs to the end of the second line, so a trailing `# FIX:` comment after code on that line is listed too (FixAcrossLineBreakExample). Extraction.InlineCommentNotListed therefore covers only lines that do not start with `FIX:`.
- Tools.Workspace.WriteSeleniumScript: the invariant that the stored script parses holds only from a state where it already parses; a script file that exists before the first write is not checked.
- The `@tool`, `@traceable` and `load_dotenv` decorations are left out. So are `main()`, tk_ui.py, agent/llm_agent.py, config.py and selenium_action_script.py. These are a GUI, a remote client, configuration and a browser script.
- The model does not cover an exception of the model client other than running out of answers, nor a `driver.quit()` failure.

## Findings

| source | as written | input that shows it | evidently intended | confidence | as-written member | corrected member |
|---|---|---|---|---|---|---|
| main.py:122 | each fix-log entry is `comment[2:].strip()`, which drops the match's first two characters whatever they are; that gives the intended entry when they are the `#` and one whitespace character, in either order | code `#FIX: use id` is matched whole and printed as `IX: use id` | drop the indentation and the `#`, then strip, so every entry reads `FIX: …` | not executed; the counterexample is proved | Extraction.FixLogExample | Extraction.FixLogEntriesStartWithFix |
