/**
 * The text handling inside `run_llm_agent` (main.py): how a candidate script
 * is cut out of the model's answer, and which `# FIX:` comments the fix log
 * lists. The three regular expressions of main.py are written out as scans.
 */
module Extraction {
  import opened Wrappers
  import opened Text

  /** A `StartsWith` whose pattern has non-space characters at both ends keeps
      that prefix through `strip` when the text starts with it. */
  lemma StripKeepsPrefix(x: string, w: string)
    requires StartsWith(x, w) && w != [] && IsStripped(w)
    ensures StartsWith(Strip(x), w)
  {
    assert x[0] == w[0] && x[|w| - 1] == w[|w| - 1];
    SkipSpacesIs(x, 0, 0);
    BackSpacesSkipsSpaces(x, |x|);
    assert BackSpaces(x, |x|) >= |w|;
    assert Strip(x)[..|w|] == x[..|w|];
  }

  // ---------------------------------------------------------------------
  // First choice: re.search(r"```(?:python)?\s*(.*?)\s*```", raw, re.S | re.I)

  predicate FenceAt(s: string, i: int) {
    0 <= i && i + 3 <= |s| && s[i] == '`' && s[i + 1] == '`' && s[i + 2] == '`'
  }

  /** The first fence starting at or after `from`. */
  function FindFence(s: string, from: nat): (r: Option<nat>)
    ensures r.Some? ==> from <= r.value && FenceAt(s, r.value)
    ensures r.Some? ==> forall k :: from <= k < r.value ==> !FenceAt(s, k)
    ensures r.None? ==> forall k :: from <= k ==> !FenceAt(s, k)
    decreases |s| - from
  {
    if from + 3 > |s| then None
    else if FenceAt(s, from) then Some(from)
    else FindFence(s, from + 1)
  }

  predicate LetterIs(c: char, lower: char, upper: char) {
    c == lower || c == upper
  }

  /** The word `python` in any mix of cases (re.I). */
  predicate IsPythonTag(t: string) {
    && |t| == 6
    && LetterIs(t[0], 'p', 'P') && LetterIs(t[1], 'y', 'Y')
    && LetterIs(t[2], 't', 'T') && LetterIs(t[3], 'h', 'H')
    && LetterIs(t[4], 'o', 'O') && LetterIs(t[5], 'n', 'N')
  }

  predicate PythonTagAt(s: string, i: nat) {
    i + 6 <= |s| && IsPythonTag(s[i..i + 6])
  }

  /** The group of the fence pattern at its leftmost match, or None when the
      pattern does not match. The optional tag is taken whenever it is there,
      the leading `\s*` takes all it can, and the lazy body stops at the first
      closing fence; the trailing `\s*` then takes the body's trailing
      whitespace. So the group is the stripped text between the tag and the
      next fence. */
  function FencedBlock(raw: string): Option<string> {
    match FindFence(raw, 0)
    case None => None
    case Some(open) =>
      var bodyStart := if PythonTagAt(raw, open + 3) then open + 9 else open + 3;
      match FindFence(raw, bodyStart)
      case None => None
      case Some(close) => Some(Strip(raw[bodyStart..close]))
  }

  /** The fence pattern matches exactly when the text holds two fences that do
      not overlap. */
  lemma FencedBlockFound(raw: string)
    ensures FencedBlock(raw).Some? <==>
            exists i, j :: FenceAt(raw, i) && FenceAt(raw, j) && i + 3 <= j
  {
    if FencedBlock(raw).Some? {
      var open := FindFence(raw, 0).value;
      var bodyStart := if PythonTagAt(raw, open + 3) then open + 9 else open + 3;
      var close := FindFence(raw, bodyStart).value;
      assert FenceAt(raw, open) && FenceAt(raw, close) && open + 3 <= close;
    }
    if exists i, j :: FenceAt(raw, i) && FenceAt(raw, j) && i + 3 <= j {
      var i, j :| FenceAt(raw, i) && FenceAt(raw, j) && i + 3 <= j;
      TwoFencesMatch(raw, i, j);
    }
  }

  lemma TwoFencesMatch(raw: string, i: nat, j: nat)
    requires FenceAt(raw, i) && FenceAt(raw, j) && i + 3 <= j
    ensures FencedBlock(raw).Some?
  {
    var open := FindFence(raw, 0).value;
    var bodyStart := if PythonTagAt(raw, open + 3) then open + 9 else open + 3;
    BodyStartBefore(raw, open, j);
    assert FindFence(raw, bodyStart).Some?;
  }

  /** A fence after the opening one does not start inside the tag. */
  lemma BodyStartBefore(raw: string, open: nat, j: nat)
    requires FenceAt(raw, j) && open + 3 <= j
    ensures (if PythonTagAt(raw, open + 3) then open + 9 else open + 3) <= j
  {
    if PythonTagAt(raw, open + 3) {
      TagHasNoBacktick(raw[open + 3..open + 9]);
      assert forall k :: open + 3 <= k < open + 9 ==> raw[k] == raw[open + 3..open + 9][k - open - 3];
    }
  }

  lemma TagHasNoBacktick(t: string)
    requires IsPythonTag(t)
    ensures NoBacktick(t)
  {
  }

  // A text with no backtick in it: nothing inside it can close a fence.
  predicate NoBacktick(s: string) {
    forall k :: 0 <= k < |s| ==> s[k] != '`'
  }

  /** No triple backtick anywhere in `s`. */
  predicate NoFence(s: string) {
    forall k :: 0 <= k < |s| ==> !FenceAt(s, k)
  }

  predicate EndsWithBacktick(s: string) {
    s != [] && s[|s| - 1] == '`'
  }

  /** Text before an opening fence that holds no fence and does not end with
      a backtick lets the search reach that opening fence. */
  lemma NoFenceBefore(pre: string, a: string, raw: string)
    requires raw == pre + a && NoFence(pre) && !EndsWithBacktick(pre)
    ensures forall k :: 0 <= k < |pre| ==> !FenceAt(raw, k)
  {
    forall k | 0 <= k < |pre| ensures !FenceAt(raw, k) {
      if k + 3 <= |pre| {
        assert !FenceAt(pre, k);
        assert raw[k] == pre[k] && raw[k + 1] == pre[k + 1] && raw[k + 2] == pre[k + 2];
      } else {
        assert raw[|pre| - 1] == pre[|pre| - 1];
      }
    }
  }

  /** A script wrapped in a fence: text before, the opening fence, a tag,
      whitespace, the script, whitespace, the closing fence, text after. */
  function Fenced(pre: string, tag: string, lead: string, body: string, trail: string, post: string): string {
    pre + ("```" + (tag + (lead + (body + (trail + ("```" + post))))))
  }

  /** Wrapping a script in a fence, with an optional `python` tag in any case
      and any whitespace around it, and extracting it again gives the script
      back: the fenced block is exactly what stands between the tag and the
      closing fence, stripped. The text before the fence and the script may
      quote names in single backticks; neither holds a triple backtick, the
      text before does not end with a backtick, and the script does not end
      with one unless whitespace follows it. */
  lemma FencedBlockOfWrapped(
    pre: string, tag: string, lead: string, body: string, trail: string, post: string)
    requires NoFence(pre) && !EndsWithBacktick(pre)
    requires NoFence(body) && (trail == "" ==> !EndsWithBacktick(body))
    requires tag == "" || IsPythonTag(tag)
    requires AllSpace(lead) && AllSpace(trail) && IsStripped(body)
    requires tag == "" ==> !PythonTagAt(lead + (body + (trail + ("```" + post))), 0)
    ensures FencedBlock(Fenced(pre, tag, lead, body, trail, post)) == Some(body)
  {
    var tail := "```" + post;
    var c := lead + (body + (trail + tail));
    var b := tag + c;
    var a := "```" + b;
    var raw := pre + a;
    assert raw == Fenced(pre, tag, lead, body, trail, post);
    var open := |pre|;
    assert FindFence(raw, 0) == Some(open) by {
      assert raw[open] == a[0] && raw[open + 1] == a[1] && raw[open + 2] == a[2];
      NoFenceBefore(pre, a, raw);
      FindFenceIs(raw, 0, open);
    }
    assert raw[open + 3..] == b by {
      assert raw[open..] == a;
      assert a[3..] == b;
      DropDrop(raw, open, 3);
    }
    var bodyStart := open + 3 + |tag|;
    var close := bodyStart + |lead| + |body| + |trail|;
    WrappedAfterOpen(raw, open, tag, lead, body, trail, tail, bodyStart, close);
    FencedBlockAt(raw, open, bodyStart, close);
  }

  /** Names quoted in single backticks before the fence and inside the script
      do not disturb the extraction. */
  lemma FencedBlockQuotedExample()
    ensures FencedBlock("Use `id`:\n```\n# see `id`\n```") == Some("# see `id`")
  {
    var pre := "Use `id`:\n";
    var body := "# see `id`";
    QuotedTextHasNoFence(pre);
    QuotedTextHasNoFence(body);
    var rest := "\n" + (body + ("\n" + ("```" + "")));
    assert rest[0] == '\n';
    FencedBlockOf("Use `id`:\n```\n# see `id`\n```", pre, "", "\n", body, "\n", "");
  }

  /** FencedBlockOfWrapped, for a text known to be the wrapped script. */
  lemma FencedBlockOf(
    raw: string, pre: string, tag: string, lead: string, body: string, trail: string, post: string)
    requires raw == Fenced(pre, tag, lead, body, trail, post)
    requires NoFence(pre) && !EndsWithBacktick(pre)
    requires NoFence(body) && (trail == "" ==> !EndsWithBacktick(body))
    requires tag == "" || IsPythonTag(tag)
    requires AllSpace(lead) && AllSpace(trail) && IsStripped(body)
    requires tag == "" ==> !PythonTagAt(lead + (body + (trail + ("```" + post))), 0)
    ensures FencedBlock(raw) == Some(body)
  {
    FencedBlockOfWrapped(pre, tag, lead, body, trail, post);
  }

  /** Without a tag, a script whose first six letters spell `python` in any
      case loses them: the optional tag of the pattern takes them. */
  lemma FencedBlockUntaggedPythonExample()
    ensures FencedBlock("```python_x = 1```") == Some("_x = 1")
  {
    ScriptHasNoFence("_x = 1");
    FencedBlockOf("```python_x = 1```", "", "python", "", "_x = 1", "", "");
  }

  lemma ScriptHasNoFence(t: string)
    requires t == "_x = 1"
    ensures NoFence(t) && !EndsWithBacktick(t) && IsStripped(t)
  {
  }

  /** A name quoted in single backticks, with text around it. */
  lemma QuotedTextHasNoFence(t: string)
    requires t == "Use `id`:\n" || t == "# see `id`"
    ensures NoFence(t) && IsStripped(t[..|t| - 1])
  {
  }

  /** A `#` alone on its line and `FIX:` at the start of the next line form one
      match, since `\s` crosses the line break; the match then runs to the end
      of that next line, trailing comment included. */
  lemma FixAcrossLineBreakExample()
    ensures FixComments("#\nFIX: a  # FIX: b") == ["#\nFIX: a  # FIX: b"]
  {
    var s := "#\nFIX: a  # FIX: b";
    AcrossLineBreakSpans(s);
    assert s[0..|s|] == s;
  }

  lemma AcrossLineBreakSpans(s: string)
    requires s == "#\nFIX: a  # FIX: b"
    ensures FixSpans(s, 0) == [(0, |s|)]
  {
    SkipSpacesIs(s, 0, 0);
    assert IsSpace(s[1]) && !IsSpace(s[2]);
    SkipSpacesIs(s, 1, 2);
    LineEndIs(s, 6, |s|);
    FixMatchAtIs(s, 0, 0, 2, |s|);
    assert FixSpans(s, |s|) == [];
  }

  /** After the opening fence of a wrapped script, the regex takes the
      written tag, and closes at the wrapper's closing fence around the script. */
  lemma WrappedAfterOpen(
    raw: string, open: nat, tag: string, lead: string, body: string, trail: string, tail: string,
    bodyStart: nat, close: nat)
    requires open + 3 <= |raw| && raw[open + 3..] == tag + (lead + (body + (trail + tail)))
    requires tag == "" || IsPythonTag(tag)
    requires tag == "" ==> !PythonTagAt(lead + (body + (trail + tail)), 0)
    requires AllSpace(lead) && AllSpace(trail) && IsStripped(body)
    requires NoFence(body) && (trail == "" ==> !EndsWithBacktick(body))
    requires StartsWith(tail, "```")
    requires bodyStart == open + 3 + |tag| && close == bodyStart + |lead| + |body| + |trail|
    ensures bodyStart == (if PythonTagAt(raw, open + 3) then open + 9 else open + 3)
    ensures FindFence(raw, bodyStart) == Some(close)
    ensures Strip(raw[bodyStart..close]) == body
  {
    TagAt(raw, open + 3, tag, lead + (body + (trail + tail)));
    WrappedAt(raw, bodyStart, lead, body, trail, tail, close);
  }

  /** The tag the regex takes after an opening fence is the one written there. */
  lemma TagAt(s: string, i: nat, tag: string, c: string)
    requires i <= |s| && s[i..] == tag + c
    requires tag == "" || IsPythonTag(tag)
    requires tag == "" ==> !PythonTagAt(c, 0)
    ensures (if PythonTagAt(s, i) then i + 6 else i) == i + |tag|
    ensures s[i + |tag|..] == c
  {
    PythonTagAtShift(s, i);
    PythonTagChoice(tag, c);
    assert (tag + c)[|tag|..] == c;
    DropDrop(s, i, |tag|);
  }

  /** Where a wrapped script starts at `i`, the next fence closes it and the
      stripped text before that fence is the script. */
  lemma WrappedAt(s: string, i: nat, lead: string, body: string, trail: string, tail: string, j: nat)
    requires i <= |s| && s[i..] == lead + (body + (trail + tail))
    requires AllSpace(lead) && AllSpace(trail) && IsStripped(body)
    requires NoFence(body) && (trail == "" ==> !EndsWithBacktick(body))
    requires StartsWith(tail, "```") && j == i + |lead| + |body| + |trail|
    ensures FindFence(s, i) == Some(j)
    ensures Strip(s[i..j]) == body
  {
    var c := s[i..];
    var n := j - i;
    WrappedMiddle(c, lead, body, trail, tail, n);
    FindFenceIs(c, 0, n);
    FindFenceAfter(s, i, c, n);
    WrappedStrip(s, i, j, lead, body, trail);
  }

  lemma FindFenceAfter(s: string, i: nat, c: string, n: nat)
    requires i <= |s| && s[i..] == c && FindFence(c, 0) == Some(n)
    ensures FindFence(s, i) == Some(i + n)
  {
    FindFenceShift(s, i);
  }

  lemma WrappedStrip(s: string, i: nat, j: nat, lead: string, body: string, trail: string)
    requires i <= j <= |s| && s[i..][..j - i] == lead + body + trail
    requires AllSpace(lead) && AllSpace(trail) && IsStripped(body)
    ensures Strip(s[i..j]) == body
  {
    assert s[i..j] == s[i..][..j - i];
    StripUnique(lead, body, trail);
  }

  lemma FencedBlockAt(raw: string, open: nat, bodyStart: nat, close: nat)
    requires FindFence(raw, 0) == Some(open)
    requires bodyStart == if PythonTagAt(raw, open + 3) then open + 9 else open + 3
    requires FindFence(raw, bodyStart) == Some(close)
    ensures FencedBlock(raw) == Some(Strip(raw[bodyStart..close]))
  {
  }

  /** What lies between the tag and the closing fence of a wrapped script. */
  lemma WrappedMiddle(c: string, lead: string, body: string, trail: string, tail: string, n: nat)
    requires c == lead + (body + (trail + tail)) && n == |lead| + |body| + |trail|
    requires AllSpace(lead) && AllSpace(trail) && StartsWith(tail, "```")
    requires NoFence(body) && (trail == "" ==> !EndsWithBacktick(body))
    ensures c[..n] == lead + body + trail
    ensures forall k :: 0 <= k < n ==> !FenceAt(c, k)
    ensures FenceAt(c, n)
  {
    assert c == (lead + body + trail) + tail;
    forall k | 0 <= k < n ensures !FenceAt(c, k) {
      NoFenceInMiddle(c, lead, body, trail, n, k);
    }
    assert c[n..n + 3] == tail[..3];
  }

  /** No fence starts at `k` inside the whitespace, the script and the
      whitespace in front of the closing fence. */
  lemma NoFenceInMiddle(c: string, lead: string, body: string, trail: string, n: nat, k: nat)
    requires n == |lead| + |body| + |trail| <= |c| && c[..n] == lead + body + trail && k < n
    requires AllSpace(lead) && AllSpace(trail)
    requires NoFence(body) && (trail == "" ==> !EndsWithBacktick(body))
    ensures !FenceAt(c, k)
  {
    var m := |lead| + |body|;
    assert c[k] == c[..n][k];
    if k < |lead| {
      assert c[k] == lead[k];
    } else if k + 3 <= m {
      var i := k - |lead|;
      assert !FenceAt(body, i);
      assert c[k + 1] == c[..n][k + 1] && c[k + 2] == c[..n][k + 2];
      assert c[k] == body[i] && c[k + 1] == body[i + 1] && c[k + 2] == body[i + 2];
    } else if k < m {
      if trail == "" {
        assert c[m - 1] == c[..n][m - 1] == body[|body| - 1];
      } else {
        assert c[m] == c[..n][m] == trail[0];
      }
    } else {
      assert c[k] == trail[k - m];
    }
  }

  /** Searching from `i` is searching the suffix that starts at `i`. */
  lemma {:induction false} FindFenceShift(s: string, i: nat)
    requires i <= |s|
    ensures FindFence(s, i) == match FindFence(s[i..], 0)
                               case None => None
                               case Some(x) => Some(x + i)
  {
    match FindFence(s[i..], 0)
    case None =>
      forall k | i <= k ensures !FenceAt(s, k) {
        assert FenceAt(s, k) ==> FenceAt(s[i..], k - i);
      }
      assert FindFence(s, i) == None by {
        FindFenceNone(s, i);
      }
    case Some(x) =>
      assert FenceAt(s, x + i) by {
        assert s[x + i] == s[i..][x] && s[x + i + 1] == s[i..][x + 1] && s[x + i + 2] == s[i..][x + 2];
      }
      forall k | i <= k < x + i ensures !FenceAt(s, k) {
        assert FenceAt(s, k) ==> FenceAt(s[i..], k - i);
      }
      FindFenceIs(s, i, x + i);
  }

  lemma {:induction false} FindFenceNone(s: string, from: nat)
    requires forall k :: from <= k ==> !FenceAt(s, k)
    ensures FindFence(s, from) == None
    decreases |s| - from
  {
    if from + 3 <= |s| {
      FindFenceNone(s, from + 1);
    }
  }

  lemma DropDrop(s: string, m: nat, n: nat)
    requires m + n <= |s|
    ensures s[m + n..] == s[m..][n..]
  {
  }

  lemma PythonTagAtShift(s: string, i: nat)
    requires i <= |s|
    ensures PythonTagAt(s, i) <==> PythonTagAt(s[i..], 0)
  {
    assert i + 6 <= |s| ==> s[i..i + 6] == s[i..][..6];
  }

  /** The regex takes the tag exactly when the wrapper put one there. */
  lemma PythonTagChoice(tag: string, rest: string)
    requires tag == "" || IsPythonTag(tag)
    requires tag == "" ==> !PythonTagAt(rest, 0)
    ensures PythonTagAt(tag + rest, 0) <==> tag != ""
  {
    assert tag != "" ==> (tag + rest)[..6] == tag;
  }

  /** FindFence returns the first fence at or after `from`, whichever way it was found. */
  lemma {:induction false} FindFenceIs(s: string, from: nat, at: nat)
    requires from <= at && FenceAt(s, at)
    requires forall k :: from <= k < at ==> !FenceAt(s, k)
    ensures FindFence(s, from) == Some(at)
    decreases at - from
  {
    if from < at {
      FindFenceIs(s, from + 1, at);
    }
  }

  // ---------------------------------------------------------------------
  // Fallback: the first line matching r'^\s*(import|from|def|class|driver|#)'

  const CodeKeywords: seq<string> := ["import", "from", "def", "class", "driver", "#"]

  /** After its indentation the line starts with one of the keywords. The match
      is on a prefix only, so `important` and `definitely` qualify as well. */
  predicate LooksLikeCode(line: string) {
    exists kw :: kw in CodeKeywords && StartsWith(LStrip(line), kw)
  }

  /** Whitespace indentation does not change whether a line looks like code. */
  lemma LooksLikeCodeIgnoresIndent(ws: string, line: string)
    requires AllSpace(ws)
    ensures LooksLikeCode(ws + line) <==> LooksLikeCode(line)
  {
    LStripOverSpace(ws, line);
  }

  /** A line starting `driver` qualifies; so does one that merely starts
      with a keyword's letters, such as `important`; an assignment does not.
      LooksLikeCodeIgnoresIndent extends this to indented lines. */
  lemma LooksLikeCodeExample()
    ensures LooksLikeCode("driver.quit()")
    ensures LooksLikeCode("important = 1")
    ensures !LooksLikeCode("x = 1")
  {
    KeywordLine("driver.quit()", "driver");
    KeywordLine("important = 1", "import");
    NoKeywordAtStart("x = 1");
  }

  lemma KeywordLine(line: string, kw: string)
    requires line != [] && !IsSpace(line[0])
    requires kw in CodeKeywords && StartsWith(line, kw)
    ensures LooksLikeCode(line)
  {
    LeadingSpacesIs(line, 0);
  }

  lemma NoKeywordAtStart(line: string)
    requires line != [] && !IsSpace(line[0])
    requires line[0] != 'i' && line[0] != 'f' && line[0] != 'd' && line[0] != 'c' && line[0] != '#'
    ensures !LooksLikeCode(line)
  {
    LeadingSpacesIs(line, 0);
    forall kw | kw in CodeKeywords ensures !StartsWith(line, kw) {
      assert kw[0] in {'i', 'f', 'd', 'c', '#'};
    }
  }

  /** The index of the first line at or after `from` that looks like code, or |lines|. */
  function NextCodeLine(lines: seq<string>, from: nat): (k: nat)
    requires from <= |lines|
    ensures from <= k <= |lines|
    ensures k < |lines| ==> LooksLikeCode(lines[k])
    ensures forall j :: from <= j < k ==> !LooksLikeCode(lines[j])
    decreases |lines| - from
  {
    if from == |lines| then from
    else if LooksLikeCode(lines[from]) then from
    else NextCodeLine(lines, from + 1)
  }

  /** `start_index` after the scan: the first line that looks like code, or 0 when none does. */
  function StartIndex(lines: seq<string>): nat {
    var k := NextCodeLine(lines, 0);
    if k < |lines| then k else 0
  }

  /** The scanning loop of main.py: stop at the first line that looks like
      code, keep 0 when no line does. */
  method FindStartIndex(lines: seq<string>) returns (startIndex: nat)
    ensures startIndex == StartIndex(lines)
    ensures (startIndex < |lines| && LooksLikeCode(lines[startIndex])) ||
            (startIndex == 0 && forall j :: 0 <= j < |lines| ==> !LooksLikeCode(lines[j]))
    ensures forall j :: 0 <= j < startIndex ==> !LooksLikeCode(lines[j])
  {
    startIndex := 0;
    var i := 0;
    while i < |lines|
      invariant 0 <= i <= |lines|
      invariant forall j :: 0 <= j < i ==> !LooksLikeCode(lines[j])
      invariant startIndex == 0
    {
      if LooksLikeCode(lines[i]) {
        startIndex := i;
        break;
      }
      i := i + 1;
    }
    assert i < |lines| ==> NextCodeLine(lines, 0) == i by {
      if i < |lines| { NextCodeLineIs(lines, 0, i); }
    }
    assert i == |lines| ==> NextCodeLine(lines, 0) == |lines| by {
      if i == |lines| { NextCodeLineIs(lines, 0, i); }
    }
  }

  lemma {:induction false} NextCodeLineIs(lines: seq<string>, from: nat, at: nat)
    requires from <= at <= |lines|
    requires at < |lines| ==> LooksLikeCode(lines[at])
    requires forall j :: from <= j < at ==> !LooksLikeCode(lines[j])
    ensures NextCodeLine(lines, from) == at
    decreases at - from
  {
    if from < at {
      NextCodeLineIs(lines, from + 1, at);
    }
  }

  /** The fallback candidate: the lines from `start_index` on, joined and stripped. */
  function FallbackCandidate(raw: string): string {
    var lines := SplitLines(raw);
    Strip(JoinLines(lines[StartIndex(lines)..]))
  }

  /** The candidate script of one response (main.py lines 79-90), computed on
      the response already stripped. */
  function Candidate(raw: string): string {
    match FencedBlock(raw)
    case Some(block) => block
    case None => FallbackCandidate(raw)
  }

  /** Lines 79-90 as main.py runs them: the fence search, and otherwise the
      scan for the first line that looks like code. */
  method ExtractCandidate(raw: string) returns (candidate: string)
    ensures candidate == Candidate(raw)
    ensures IsStripped(candidate)
  {
    CandidateStripped(raw);
    match FencedBlock(raw)
    case Some(block) =>
      candidate := block;
    case None =>
      var lines := SplitLines(raw);
      var startIndex := FindStartIndex(lines);
      candidate := Strip(JoinLines(lines[startIndex..]));
  }

  /** Both ways of cutting a candidate leave no whitespace at either end. */
  lemma CandidateStripped(raw: string)
    ensures IsStripped(Candidate(raw))
  {
    match FencedBlock(raw)
    case Some(_) =>
      var open := FindFence(raw, 0).value;
      var bodyStart := if PythonTagAt(raw, open + 3) then open + 9 else open + 3;
      StripSplits(raw[bodyStart..FindFence(raw, bodyStart).value]);
    case None =>
      var lines := SplitLines(raw);
      StripSplits(JoinLines(lines[StartIndex(lines)..]));
  }

  lemma KeywordsStripped()
    ensures forall kw :: kw in CodeKeywords ==> kw != [] && IsStripped(kw)
  {
  }

  /** Without a fence, the candidate starts at the first line that looks like
      code, and it itself starts with the keyword that line starts with. */
  lemma FallbackStartsAtCodeLine(raw: string, k: nat)
    requires FencedBlock(raw).None?
    requires k < |SplitLines(raw)| && LooksLikeCode(SplitLines(raw)[k])
    requires forall j :: 0 <= j < k ==> !LooksLikeCode(SplitLines(raw)[j])
    ensures Candidate(raw) == Strip(JoinLines(SplitLines(raw)[k..]))
    ensures LooksLikeCode(Candidate(raw))
  {
    var lines := SplitLines(raw);
    NextCodeLineIs(lines, 0, k);
    JoinStartsWithFirst(lines[k..]);
    StripOfCodeStart(JoinLines(lines[k..]), lines[k]);
  }

  /** A text that starts with a line that looks like code still looks like
      code after `strip`. */
  lemma StripOfCodeStart(joined: string, line: string)
    requires StartsWith(joined, line) && LooksLikeCode(line)
    ensures LooksLikeCode(Strip(joined))
  {
    var kw :| kw in CodeKeywords && StartsWith(LStrip(line), kw);
    KeywordsStripped();
    LStripKeepsPrefix(joined, line, kw);
    var t := LStrip(joined);
    StripKeepsPrefix(t, kw);
    LStripIdempotent(joined);
    var c := Strip(joined);
    assert c == Strip(t);
    assert c[0] == kw[0];
    LeadingSpacesIs(c, 0);
    assert LStrip(c) == c;
    assert kw in CodeKeywords && StartsWith(LStrip(c), kw);
  }

  /** When `x` starts with `line`, whose text after its indentation starts with
      `w`, then `x` after its indentation starts with `w` too. */
  lemma LStripKeepsPrefix(x: string, line: string, w: string)
    requires StartsWith(x, line) && StartsWith(LStrip(line), w) && w != [] && !IsSpace(w[0])
    ensures StartsWith(LStrip(x), w)
  {
    var i := LeadingSpaces(line);
    SkipSpacesSkipsSpaces(line, 0);
    assert LStrip(line) == line[i..];
    assert x[..i] == line[..i] && x[i] == line[i];
    LeadingSpacesIs(x, i);
    assert i + |w| <= |line|;
    assert forall k :: 0 <= k < |w| ==> LStrip(x)[k] == x[i + k] == line[i + k] == LStrip(line)[k];
    assert LStrip(x)[..|w|] == LStrip(line)[..|w|];
  }

  lemma LStripIdempotent(x: string)
    ensures Strip(LStrip(x)) == Strip(x)
  {
    StripSplits(x);
    var i := LeadingSpaces(x);
    var m := Strip(x);
    var b := x[i + |m|..];
    assert LStrip(x) == [] + m + b;
    StripUnique([], m, b);
  }

  lemma JoinStartsWithFirst(lines: seq<string>)
    requires lines != []
    ensures StartsWith(JoinLines(lines), lines[0])
  {
  }

  /** Without a fence and without any line that looks like code, the candidate
      is the whole response, stripped. */
  lemma FallbackWholeResponse(raw: string)
    requires FencedBlock(raw).None?
    requires forall j :: 0 <= j < |SplitLines(raw)| ==> !LooksLikeCode(SplitLines(raw)[j])
    ensures Candidate(raw) == Strip(raw)
  {
    var lines := SplitLines(raw);
    NextCodeLineIs(lines, 0, |lines|);
    assert lines[0..] == lines;
    JoinSplitLines(raw);
    if raw != [] && raw[|raw| - 1] == '\n' {
      StripDropLastSpace(raw);
    }
  }

  // ---------------------------------------------------------------------
  // The fix log: re.findall(r"^\s*#\s*FIX:.*", code, re.MULTILINE)

  /** `^` under re.MULTILINE: the start of the text or just after a '\n'. */
  predicate LineStart(s: string, p: nat) {
    p == 0 || (p <= |s| && s[p - 1] == '\n')
  }

  /** The four characters `FIX:` start at `f`. */
  predicate FixTagAt(s: string, f: nat) {
    f + 4 <= |s| && s[f] == 'F' && s[f + 1] == 'I' && s[f + 2] == 'X' && s[f + 3] == ':'
  }

  /** Where the pattern's match from `p` ends, if it matches there. `\s` also
      matches '\n', so the whitespace before `#` (and between `#` and `FIX:`)
      may run over line breaks; `.*` stops at the next '\n'. */
  function FixMatchAt(s: string, p: nat): (e: Option<nat>)
    requires p <= |s|
    ensures e.Some? ==> p < e.value <= |s|
  {
    var h := SkipSpaces(s, p);
    if h < |s| && s[h] == '#' then
      var f := SkipSpaces(s, h + 1);
      if FixTagAt(s, f) then Some(LineEnd(s, f + 4)) else None
    else None
  }

  /** The spans `findall` reports scanning from `p`: it tries each position in
      turn and goes on from the end of each match. */
  function FixSpans(s: string, p: nat): (spans: seq<(nat, nat)>)
    requires p <= |s|
    ensures forall k :: 0 <= k < |spans| ==> p <= spans[k].0 < spans[k].1 <= |s|
    ensures forall k :: 0 < k < |spans| ==> spans[k - 1].1 <= spans[k].0
    decreases |s| - p
  {
    if p == |s| then []
    else if LineStart(s, p) && FixMatchAt(s, p).Some? then
      var e := FixMatchAt(s, p).value;
      [(p, e)] + FixSpans(s, e)
    else FixSpans(s, p + 1)
  }

  /** Every reported span is a match of the pattern from a line start. */
  lemma {:induction false} FixSpansSound(s: string, p: nat)
    requires p <= |s|
    ensures forall k :: 0 <= k < |FixSpans(s, p)| ==>
              LineStart(s, FixSpans(s, p)[k].0) && FixMatchAt(s, FixSpans(s, p)[k].0) == Some(FixSpans(s, p)[k].1)
    decreases |s| - p
  {
    if p < |s| {
      if LineStart(s, p) && FixMatchAt(s, p).Some? {
        var e := FixMatchAt(s, p).value;
        FixSpansSound(s, e);
        var rest := FixSpans(s, e);
        assert FixSpans(s, p) == [(p, e)] + rest;
        assert forall k :: 0 < k < |FixSpans(s, p)| ==> FixSpans(s, p)[k] == rest[k - 1];
      } else {
        FixSpansSound(s, p + 1);
      }
    }
  }

  /** `fix_comments`: the matched texts, in order. */
  function FixComments(s: string): (comments: seq<string>) {
    var spans := FixSpans(s, 0);
    seq(|spans|, k requires 0 <= k < |spans| => s[spans[k].0..spans[k].1])
  }

  /** Position `q` lies inside one of the spans. */
  predicate Covered(spans: seq<(nat, nat)>, q: nat) {
    exists k :: 0 <= k < |spans| && spans[k].0 <= q < spans[k].1
  }

  /** No match is missed: every line start from which the pattern matches lies
      inside one of the reported spans. */
  lemma {:induction false} FixSpansComplete(s: string, p: nat, q: nat)
    requires p <= q < |s| && LineStart(s, q) && FixMatchAt(s, q).Some?
    ensures Covered(FixSpans(s, p), q)
    decreases |s| - p
  {
    if LineStart(s, p) && FixMatchAt(s, p).Some? {
      var e := FixMatchAt(s, p).value;
      var rest := FixSpans(s, e);
      assert FixSpans(s, p) == [(p, e)] + rest;
      if q < e {
        assert ([(p, e)] + rest)[0] == (p, e);
      } else {
        FixSpansComplete(s, e, q);
        CoveredCons((p, e), rest, q);
      }
    } else {
      assert p != q;
      FixSpansComplete(s, p + 1, q);
    }
  }

  lemma CoveredCons(x: (nat, nat), rest: seq<(nat, nat)>, q: nat)
    requires Covered(rest, q)
    ensures Covered([x] + rest, q)
  {
    var k :| 0 <= k < |rest| && rest[k].0 <= q < rest[k].1;
    assert ([x] + rest)[k + 1] == rest[k];
  }

  /** One line of the script, from `p` up to its line break. */
  function LineAt(s: string, p: nat): string
    requires p <= |s|
  {
    s[p..LineEnd(s, p)]
  }

  /** A whole-line fix comment: indentation, `#`, optional whitespace, `FIX:`. */
  predicate IsFixLine(line: string) {
    var t := LStrip(line);
    t != [] && t[0] == '#' && FixTagAt(LStrip(t[1..]), 0)
  }

  /** The indentation of a piece of the text is the whitespace run where the
      piece starts, when that run ends inside the piece. */
  lemma LeadingSpacesOfSlice(s: string, p: nat, e: nat)
    requires p <= e <= |s| && SkipSpaces(s, p) < e
    ensures LeadingSpaces(s[p..e]) == SkipSpaces(s, p) - p
    ensures s[p..e][SkipSpaces(s, p) - p..] == s[SkipSpaces(s, p)..e]
  {
    var c := s[p..e];
    var q := SkipSpaces(s, p);
    SkipSpacesSkipsSpaces(s, p);
    assert forall k :: 0 <= k <= q - p ==> c[k] == s[p + k];
    LeadingSpacesIs(c, q - p);
  }

  /** The converse of LeadingSpacesOfSlice: a piece that is not all whitespace
      tells where the whitespace run from its start ends. */
  lemma SkipSpacesOfSlice(s: string, p: nat, e: nat)
    requires p <= e <= |s| && LeadingSpaces(s[p..e]) < e - p
    ensures SkipSpaces(s, p) == p + LeadingSpaces(s[p..e])
    ensures s[p..e][LeadingSpaces(s[p..e])..] == s[SkipSpaces(s, p)..e]
  {
    var c := s[p..e];
    var i := LeadingSpaces(c);
    SkipSpacesSkipsSpaces(c, 0);
    assert forall k :: 0 <= k <= i ==> c[k] == s[p + k];
    SkipSpacesIs(s, p, p + i);
  }

  lemma FixTagOfSlice(s: string, a: nat, b: nat)
    requires a <= b <= |s| && FixTagAt(s[a..b], 0)
    ensures a + 4 <= b && FixTagAt(s, a)
  {
    assert s[a..b][0] == s[a] && s[a..b][1] == s[a + 1] && s[a..b][2] == s[a + 2] && s[a..b][3] == s[a + 3];
  }

  /** The landmarks of a whole-line fix comment, found in the text itself. */
  lemma FixLineLandmarks(s: string, p: nat, n: nat, h: nat)
    requires p <= |s| && n == LineEnd(s, p) && IsFixLine(s[p..n]) && h == SkipSpaces(s, p)
    ensures h < n && s[h] == '#'
    ensures SkipSpaces(s, h + 1) + 4 <= n && FixTagAt(s, SkipSpaces(s, h + 1))
  {
    var t := LStrip(s[p..n]);
    StrippedLineAt(s, p, n, h, t);
    FixTagAfterStrippedHash(s, h, n, t);
  }

  /** The `FIX:` after the `#` of a line's stripped text, found in the text. */
  lemma FixTagAfterStrippedHash(s: string, h: nat, n: nat, t: string)
    requires h < n <= |s| && t == s[h..n] && FixTagAt(LStrip(t[1..]), 0)
    ensures SkipSpaces(s, h + 1) + 4 <= n && FixTagAt(s, SkipSpaces(s, h + 1))
  {
    assert t[1..] == s[h + 1..n];
    FixTagAfterHash(s, h + 1, n);
  }

  /** Without its indentation, a line with some non-blank text is the text
      from the end of the whitespace run on. */
  lemma StrippedLineAt(s: string, p: nat, n: nat, h: nat, t: string)
    requires p <= n <= |s| && h == SkipSpaces(s, p) && t == LStrip(s[p..n]) && t != []
    ensures h < n && t == s[h..n]
  {
    SkipSpacesOfSlice(s, p, n);
  }

  /** The `FIX:` of a whole-line fix comment, found in the text itself. */
  lemma FixTagAfterHash(s: string, a: nat, n: nat)
    requires a <= n <= |s| && FixTagAt(LStrip(s[a..n]), 0)
    ensures SkipSpaces(s, a) + 4 <= n && FixTagAt(s, SkipSpaces(s, a))
  {
    SkipSpacesOfSlice(s, a, n);
    FixTagOfSlice(s, SkipSpaces(s, a), n);
  }

  /** A whole-line fix comment is matched from its line start, and the match is
      exactly that line. */
  lemma FixLineMatches(s: string, p: nat)
    requires p <= |s| && IsFixLine(LineAt(s, p))
    ensures FixMatchAt(s, p) == Some(LineEnd(s, p))
  {
    var n := LineEnd(s, p);
    var h := SkipSpaces(s, p);
    FixLineLandmarks(s, p, n, h);
    var f := SkipSpaces(s, h + 1);
    FixLineMatchesAt(s, p, n, h, f);
  }

  /** The match from a line start whose `#` and `FIX:` lie inside the line. */
  lemma FixLineMatchesAt(s: string, p: nat, n: nat, h: nat, f: nat)
    requires p <= |s| && n == LineEnd(s, p) && h == SkipSpaces(s, p) && h < n && s[h] == '#'
    requires f == SkipSpaces(s, h + 1) && f + 4 <= n && FixTagAt(s, f)
    ensures FixMatchAt(s, p) == Some(n)
  {
    LineEndInside(s, p, f + 4);
    FixMatchAtIs(s, p, h, f, n);
  }

  /** The match from `p` spelled out by its landmarks: the `#` and the `FIX:`. */
  lemma FixMatchAtIs(s: string, p: nat, h: nat, f: nat, e: nat)
    requires p <= |s| && h == SkipSpaces(s, p) && h < |s| && s[h] == '#'
    requires f == SkipSpaces(s, h + 1) && FixTagAt(s, f) && e == LineEnd(s, f + 4)
    ensures FixMatchAt(s, p) == Some(e)
  {
  }

  /** A comment that follows code on the same line is not a fix comment: when
      the first non-blank character of a line is not `#`, nothing matches from
      that line's start. */
  lemma InlineCommentNotMatched(s: string, p: nat)
    requires p <= |s|
    requires var line := LineAt(s, p); LeadingSpaces(line) < |line| && line[LeadingSpaces(line)] != '#'
    ensures FixMatchAt(s, p) == None
  {
    var line := LineAt(s, p);
    var i := LeadingSpaces(line);
    SkipSpacesSkipsSpaces(line, 0);
    assert forall k :: 0 <= k <= i ==> line[k] == s[p + k];
    SkipSpacesIs(s, p, p + i);
  }

  /** A line of code stays out of the log: when the first non-blank character
      of the line that starts at `p` is not `#`, and the line does not start
      with `FIX:` either, no reported match overlaps that line. So a trailing
      `# FIX:` comment after code on that line is not listed. */
  lemma InlineCommentNotListed(s: string, p: nat)
    requires p <= |s| && LineStart(s, p)
    requires var g := SkipSpaces(s, p); g < LineEnd(s, p) && s[g] != '#' && !FixTagAt(s, g)
    ensures forall k :: 0 <= k < |FixSpans(s, 0)| ==>
              FixSpans(s, 0)[k].1 <= p || LineEnd(s, p) <= FixSpans(s, 0)[k].0
  {
    var spans := FixSpans(s, 0);
    FixSpansSound(s, 0);
    forall k | 0 <= k < |spans| ensures spans[k].1 <= p || LineEnd(s, p) <= spans[k].0 {
      MatchAvoidsLine(s, p, spans[k].0, spans[k].1);
    }
  }

  /** A match from any line start ends before such a line or starts after it. */
  lemma MatchAvoidsLine(s: string, p: nat, q: nat, e: nat)
    requires p <= |s| && LineStart(s, p)
    requires var g := SkipSpaces(s, p); g < LineEnd(s, p) && s[g] != '#' && !FixTagAt(s, g)
    requires q <= |s| && LineStart(s, q) && FixMatchAt(s, q) == Some(e)
    ensures e <= p || LineEnd(s, p) <= q
  {
    if q == p {
      assert false;
    } else if p < q {
      LineEndNoBreak(s, p);
    } else {
      var h := SkipSpaces(s, q);
      FixMatchLandmarks(s, q, e, h);
      var f := SkipSpaces(s, h + 1);
      EarlierMatchEnds(s, p, SkipSpaces(s, p), q, h, f, e);
    }
  }

  /** A match from an earlier line start cannot run into the line: its `#`
      and its `FIX:` both lie before the line, and so does its end. */
  lemma EarlierMatchEnds(s: string, p: nat, g: nat, q: nat, h: nat, f: nat, e: nat)
    requires q < p <= |s| && LineStart(s, p)
    requires g == SkipSpaces(s, p) && g < |s| && s[g] != '#' && !FixTagAt(s, g)
    requires h == SkipSpaces(s, q) && h < |s| && s[h] == '#'
    requires f == SkipSpaces(s, h + 1) && FixTagAt(s, f) && e == LineEnd(s, f + 4)
    ensures e <= p
  {
    SkipSpacesSkipsSpaces(s, q);
    SkipSpacesSkipsSpaces(s, p);
    assert h < p;
    SkipSpacesSkipsSpaces(s, h + 1);
    assert f < p;
    assert s[p - 1] == '\n';
    assert f + 4 <= p - 1;
    LineEndNoBreak(s, f + 4);
  }

  // ---------------------------------------------------------------------
  // Printing the log: `comment[2:].strip()`

  /** The entry main.py prints for a matched comment. */
  function FixEntryAsWritten(comment: string): string {
    if |comment| < 2 then "" else Strip(comment[2..])
  }

  /** `comment[2:]` is written for a comment that starts with "# ": for a match that
      starts at its `#` with `FIX:` right behind it, the printed entry has
      lost the F of FIX. */
  lemma FixEntryAsWrittenDropsLetter(s: string, p: nat, e: nat)
    requires p < |s| && s[p] == '#' && FixTagAt(s, p + 1) && FixMatchAt(s, p) == Some(e)
    ensures StartsWith(FixEntryAsWritten(s[p..e]), "IX:")
  {
    SkipSpacesIs(s, p, p);
    SkipSpacesIs(s, p + 1, p + 1);
    var r := s[p..e][2..];
    assert r[0] == 'I' && r[1] == 'X' && r[2] == ':';
    assert r[..3] == "IX:";
    StripKeepsPrefix(r, "IX:");
  }

  /** `#FIX: use id` is one whole match of the fix pattern. */
  lemma FixCommentExample()
    ensures FixComments("#FIX: use id") == ["#FIX: use id"]
  {
    var s := "#FIX: use id";
    ExampleSpans(s);
    assert s[0..|s|] == s;
  }

  /** The log as written prints that match as `IX: use id`. */
  lemma FixEntryAsWrittenExample()
    ensures FixEntryAsWritten("#FIX: use id") == "IX: use id"
  {
    var r := "#FIX: use id"[2..];
    assert r == "IX: use id";
    StripStripped(r);
  }

  lemma ExampleSpans(s: string)
    requires s == "#FIX: use id"
    ensures FixSpans(s, 0) == [(0, |s|)]
  {
    SkipSpacesIs(s, 0, 0);
    SkipSpacesIs(s, 1, 1);
    LineEndIs(s, 5, |s|);
    FixMatchAtIs(s, 0, 0, 1, |s|);
    assert FixSpans(s, |s|) == [];
  }

  /** The entry the log evidently means: the comment without its indentation
      and its `#`, stripped. */
  function FixEntry(comment: string): string {
    var t := LStrip(comment);
    if t == [] then "" else Strip(t[1..])
  }

  /** The fix log as printed: one entry per matched comment, in order. */
  function FixLog(code: string): seq<string> {
    var comments := FixComments(code);
    seq(|comments|, k requires 0 <= k < |comments| => FixEntry(comments[k]))
  }

  /** The fix log main.py prints: `comment[2:].strip()` of every match, in order. */
  function FixLogAsWritten(code: string): seq<string> {
    var comments := FixComments(code);
    seq(|comments|, k requires 0 <= k < |comments| => FixEntryAsWritten(comments[k]))
  }

  /** The first two characters of the match are its `#` and one whitespace
      character, in either order: exactly what `comment[2:]` is written to drop. */
  predicate HashInFirstTwo(comment: string) {
    && |comment| >= 2
    && ((comment[0] == '#' && IsSpace(comment[1])) || (IsSpace(comment[0]) && comment[1] == '#'))
  }

  /** When the match starts with `# ` (or with one whitespace character and
      then `#`), the printed entry is the intended one. */
  lemma FixEntryAsWrittenAgrees(comment: string)
    requires HashInFirstTwo(comment)
    ensures FixEntryAsWritten(comment) == FixEntry(comment)
  {
    assert comment[1..][1..] == comment[2..];
    if comment[0] == '#' {
      SkipSpacesIs(comment, 0, 0);
      assert LStrip(comment) == comment;
      StripDropFirstSpace(comment[1..]);
    } else {
      SkipSpacesIs(comment, 0, 1);
      assert LStrip(comment) == comment[1..];
    }
  }

  /** The printed log and the intended one have an entry per match, and they
      agree on every match that starts with its `#` and one whitespace
      character, in either order. */
  lemma FixLogAsWrittenAgrees(code: string)
    ensures |FixLogAsWritten(code)| == |FixLog(code)| == |FixComments(code)|
    ensures forall k :: 0 <= k < |FixComments(code)| && HashInFirstTwo(FixComments(code)[k]) ==>
              FixLogAsWritten(code)[k] == FixLog(code)[k]
  {
    var comments := FixComments(code);
    forall k | 0 <= k < |comments| && HashInFirstTwo(comments[k])
      ensures FixLogAsWritten(code)[k] == FixLog(code)[k]
    {
      FixEntryAsWrittenAgrees(comments[k]);
    }
  }

  /** For `#FIX: use id` the two logs part: main.py prints `IX: use id`,
      and the intended log reads `FIX: use id`. */
  lemma FixLogExample()
    ensures FixLogAsWritten("#FIX: use id") == ["IX: use id"]
    ensures FixLog("#FIX: use id") == ["FIX: use id"]
  {
    var s := "#FIX: use id";
    FixCommentExample();
    FixEntryAsWrittenExample();
    SkipSpacesIs(s, 0, 0);
    assert LStrip(s) == s;
    var r := s[1..];
    assert r == "FIX: use id";
    StripStripped(r);
  }

  /** An indented comment is printed with its `#`: `    # FIX: a` becomes `# FIX: a`. */
  lemma FixEntryAsWrittenKeepsHash()
    ensures FixEntryAsWritten("    # FIX: a") == "# FIX: a"
  {
    var r := "    # FIX: a"[2..];
    assert r == "  " + "# FIX: a" + "";
    StripUnique("  ", "# FIX: a", "");
  }

  /** Every entry of the fix log begins with `FIX:`. */
  lemma FixLogEntriesStartWithFix(code: string)
    ensures forall k :: 0 <= k < |FixLog(code)| ==> StartsWith(FixLog(code)[k], "FIX:")
  {
    var spans := FixSpans(code, 0);
    FixSpansSound(code, 0);
    forall k | 0 <= k < |spans| ensures StartsWith(FixEntry(code[spans[k].0..spans[k].1]), "FIX:") {
      var t := FixEntry(code[spans[k].0..spans[k].1]);
      FixEntryOfMatch(code, spans[k].0, spans[k].1, t);
      FixTagStartsWith(t);
    }
  }

  /** The corrected entry of any match starts with the letters F, I, X, `:`. */
  lemma FixEntryOfMatch(s: string, p: nat, e: nat, t: string)
    requires p <= |s| && FixMatchAt(s, p) == Some(e) && t == FixEntry(s[p..e])
    ensures FixTagAt(t, 0)
  {
    var h := SkipSpaces(s, p);
    FixMatchLandmarks(s, p, e, h);
    var f := SkipSpaces(s, h + 1);
    FixEntryOfLandmarks(s, p, e, h, f, t);
  }

  /** A match from `p` that ends at `e` has its `#` at the end of the
      whitespace run and its `FIX:` after the next one. */
  lemma FixMatchLandmarks(s: string, p: nat, e: nat, h: nat)
    requires p <= |s| && FixMatchAt(s, p) == Some(e) && h == SkipSpaces(s, p)
    ensures h < e <= |s| && s[h] == '#'
    ensures SkipSpaces(s, h + 1) + 4 <= e && FixTagAt(s, SkipSpaces(s, h + 1))
    ensures e == LineEnd(s, SkipSpaces(s, h + 1) + 4)
  {
  }

  /** The entry of a piece with a `#` at `h` and `FIX:` at `f`. */
  lemma FixEntryOfLandmarks(s: string, p: nat, e: nat, h: nat, f: nat, t: string)
    requires p <= h < e <= |s| && h == SkipSpaces(s, p) && s[h] == '#'
    requires f == SkipSpaces(s, h + 1) && f + 4 <= e && FixTagAt(s, f)
    requires t == FixEntry(s[p..e])
    ensures FixTagAt(t, 0)
  {
    FixEntryAfterHash(s, p, h, e);
    FixTextStripped(s, h + 1, f, e, t);
  }

  /** The corrected entry is the text after the `#`, stripped. */
  lemma FixEntryAfterHash(s: string, p: nat, h: nat, e: nat)
    requires p <= h < e <= |s| && h == SkipSpaces(s, p) && s[h] == '#'
    ensures FixEntry(s[p..e]) == Strip(s[h + 1..e])
  {
    LeadingSpacesOfSlice(s, p, e);
    assert LStrip(s[p..e]) == s[h..e];
    assert s[h..e][1..] == s[h + 1..e];
  }

  /** The text after the `#` of a match, stripped, starts with `FIX:`. */
  lemma FixTextStripped(s: string, a: nat, f: nat, e: nat, t: string)
    requires a <= e <= |s| && f == SkipSpaces(s, a) && f + 4 <= e && FixTagAt(s, f)
    requires t == Strip(s[a..e])
    ensures FixTagAt(t, 0)
  {
    LeadingSpacesOfSlice(s, a, e);
    var v := s[f..e];
    assert LStrip(s[a..e]) == v;
    LStripIdempotent(s[a..e]);
    assert FixTagAt(v, 0);
    StripKeepsFixTag(v);
  }

  /** Stripping a text that starts with `FIX:` keeps that start. */
  lemma StripKeepsFixTag(v: string)
    requires FixTagAt(v, 0)
    ensures FixTagAt(Strip(v), 0)
  {
    SkipSpacesIs(v, 0, 0);
    BackSpacesSkipsSpaces(v, |v|);
    assert BackSpaces(v, |v|) >= 4;
  }

  lemma FixTagStartsWith(t: string)
    requires FixTagAt(t, 0)
    ensures StartsWith(t, "FIX:")
  {
    assert t[..4] == "FIX:";
  }
}
