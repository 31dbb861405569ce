/** The two steps of main.py: `dump_ui`, which keeps the cleaned records of
    the important elements of a page, and `run_llm_agent`, which asks the model
    for a repaired script at most three times and writes and runs the first one
    that is non-empty and parses. */
module Agent {
  import opened Wrappers
  import opened Text
  import opened UiScraper
  import opened Extraction
  import opened Tools

  // ---------------------------------------------------------------------
  // dump_ui (main.py lines 21-30)

  /** One element found on the page: still attached, or gone stale so that
      cleaning it raises and the loop skips it. */
  datatype Scraped = Live(element: DomElement) | Stale

  /** What one scraped element adds to the dump. */
  function Contribution(s: Scraped): seq<ElementRecord> {
    match s
    case Stale => []
    case Live(el) => if FilterElement(Clean(el)) then [Clean(el)] else []
  }

  /** The pieces `f` gives for each of `xs`, one after the other. */
  function FlatMap<T, U>(xs: seq<T>, f: T -> seq<U>): seq<U> {
    if xs == [] then [] else FlatMap(xs[..|xs| - 1], f) + f(xs[|xs| - 1])
  }

  /** The dump of a list of scraped elements. */
  function Snapshot(elements: seq<Scraped>): seq<ElementRecord> {
    FlatMap(elements, Contribution)
  }

  /** The loop of `dump_ui`, appending each kept record to `ui_data`. */
  method DumpUi(elements: seq<Scraped>) returns (uiData: seq<ElementRecord>)
    ensures uiData == Snapshot(elements)
  {
    uiData := [];
    for i := 0 to |elements|
      invariant uiData == Snapshot(elements[..i])
    {
      assert elements[..i + 1][..i] == elements[..i];
      assert Snapshot(elements[..i + 1]) == Snapshot(elements[..i]) + Contribution(elements[i]);
      match elements[i]
      case Stale =>
      case Live(el) =>
        var cleaned := CleanElement(el);
        if FilterElement(cleaned) {
          uiData := uiData + [cleaned];
        }
    }
    assert elements[..|elements|] == elements;
  }

  lemma {:induction false} FlatMapConcat<T, U>(a: seq<T>, b: seq<T>, f: T -> seq<U>)
    ensures FlatMap(a + b, f) == FlatMap(a, f) + FlatMap(b, f)
    decreases |b|
  {
    if b == [] {
      assert a + b == a;
    } else {
      var b' := b[..|b| - 1];
      assert (a + b)[..|a + b| - 1] == a + b';
      FlatMapConcat(a, b', f);
    }
  }

  lemma {:induction false} FlatMapMembers<T, U>(xs: seq<T>, f: T -> seq<U>, u: U)
    ensures u in FlatMap(xs, f) <==> exists i :: 0 <= i < |xs| && u in f(xs[i])
    decreases |xs|
  {
    if xs != [] {
      var n := |xs| - 1;
      var front := xs[..n];
      FlatMapMembers(front, f, u);
      assert forall i :: 0 <= i < n ==> front[i] == xs[i];
    }
  }

  /** The dump of two runs of elements is the two dumps one after the other:
      the loop keeps the page order. */
  lemma SnapshotConcat(a: seq<Scraped>, b: seq<Scraped>)
    ensures Snapshot(a + b) == Snapshot(a) + Snapshot(b)
  {
    FlatMapConcat(a, b, Contribution);
  }

  /** The loop keeps `r` for `s`: `s` is attached, `r` is its cleaned record,
      and its tag is important. */
  predicate Keeps(s: Scraped, r: ElementRecord) {
    s.Live? && r == Clean(s.element) && FilterElement(r)
  }

  /** A record is in the dump exactly when it is the cleaned record of an
      attached element with an important tag. */
  lemma SnapshotMembers(elements: seq<Scraped>, r: ElementRecord)
    ensures r in Snapshot(elements) <==> exists i :: 0 <= i < |elements| && Keeps(elements[i], r)
  {
    FlatMapMembers(elements, Contribution, r);
    forall i | 0 <= i < |elements| ensures r in Contribution(elements[i]) <==> Keeps(elements[i], r) {
    }
  }

  /** Every record of the dump has an important tag, and the dump is never
      longer than the list of scraped elements. */
  lemma {:induction false} SnapshotFiltered(elements: seq<Scraped>)
    ensures forall r :: r in Snapshot(elements) ==> r.tag in ImportantTags
    ensures |Snapshot(elements)| <= |elements|
    decreases |elements|
  {
    if elements != [] {
      SnapshotFiltered(elements[..|elements| - 1]);
      assert Snapshot(elements) == Snapshot(elements[..|elements| - 1]) + Contribution(elements[|elements| - 1]);
    }
  }

  // ---------------------------------------------------------------------
  // run_llm_agent (main.py lines 64-129)

  const MaxAttempts: nat := 3

  /** What one response gives: no code, code `ast.parse` refuses, or code to write. */
  datatype Assessment = NoCode | InvalidCode(error: string) | ValidCode(code: string)

  /** Lines 79-111 for one stripped response: its candidate, judged. */
  function Assess(parser: Parser, raw: string): Assessment {
    var candidate := Candidate(raw);
    if candidate == [] then NoCode
    else match parser(candidate)
      case SyntaxError(e) => InvalidCode(e)
      case Parsed => ValidCode(candidate)
  }

  /** How a run of the agent ends. */
  datatype AgentOutcome =
    | NoLlm
      // `get_llm()` gave None: no attempt is made
    | InvokeFailed(attempt: nat)
      // the model raised instead of answering on this attempt
    | GaveUp(lastRaw: string)
      // three responses without usable code; the last one is shown
    | Healed(attempt: nat, code: string, written: string, printedLog: seq<string>, fixLog: seq<string>, output: string)
      // the code of this attempt was written and run; `printedLog` is the fix
      // log as main.py prints it, `fixLog` the log it evidently means

  /** The loop of lines 72-129 from `attempt` on, when the model's successive
      answers, stripped, are `raws`, each is judged by `assess`, and running
      the written script prints `execution`. */
  function Run(assess: string -> Assessment, raws: seq<string>, execution: string, attempt: nat): AgentOutcome
    requires 1 <= attempt <= MaxAttempts
    decreases MaxAttempts - attempt
  {
    if |raws| < attempt then InvokeFailed(attempt)
    else
      match assess(raws[attempt - 1])
      case ValidCode(code) => Healed(attempt, code, Written, FixLogAsWritten(code), FixLog(code), execution)
      case _ => if attempt == MaxAttempts then GaveUp(raws[attempt - 1]) else Run(assess, raws, execution, attempt + 1)
  }

  /** `response.content.strip()` of every answer. */
  function StripAll(responses: seq<string>): (raws: seq<string>)
    ensures |raws| == |responses|
    ensures forall i :: 0 <= i < |responses| ==> raws[i] == Strip(responses[i])
  {
    seq(|responses|, i requires 0 <= i < |responses| => Strip(responses[i]))
  }

  /** The whole run: nothing without a model, the attempts otherwise. */
  function Outcome(parser: Parser, llm: Option<seq<string>>, execution: string): AgentOutcome {
    match llm
    case None => NoLlm
    case Some(responses) => Run(raw => Assess(parser, raw), StripAll(responses), execution, 1)
  }

  /** Attempt `k` (counted from 1) gave code to write. */
  predicate Usable(assess: string -> Assessment, raws: seq<string>, k: nat)
    requires 1 <= k <= |raws|
  {
    assess(raws[k - 1]).ValidCode?
  }

  /** The write of line 114 always succeeds: code judged usable is the
      candidate, and it is neither blank nor unparseable. */
  lemma ValidCodeWritable(parser: Parser, raw: string)
    requires Assess(parser, raw).ValidCode?
    ensures var code := Assess(parser, raw).code;
      code == Candidate(raw) && !AllSpace(code) && Parses(parser, code) && IsStripped(code)
  {
    CandidateStripped(raw);
  }

  /** A healed run stops at the first attempt with usable code, within the
      three attempts and the answers the model gave, and writes that code. */
  lemma {:induction false} RunHealedAtFirstUsable(
    assess: string -> Assessment, raws: seq<string>, execution: string, attempt: nat)
    requires 1 <= attempt <= MaxAttempts
    requires Run(assess, raws, execution, attempt).Healed?
    ensures var o := Run(assess, raws, execution, attempt);
      attempt <= o.attempt <= MaxAttempts && o.attempt <= |raws| &&
      assess(raws[o.attempt - 1]) == ValidCode(o.code) &&
      o.written == Written && o.printedLog == FixLogAsWritten(o.code) && o.fixLog == FixLog(o.code) &&
      o.output == execution &&
      (forall k :: attempt <= k < o.attempt ==> !Usable(assess, raws, k))
    decreases MaxAttempts - attempt
  {
    if !assess(raws[attempt - 1]).ValidCode? {
      RunHealedAtFirstUsable(assess, raws, execution, attempt + 1);
    }
  }

  /** A run that does not heal had no usable code within its attempts; it
      gives up after the third answer, or the model fails on the attempt
      after its last answer. */
  lemma {:induction false} RunUnhealed(
    assess: string -> Assessment, raws: seq<string>, execution: string, attempt: nat)
    requires 1 <= attempt <= MaxAttempts && attempt <= |raws| + 1
    requires !Run(assess, raws, execution, attempt).Healed?
    ensures forall k :: attempt <= k <= MaxAttempts && k <= |raws| ==> !Usable(assess, raws, k)
    ensures var o := Run(assess, raws, execution, attempt);
      (o.GaveUp? && MaxAttempts <= |raws| && o.lastRaw == raws[MaxAttempts - 1]) ||
      (o.InvokeFailed? && o.attempt == |raws| + 1 && attempt <= o.attempt <= MaxAttempts)
    decreases MaxAttempts - attempt
  {
    if attempt <= |raws| && attempt < MaxAttempts {
      RunUnhealed(assess, raws, execution, attempt + 1);
    }
  }

  /** A run heals exactly when one of its first three answers gives usable code. */
  lemma RunHealsIffUsable(assess: string -> Assessment, raws: seq<string>, execution: string)
    ensures Run(assess, raws, execution, 1).Healed? <==>
      exists k :: 1 <= k <= MaxAttempts && k <= |raws| && Usable(assess, raws, k)
  {
    if Run(assess, raws, execution, 1).Healed? {
      RunHealedAtFirstUsable(assess, raws, execution, 1);
      var o := Run(assess, raws, execution, 1);
      assert Usable(assess, raws, o.attempt);
    } else {
      RunUnhealed(assess, raws, execution, 1);
    }
  }

  /** The code a healed run writes is the candidate of its answer, is not
      blank and parses. */
  lemma HealedCodeParses(parser: Parser, responses: seq<string>, execution: string, o: AgentOutcome)
    requires o == Outcome(parser, Some(responses), execution) && o.Healed?
    ensures 1 <= o.attempt <= MaxAttempts && o.attempt <= |responses|
    ensures o.code == Candidate(Strip(responses[o.attempt - 1]))
    ensures !AllSpace(o.code) && Parses(parser, o.code)
  {
    var assess := raw => Assess(parser, raw);
    var raws := StripAll(responses);
    RunHealedAtFirstUsable(assess, raws, execution, 1);
    var raw := raws[o.attempt - 1];
    assert raw == Strip(responses[o.attempt - 1]);
    assert Assess(parser, raw) == ValidCode(o.code);
    ValidCodeWritable(parser, raw);
  }

  /** Three blank answers: every attempt finds no code and the run gives up
      showing the last (empty) answer. */
  lemma BlankAnswersGiveUp(parser: Parser, responses: seq<string>, execution: string)
    requires |responses| >= MaxAttempts
    requires forall k :: 0 <= k < MaxAttempts ==> AllSpace(responses[k])
    ensures Outcome(parser, Some(responses), execution) == GaveUp("")
  {
    var assess := raw => Assess(parser, raw);
    var raws := StripAll(responses);
    assert Candidate("") == "" by {
      var lines := SplitLines("");
      assert lines == [] && StartIndex(lines) == 0 && lines[0..] == [];
      SkipSpacesIs("", 0, 0);
    }
    forall k | 0 <= k < MaxAttempts ensures raws[k] == "" && assess(raws[k]) == NoCode {
      StripEmpty(responses[k]);
    }
    RunAfterUnusable(assess, raws, execution, 3, "", NoCode);
    RunAfterUnusable(assess, raws, execution, 2, "", NoCode);
    RunAfterUnusable(assess, raws, execution, 1, "", NoCode);
  }

  /** An attempt without usable code gives up on the third attempt and moves
      on to the next one before that. */
  lemma RunAfterUnusable(
    assess: string -> Assessment, raws: seq<string>, execution: string, attempt: nat, raw: string, a: Assessment)
    requires 1 <= attempt <= MaxAttempts && attempt <= |raws| && raw == raws[attempt - 1]
    requires assess(raw) == a && !a.ValidCode?
    ensures attempt == MaxAttempts ==> Run(assess, raws, execution, attempt) == GaveUp(raw)
    ensures attempt < MaxAttempts ==> Run(assess, raws, execution, attempt) == Run(assess, raws, execution, attempt + 1)
  {
  }

  /** An attempt with usable code heals the run. */
  lemma RunAfterUsable(
    assess: string -> Assessment, raws: seq<string>, execution: string, attempt: nat, raw: string, code: string)
    requires 1 <= attempt <= MaxAttempts && attempt <= |raws| && raw == raws[attempt - 1]
    requires assess(raw) == ValidCode(code)
    ensures Run(assess, raws, execution, attempt) ==
      Healed(attempt, code, Written, FixLogAsWritten(code), FixLog(code), execution)
  {
  }

  /** `run_llm_agent`: reads both files for the prompt, gives up at once
      without a model, and otherwise tries up to three answers. The script file
      changes only in a healed run, and then holds the healed code. */
  method RunLlmAgent(ws: Workspace, llm: Option<seq<string>>, execution: string) returns (outcome: AgentOutcome)
    modifies ws`scriptFile
    ensures outcome == Outcome(ws.parser, llm, execution)
    ensures outcome.Healed? ==> ws.scriptFile == Some(outcome.code)
    ensures !outcome.Healed? ==> ws.scriptFile == old(ws.scriptFile)
  {
    var uiData := ws.ReadUiJson();
    var seleniumCode := ws.ReadSeleniumScript();
    if llm.None? {
      return NoLlm;
    }
    var responses := llm.value;
    ghost var assess := raw => Assess(ws.parser, raw);
    ghost var raws := StripAll(responses);
    ghost var whole := Run(assess, raws, execution, 1);
    assert whole == Outcome(ws.parser, llm, execution);
    var attempt := 1;
    while attempt <= MaxAttempts
      invariant 1 <= attempt <= MaxAttempts
      invariant Run(assess, raws, execution, attempt) == whole
      invariant ws.scriptFile == old(ws.scriptFile)
      decreases MaxAttempts - attempt
    {
      if |responses| < attempt {
        return InvokeFailed(attempt);
      }
      var raw := Strip(responses[attempt - 1]);
      assert raw == raws[attempt - 1];
      var candidate := ExtractCandidate(raw);
      if candidate == [] {
        RunAfterUnusable(assess, raws, execution, attempt, raw, NoCode);
        if attempt == MaxAttempts {
          return GaveUp(raw);
        }
        attempt := attempt + 1;
        continue;
      }
      if ws.parser(candidate).SyntaxError? {
        RunAfterUnusable(assess, raws, execution, attempt, raw, InvalidCode(ws.parser(candidate).message));
        if attempt == MaxAttempts {
          return GaveUp(raw);
        }
        attempt := attempt + 1;
        continue;
      }
      assert Assess(ws.parser, raw) == ValidCode(candidate);
      ValidCodeWritable(ws.parser, raw);
      RunAfterUsable(assess, raws, execution, attempt, raw, candidate);
      var result := ws.WriteSeleniumScript(candidate);
      var printedLog := FixLogAsWritten(candidate);
      var fixLog := FixLog(candidate);
      var output := ws.RunSelenium(execution);
      return Healed(attempt, candidate, result, printedLog, fixLog, output);
    }
    assert false;
  }
}
