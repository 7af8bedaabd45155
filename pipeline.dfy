/**
 * `run_pipeline` (agents.py:71-125): Parse, an optional stop for clarification,
 * then Route, Memory, retrieval, Solve, Verify and Explain, each adding one
 * entry to the trace. The language model, the JSON decoder and the vector
 * store are parameters (`Oracles`); the memory file is read, never written.
 */
module Pipeline {
  import opened Wrappers
  import opened Text
  import opened JsonValue
  import opened Memory
  import opened Agents

  /** The stages, in the order they run. */
  datatype Stage = ParserStage | RouterStage | MemoryStage | RagStage | SolverStage | VerifierStage | ExplainerStage

  /** One trace line, with the data it shows (its wording is not modelled). */
  datatype TraceEntry =
    | ParserEntry(topic: Json)
    | RouterEntry(route: Route)
    | MemoryEntry(found: bool)
    | RagEntry(contextWords: nat)
    | SolverEntry
    | VerifierApproved
    | VerifierFlagged(check: string)
    | ExplainerEntry

  function StageOf(e: TraceEntry): Stage {
    match e
    case ParserEntry(_) => ParserStage
    case RouterEntry(_) => RouterStage
    case MemoryEntry(_) => MemoryStage
    case RagEntry(_) => RagStage
    case SolverEntry => SolverStage
    case VerifierApproved => VerifierStage
    case VerifierFlagged(_) => VerifierStage
    case ExplainerEntry => ExplainerStage
  }

  /** The trace of a run stopped for clarification: the Parser entry alone. */
  predicate StoppedTrace(trace: seq<TraceEntry>) {
    |trace| == 1 && StageOf(trace[0]) == ParserStage
  }

  /** The trace of a full run: one entry per stage, in execution order. */
  predicate FullTrace(trace: seq<TraceEntry>) {
    |trace| == 7 &&
    StageOf(trace[0]) == ParserStage && StageOf(trace[1]) == RouterStage &&
    StageOf(trace[2]) == MemoryStage && StageOf(trace[3]) == RagStage &&
    StageOf(trace[4]) == SolverStage && StageOf(trace[5]) == VerifierStage &&
    StageOf(trace[6]) == ExplainerStage
  }

  /** The trace of a full run, one entry appended per stage. */
  function FullRunTrace(topic: Json, route: Route, found: bool, contextWords: nat, verdict: TraceEntry): (trace: seq<TraceEntry>)
    requires verdict.VerifierApproved? || verdict.VerifierFlagged?
    ensures FullTrace(trace)
    ensures trace[0] == ParserEntry(topic) && trace[1] == RouterEntry(route) && trace[2] == MemoryEntry(found) &&
      trace[3] == RagEntry(contextWords) && trace[5] == verdict
  {
    // Appended to an empty trace, as `run_pipeline` builds it.
    [] + [ParserEntry(topic)] + [RouterEntry(route)] + [MemoryEntry(found)] + [RagEntry(contextWords)] +
      [SolverEntry] + [verdict] + [ExplainerEntry]
  }

  /** The two confidence values. */
  const HighConfidence: real := 0.95
  const LowConfidence: real := 0.60

  /** The dictionary the pipeline returns: status "HITL" or status "SUCCESS". */
  datatype PipelineResult =
    | Hitl(msg: string, trace: seq<TraceEntry>)
    | Success(solution: string, explanation: string, context: string, trace: seq<TraceEntry>, confidence: real)

  /** A result of either status has the trace and the confidence its status allows. */
  predicate WellShaped(r: PipelineResult) {
    match r
    case Hitl(_, trace) => StoppedTrace(trace)
    case Success(_, _, _, trace, c) => FullTrace(trace) && (c == HighConfidence || c == LowConfidence)
  }

  /** The exceptions the pipeline lets through when the parsed object holds a non-text value. */
  datatype PipelineError =
    | TopicNotText    // `topic.lower()` on a value that is not a string
    | ProblemNotText  // retrieval on a problem text that is not a string

  datatype Outcome = Returned(result: PipelineResult) | Raised(error: PipelineError)

  /**
   * The outside services, as functions: the parser's model call (`None` when it
   * raises), the JSON decoder (`None` when it raises), the knowledge-store
   * retrieval, and the solver, verifier and explainer model calls.
   */
  datatype Oracles = Oracles(
    parserModel: string -> Option<string>,
    decode: string -> Option<map<string, Json>>,
    retrieve: string -> string,
    solve: (string, string, string) -> string,
    verify: (string, string) -> string,
    explain: string -> string)

  /**
   * The parsed object after the guard at agents.py:77: the parser's object,
   * or the fallback record when that object is empty. Never empty.
   */
  function ParseStep(rawText: string, o: Oracles): (parsed: map<string, Json>)
    ensures parsed != map[]
    ensures ParserAgent(rawText, o.parserModel, o.decode) != map[] ==>
      parsed == ParserAgent(rawText, o.parserModel, o.decode)
    ensures ParserAgent(rawText, o.parserModel, o.decode) == map[] ==> parsed == DefaultParse(rawText)
  {
    var parsed := ParserAgent(rawText, o.parserModel, o.decode);
    if parsed == map[] then
      assert "topic" in DefaultParse(rawText);
      DefaultParse(rawText)
    else parsed
  }

  predicate NeedsClarification(parsed: map<string, Json>) {
    Truthy(Get(parsed, "needs_clarification", JNull))
  }

  /** `parsed.get("topic", "")`. */
  function TopicValue(parsed: map<string, Json>): Json {
    Get(parsed, "topic", JString(""))
  }

  /** `parsed.get("problem_text", raw_text)`. */
  function ProblemValue(parsed: map<string, Json>, rawText: string): Json {
    Get(parsed, "problem_text", JString(rawText))
  }

  /** The verifier's reply counts as approval when it contains "VERIFIED" anywhere. */
  predicate Approves(check: string) {
    Occurs("VERIFIED", check)
  }

  /** The Memory trace line says a past problem was found unless the context contains "No similar". */
  predicate MemoryLabelFound(memoryContext: string) {
    !Occurs("No similar", memoryContext)
  }

  /**
   * The run as a value, with the memory lookup as a parameter: `search` is
   * `search_memory` (the method below passes `SearchMemory` over the memory
   * file). A problem text that is not a string makes the lookup fail, which it
   * reports as the sentinel.
   */
  function Run(rawText: string, o: Oracles, search: string -> string): (out: Outcome)
    ensures out.Returned? ==> WellShaped(out.result)
  {
    AfterParse(ParseStep(rawText, o), rawText, o, search)
  }

  /** The run from the parsed object on: every result it returns is well shaped. */
  function AfterParse(parsed: map<string, Json>, rawText: string, o: Oracles, search: string -> string): (out: Outcome)
    ensures out.Returned? ==> WellShaped(out.result)
  {
    // The trace starts empty, as in `run_pipeline`, so it is built from the same terms as the method's.
    var trace := [] + [ParserEntry(Get(parsed, "topic", JNull))];
    if NeedsClarification(parsed) then Returned(Hitl("Ambiguous Input", trace))
    else if !TopicValue(parsed).JString? then Raised(TopicNotText)
    else
      var trace := trace + [RouterEntry(RouterAgent(TopicValue(parsed).s))];
      var problem := ProblemValue(parsed, rawText);
      var memoryContext := if problem.JString? then search(problem.s) else NoMatch;
      var trace := trace + [MemoryEntry(MemoryLabelFound(memoryContext))];
      if !problem.JString? then Raised(ProblemNotText)
      else
        var context := o.retrieve(problem.s);
        var solution := o.solve(problem.s, context, memoryContext);
        var check := o.verify(problem.s, solution);
        var trace := FullRunTrace(Get(parsed, "topic", JNull), RouterAgent(TopicValue(parsed).s),
          MemoryLabelFound(memoryContext), |Split(context)|,
          if Approves(check) then VerifierApproved else VerifierFlagged(check));
        var confidence := if Approves(check) then HighConfidence else LowConfidence;
        Returned(Success(solution, o.explain(solution), context, trace, confidence))
  }

  /** `run_pipeline(raw_text)`, step by step, over the memory file `memory`. */
  method RunPipeline(rawText: string, memory: FileState, o: Oracles) returns (out: Outcome)
    ensures out == Run(rawText, o, q => SearchMemory(memory, q))
  {
    var trace: seq<TraceEntry> := [];

    // 1. Parse
    var parsed := ParserAgent(rawText, o.parserModel, o.decode);
    if parsed == map[] {
      parsed := DefaultParse(rawText);
    }
    trace := trace + [ParserEntry(Get(parsed, "topic", JNull))];
    if Truthy(Get(parsed, "needs_clarification", JNull)) {
      return Returned(Hitl("Ambiguous Input", trace));
    }

    // 2. Route
    var topic := Get(parsed, "topic", JString(""));
    if !topic.JString? {
      return Raised(TopicNotText);
    }
    var route := RouterAgent(topic.s);
    trace := trace + [RouterEntry(route)];

    // 3. Memory (the lookup swallows the error a non-text problem causes)
    var problem := Get(parsed, "problem_text", JString(rawText));
    var memoryContext := if problem.JString? then SearchMemory(memory, problem.s) else NoMatch;
    if MemoryLabelFound(memoryContext) {
      trace := trace + [MemoryEntry(true)];
    } else {
      trace := trace + [MemoryEntry(false)];
    }

    // 4. Retrieve and solve
    if !problem.JString? {
      return Raised(ProblemNotText);
    }
    var problemText := problem.s;
    var context := o.retrieve(problemText);
    trace := trace + [RagEntry(|Split(context)|)];
    var solution := o.solve(problemText, context, memoryContext);
    trace := trace + [SolverEntry];

    // 5. Verify
    var check := o.verify(problemText, solution);
    var confidence: real := 0.0;
    if Approves(check) {
      trace := trace + [VerifierApproved];
      confidence := HighConfidence;
    } else {
      trace := trace + [VerifierFlagged(check)];
      confidence := LowConfidence;
    }

    // 6. Explain
    var final := o.explain(solution);
    trace := trace + [ExplainerEntry];

    return Returned(Success(solution, final, context, trace, confidence));
  }

  /** The run stops for clarification exactly when the parsed object asks for it, with only the Parser line. */
  lemma RunStopsForClarification(rawText: string, o: Oracles, search: string -> string)
    ensures var out := Run(rawText, o, search);
      out.Returned? && out.result.Hitl? <==> NeedsClarification(ParseStep(rawText, o))
    ensures var out := Run(rawText, o, search);
      out.Returned? && out.result.Hitl? ==>
        out.result.msg == "Ambiguous Input" &&
        out.result.trace == [ParserEntry(Get(ParseStep(rawText, o), "topic", JNull))]
  {
    var parsed := ParseStep(rawText, o);
    var trace := [] + [ParserEntry(Get(parsed, "topic", JNull))];
    assert trace == [ParserEntry(Get(parsed, "topic", JNull))];
  }

  /** The exceptions that escape the run, and exactly when. */
  lemma RunRaises(rawText: string, o: Oracles, search: string -> string)
    ensures var p := ParseStep(rawText, o);
      Run(rawText, o, search) == Raised(TopicNotText) <==>
        !NeedsClarification(p) && !TopicValue(p).JString?
    ensures var p := ParseStep(rawText, o);
      Run(rawText, o, search) == Raised(ProblemNotText) <==>
        !NeedsClarification(p) && TopicValue(p).JString? && !ProblemValue(p, rawText).JString?
  {
  }

  /** A full run: what each stage is given and what the result carries. */
  lemma RunDataFlow(rawText: string, o: Oracles, search: string -> string)
    requires Run(rawText, o, search).Returned? && Run(rawText, o, search).result.Success?
    ensures var p := ParseStep(rawText, o);
      TopicValue(p).JString? && ProblemValue(p, rawText).JString? &&
      var problem := ProblemValue(p, rawText).s;
      var memoryContext := search(problem);
      var context := o.retrieve(problem);
      var solution := o.solve(problem, context, memoryContext);
      var check := o.verify(problem, solution);
      var r := Run(rawText, o, search).result;
      r.trace[0] == ParserEntry(Get(p, "topic", JNull)) &&
      r.trace[1] == RouterEntry(RouterAgent(TopicValue(p).s)) &&
      r.trace[2] == MemoryEntry(MemoryLabelFound(memoryContext)) &&
      r.trace[3] == RagEntry(|Split(context)|) &&
      r.trace[5] == (if Approves(check) then VerifierApproved else VerifierFlagged(check)) &&
      r.solution == solution && r.context == context && r.explanation == o.explain(solution) &&
      (r.confidence == HighConfidence <==> Approves(check))
  {
  }

  /**
   * When the parser's model call or decoding fails, or the reply decodes to an
   * empty object, the run goes on with the raw text as the problem and the
   * topic "Unknown", which the router flags; the flag does not stop the run,
   * which returns a SUCCESS result whose Router entry is the flag.
   */
  lemma FallbackRunsFlagged(rawText: string, o: Oracles, search: string -> string)
    requires o.parserModel(rawText).None? ||
      o.decode(CleanFences(o.parserModel(rawText).value)).None? ||
      o.decode(CleanFences(o.parserModel(rawText).value)) == Some(map[])
    ensures ParseStep(rawText, o) == DefaultParse(rawText)
    ensures var p := ParseStep(rawText, o);
      !NeedsClarification(p) &&
      TopicValue(p) == JString("Unknown") && RouterAgent(TopicValue(p).s) == Flag &&
      ProblemValue(p, rawText) == JString(rawText)
    ensures Run(rawText, o, search).Returned? && Run(rawText, o, search).result.Success?
    ensures Run(rawText, o, search).result.trace[1] == RouterEntry(Flag)
  {
    var parsed := ParserAgent(rawText, o.parserModel, o.decode);
    assert parsed == DefaultParse(rawText) || parsed == map[];
    RouterFlagsUnknown();
    DefaultRunsFlagged(rawText, o, search);
  }

  /** From the fallback record the run reaches SUCCESS with the flag in its Router entry. */
  lemma DefaultRunsFlagged(rawText: string, o: Oracles, search: string -> string)
    ensures var out := AfterParse(DefaultParse(rawText), rawText, o, search);
      out.Returned? && out.result.Success? && out.result.trace[1] == RouterEntry(Flag)
  {
    var p := DefaultParse(rawText);
    assert !NeedsClarification(p) && TopicValue(p) == JString("Unknown") && ProblemValue(p, rawText) == JString(rawText);
    RouterFlagsUnknown();
  }

  /** The sentinel is labelled "no history": a "found" label always means a record was reported. */
  lemma MemoryLabelSound(memory: FileState, query: string)
    ensures MemoryLabelFound(SearchMemory(memory, query)) ==> exists i :: Reports(memory, query, i)
  {
    assert "No similar" <= NoMatch;
    SearchFindsOnlyReportable(memory, query);
  }

  /**
   * The label is not complete: when the reported question itself contains
   * "No similar", a record is passed to the solver yet the trace says no
   * history was found.
   */
  lemma MemoryLabelMissesQuestion(memory: FileState, query: string, i: int)
    requires Reports(memory, query, i)
    requires Occurs("No similar", memory.records[i].question.value)
    ensures SearchMemory(memory, query) != NoMatch
    ensures !MemoryLabelFound(SearchMemory(memory, query))
  {
    SearchReportsLastMatch(memory, query, i);
    var q, e := memory.records[i].question.value, memory.records[i].explanation.value;
    var head := "Similar Problem: ";
    var r := head + q + "\nExplanation: " + e;
    assert r[|head|..][..|q|] == q;
    OccursInPrefix("No similar", r[|head|..], |q|);
    OccursInSuffix("No similar", r, |head|);
  }

  /** A rejection that mentions the word VERIFIED is scored as an approval. */
  lemma RejectionMentioningVerifiedApproves(check: string)
    requires check == "REJECTED: not VERIFIED"
    ensures Approves(check)
  {
    assert check[14..] == "VERIFIED";
    assert "VERIFIED" <= check[14..];
    OccursInSuffix("VERIFIED", check, 14);
  }
}
