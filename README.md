# Math Mentor pipeline and memory store, modelled in Dafny

This project models the control logic of the Math Mentor tutor: the agent
pipeline `run_pipeline` and the memory store it consults.

The pipeline runs in this order:

1. Parse the question with a language model, falling back to a default record.
2. Stop and ask a human when the parse says the question is ambiguous.
3. Route on the topic.
4. Look up similar past problems in `memory.json`.
5. Retrieve textbook context.
6. Solve, verify and explain.

Each stage adds one line to a trace. The result carries a confidence of 0.95
or 0.60, depending on whether the verifier's reply contains "VERIFIED".

The Streamlit page does three things with the memory file:

- It creates the file empty when it is missing.
- It refuses a blank question.
- On "Correct" feedback, it appends the solved question to the file.

Modules:

- `Wrappers` (wrappers.dfy): `Option`.
- `Text` (text.dfy): the Python string operations the code relies on: `in` on strings, `lower()`, `strip()`, `split()` and `replace(p, "")`.
- `JsonValue` (json_value.dfy): decoded JSON values, Python truthiness and `dict.get`.
- `Memory` (memory.dfy): the memory file and `search_memory`.
- `Agents` (agents.dfy): `router_agent` and the fence stripping and fallback of `parser_agent`.
- `Pipeline` (pipeline.dfy): `run_pipeline`.
  - `RunPipeline` is the step-by-step method.
  - `Run` is the same run written as a value. The properties are proved about `Run`.
  - The language-model calls, JSON decoding and the vector-store retrieval are the fields of `Oracles`.
- `App` (app.dfy): the page's memory-store handling, as the class `MentorApp` holding the memory file.

How the pipeline is specified:

- `Run` takes the memory lookup as a function argument.
- `RunPipeline` proves that it computes `Run` with `SearchMemory` over the memory file passed in.
- `App.MentorApp.Solve` runs the pipeline and has no `modifies` clause, so a run never changes the memory file the page holds.

## Model

| member | source | states |
|---|---|---|
| Text.OccursAt | agents.py:22 | `needle in hay` holds exactly when the needle sits at some position k of hay, that is, when hay[k..k+len(needle)] is the needle. |
| Text.AbsentFirstChar | agents.py:42 | A text holding no copy of the needle's first character does not contain the needle. |
| Text.Strip | agents.py:42 | The result starts and ends with a non-whitespace character. It is empty exactly when the input is all whitespace. |
| Text.StripCutsOnlyWhitespace | agents.py:42 | The result is a slice of the input, and everything cut off before and after it is whitespace. With the ends of the result not being whitespace, this fixes the result. |
| Text.Split | agents.py:22 | Every word is non-empty, has no whitespace and occurs in the input. There are no words exactly when the input is blank. |
| Text.SplitWordsAreRuns | agents.py:22 | The run of non-whitespace characters at every word start of the input (a non-whitespace character at the start or after whitespace) is a word, and every word is such a run. |
| Text.Lower | agents.py:48 | Each character is lowered in place. The length is unchanged. |
| Text.RemoveKeepsPrefix | agents.py:42 | Removing a pattern leaves alone a prefix at no position of which the pattern starts, and removes from the rest exactly what it would remove from the rest alone. |
| Memory.LongWords | agents.py:22 | A word is kept exactly when it is a query word longer than four characters. |
| Memory.Relevant | agents.py:22 | The scan raises exactly when there is a word and some record lacks a question. Otherwise every relevant record is a matching record of the file. The list is empty exactly when no record matches. |
| Memory.RelevantLast | agents.py:22-24 | The last element of the relevant list is the last record that matches. Earlier matches are ignored. |
| Memory.RelevantHasLast | agents.py:22-24 | A non-empty relevant list means some record is the last match. |
| Memory.Report | agents.py:24 | A report is never the sentinel text. |
| Memory.SearchMemory | agents.py:16-27 | The result is the sentinel in these cases: the file is missing, it does not decode, it is empty, or the query has no word longer than four characters. |
| Memory.SearchReportsLastMatch | agents.py:22-24 | When record i is the last relevant one, has an explanation, and the scan cannot raise, the lookup returns "Similar Problem: " + its question + "\nExplanation: " + its explanation. |
| Memory.SearchFindsOnlyReportable | agents.py:16-27 | Anything other than the sentinel comes from a reportable record. |
| Memory.SearchNoMatchIff | agents.py:16-27 | The sentinel is returned exactly when no record is reportable. That covers the error paths, such as a record without a question, and the record with no explanation. |
| Agents.OccursLowered | agents.py:48 | An allowed topic t is `in topic.lower()` exactly when, from some position k of the topic, each character lower-cased equals the matching character of t. |
| Agents.RouterAgent | agents.py:46-48 | The route is PROCEED exactly when, for one of the six allowed topics and some position of the topic, the topic's characters from there on, lower-cased one by one, spell that allowed topic. Otherwise it is FLAG. |
| Agents.RouterIgnoresCase | agents.py:48 | Lower-casing the topic first does not change the route. |
| Agents.RouterProceedsOnCalculus | agents.py:46-48 | "Calculus problem" proceeds. |
| Agents.RouterFlagsUnknown | agents.py:46-48 | "Unknown", the parser's fallback topic, is flagged. |
| Agents.RouterFlagsEmpty | agents.py:46-48 | The empty topic is flagged. |
| Agents.RemovalLeavesNoFence | agents.py:42 | After every "```" is removed, no "```" remains. |
| Agents.PlainReplyUnfenced | agents.py:42 | Removing "```json" and "```" from a reply with no backtick leaves it unchanged. |
| Agents.CleanFences | agents.py:42 | The cleaned reply holds no "```" and has no whitespace at either end. A reply with no backtick is only stripped, so a plain JSON reply reaches the decoder intact. |
| Agents.CleanFencesIdempotent | agents.py:42 | Cleaning twice is the same as cleaning once. |
| Agents.NoFenceInside | agents.py:42 | When the body holds no "```", no "```" starts anywhere inside "\n" + body + "\n" followed by the closing fence. |
| Agents.CleanFencesUnwraps | agents.py:42 | A reply wrapped as "```json\n" + body + "\n```" is cleaned back to the body, when the body holds no "```" of its own (single backticks are kept) and has no surrounding whitespace. |
| Agents.DefaultParse | agents.py:44 | The fallback record has the raw text as the problem, "Unknown" as the topic, and a falsy needs_clarification. |
| Agents.ParserAgent | agents.py:30-44 | A failed model call gives the fallback record for the text. Otherwise the reply is cleaned of fences and decoded: a failed decoding gives the fallback record, a successful one gives the decoded object. |
| Agents.ParserUnwrapsFencedReply | agents.py:40-44 | For a fenced reply, the parser returns the body's decoding, or the fallback record when decoding fails. |
| JsonValue.Get | agents.py:79 | A present key gives its value. A missing key gives the default. |
| Pipeline.ParseStep | agents.py:76-77 | The parsed object is never empty. It is the parser's object when that object is non-empty, and the fallback record for the raw text when it is empty. |
| Pipeline.FullRunTrace | agents.py:79-116 | A full trace has seven entries: Parser, Router, Memory, RAG, Solver, Verifier, Explainer. Each carries its stage's data. |
| Pipeline.RunPipeline | agents.py:71-125 | Building the trace step by step gives exactly the outcome `Run` defines, with `SearchMemory` over the given file as the lookup. The memory file is only read. |
| Pipeline.Run | agents.py:71-125 | `run_pipeline` as a value, with the memory lookup as a parameter. A HITL result carries the Parser entry alone. A SUCCESS result carries the seven entries in stage order and a confidence of 0.95 or 0.60. |
| Pipeline.AfterParse | agents.py:79-125 | The run from the parsed object on: every result it returns has the trace and the confidence its status allows. |
| Pipeline.RunStopsForClarification | agents.py:81-82 | The run stops exactly when needs_clarification is truthy. It then returns the message "Ambiguous Input" and the Parser entry with the parsed topic, and no later stage runs. |
| Pipeline.RunRaises | agents.py:85-97 | For a parsed object, the run raises in two cases: a topic that is not a string (in `lower()`), or a problem text that is not a string (in retrieval). No other case among parsed objects raises. |
| Pipeline.RunDataFlow | agents.py:89-125 | The problem text defaults to the raw text. The stages receive these inputs: lookup (problem); retrieval (problem); solver (problem, context, memory context); verifier (problem, solution); explainer (solution). The result carries the solution, explanation and context. The Memory entry says "found" exactly when "No similar" is absent from the memory context. A rejected reply is embedded in the Verifier entry. The confidence is 0.95 exactly when the reply contains "VERIFIED". |
| Pipeline.FallbackRunsFlagged | agents.py:76-86 | When the parser's call or decoding fails, or the reply decodes to an empty object, the parsed object is the fallback record. The run continues on the raw text with the topic "Unknown", which the router flags. The run still returns SUCCESS, with the flag in its Router entry. |
| Pipeline.DefaultRunsFlagged | agents.py:79-125 | From the fallback record, the run returns SUCCESS and its Router entry is FLAG. |
| Pipeline.MemoryLabelSound | agents.py:90-94 | A "found" Memory entry means a record was reported. |
| Pipeline.MemoryLabelMissesQuestion | agents.py:90-94 | A reported record whose question contains "No similar" is still labelled "no history". |
| Pipeline.RejectionMentioningVerifiedApproves | agents.py:106-108 | The reply "REJECTED: not VERIFIED" is scored as an approval. |
| App.AppendCorrect | app.py:169-186 | A missing file makes the handler fail. Otherwise the file holds the records read, or none when they do not decode, unchanged, followed by exactly one new record. That record has id = count + 1, the user's question, the result's solution and explanation, and POSITIVE feedback. |
| App.UnreadableFileRestarts | app.py:171-177 | A file that does not decode becomes the new record alone, with id 1. |
| App.AppendKeepsNumbering | app.py:177-184 | If the ids are 1..n before the append, they are 1..n+1 after it. |
| App.SavedQuestionIsReported | app.py:176-184 | After a "Correct" save, the lookup reports the saved question and explanation. This holds for a query sharing a word longer than four characters with the question, when every earlier record has a question. |
| App.MentorApp.EnsureMemoryFile | app.py:48-49 | A missing memory file becomes an empty list. An existing one is untouched. |
| App.MentorApp.Solve | app.py:108-115 | A blank or whitespace-only question never runs the pipeline. Any other question runs it against the current memory file, which is not changed. |
| App.MentorApp.GiveFeedback | app.py:169-191 | "Correct" replaces the file with `AppendCorrect` of it, unless the file is missing. "Incorrect" leaves the file unchanged. |

## Left out

- Language-model and vector-store calls are the functions of `Oracles`. Their failures are modelled only in the parser, where the source catches them. Elsewhere an exception simply propagates, and the model does not represent it.
- rag_engine.py: retrieval is the `retrieve` oracle. Building the knowledge base at start-up (app.py:51-54) is not part of this model.
- JSON decoding and encoding are abstracted:
  - The parser's decoder is a function returning `Option<map>`.
  - The memory file is its decoded content (`FileState`).
  - The decoder yields objects only. In the source, a reply that decodes to a truthy value other than an object (`[1]`, `"x"`, `5`, `true`) makes `parsed.get` raise at agents.py:79; `Run` does not represent that exception. A falsy one (`[]`, `0`, `""`) is replaced by the fallback record at agents.py:77, as the empty object is.
  - A memory file holding JSON other than a list of objects is not modelled.
  - A `question` that is a list or another container is not modelled; `in` would search its elements instead of raising.
  - An `explanation` that is not a string is not modelled.
- `AppendCorrect`: the file is rewritten from offset 0 without truncation. When the previous bytes were longer than the new dump, stale bytes remain after it. That can only happen when the old file did not decode or was not written by `json.dump`. The model assumes the new content replaces the old entirely.
- `Text.Lower`: lower-cases ASCII letters only. Python's `lower()` also maps other Unicode letters. The six topic names are ASCII, but a non-ASCII capital in the topic is not lowered by the model.
- `Text.Split`: `SplitWordsAreRuns` states which words `split()` returns, not their order or how often each repeats. The lookup only asks whether some word occurs, so order and repetition do not matter to it.
- `RunRaises`: with a non-string problem text, the model assumes retrieval raises. The vector-store call is not part of this model, so this is an assumption.
- Trace entries carry their stage and data, not the displayed wording or emoji. The RAG line counts words although the text says "chars".
- Streamlit is not modelled:
  - Its rerun model: the "Correct" button sits inside the Solve button's branch, and the click reruns the script with that branch closed. The model lets the click act on the result that was shown.
  - Session state: `ocr_result`.
  - OCR and speech transcription (utils.py).
  - Rendering, including the confidence bar and the "memory_used" panel, a key the pipeline never sets.
  - debug.py.
- Concurrent sessions writing memory.json: a single user is assumed.
- Confidence is one of two `real` constants. No floating-point arithmetic takes place.
