/**
 * The parts of the Streamlit page that touch the memory store (app.py): the
 * file is created empty at start-up, a blank question is refused before the
 * pipeline runs, and "Correct" feedback appends one record to the file while
 * "Incorrect" leaves it as it is.
 */
module App {
  import opened Wrappers
  import opened Text
  import opened Memory
  import opened Pipeline

  datatype Verdict = Correct | Incorrect

  /** What `json.load` gives the feedback handler: the stored records, or `[]` when the file does not decode. */
  function Stored(file: FileState): seq<MemoryRecord> {
    if file.Holds? then file.records else []
  }

  /** The object the feedback handler writes for the question `userText` and its accepted answer. */
  function NewRecord(id: int, userText: string, solution: string, explanation: string): MemoryRecord {
    MemoryRecord(id, Some(userText), solution, Some(explanation), Positive)
  }

  /**
   * The file after "Correct" (app.py:169-186): `None` when it is missing (the
   * `open(..., "r+")` raises); otherwise the records read (none when they do
   * not decode) followed by the new record, numbered one past their count.
   */
  function AppendCorrect(file: FileState, userText: string, solution: string, explanation: string): (r: Option<FileState>)
    ensures r.None? <==> file.Absent?
    ensures r.Some? ==> r.value.Holds? && |r.value.records| == |Stored(file)| + 1
    ensures r.Some? ==> r.value.records[..|Stored(file)|] == Stored(file)
    ensures r.Some? ==>
      r.value.records[|Stored(file)|] == NewRecord(|Stored(file)| + 1, userText, solution, explanation)
  {
    if file.Absent? then None
    else
      var data := Stored(file);
      var records := data + [NewRecord(|data| + 1, userText, solution, explanation)];
      assert records[..|data|] == data;
      Some(Holds(records))
  }

  /** A file that does not decode is replaced by the new record alone, numbered 1. */
  lemma UnreadableFileRestarts(userText: string, solution: string, explanation: string)
    ensures AppendCorrect(Unreadable, userText, solution, explanation) ==
      Some(Holds([NewRecord(1, userText, solution, explanation)]))
  {
  }

  /** The records are numbered 1, 2, 3, ... in file order. */
  predicate NumberedInOrder(records: seq<MemoryRecord>) {
    forall k :: 0 <= k < |records| ==> records[k].id == k + 1
  }

  /** Saving feedback keeps the numbering: the new record takes the next number. */
  lemma AppendKeepsNumbering(file: FileState, userText: string, solution: string, explanation: string)
    requires !file.Absent?
    requires NumberedInOrder(Stored(file))
    ensures NumberedInOrder(AppendCorrect(file, userText, solution, explanation).value.records)
  {
    var records := AppendCorrect(file, userText, solution, explanation).value.records;
    forall k | 0 <= k < |records| ensures records[k].id == k + 1 {
      if k < |Stored(file)| {
        assert records[k] == records[..|Stored(file)|][k];
      }
    }
  }

  /**
   * A question saved as correct is what a later lookup reports, when the later
   * query has a word longer than four characters that occurs in it and every
   * earlier record has a question (otherwise the scan raises).
   */
  lemma SavedQuestionIsReported(
    file: FileState, userText: string, solution: string, explanation: string, query: string, w: string)
    requires !file.Absent?
    requires AllQuestioned(Stored(file))
    requires w in Split(query) && |w| > 4 && Occurs(w, userText)
    ensures var saved := AppendCorrect(file, userText, solution, explanation).value;
      SearchMemory(saved, query) == Report(userText, explanation)
  {
    var saved := AppendCorrect(file, userText, solution, explanation).value;
    var records := saved.records;
    var n := |Stored(file)|;
    var words := QueryWords(query);
    assert w in words;
    assert records[n] == NewRecord(n + 1, userText, solution, explanation);
    assert Matches(records[n], words);
    assert AllQuestioned(records) by {
      forall k | 0 <= k < |records| ensures records[k].question.Some? {
        if k < n {
          assert records[k] == records[..n][k];
        }
      }
    }
    assert Reports(saved, query, n);
    SearchReportsLastMatch(saved, query, n);
  }

  /** The page's state that outlives a run: the memory file. */
  class MentorApp {
    var memory: FileState

    constructor (disk: FileState)
      ensures memory == disk
    {
      memory := disk;
    }

    /** Start-up (app.py:48-49): a missing memory file is created holding an empty list. */
    method EnsureMemoryFile()
      modifies this
      ensures old(memory).Absent? ==> memory == Holds([])
      ensures !old(memory).Absent? ==> memory == old(memory)
    {
      if memory.Absent? {
        memory := Holds([]);
      }
    }

    /**
     * The Solve button (app.py:108-115): a blank question is refused with a
     * warning (`None`) and the pipeline does not run; otherwise the pipeline
     * runs on the question against the current memory file.
     */
    method Solve(userText: string, o: Oracles) returns (outcome: Option<Outcome>)
      ensures outcome.None? <==> IsBlank(userText)
      ensures outcome.Some? ==>
        var m := memory;
        outcome.value == Run(userText, o, q => SearchMemory(m, q))
    {
      if Strip(userText) == [] {
        return None;
      }
      var result := RunPipeline(userText, memory, o);
      return Some(result);
    }

    /**
     * The feedback buttons under a successful result (app.py:169-191):
     * "Correct" appends the question and the result to the memory file,
     * failing when the file is missing; "Incorrect" only shows a message.
     */
    method GiveFeedback(verdict: Verdict, userText: string, result: PipelineResult) returns (saved: bool)
      requires result.Success?
      modifies this
      ensures saved <==> verdict == Correct && !old(memory).Absent?
      ensures saved ==>
        Some(memory) == AppendCorrect(old(memory), userText, result.solution, result.explanation)
      ensures !saved ==> memory == old(memory)
    {
      saved := false;
      if verdict == Correct {
        var written := AppendCorrect(memory, userText, result.solution, result.explanation);
        if written.Some? {
          memory := written.value;
          saved := true;
        }
      }
    }
  }
}
