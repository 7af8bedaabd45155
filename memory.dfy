/**
 * The memory store and its lexical lookup (`search_memory`, agents.py:16-27):
 * a record is relevant when one of the query's words longer than four
 * characters occurs in its question, and the last relevant record is reported.
 */
module Memory {
  import opened Wrappers
  import opened Text

  /** The only feedback value ever written. */
  datatype Feedback = Positive

  /**
   * One object of the list held by the memory file. `question` and
   * `explanation` are the two keys the lookup reads; `None` stands for a key
   * that is missing from an object the feedback path did not write.
   */
  datatype MemoryRecord = MemoryRecord(
    id: int,
    question: Option<string>,
    solution: string,
    explanation: Option<string>,
    userFeedback: Feedback)

  /** The memory file: missing, not decodable as a list of records, or holding one. */
  datatype FileState = Absent | Unreadable | Holds(records: seq<MemoryRecord>)

  /** The sentinel every failure path of the lookup returns. */
  const NoMatch: string := "No similar past problems found."

  /** The text reported for a relevant record. */
  function Report(question: string, explanation: string): (r: string)
    ensures r != NoMatch
  {
    var r := "Similar Problem: " + question + "\nExplanation: " + explanation;
    assert r[0] != NoMatch[0];
    r
  }

  /** The words of the query that take part in the match: those longer than four characters. */
  function LongWords(words: seq<string>): (r: seq<string>)
    ensures forall w :: w in r <==> w in words && |w| > 4
  {
    if words == [] then []
    else
      var rest := LongWords(words[1..]);
      assert forall w :: w in words <==> w == words[0] || w in words[1..];
      if |words[0]| > 4 then [words[0]] + rest else rest
  }

  /** The query words the lookup tries: `[w for w in query.split() if len(w) > 4]`. */
  function QueryWords(query: string): seq<string> {
    LongWords(Split(query))
  }

  /** A record is relevant when it has a question in which one of the words occurs. */
  predicate Matches(m: MemoryRecord, words: seq<string>) {
    m.question.Some? && AnyOccurs(words, m.question.value)
  }

  /** Record `i` is relevant and no later record is. */
  predicate IsLastMatch(records: seq<MemoryRecord>, words: seq<string>, i: int) {
    0 <= i < |records| && Matches(records[i], words) &&
    forall j :: i < j < |records| ==> !Matches(records[j], words)
  }

  /**
   * The comprehension at agents.py:22. With at least one word, every record's
   * `question` is read, so a record without one raises (`None`); with no word
   * the inner `any` never reads it and nothing is relevant.
   */
  function Relevant(records: seq<MemoryRecord>, words: seq<string>): (r: Option<seq<MemoryRecord>>)
    ensures r.None? <==> words != [] && exists i :: 0 <= i < |records| && records[i].question.None?
    ensures r.Some? ==> forall m :: m in r.value ==> m in records && Matches(m, words)
    ensures r.Some? ==> (r.value == [] <==> forall i :: 0 <= i < |records| ==> !Matches(records[i], words))
  {
    if records == [] then Some([])
    else if words != [] && records[0].question.None? then None
    else
      var rest := Relevant(records[1..], words);
      assert forall i :: 0 < i < |records| ==> records[i] == records[1..][i - 1];
      assert forall m :: m in records[1..] ==> m in records;
      match rest
      case None =>
        None
      case Some(t) =>
        if Matches(records[0], words) then Some([records[0]] + t) else Some(t)
  }

  /** One step of the comprehension: the first record, when relevant, followed by the rest's relevant records. */
  lemma RelevantStep(records: seq<MemoryRecord>, words: seq<string>)
    requires records != [] && Relevant(records, words).Some?
    ensures Relevant(records[1..], words).Some?
    ensures Relevant(records, words).value ==
      (if Matches(records[0], words) then [records[0]] else []) + Relevant(records[1..], words).value
  {
  }

  /** No record from `k` on matches. */
  predicate NoneMatchFrom(records: seq<MemoryRecord>, words: seq<string>, k: nat) {
    forall j :: k <= j < |records| ==> !Matches(records[j], words)
  }

  lemma NoneMatchShift(records: seq<MemoryRecord>, words: seq<string>, k: nat)
    requires 0 < k <= |records|
    requires NoneMatchFrom(records, words, k)
    ensures NoneMatchFrom(records[1..], words, k - 1)
  {
    forall j | k - 1 <= j < |records| - 1 ensures !Matches(records[1..][j], words) {
      assert records[1..][j] == records[j + 1];
    }
  }

  /** The last relevant record found by the comprehension is the last record that matches. */
  lemma {:induction false} RelevantLast(records: seq<MemoryRecord>, words: seq<string>, i: int)
    requires Relevant(records, words).Some?
    requires IsLastMatch(records, words, i)
    ensures var t := Relevant(records, words).value; t != [] && t[|t| - 1] == records[i]
    decreases |records|
  {
    var rest := records[1..];
    RelevantStep(records, words);
    if i == 0 {
      NoneMatchShift(records, words, 1);
      assert Relevant(rest, words).value == [];
    } else {
      NoneMatchShift(records, words, i + 1);
      assert rest[i - 1] == records[i];
      RelevantLast(rest, words, i - 1);
    }
  }

  /** When the comprehension finds a relevant record, some record is the last one that matches. */
  lemma {:induction false} RelevantHasLast(records: seq<MemoryRecord>, words: seq<string>)
    requires Relevant(records, words).Some? && Relevant(records, words).value != []
    ensures exists i :: IsLastMatch(records, words, i)
    decreases |records|
  {
    var rest := records[1..];
    RelevantStep(records, words);
    if Relevant(rest, words).value != [] {
      RelevantHasLast(rest, words);
      var i' :| IsLastMatch(rest, words, i');
      assert rest[i'] == records[i' + 1];
      forall j | i' + 1 < j < |records| ensures !Matches(records[j], words) {
        assert records[j] == rest[j - 1];
      }
      assert IsLastMatch(records, words, i' + 1);
    } else {
      forall j | 0 < j < |records| ensures !Matches(records[j], words) {
        assert records[j] == rest[j - 1];
      }
      assert IsLastMatch(records, words, 0);
    }
  }

  /** Every record of the list has a question, so scanning it cannot raise. */
  predicate AllQuestioned(records: seq<MemoryRecord>) {
    forall i :: 0 <= i < |records| ==> records[i].question.Some?
  }

  /**
   * The lookup reports record `i` of the memory file for `query`: the file
   * decodes, the scan does not raise, record `i` is the last relevant one and
   * it has an explanation.
   */
  predicate Reports(file: FileState, query: string, i: int) {
    file.Holds? &&
    (QueryWords(query) == [] || AllQuestioned(file.records)) &&
    IsLastMatch(file.records, QueryWords(query), i) &&
    file.records[i].explanation.Some?
  }

  /**
   * `search_memory(query)` over the memory file: the report of the last
   * relevant record, or the sentinel on every failure path.
   */
  function SearchMemory(file: FileState, query: string): (r: string)
    ensures file.Absent? || file.Unreadable? || file == Holds([]) || QueryWords(query) == [] ==> r == NoMatch
  {
    match file
    case Absent => NoMatch
    case Unreadable => NoMatch
    case Holds(records) =>
      var words := QueryWords(query);
      match Relevant(records, words)
      case None =>
        NoMatch
      case Some(relevant) =>
        if relevant == [] then NoMatch
        else
          var last := relevant[|relevant| - 1];
          assert last in relevant;
          if last.explanation.None? then NoMatch
          else Report(last.question.value, last.explanation.value)
  }

  /** When record `i` is the one to report, the lookup reports exactly it. */
  lemma SearchReportsLastMatch(file: FileState, query: string, i: int)
    requires Reports(file, query, i)
    ensures SearchMemory(file, query) ==
      Report(file.records[i].question.value, file.records[i].explanation.value)
  {
    var records, words := file.records, QueryWords(query);
    var rel := Relevant(records, words);
    assert rel.Some? by {
      if words != [] {
        assert AllQuestioned(records);
      }
    }
    RelevantLast(records, words, i);
    var last := rel.value[|rel.value| - 1];
    assert last == records[i];
  }

  /** The lookup returns something other than the sentinel only by reporting some record. */
  lemma SearchFindsOnlyReportable(file: FileState, query: string)
    ensures SearchMemory(file, query) != NoMatch ==> exists i :: Reports(file, query, i)
  {
    if SearchMemory(file, query) != NoMatch {
      var words := QueryWords(query);
      var t := Relevant(file.records, words).value;
      RelevantHasLast(file.records, words);
      var i :| IsLastMatch(file.records, words, i);
      RelevantLast(file.records, words, i);
      assert t[|t| - 1] in t;
      assert Reports(file, query, i);
    }
  }

  /** The sentinel comes back exactly when no record is reportable. */
  lemma SearchNoMatchIff(file: FileState, query: string)
    ensures SearchMemory(file, query) == NoMatch <==> forall i :: !Reports(file, query, i)
  {
    SearchFindsOnlyReportable(file, query);
    forall i | Reports(file, query, i) ensures SearchMemory(file, query) != NoMatch {
      SearchReportsLastMatch(file, query, i);
    }
  }
}
