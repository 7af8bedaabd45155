/**
 * The two agents of `MathAgents` whose logic does not depend on the language
 * model: the topic router (agents.py:46-48) and the parser's cleanup of the
 * model's reply with its fallback record (agents.py:30-44).
 */
module Agents {
  import opened Wrappers
  import opened Text
  import opened JsonValue

  // ---------------------------------------------------------------------------
  // Router
  // ---------------------------------------------------------------------------

  datatype Route = Proceed | Flag

  /** The allow-list of topics. */
  const AllowedTopics: seq<string> :=
    ["algebra", "calculus", "probability", "linear algebra", "geometry", "statistics"]

  /** Lower-cased, `topic` spells `t` from position `k` on. */
  predicate LowerMatchAt(t: string, topic: string, k: int) {
    0 <= k <= |topic| - |t| && forall j :: 0 <= j < |t| ==> LowerChar(topic[k + j]) == t[j]
  }

  /** `t in topic.lower()` holds exactly when `t` sits at some position of the lower-cased topic. */
  lemma OccursLowered(t: string, topic: string)
    ensures Occurs(t, Lower(topic)) <==> exists k :: LowerMatchAt(t, topic, k)
  {
    var lowered := Lower(topic);
    OccursAt(t, lowered);
    forall k ensures At(t, lowered, k) <==> LowerMatchAt(t, topic, k) {
      if 0 <= k <= |topic| - |t| {
        var window := lowered[k..k + |t|];
        assert forall j :: 0 <= j < |t| ==> window[j] == lowered[k + j];
      }
    }
  }

  /**
   * `router_agent`: PROCEED exactly when some allowed topic appears, letter
   * for letter after lower-casing, at some position of the topic.
   */
  function RouterAgent(topic: string): (route: Route)
    ensures route == Proceed <==> exists t, k :: t in AllowedTopics && LowerMatchAt(t, topic, k)
  {
    assert AnyOccurs(AllowedTopics, Lower(topic)) <==>
        exists t, k :: t in AllowedTopics && LowerMatchAt(t, topic, k) by {
      forall t | t in AllowedTopics {
        OccursLowered(t, topic);
      }
    }
    if AnyOccurs(AllowedTopics, Lower(topic)) then Proceed else Flag
  }

  /** The router does not depend on letter case. */
  lemma RouterIgnoresCase(topic: string)
    ensures RouterAgent(Lower(topic)) == RouterAgent(topic)
  {
    assert Lower(Lower(topic)) == Lower(topic);
  }

  /** A topic naming a subject with a capital letter proceeds. */
  lemma RouterProceedsOnCalculus(topic: string)
    requires topic == "Calculus problem"
    ensures RouterAgent(topic) == Proceed
  {
    assert LowerChar('C') == 'c';
    assert LowerMatchAt("calculus", topic, 0);
    assert "calculus" in AllowedTopics;
  }

  /** The parser's fallback topic is flagged. */
  lemma RouterFlagsUnknown()
    ensures RouterAgent("Unknown") == Flag
  {
  }

  /** A missing topic (the empty string) is flagged. */
  lemma RouterFlagsEmpty()
    ensures RouterAgent("") == Flag
  {
  }

  // ---------------------------------------------------------------------------
  // Parser: fence stripping and fallback
  // ---------------------------------------------------------------------------

  /** The bare fence marker and the fence marker with the `json` tag. */
  const Fence: string := "```"
  const JsonFence: string := "```json"

  predicate StartsWithTwoTicks(s: string) {
    |s| >= 2 && s[0] == '`' && s[1] == '`'
  }

  /** Removing a pattern keeps a first character that cannot start it. */
  lemma RemoveKeepsFirst(s: string, pattern: string)
    requires pattern != [] && s != [] && s[0] != pattern[0]
    ensures RemoveAll(s, pattern) != [] && RemoveAll(s, pattern)[0] == s[0]
  {
  }

  /**
   * After `replace("```", "")` no three backticks remain: a backtick kept just
   * before a removed fence would itself have started an earlier fence.
   */
  lemma {:induction false} RemovalLeavesNoFence(s: string)
    ensures !Occurs(Fence, RemoveAll(s, Fence))
    ensures !StartsWithTwoTicks(s) ==> !StartsWithTwoTicks(RemoveAll(s, Fence))
    decreases |s|
  {
    if |s| < 3 {
      assert RemoveAll(s, Fence) == s;
    } else if Fence <= s {
      RemovalLeavesNoFence(s[3..]);
    } else {
      var t := s[1..];
      RemovalLeavesNoFence(t);
      var rt := RemoveAll(t, Fence);
      assert RemoveAll(s, Fence) == [s[0]] + rt;
      if s[0] == '`' {
        assert !StartsWithTwoTicks(t);
        assert !(Fence <= [s[0]] + rt);
        assert ([s[0]] + rt)[1..] == rt;
        if !StartsWithTwoTicks(s) {
          RemoveKeepsFirst(t, Fence);
        }
      } else {
        assert ([s[0]] + rt)[1..] == rt;
      }
    }
  }

  /** The reply holds no backtick at all. */
  predicate NoBacktick(s: string) {
    forall k :: 0 <= k < |s| ==> s[k] != '`'
  }

  /** Removing the fence markers from a reply without backticks changes nothing. */
  lemma PlainReplyUnfenced(response: string)
    requires NoBacktick(response)
    ensures RemoveAll(RemoveAll(response, JsonFence), Fence) == response
  {
    AbsentFirstChar(JsonFence, response);
    RemoveAbsent(response, JsonFence);
    AbsentFirstChar(Fence, response);
    RemoveAbsent(response, Fence);
  }

  /**
   * The reply as the parser hands it to the JSON decoder (agents.py:42): every
   * "```json", then every "```", removed, then surrounding whitespace stripped.
   * No fence is left and neither end is whitespace; a reply without backticks
   * is only stripped.
   */
  function CleanFences(response: string): (cleaned: string)
    ensures !Occurs(Fence, cleaned)
    ensures cleaned == [] || (!IsSpace(cleaned[0]) && !IsSpace(cleaned[|cleaned| - 1]))
    ensures NoBacktick(response) ==> cleaned == Strip(response)
  {
    var unfenced := RemoveAll(RemoveAll(response, JsonFence), Fence);
    RemovalLeavesNoFence(RemoveAll(response, JsonFence));
    if NoBacktick(response) then
      PlainReplyUnfenced(response);
      NoFenceAfterStrip(unfenced);
      Strip(unfenced)
    else
      NoFenceAfterStrip(unfenced);
      Strip(unfenced)
  }

  /** Stripping keeps a text free of fences. */
  lemma NoFenceAfterStrip(s: string)
    requires !Occurs(Fence, s)
    ensures !Occurs(Fence, Strip(s))
  {
    if Occurs(Fence, Strip(s)) {
      OccursInStrip(Fence, s);
    }
  }

  /** Cleaning an already cleaned reply changes nothing. */
  lemma CleanFencesIdempotent(response: string)
    ensures CleanFences(CleanFences(response)) == CleanFences(response)
  {
    var c := CleanFences(response);
    assert !Occurs(JsonFence, c) by {
      if Occurs(JsonFence, c) { PrefixOccurs(Fence, JsonFence, c); }
    }
    RemoveAbsent(c, JsonFence);
    RemoveAbsent(c, Fence);
    StripFixed(c);
  }

  /** No fence starts inside a body framed by newlines and followed by a fence, when the body holds none. */
  lemma NoFenceInside(body: string)
    requires !Occurs(Fence, body)
    ensures var inner := "\n" + body + "\n";
      forall k :: 0 <= k < |inner| ==> !(Fence <= (inner + Fence)[k..])
  {
    var inner := "\n" + body + "\n";
    OccursAt(Fence, body);
    forall k | 0 <= k < |inner| ensures !(Fence <= (inner + Fence)[k..]) {
      var x := (inner + Fence)[k..];
      if k == 0 || k == |inner| - 1 {
        assert x[0] == '\n';
      } else if k + 3 <= |inner| - 1 {
        assert x[..3] == body[k - 1..k + 2];
        assert !At(Fence, body, k - 1);
      } else if k + 2 == |inner| - 1 {
        assert x[2] == '\n';
      } else {
        assert x[1] == '\n';
      }
    }
  }

  /** The json code block around `body`, as the fences and the framed body. */
  lemma FencedShape(body: string)
    ensures "```json\n" + body + "\n```" == JsonFence + ("\n" + body + "\n") + Fence
  {
  }

  /** The json fence marker starts wherever the bare one cannot. */
  lemma NoJsonFenceInside(inner: string)
    requires forall k :: 0 <= k < |inner| ==> !(Fence <= (inner + Fence)[k..])
    ensures forall k :: 0 <= k < |inner| ==> !(JsonFence <= (inner + Fence)[k..])
  {
    assert JsonFence[..3] == Fence;
  }

  /** A pattern at the very start is removed first. */
  lemma RemoveLeading(pattern: string, rest: string)
    requires pattern != []
    ensures RemoveAll(pattern + rest, pattern) == RemoveAll(rest, pattern)
  {
    assert (pattern + rest)[|pattern|..] == rest;
  }

  /** Removing both fence markers around a text in which no fence starts leaves the text. */
  lemma RemoveFencesAround(inner: string)
    requires forall k :: 0 <= k < |inner| ==> !(Fence <= (inner + Fence)[k..])
    ensures RemoveAll(RemoveAll(JsonFence + inner + Fence, JsonFence), Fence) == inner
  {
    NoJsonFenceInside(inner);
    assert JsonFence + inner + Fence == JsonFence + (inner + Fence);
    RemoveLeading(JsonFence, inner + Fence);
    RemoveKeepsPrefix(inner, Fence, JsonFence);
    assert RemoveAll(Fence, JsonFence) == Fence;
    RemoveKeepsPrefix(inner, Fence, Fence);
    assert RemoveAll(Fence, Fence) == [];
    assert inner + [] == inner;
  }

  /**
   * A reply fenced as a json code block is cleaned back to the block's body,
   * when the body holds no fence of its own (inline backticks are kept).
   */
  lemma CleanFencesUnwraps(body: string)
    requires !Occurs(Fence, body)
    requires Strip(body) == body
    ensures CleanFences("```json\n" + body + "\n```") == body
  {
    NoFenceInside(body);
    RemoveFencesAround("\n" + body + "\n");
    FencedShape(body);
    StripNewlines(body);
  }

  /** The record the parser falls back to: the raw text, topic "Unknown", no clarification needed. */
  function DefaultParse(text: string): (parsed: map<string, Json>)
    ensures Get(parsed, "problem_text", JNull) == JString(text)
    ensures Get(parsed, "topic", JNull) == JString("Unknown")
    ensures !Truthy(Get(parsed, "needs_clarification", JNull))
  {
    map["problem_text" := JString(text), "topic" := JString("Unknown"), "needs_clarification" := JBool(false)]
  }

  /**
   * `parser_agent(text)`: the model's reply for `text` (`None` when the call
   * raises), cleaned of fences and decoded (`None` when decoding raises).
   * Either failure yields the default record; otherwise the decoded object.
   */
  function ParserAgent(
    text: string,
    model: string -> Option<string>,
    decode: string -> Option<map<string, Json>>): (parsed: map<string, Json>)
    ensures model(text).None? ==> parsed == DefaultParse(text)
    ensures model(text).Some? && decode(CleanFences(model(text).value)).None? ==> parsed == DefaultParse(text)
    ensures model(text).Some? && decode(CleanFences(model(text).value)).Some? ==>
      parsed == decode(CleanFences(model(text).value)).value
  {
    match model(text)
    case None => DefaultParse(text)
    case Some(response) =>
      match decode(CleanFences(response))
      case None => DefaultParse(text)
      case Some(obj) => obj
  }

  /** A reply wrapped in a json code block decodes as its body would. */
  lemma ParserUnwrapsFencedReply(
    text: string, body: string,
    model: string -> Option<string>,
    decode: string -> Option<map<string, Json>>)
    requires model(text) == Some("```json\n" + body + "\n```")
    requires !Occurs(Fence, body)
    requires Strip(body) == body
    ensures ParserAgent(text, model, decode) == decode(body).GetOr(DefaultParse(text))
  {
    var reply := model(text).value;
    assert !NoBacktick(reply) by { assert reply[0] == '`'; }
    CleanFencesUnwraps(body);
    assert CleanFences(reply) == body;
  }
}
