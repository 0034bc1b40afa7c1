/** The deterministic part of `EmployeeSentimentAnalyzer`
    (sentiment_analyzer.py): the blank-input short circuits of
    `gemini_feedback` and `analyze_feedback`, the cleaning of the model's
    reply, the parse with its fallback record, and the defaulting of
    `risk_score` and `recommendations`.

    The model's reply is an input, and `json.loads` is the parameter
    `decode`, which gives None where `json.loads` raises. */
module SentimentAnalyzer {
  import opened Wrappers
  import opened Text

  /** A value `json.loads` can produce. */
  datatype Json =
    | JNull
    | JBool(b: bool)
    | JInt(i: int)
    | JFloat(r: real)
    | JString(s: string)
    | JArray(items: seq<Json>)
    | JObject(fields: map<string, Json>)

  // ---------------------------------------------------------------------
  // Cleaning the reply: `re.sub(r"```[a-zA-Z]*\n?", "", raw).replace("```", "").strip()`

  /** Three backticks start at `i`. */
  predicate FenceAt(s: string, i: nat) {
    i + 3 <= |s| && s[i] == '`' && s[i + 1] == '`' && s[i + 2] == '`'
  }

  /** `s` contains no three backticks in a row. */
  predicate NoFence(s: string) {
    forall i :: 0 <= i < |s| ==> !FenceAt(s, i)
  }

  /** End of the run of ASCII letters that starts at `i` (greedy `[a-zA-Z]*`). */
  function LettersEnd(s: string, i: nat): (j: nat)
    requires i <= |s|
    ensures i <= j <= |s|
    ensures forall k :: i <= k < j ==> IsAsciiLetter(s[k])
    decreases |s| - i
  {
    if i < |s| && IsAsciiLetter(s[i]) then LettersEnd(s, i + 1) else i
  }

  /** Where the match of ```` ```[a-zA-Z]*\n? ```` that starts at `i` ends. */
  function FenceEnd(s: string, i: nat): (j: nat)
    requires FenceAt(s, i)
    ensures i + 3 <= j <= |s|
  {
    var e := LettersEnd(s, i + 3);
    if e < |s| && s[e] == '\n' then e + 1 else e
  }

  /** `re.sub(r"```[a-zA-Z]*\n?", "", s[i..])`: the scan either removes a
      match at the current position or keeps one character and moves on. */
  function StripFencesFrom(s: string, i: nat): string
    requires i <= |s|
    decreases |s| - i
  {
    if i == |s| then []
    else if FenceAt(s, i) then StripFencesFrom(s, FenceEnd(s, i))
    else [s[i]] + StripFencesFrom(s, i + 1)
  }

  function StripFences(s: string): string {
    StripFencesFrom(s, 0)
  }

  /** `s[i..].replace("```", "")`. */
  function RemoveFencesFrom(s: string, i: nat): string
    requires i <= |s|
    decreases |s| - i
  {
    if i == |s| then []
    else if FenceAt(s, i) then RemoveFencesFrom(s, i + 3)
    else [s[i]] + RemoveFencesFrom(s, i + 1)
  }

  /** `s.replace("```", "")`, which leaves no three backticks in a row. */
  function RemoveFences(s: string): (r: string)
    ensures NoFence(r)
  {
    RemoveFencesLeavesNone(s, 0);
    RemoveFencesFrom(s, 0)
  }

  /** `cleaned_output` for the stripped reply `raw`: it never contains
      three backticks in a row and has no whitespace at either end. */
  function CleanReply(raw: string): (r: string)
    ensures NoFence(r)
    ensures Trimmed(r)
  {
    StripKeepsNoFence(RemoveFences(StripFences(raw)));
    Strip(RemoveFences(StripFences(raw)))
  }

  /** Characters before the next three backticks are copied as they are. */
  lemma {:induction false} StripFencesCopies(s: string, i: nat, k: nat)
    requires i <= k <= |s|
    requires forall j :: i <= j < k ==> !FenceAt(s, j)
    ensures StripFencesFrom(s, i) == s[i..k] + StripFencesFrom(s, k)
    decreases k - i
  {
    if i < k {
      assert !FenceAt(s, i);
      var rest := StripFencesFrom(s, i + 1);
      assert StripFencesFrom(s, i) == [s[i]] + rest;
      StripFencesCopies(s, i + 1, k);
      assert s[i..k] == [s[i]] + s[i + 1..k];
      assert [s[i]] + rest == [s[i]] + (s[i + 1..k] + StripFencesFrom(s, k));
    }
  }

  lemma {:induction false} RemoveFencesCopies(s: string, i: nat, k: nat)
    requires i <= k <= |s|
    requires forall j :: i <= j < k ==> !FenceAt(s, j)
    ensures RemoveFencesFrom(s, i) == s[i..k] + RemoveFencesFrom(s, k)
    decreases k - i
  {
    if i < k {
      assert !FenceAt(s, i);
      var rest := RemoveFencesFrom(s, i + 1);
      assert RemoveFencesFrom(s, i) == [s[i]] + rest;
      RemoveFencesCopies(s, i + 1, k);
      assert s[i..k] == [s[i]] + s[i + 1..k];
      assert [s[i]] + rest == [s[i]] + (s[i + 1..k] + RemoveFencesFrom(s, k));
    }
  }

  lemma {:induction false} LettersEndUnique(s: string, i: nat, j: nat)
    requires i <= j <= |s|
    requires forall k :: i <= k < j ==> IsAsciiLetter(s[k])
    requires j == |s| || !IsAsciiLetter(s[j])
    ensures LettersEnd(s, i) == j
    decreases j - i
  {
    if i < j {
      LettersEndUnique(s, i + 1, j);
    }
  }

  /** After `.replace("```", "")` no three backticks are left: the
      character just before a removed fence is never a backtick, since the
      scan would have removed a fence one position earlier. */
  lemma {:induction false} RemoveFencesLeavesNone(s: string, i: nat)
    requires i <= |s|
    ensures NoFence(RemoveFencesFrom(s, i))
    decreases |s| - i
  {
    if i < |s| {
      if FenceAt(s, i) {
        RemoveFencesLeavesNone(s, i + 3);
      } else {
        RemoveFencesLeavesNone(s, i + 1);
        var rest := RemoveFencesFrom(s, i + 1);
        var r := [s[i]] + rest;
        assert r == RemoveFencesFrom(s, i);
        forall j | 0 <= j < |r| ensures !FenceAt(r, j) {
          if j > 0 {
            assert FenceAt(r, j) ==> FenceAt(rest, j - 1);
          } else if s[i] == '`' && i + 1 < |s| {
            // The next position cannot start a fence either, and keeps its character.
            assert !FenceAt(s, i + 1);
            assert rest == [s[i + 1]] + RemoveFencesFrom(s, i + 2);
            if s[i + 1] == '`' && i + 2 < |s| {
              assert s[i + 2] != '`';
              assert !FenceAt(s, i + 2);
              assert RemoveFencesFrom(s, i + 2) == [s[i + 2]] + RemoveFencesFrom(s, i + 3);
            }
          }
        }
      }
    }
  }

  /** Stripping whitespace cannot create three backticks in a row. */
  lemma StripKeepsNoFence(s: string)
    requires NoFence(s)
    ensures NoFence(Strip(s))
  {
    var r := Strip(s);
    var a := SkipSpaces(s, 0);
    assert forall j :: 0 <= j < |r| ==> r[j] == s[a + j];
    forall j | 0 <= j < |r| ensures !FenceAt(r, j) {
      assert FenceAt(r, j) ==> FenceAt(s, a + j);
    }
  }

  /** Text without three backticks in a row passes both removals unchanged. */
  lemma {:induction false} NoFenceKept(s: string)
    requires NoFence(s)
    ensures StripFences(s) == s && RemoveFences(s) == s
  {
    StripFencesCopies(s, 0, |s|);
    RemoveFencesCopies(s, 0, |s|);
    assert s[0..|s|] == s;
  }

  /** A reply without three backticks in a row is only stripped of whitespace. */
  lemma PlainReplyUnchanged(reply: string)
    requires NoFence(reply)
    ensures CleanReply(Strip(reply)) == Strip(reply)
  {
    var raw := Strip(reply);
    StripKeepsNoFence(reply);
    NoFenceKept(raw);
    assert CleanReply(raw) == Strip(raw);
    StripIdempotent(reply);
  }

  /** The reply fenced as ```` ```tag ```` newline, body, newline, ```` ``` ````. */
  function Fenced(tag: string, body: string): string {
    "```" + tag + "\n" + body + "\n```"
  }

  /** The opening fence takes the tag and its newline. */
  lemma {:induction false} OpeningFence(tag: string, body: string)
    requires forall k :: 0 <= k < |tag| ==> IsAsciiLetter(tag[k])
    ensures FenceAt(Fenced(tag, body), 0)
    ensures FenceEnd(Fenced(tag, body), 0) == 4 + |tag|
  {
    var s := Fenced(tag, body);
    var t := 3 + |tag|;
    assert forall k :: 3 <= k < t ==> s[k] == tag[k - 3];
    assert s[t] == '\n';
    LettersEndUnique(s, 3, t);
  }

  /** The closing fence is removed and nothing follows it. */
  lemma {:induction false} ClosingFence(tag: string, body: string)
    ensures FenceAt(Fenced(tag, body), |Fenced(tag, body)| - 3)
    ensures StripFencesFrom(Fenced(tag, body), |Fenced(tag, body)| - 3) == []
  {
    var s := Fenced(tag, body);
    var c := |s| - 3;
    assert FenceAt(s, c);
    LettersEndUnique(s, c + 3, |s|);
    assert FenceEnd(s, c) == |s|;
  }

  /** The body ends before the newline that precedes the closing fence, so
      no fence starts inside it or on that newline. */
  lemma {:induction false} NoFenceInside(tag: string, body: string)
    requires NoFence(body)
    ensures forall j :: 4 + |tag| <= j < |Fenced(tag, body)| - 3 ==> !FenceAt(Fenced(tag, body), j)
  {
    var s := Fenced(tag, body);
    var t := 4 + |tag|;
    var c := |s| - 3;
    assert forall q :: 0 <= q < |body| ==> s[t + q] == body[q];
    assert s[c - 1] == '\n';
    forall j | t <= j < c ensures !FenceAt(s, j) {
      if j + 3 < c {
        assert FenceAt(s, j) ==> FenceAt(body, j - t);
      }
    }
  }

  /** `re.sub` leaves the body and the newline before the closing fence. */
  lemma {:induction false} FencedBody(tag: string, body: string)
    requires forall k :: 0 <= k < |tag| ==> IsAsciiLetter(tag[k])
    requires NoFence(body)
    ensures StripFences(Fenced(tag, body)) == body + "\n"
  {
    var s := Fenced(tag, body);
    var t := 4 + |tag|;
    var c := |s| - 3;
    OpeningFence(tag, body);
    ClosingFence(tag, body);
    assert s[t..c] == body + "\n";
    NoFenceInside(tag, body);
    StripFencesCopies(s, t, c);
  }

  /** A newline after text without a fence does not make one. */
  lemma {:induction false} NewlineKeepsNoFence(body: string)
    requires NoFence(body)
    ensures NoFence(body + "\n")
  {
    var s := body + "\n";
    forall j | 0 <= j < |s| ensures !FenceAt(s, j) {
      if j + 3 < |s| {
        assert FenceAt(s, j) ==> FenceAt(body, j);
      } else {
        assert s[|s| - 1] == '\n';
      }
    }
  }

  /** A fenced reply is cleaned to the stripped body, for any tag of
      letters and any body without three backticks in a row; single
      backticks, such as inline code, stay in the body. */
  lemma FencedReplyUnwrapped(tag: string, body: string)
    requires forall k :: 0 <= k < |tag| ==> IsAsciiLetter(tag[k])
    requires NoFence(body)
    ensures Strip(Fenced(tag, body)) == Fenced(tag, body)
    ensures CleanReply(Strip(Fenced(tag, body))) == Strip(body)
  {
    var s := Fenced(tag, body);
    assert s[0] == '`' && s[|s| - 1] == '`';
    assert s[0..|s|] == s;
    StripUnique(s, 0, s);
    FencedBody(tag, body);
    var inner := body + "\n";
    NewlineKeepsNoFence(body);
    NoFenceKept(inner);
    StripDropsTrailingSpace(body, '\n');
  }

  /** A JSON body holding inline code in single backticks. */
  const InlineCodeBody := "{\"a\": \"`x`\"}"

  lemma InlineCodeBodyPlain()
    ensures NoFence(InlineCodeBody) && Strip(InlineCodeBody) == InlineCodeBody
  {
    var body := InlineCodeBody;
    assert body[8] == 'x' && body[10] == '"';
    forall i | 0 <= i < |body| ensures !FenceAt(body, i) {
      if body[i] == '`' {
        assert i == 7 || i == 9;
      }
    }
    assert body[0..|body|] == body;
    StripUnique(body, 0, body);
  }

  /** Inline code in a fenced reply survives the cleaning. */
  lemma InlineCodeKept()
    ensures CleanReply(Strip(Fenced("json", InlineCodeBody))) == InlineCodeBody
  {
    assert forall k :: 0 <= k < |"json"| ==> IsAsciiLetter("json"[k]);
    InlineCodeBodyPlain();
    FencedReplyUnwrapped("json", InlineCodeBody);
  }

  // ---------------------------------------------------------------------
  // `gemini_feedback` and `_safe_parse`

  /** The record `gemini_feedback` returns for blank feedback. */
  const EmptyFeedbackVerdict: Json := JObject(map[
    "error" := JString("Feedback text is empty"),
    "sentiment" := JString("neutral"),
    "risk_score" := JInt(0),
    "risk_level" := JString("Unknown"),
    "recommendations" := JArray([])])

  /** The record returned when the cleaned reply does not decode. */
  function ParseFailure(rawOutput: string): Json {
    JObject(map["error" := JString("Failed to parse response"), "raw_output" := JString(rawOutput)])
  }

  /** `_safe_parse`. */
  function SafeParse(responseText: string, fallback: Json, decode: string -> Option<Json>): (v: Json)
    ensures decode(responseText).Some? ==> v == decode(responseText).value
    ensures decode(responseText).None? ==> v == fallback
  {
    match decode(responseText)
    case Some(parsed) => parsed
    case None => fallback
  }

  /** The part of `gemini_feedback` after the model call, for the reply `reply`. */
  function ReplyVerdict(reply: string, decode: string -> Option<Json>): (v: Json)
    ensures decode(CleanReply(Strip(reply))).Some? ==> v == decode(CleanReply(Strip(reply))).value
    ensures decode(CleanReply(Strip(reply))).None? ==> v == ParseFailure(Strip(reply))
  {
    var rawOutput := Strip(reply);
    match decode(CleanReply(rawOutput))
    case Some(result) => result
    case None => ParseFailure(rawOutput)
  }

  /** `gemini_feedback`, with the reply the model would give. */
  function GeminiFeedback(feedbackText: string, reply: string, decode: string -> Option<Json>): (v: Json)
    ensures IsBlank(feedbackText) ==> v == EmptyFeedbackVerdict
    ensures !IsBlank(feedbackText) ==> v == ReplyVerdict(reply, decode)
  {
    if Strip(feedbackText) == [] then EmptyFeedbackVerdict
    else ReplyVerdict(reply, decode)
  }

  /** Blank feedback gives the fixed record without looking at any reply. */
  lemma BlankFeedbackVerdict(feedbackText: string, reply: string, decode: string -> Option<Json>,
                             reply': string, decode': string -> Option<Json>)
    requires IsBlank(feedbackText)
    ensures GeminiFeedback(feedbackText, reply, decode) == EmptyFeedbackVerdict
    ensures GeminiFeedback(feedbackText, reply, decode) == GeminiFeedback(feedbackText, reply', decode')
  {
  }

  /** Otherwise the reply is cleaned and parsed as `_safe_parse` would,
      with the error record holding the stripped raw reply as fallback. */
  lemma FeedbackIsSafeParse(feedbackText: string, reply: string, decode: string -> Option<Json>)
    requires !IsBlank(feedbackText)
    ensures GeminiFeedback(feedbackText, reply, decode) ==
      SafeParse(CleanReply(Strip(reply)), ParseFailure(Strip(reply)), decode)
  {
  }

  /** A well-formed reply, fenced or not, comes back as exactly the decoded
      value; a malformed one as the error record holding the raw reply. */
  lemma FencedFeedbackRoundTrip(feedbackText: string, tag: string, body: string, decode: string -> Option<Json>)
    requires !IsBlank(feedbackText)
    requires forall k :: 0 <= k < |tag| ==> IsAsciiLetter(tag[k])
    requires NoFence(body)
    ensures decode(Strip(body)).Some? ==>
      GeminiFeedback(feedbackText, Fenced(tag, body), decode) == decode(Strip(body)).value
    ensures decode(Strip(body)).None? ==>
      GeminiFeedback(feedbackText, Fenced(tag, body), decode) == ParseFailure(Fenced(tag, body))
  {
    FencedReplyUnwrapped(tag, body);
  }

  // ---------------------------------------------------------------------
  // `analyze_feedback`

  /** The record `analyze_feedback` returns for blank feedback. */
  const NoFeedbackReport: Json := JObject(map[
    "error" := JString("No feedback provided"),
    "sentiment" := JObject(map["sentiment" := JString("neutral"), "score" := JFloat(0.5)]),
    "topics" := JObject(map["topics" := JArray([]), "scores" := JArray([])]),
    "attrition_risk" := JObject(map["risk_score" := JFloat(0.0), "risk_level" := JString("Unknown")]),
    "recommendations" := JArray([JString("Cannot analyze - no feedback provided")])])

  /** `d.get(key, default)`. */
  function Get(fields: map<string, Json>, key: string, default: Json): (v: Json)
    ensures key in fields ==> v == fields[key]
    ensures key !in fields ==> v == default
  {
    if key in fields then fields[key] else default
  }

  /** `analyze_feedback`; calling `.get` on a verdict that is not a
      dictionary raises. */
  function AnalyzeFeedback(feedbackText: string, reply: string, decode: string -> Option<Json>): (r: Result<Json>)
    ensures IsBlank(feedbackText) ==> r == Ok(NoFeedbackReport)
    ensures !IsBlank(feedbackText) ==> (r.Ok? <==> ReplyVerdict(reply, decode).JObject?)
    ensures r.Err? ==> r.fault == GetOnNonObject
  {
    if Strip(feedbackText) == [] then Ok(NoFeedbackReport)
    else
      var sentiment := GeminiFeedback(feedbackText, reply, decode);
      match sentiment
      case JObject(fields) =>
        Ok(JObject(map[
          "sentiment" := sentiment,
          "risk_score" := Get(fields, "risk_score", JInt(0)),
          "recommendations" := Get(fields, "recommendations", JArray([]))]))
      case _ => Err(GetOnNonObject)
  }

  /** Blank feedback gives the fixed record of `analyze_feedback`, not the
      one of `gemini_feedback`, and no reply is looked at. */
  lemma BlankFeedbackReport(feedbackText: string, reply: string, decode: string -> Option<Json>,
                            reply': string, decode': string -> Option<Json>)
    requires IsBlank(feedbackText)
    ensures AnalyzeFeedback(feedbackText, reply, decode) == Ok(NoFeedbackReport)
    ensures AnalyzeFeedback(feedbackText, reply, decode) == AnalyzeFeedback(feedbackText, reply', decode')
    ensures NoFeedbackReport != EmptyFeedbackVerdict
  {
    assert "topics" in NoFeedbackReport.fields && "topics" !in EmptyFeedbackVerdict.fields;
  }

  /** `analyze_feedback` reaches `gemini_feedback` only with non-blank
      text, so the verdict it wraps is always the one read from the reply. */
  lemma VerdictComesFromReply(feedbackText: string, reply: string, decode: string -> Option<Json>)
    requires !IsBlank(feedbackText)
    requires AnalyzeFeedback(feedbackText, reply, decode).Ok?
    ensures ReplyVerdict(reply, decode).JObject?
    ensures AnalyzeFeedback(feedbackText, reply, decode) != Ok(NoFeedbackReport)
    ensures AnalyzeFeedback(feedbackText, reply, decode).value.JObject?
    ensures "sentiment" in AnalyzeFeedback(feedbackText, reply, decode).value.fields
    ensures AnalyzeFeedback(feedbackText, reply, decode).value.fields["sentiment"] == ReplyVerdict(reply, decode)
  {
    assert "topics" in NoFeedbackReport.fields;
    assert "topics" !in AnalyzeFeedback(feedbackText, reply, decode).value.fields;
  }

  /** The result has exactly the three keys; the verdict is kept whole and
      its `risk_score` and `recommendations` are passed through unchanged,
      with no clamping and no check of `risk_level`; a missing `risk_score`
      gives 0 and missing `recommendations` give the empty list. */
  lemma ReportPassesThrough(feedbackText: string, reply: string, decode: string -> Option<Json>)
    requires !IsBlank(feedbackText) && ReplyVerdict(reply, decode).JObject?
    ensures AnalyzeFeedback(feedbackText, reply, decode).Ok?
    ensures AnalyzeFeedback(feedbackText, reply, decode).value.JObject?
    ensures AnalyzeFeedback(feedbackText, reply, decode).value.fields.Keys == {"sentiment", "risk_score", "recommendations"}
    ensures AnalyzeFeedback(feedbackText, reply, decode).value.fields["sentiment"] == ReplyVerdict(reply, decode)
    ensures "risk_score" in ReplyVerdict(reply, decode).fields ==>
      AnalyzeFeedback(feedbackText, reply, decode).value.fields["risk_score"] == ReplyVerdict(reply, decode).fields["risk_score"]
    ensures "recommendations" in ReplyVerdict(reply, decode).fields ==>
      AnalyzeFeedback(feedbackText, reply, decode).value.fields["recommendations"] == ReplyVerdict(reply, decode).fields["recommendations"]
    ensures "risk_score" !in ReplyVerdict(reply, decode).fields ==>
      AnalyzeFeedback(feedbackText, reply, decode).value.fields["risk_score"] == JInt(0)
    ensures "recommendations" !in ReplyVerdict(reply, decode).fields ==>
      AnalyzeFeedback(feedbackText, reply, decode).value.fields["recommendations"] == JArray([])
  {
  }

  /** A verdict object holding only a sentiment gets both defaults. */
  lemma SentimentOnlyVerdict(feedbackText: string, reply: string, decode: string -> Option<Json>)
    requires !IsBlank(feedbackText)
    requires decode(CleanReply(Strip(reply))) == Some(JObject(map["sentiment" := JString("negative")]))
    ensures AnalyzeFeedback(feedbackText, reply, decode) == Ok(JObject(map[
      "sentiment" := JObject(map["sentiment" := JString("negative")]),
      "risk_score" := JInt(0),
      "recommendations" := JArray([])]))
  {
    ReportPassesThrough(feedbackText, reply, decode);
  }

  /** A reply that does not decode gives `risk_score` 0 and no
      recommendations, with the error record under "sentiment". */
  lemma ParseFailureDefaults(feedbackText: string, reply: string, decode: string -> Option<Json>)
    requires !IsBlank(feedbackText) && decode(CleanReply(Strip(reply))).None?
    ensures AnalyzeFeedback(feedbackText, reply, decode) == Ok(JObject(map[
      "sentiment" := ParseFailure(Strip(reply)),
      "risk_score" := JInt(0),
      "recommendations" := JArray([])]))
  {
    assert "risk_score" !in ParseFailure(Strip(reply)).fields;
    assert "recommendations" !in ParseFailure(Strip(reply)).fields;
  }

  /** A reply that decodes to something other than an object makes
      `analyze_feedback` raise. */
  lemma NonObjectVerdictFails(feedbackText: string, reply: string, decode: string -> Option<Json>)
    requires !IsBlank(feedbackText)
    requires decode(CleanReply(Strip(reply))).Some? && !decode(CleanReply(Strip(reply))).value.JObject?
    ensures AnalyzeFeedback(feedbackText, reply, decode) == Err(GetOnNonObject)
  {
  }

  /** A verdict in the shape the prompt asks for. */
  const WorkloadVerdict: Json := JObject(map[
    "sentiment" := JString("negative"),
    "risk_score" := JInt(65),
    "risk_level" := JString("Medium"),
    "recommendations" := JArray([JString("Review workload distribution")])])

  /** A plain reply decoding to `WorkloadVerdict` is wrapped with its
      risk score and recommendations unchanged; the risk level stays inside
      the verdict. */
  lemma WorkloadExample(feedbackText: string, reply: string, decode: string -> Option<Json>)
    requires !IsBlank(feedbackText)
    requires NoFence(reply) && Strip(reply) == reply
    requires decode(reply) == Some(WorkloadVerdict)
    ensures AnalyzeFeedback(feedbackText, reply, decode) ==
      Ok(JObject(map[
        "sentiment" := WorkloadVerdict,
        "risk_score" := JInt(65),
        "recommendations" := JArray([JString("Review workload distribution")])]))
  {
    PlainReplyUnchanged(reply);
  }
}
