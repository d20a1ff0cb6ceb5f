/**
  `generateQuizWithAI` (index.ts lines 95-205) after the completion request: the
  status mapping, the extraction of the reply text, the removal of a markdown fence and
  the defaulting of the fields of the parsed reply. The request itself, the API key
  lookup and `JSON.parse` are inputs.
 */
module Generate {
  import opened Text
  import opened JsValue
  import opened Errors

  /* ---------------------------------------------------------------------------
     Status mapping   (lines 160-171)
     --------------------------------------------------------------------------- */

  /** The failure for a non-2xx completion status: 429 and 402 have their own message,
      every other status is reported with its number. */
  function StatusFailure(status: nat): (r: Failure)
    ensures r == RateLimited <==> status == 429
    ensures r == CreditsExhausted <==> status == 402
    ensures r.GenerationFailed? <==> status != 429 && status != 402
    ensures r.GenerationFailed? ==> r.status == status
  {
    if status == 429 then RateLimited
    else if status == 402 then CreditsExhausted
    else GenerationFailed(status)
  }

  /** Distinct statuses outside 429 and 402 give distinct messages. */
  lemma StatusFailureMessages(a: nat, b: nat)
    requires a != 429 && a != 402 && b != 429 && b != 402 && a != b
    ensures Message(StatusFailure(a)) != Message(StatusFailure(b))
  {
    var p := "AI generation failed: ";
    DecimalStringInjective(a, b);
    var ma, mb := Message(StatusFailure(a)).value, Message(StatusFailure(b)).value;
    assert ma == p + DecimalString(a) && mb == p + DecimalString(b);
    assert ma[|p|..] == DecimalString(a) && mb[|p|..] == DecimalString(b);
  }

  /* ---------------------------------------------------------------------------
     The reply text: data.choices?.[0]?.message?.content   (lines 173-178)
     --------------------------------------------------------------------------- */

  /** `v?.key`: `undefined` and `null` short-circuit to `undefined`, any other value has
      the property read. */
  function OptionalProperty(v: Option<Json>, key: string): (r: Option<Json>)
    ensures r.Some? <==> v.Some? && v.value.JObject? && key in v.value.fields
    ensures r.Some? ==> r.value == v.value.fields[key]
  {
    if v.None? || v.value == JNull then None else Property(v.value, key).value
  }

  /** `v?.[0]`: the first element of an array, the property "0" of an object, the first
      code unit of a string; `undefined` for everything else. */
  function OptionalFirst(v: Option<Json>): (r: Option<Json>)
    ensures v.Some? && v.value.JArray? && v.value.elems != [] ==> r == Some(v.value.elems[0])
    ensures v.Some? && v.value.JObject? && "0" in v.value.fields ==> r == Some(v.value.fields["0"])
    ensures v.Some? && v.value.JString? && v.value.s != [] ==> r == Some(JString(v.value.s[..1]))
    ensures r.Some? <==>
      v.Some? && ((v.value.JArray? && v.value.elems != []) ||
                  (v.value.JObject? && "0" in v.value.fields) ||
                  (v.value.JString? && v.value.s != []))
  {
    match v
    case None => None
    case Some(JArray(e)) => if e != [] then Some(e[0]) else None
    case Some(JObject(m)) => if "0" in m then Some(m["0"]) else None
    case Some(JString(s)) => if s != [] then Some(JString(s[..1])) else None
    case Some(_) => None
  }

  /** Line 174 on the parsed completion body. Reading `choices` of `null` throws. */
  function CompletionContent(data: Json): (r: Result<Option<Json>, ()>)
    ensures r.Err? <==> data == JNull
  {
    match Property(data, "choices")
    case Err(_) => Err(())
    case Ok(choices) => Ok(OptionalProperty(OptionalProperty(OptionalFirst(choices), "message"), "content"))
  }

  /** The shape the completion service documents. */
  function CompletionBody(content: Json): Json {
    JObject(map["choices" := JArray([JObject(map["message" := JObject(map["content" := content])])])])
  }

  /** The reply of a well-formed completion body is its first choice's message content. */
  lemma CompletionContentOfBody(content: Json)
    ensures CompletionContent(CompletionBody(content)) == Ok(Some(content))
  {
  }

  /** A body without `choices` has no reply. */
  lemma CompletionContentWithoutChoices(fields: map<string, Json>)
    requires "choices" !in fields
    ensures CompletionContent(JObject(fields)) == Ok(None)
  {
  }

  /** What the completion request produced: its status and its body parsed as JSON,
      `None` when `response.json()` rejects. */
  datatype AiResponse = AiResponse(status: nat, body: Option<Json>)

  /** Lines 160-183 up to the `trim()`: the reply text, or the failure raised on the way.
      A truthy reply that is not a string has no `trim` method: the TypeError is the
      runtime's. */
  function ReplyText(ai: AiResponse): (r: Result<string, Failure>)
    ensures !IsOkStatus(ai.status) ==> r == Err(StatusFailure(ai.status))
    ensures r == Err(NoResponse) <==>
      (IsOkStatus(ai.status) && ai.body.Some? && ai.body.value != JNull &&
       !Truthy(CompletionContent(ai.body.value).value))
    ensures r.Ok? ==>
      (r.value != [] && IsOkStatus(ai.status) && ai.body.Some? &&
       CompletionContent(ai.body.value) == Ok(Some(JString(r.value))))
    ensures forall t :: (t != [] && IsOkStatus(ai.status) && ai.body.Some? &&
                         CompletionContent(ai.body.value) == Ok(Some(JString(t)))) ==> r == Ok(t)
    ensures r == Err(ThrownByRuntime) <==>
      IsOkStatus(ai.status) &&
      (ai.body.None? || ai.body == Some(JNull) ||
       (Truthy(CompletionContent(ai.body.value).value) &&
        !CompletionContent(ai.body.value).value.value.JString?))
  {
    if !IsOkStatus(ai.status) then Err(StatusFailure(ai.status))
    else if ai.body.None? then Err(ThrownByRuntime)
    else match CompletionContent(ai.body.value)
      case Err(_) => Err(ThrownByRuntime)
      case Ok(c) =>
        if !Truthy(c) then Err(NoResponse)
        else if c.value.JString? then Ok(c.value.s)
        else Err(ThrownByRuntime)
  }

  /* ---------------------------------------------------------------------------
     Markdown fence   (lines 183-188)
     --------------------------------------------------------------------------- */

  const Fence: string := "```"

  /** `.replace(/^```(?:json)?\n?/, "")` on text starting with a fence: the fence, then
      `json` if it follows, then one newline if it follows. Both optional parts are
      greedy, so each is removed whenever it is there. */
  function DropLeadingFence(s: string): (r: string)
    requires StartsWith(s, Fence)
    ensures |r| <= |s| - |Fence|
    ensures StartsWith(s, "```json\n") ==> s == "```json\n" + r
    ensures StartsWith(s, "```json") && !StartsWith(s, "```json\n") ==> s == "```json" + r
    ensures !StartsWith(s, "```json") && StartsWith(s, "```\n") ==> s == "```\n" + r
    ensures !StartsWith(s, "```json") && !StartsWith(s, "```\n") ==> s == "```" + r
  {
    if StartsWith(s, "```json\n") then
      assert s == s[..8] + s[8..];
      s[8..]
    else if StartsWith(s, "```json") then
      assert s == s[..7] + s[7..];
      s[7..]
    else if StartsWith(s, "```\n") then
      assert s == s[..4] + s[4..];
      s[4..]
    else
      assert s == s[..3] + s[3..];
      s[3..]
  }

  /** `.replace(/\n?```$/, "")`: a final fence is dropped, with the newline before it if
      there is one; text that does not end in a fence is unchanged. */
  function DropTrailingFence(s: string): (r: string)
    ensures s == r || s == r + "```" || s == r + "\n```"
    ensures |r| <= |s|
    ensures r == s <==> !EndsWith(s, Fence)
  {
    if |s| >= 4 && s[|s| - 4..] == "\n```" then
      assert s == s[..|s| - 4] + s[|s| - 4..];
      s[..|s| - 4]
    else if |s| >= 3 && s[|s| - 3..] == Fence then
      assert s == s[..|s| - 3] + s[|s| - 3..];
      s[..|s| - 3]
    else s
  }

  /** Line 187 on the trimmed reply: when it starts with a fence, the opening fence and
      then the closing one are dropped; otherwise it is kept. */
  function Unfence(j: string): (r: string)
    ensures !StartsWith(j, Fence) ==> r == j
    ensures StartsWith(j, Fence) ==> r == DropTrailingFence(DropLeadingFence(j))
    ensures |r| <= |j|
  {
    if StartsWith(j, Fence) then DropTrailingFence(DropLeadingFence(j)) else j
  }

  /** Lines 183-188: the reply trimmed, and a fence at each end dropped when it starts
      with one. */
  function StripFence(reply: string): (r: string)
    ensures !StartsWith(Trim(reply), Fence) ==> r == Trim(reply)
    ensures StartsWith(Trim(reply), Fence) ==> r == DropTrailingFence(DropLeadingFence(Trim(reply)))
    ensures |r| <= |Trim(reply)|
  {
    Unfence(Trim(reply))
  }

  lemma FencedIsTrimmed(open: string, c: string)
    requires StartsWith(open, Fence)
    ensures Trim(open + c + "\n" + Fence) == open + c + "\n" + Fence
  {
    var s := open + c + "\n" + Fence;
    assert s[0] == '`' && s[|s| - 1] == '`';
    TrimOfTrimmed(s);
  }

  lemma DropClosingFence(c: string)
    ensures DropTrailingFence(c + "\n```") == c
  {
    var s := c + "\n```";
    assert s[|s| - 4..] == "\n```";
    assert s[..|s| - 4] == c;
  }

  /** The opening of a JSON code block is removed whole. */
  lemma DropJsonOpening(c: string)
    ensures DropLeadingFence("```json\n" + c) == c
  {
    var s := "```json\n" + c;
    assert s[..3] == Fence && s[..8] == "```json\n";
    assert s[8..] == c;
  }

  /** The opening of a plain code block is removed whole. */
  lemma DropPlainOpening(c: string)
    ensures DropLeadingFence("```\n" + c) == c
  {
    var s := "```\n" + c;
    assert s[..3] == Fence && s[..4] == "```\n";
    assert !StartsWith(s, "```json") by {
      assert s[3] == '\n';
    }
    assert s[4..] == c;
  }

  /** A reply fenced as a JSON code block yields exactly the text inside the fence. */
  lemma StripJsonFence(c: string)
    ensures StripFence("```json\n" + c + "\n```") == c
  {
    var s := "```json\n" + c + "\n```";
    FencedIsTrimmed("```json\n", c);
    assert s[..3] == Fence;
    assert s == "```json\n" + (c + "\n```");
    DropJsonOpening(c + "\n```");
    DropClosingFence(c);
  }

  /** A reply fenced as a plain code block yields exactly the text inside the fence. */
  lemma StripPlainFence(c: string)
    ensures StripFence("```\n" + c + "\n```") == c
  {
    var s := "```\n" + c + "\n```";
    FencedIsTrimmed("```\n", c);
    assert s[..3] == Fence;
    assert s == "```\n" + (c + "\n```");
    DropPlainOpening(c + "\n```");
    DropClosingFence(c);
  }

  /** Only one fence is removed at each end: a doubly fenced reply keeps the inner fence. */
  lemma StripFenceOnce(c: string)
    ensures StripFence("```\n```\n" + c + "\n```\n```") == "```\n" + c + "\n```"
  {
    var inner := "```\n" + c + "\n```";
    assert "```\n```\n" + c + "\n```\n```" == "```\n" + inner + "\n```";
    StripPlainFence(inner);
  }

  /* ---------------------------------------------------------------------------
     Field defaulting   (lines 190-204)
     --------------------------------------------------------------------------- */

  /** The result of the generator. Only `title` and `sections` have a known type: the
      other four are whatever the model sent, or their defaults. */
  datatype QuizData = QuizData(
    title: string,
    summary: Json,
    keyEntities: Json,
    sections: seq<string>,
    quiz: Json,
    relatedTopics: Json)

  /** `{ people: [], organizations: [], locations: [] }`. */
  const NoEntities: Json :=
    JObject(map["people" := JArray([]), "organizations" := JArray([]), "locations" := JArray([])])

  /** `v` is what `p.key || d` gives: the property when it is truthy, `d` otherwise. */
  predicate Defaulted(p: Json, key: string, d: Json, v: Json)
    requires p != JNull
  {
    (Truthy(Property(p, key).value) ==> Some(v) == Property(p, key).value) &&
    (!Truthy(Property(p, key).value) ==> v == d)
  }

  /** `parsed.key || d` on a parsed value that is not `null`. */
  function FieldOr(parsed: Json, key: string, d: Json): (r: Json)
    requires parsed != JNull
    ensures Truthy(Property(parsed, key).value) ==> Some(r) == Property(parsed, key).value
    ensures !Truthy(Property(parsed, key).value) ==> r == d
  {
    OrDefault(Property(parsed, key).value, d)
  }

  /** Lines 190-204 with `parse` standing for `JSON.parse` (`None` when it throws).
      Reading a field of `null` throws inside the `try` as well. */
  function BuildQuizData(title: string, sections: seq<string>, parsed: Option<Json>): (r: Result<QuizData, Failure>)
    ensures r.Err? <==> parsed.None? || parsed == Some(JNull)
    ensures r.Err? ==> r.error == ParseFailed
    ensures r.Ok? ==> r.value.title == title && r.value.sections == sections
    ensures r.Ok? ==> Defaulted(parsed.value, "summary", JString(""), r.value.summary)
    ensures r.Ok? ==> Defaulted(parsed.value, "key_entities", NoEntities, r.value.keyEntities)
    ensures r.Ok? ==> Defaulted(parsed.value, "quiz", JArray([]), r.value.quiz)
    ensures r.Ok? ==> Defaulted(parsed.value, "related_topics", JArray([]), r.value.relatedTopics)
  {
    if parsed.None? || parsed.value == JNull then Err(ParseFailed)
    else
      var p := parsed.value;
      Ok(QuizData(
        title,
        FieldOr(p, "summary", JString("")),
        FieldOr(p, "key_entities", NoEntities),
        sections,
        FieldOr(p, "quiz", JArray([])),
        FieldOr(p, "related_topics", JArray([]))))
  }

  /** The JSON object a `QuizData` is stored as, without the two fields the generator
      does not read back. */
  function QuizJson(q: QuizData): Json {
    JObject(map["summary" := q.summary, "key_entities" := q.keyEntities, "quiz" := q.quiz,
                "related_topics" := q.relatedTopics])
  }

  /** Every field of a built quiz is either truthy or its default. */
  lemma BuiltFieldsSettled(title: string, sections: seq<string>, parsed: Option<Json>)
    requires BuildQuizData(title, sections, parsed).Ok?
    ensures var q := BuildQuizData(title, sections, parsed).value;
      (Truthy(Some(q.summary)) || q.summary == JString("")) &&
      Truthy(Some(q.keyEntities)) && Truthy(Some(q.quiz)) && Truthy(Some(q.relatedTopics))
  {
  }

  /** Defaulting is idempotent: feeding a built quiz back through the generator, as the
      JSON it is stored as, gives the same quiz. */
  lemma BuildQuizDataIdempotent(title: string, sections: seq<string>, parsed: Option<Json>)
    requires BuildQuizData(title, sections, parsed).Ok?
    ensures var q := BuildQuizData(title, sections, parsed).value;
      BuildQuizData(title, sections, Some(QuizJson(q))) == Ok(q)
  {
    BuiltFieldsSettled(title, sections, parsed);
  }

  /** A reply with no usable field gets every default. */
  lemma EmptyReplyGetsDefaults(title: string, sections: seq<string>)
    ensures BuildQuizData(title, sections, Some(JObject(map[]))) ==
      Ok(QuizData(title, JString(""), NoEntities, sections, JArray([]), JArray([])))
  {
  }

  /** No check is made on the questions: one whose answer is none of its options, with a
      difficulty outside the three levels, is passed on as sent. */
  lemma QuestionsNotChecked(title: string, sections: seq<string>)
    ensures var question := JObject(map["question" := JString("Q"), "options" := JArray([JString("A")]),
                                        "answer" := JString("B"), "difficulty" := JString("extreme")]);
      var reply := JObject(map["quiz" := JArray([question])]);
      BuildQuizData(title, sections, Some(reply)).Ok? &&
      BuildQuizData(title, sections, Some(reply)).value.quiz == JArray([question])
  {
  }

  /* ---------------------------------------------------------------------------
     generateQuizWithAI   (lines 95-205)
     --------------------------------------------------------------------------- */

  /** The API key must be set and non-empty (lines 96-99). */
  predicate HasKey(apiKey: Option<string>) {
    apiKey.Some? && apiKey.value != ""
  }

  /** Lines 95-205. `apiKey` is the value of LOVABLE_API_KEY, `ai` what the completion
      request produced, `parse` stands for `JSON.parse`. The failures come in the source's
      order: missing key, then the completion status and reply, then parsing. */
  method GenerateQuizWithAI(title: string, content: string, sections: seq<string>,
                            apiKey: Option<string>, ai: AiResponse, parse: string -> Option<Json>)
    returns (r: Result<QuizData, Failure>)
    ensures !HasKey(apiKey) ==> r == Err(MissingApiKey)
    ensures HasKey(apiKey) && ReplyText(ai).Err? ==> r == Err(ReplyText(ai).error)
    ensures HasKey(apiKey) && ReplyText(ai).Ok? ==>
      r == BuildQuizData(title, sections, parse(StripFence(ReplyText(ai).value)))
    ensures r.Ok? ==> r.value.title == title && r.value.sections == sections
  {
    if apiKey.None? || apiKey.value == "" {
      return Err(MissingApiKey);
    }
    if !IsOkStatus(ai.status) {
      return Err(StatusFailure(ai.status));
    }
    if ai.body.None? {
      return Err(ThrownByRuntime);
    }
    var aiResponse := CompletionContent(ai.body.value);
    if aiResponse.Err? {
      return Err(ThrownByRuntime);
    }
    if !Truthy(aiResponse.value) {
      return Err(NoResponse);
    }
    if !aiResponse.value.value.JString? {
      return Err(ThrownByRuntime);
    }
    var jsonStr := Trim(aiResponse.value.value.s);
    if StartsWith(jsonStr, Fence) {
      jsonStr := DropLeadingFence(jsonStr);
      jsonStr := DropTrailingFence(jsonStr);
    }
    r := BuildQuizData(title, sections, parse(jsonStr));
  }
}
