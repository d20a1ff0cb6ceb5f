/**
  The HTTP handler of the quiz-generation function (index.ts lines 207-280): the
  preflight answer, the URL checks, then scraping, generation and storage, and the
  mapping of every failure to a status and an error message.
 */
module Handler {
  import opened Text
  import opened JsValue
  import opened Errors
  import opened Scrape
  import opened Generate

  /** The request: its method and its body parsed as JSON (`None` when `req.json()`
      rejects). Headers are not modelled. */
  datatype Request = Request(httpMethod: string, body: Option<Json>)

  /** The row the insert returns (lines 243-255): the stored fields plus the id and the
      creation time the database assigns. */
  datatype StoredQuiz = StoredQuiz(
    id: string,
    url: string,
    title: string,
    summary: Json,
    keyEntities: Json,
    sections: seq<string>,
    quiz: Json,
    relatedTopics: Json,
    createdAt: string)

  /** What the insert reports: the generated id and creation time, or an error. */
  datatype DbOutcome = Inserted(id: string, createdAt: string) | DbFailed

  /** The JSON payload: `{ success: true, data }` or `{ success: false, error }`, the
      message being `None` when it comes from the runtime. */
  datatype Payload = Saved(row: StoredQuiz) | Failed(error: Option<string>)

  /** The preflight answer (no body, CORS headers) or a JSON reply with its status. */
  datatype Response = Preflight | Reply(status: nat, payload: Payload)

  /** The text a valid URL must contain (line 223). */
  const UrlMarker: string := "wikipedia.org/wiki/"

  /** Line 213: `const { url } = await req.json()`. An unreadable body and a `null` body
      both throw. */
  function RequestUrl(req: Request): (r: Result<Option<Json>, Failure>)
    ensures r.Err? <==> req.body.None? || req.body == Some(JNull)
    ensures r.Err? ==> r.error == ThrownByRuntime
    ensures r.Ok? ==> r.value == Property(req.body.value, "url").value
    ensures r.Ok? && req.body.value.JObject? ==>
      (r.value.Some? <==> "url" in req.body.value.fields)
  {
    match req.body
    case None => Err(ThrownByRuntime)
    case Some(b) =>
      match Property(b, "url")
      case Err(_) => Err(ThrownByRuntime)
      case Ok(v) => Ok(v)
  }

  /** Lines 215-228 on the `url` of the body. A falsy value is missing; a string must
      contain the marker; an array's `includes` looks for an element equal to the marker,
      and an array that has one fails next at `url.match` (line 33), as does any other
      truthy value at `url.includes`, with a TypeError. */
  function Gate(url: Option<Json>): (r: Result<string, Failure>)
    ensures r == Err(UrlRequired) <==> !Truthy(url)
    ensures url.Some? && url.value.JString? && url.value.s != [] ==>
      (r == Err(NotWikipediaUrl) <==> !Contains(url.value.s, UrlMarker))
    ensures r.Ok? <==> url.Some? && url.value.JString? && Contains(url.value.s, UrlMarker)
    ensures r.Ok? ==> url == Some(JString(r.value))
    ensures Truthy(url) && url.value.JArray? ==>
      r == (if JString(UrlMarker) in url.value.elems then Err(ThrownByRuntime) else Err(NotWikipediaUrl))
    ensures Truthy(url) && !url.value.JString? && !url.value.JArray? ==> r == Err(ThrownByRuntime)
  {
    if !Truthy(url) then Err(UrlRequired)
    else match url.value
      case JString(s) => if Contains(s, UrlMarker) then Ok(s) else Err(NotWikipediaUrl)
      case JArray(e) => if JString(UrlMarker) in e then Err(ThrownByRuntime) else Err(NotWikipediaUrl)
      case _ => Err(ThrownByRuntime)
  }

  /** The two rejections the handler answers with 400. */
  predicate IsRejection(f: Failure) {
    f == UrlRequired || f == NotWikipediaUrl
  }

  /** A string URL is rejected exactly when it is empty or lacks the marker. */
  lemma GateOnStrings(s: string)
    ensures Gate(Some(JString(s))) == Err(UrlRequired) <==> s == []
    ensures Gate(Some(JString(s))) == Err(NotWikipediaUrl) <==> s != [] && !Contains(s, UrlMarker)
    ensures Gate(Some(JString(s))) == Ok(s) <==> Contains(s, UrlMarker)
  {
    if s == [] {
      assert !Contains(s, UrlMarker) by {
        forall i | 0 <= i <= |s| ensures !OccursAt(s, UrlMarker, i) {}
      }
    }
  }

  /** Every link to an English Wikipedia article passes the gate. */
  lemma ArticleUrlPassesGate(e: string)
    ensures Gate(Some(JString(ArticleBase + e))) == Ok(ArticleBase + e)
  {
    var s := ArticleBase + e;
    assert s[11..30] == UrlMarker;
    assert OccursAt(s, UrlMarker, 11);
  }

  /** The answer for a failure raised after the gate: status 500 and the failure's message. */
  function FailureReply(f: Failure): (r: Response)
    ensures r.Reply? && r.status == 500 && r.payload == Failed(Message(f))
  {
    Reply(500, Failed(Message(f)))
  }

  /** The row a successful run of lines 233-255 stores for `url`. */
  function ExpectedRow(url: string, decode: string -> Option<string>, page: Page,
                       ai: AiResponse, parse: string -> Option<Json>, id: string, createdAt: string): (r: Option<StoredQuiz>)
    ensures r.Some? ==> r.value.url == url && r.value.id == id && r.value.createdAt == createdAt
    ensures r.Some? ==> r.value.sections == Sections(page.headlines)
    ensures r.Some? <==>
      (ArticleTitle(url, decode).Ok? && ReplyText(ai).Ok? &&
       BuildQuizData(ArticleTitle(url, decode).value, Sections(page.headlines),
                     parse(StripFence(ReplyText(ai).value))).Ok?)
    ensures r.Some? ==> Some(r.value.title) == decode(ReplaceChar(ArticlePath(url).value, '_', ' '))
    ensures r.Some? ==>
      var parsed := parse(StripFence(ReplyText(ai).value)).value;
      parsed != JNull &&
      Defaulted(parsed, "summary", JString(""), r.value.summary) &&
      Defaulted(parsed, "key_entities", NoEntities, r.value.keyEntities) &&
      Defaulted(parsed, "quiz", JArray([]), r.value.quiz) &&
      Defaulted(parsed, "related_topics", JArray([]), r.value.relatedTopics)
  {
    match ArticleTitle(url, decode)
    case Err(_) => None
    case Ok(title) =>
      match ReplyText(ai)
      case Err(_) => None
      case Ok(reply) =>
        var sections := Sections(page.headlines);
        match BuildQuizData(title, sections, parse(StripFence(reply)))
        case Err(_) => None
        case Ok(q) =>
          Some(StoredQuiz(id, url, title, q.summary, q.keyEntities, sections, q.quiz, q.relatedTopics, createdAt))
  }

  /** The answer lines 233-269 give for a URL that passed the gate, failure by failure in
      the order the handler meets them: the title, the page status, the API key, the
      completion reply, its parsing, the insert; when all succeed, 200 with the row. */
  predicate Answers(url: string, decode: string -> Option<string>, page: Page, apiKey: Option<string>,
                    ai: AiResponse, parse: string -> Option<Json>, db: DbOutcome, resp: Response)
  {
    var title := ArticleTitle(url, decode);
    if title.Err? then resp == FailureReply(title.error)
    else if !IsOkStatus(page.status) then resp == FailureReply(FetchFailed(page.status))
    else if !HasKey(apiKey) then resp == FailureReply(MissingApiKey)
    else if ReplyText(ai).Err? then resp == FailureReply(ReplyText(ai).error)
    else if BuildQuizData(title.value, Sections(page.headlines), parse(StripFence(ReplyText(ai).value))).Err? then
      resp == FailureReply(ParseFailed)
    else if db.DbFailed? then resp == FailureReply(SaveFailed)
    else
      var row := ExpectedRow(url, decode, page, ai, parse, db.id, db.createdAt);
      row.Some? && resp == Reply(200, Saved(row.value))
  }

  /** Lines 233-269 for a URL that passed the gate: scrape, generate, store. Every failure
      is answered with 500; success with the stored row. */
  method Process(url: string, decode: string -> Option<string>, page: Page, apiKey: Option<string>,
                 ai: AiResponse, parse: string -> Option<Json>, db: DbOutcome)
    returns (resp: Response)
    requires WellFormedPage(page)
    ensures resp.Reply? && (resp.status == 200 || resp.status == 500)
    ensures resp.status == 200 <==> resp.payload.Saved?
    ensures resp.status == 500 ==> resp.payload.Failed?
    ensures Answers(url, decode, page, apiKey, ai, parse, db, resp)
    ensures resp.status == 200 ==>
      db.Inserted? && HasKey(apiKey) && IsOkStatus(page.status) &&
      ExpectedRow(url, decode, page, ai, parse, db.id, db.createdAt) == Some(resp.payload.row)
  {
    var scraped := ScrapeWikipedia(url, decode, page);
    if scraped.Err? {
      return FailureReply(scraped.error);
    }
    var quizData := GenerateQuizWithAI(scraped.value.title, scraped.value.content, scraped.value.sections,
                                       apiKey, ai, parse);
    if quizData.Err? {
      return FailureReply(quizData.error);
    }
    var q := quizData.value;
    match db
    case DbFailed =>
      return FailureReply(SaveFailed);
    case Inserted(id, createdAt) =>
      return Reply(200, Saved(StoredQuiz(id, url, q.title, q.summary, q.keyEntities, q.sections,
                                         q.quiz, q.relatedTopics, createdAt)));
  }

  /** The request is not a preflight and its `url` passes the gate (lines 210-228). */
  predicate Admitted(req: Request) {
    req.httpMethod != "OPTIONS" && RequestUrl(req).Ok? && Gate(RequestUrl(req).value).Ok?
  }

  /** Lines 207-280. `decode`, `page` (lines 33-51), `apiKey`, `ai`, `parse` (lines 96-191)
      and `db` (lines 243-255) stand for the environment and the three remote services.
      A request with a missing or non-Wikipedia URL is answered with 400 whatever those
      would have done, since nothing is fetched before the check. */
  method Serve(req: Request, decode: string -> Option<string>, page: Page, apiKey: Option<string>,
               ai: AiResponse, parse: string -> Option<Json>, db: DbOutcome)
    returns (resp: Response)
    requires WellFormedPage(page)
    ensures resp == Preflight <==> req.httpMethod == "OPTIONS"
    ensures resp.Reply? ==> resp.status == 200 || resp.status == 400 || resp.status == 500
    ensures resp.Reply? && resp.status == 400 <==>
      (req.httpMethod != "OPTIONS" && RequestUrl(req).Ok? &&
       Gate(RequestUrl(req).value).Err? && IsRejection(Gate(RequestUrl(req).value).error))
    ensures resp.Reply? && resp.status == 400 ==> resp.payload == Failed(Message(Gate(RequestUrl(req).value).error))
    ensures resp.Reply? && resp.status == 500 ==> resp.payload.Failed?
    ensures resp.Reply? ==> (resp.status == 200 <==> resp.payload.Saved?)
    ensures resp.Reply? && resp.status == 200 ==>
      (RequestUrl(req).Ok? && Gate(RequestUrl(req).value).Ok? && db.Inserted? &&
       ExpectedRow(Gate(RequestUrl(req).value).value, decode, page, ai, parse, db.id, db.createdAt)
         == Some(resp.payload.row))
    ensures Admitted(req) ==>
      Answers(Gate(RequestUrl(req).value).value, decode, page, apiKey, ai, parse, db, resp)
  {
    if req.httpMethod == "OPTIONS" {
      return Preflight;
    }
    var url := RequestUrl(req);
    if url.Err? {
      return FailureReply(url.error);
    }
    var gate := Gate(url.value);
    if gate.Err? {
      if IsRejection(gate.error) {
        return Reply(400, Failed(Message(gate.error)));
      }
      return FailureReply(gate.error);
    }
    resp := Process(gate.value, decode, page, apiKey, ai, parse, db);
  }
}
