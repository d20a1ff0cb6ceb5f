/**
  The failures of the quiz-generation function and the messages it sends back for them.
 */
module Errors {
  import opened Text
  import opened JsValue

  datatype Failure =
    | UrlRequired                  // the request has no truthy `url`
    | NotWikipediaUrl              // `url` does not contain "wikipedia.org/wiki/"
    | InvalidUrlFormat             // no article path after "/wiki/"
    | FetchFailed(status: nat)     // the article page answered with a non-2xx status
    | MissingApiKey                // LOVABLE_API_KEY is unset or empty
    | RateLimited                  // the completion service answered 429
    | CreditsExhausted             // the completion service answered 402
    | GenerationFailed(status: nat) // any other non-2xx answer of the completion service
    | NoResponse                   // the completion carries no (truthy) message content
    | ParseFailed                  // the cleaned reply is not JSON, or is JSON `null`
    | SaveFailed                   // the database insert reported an error
    | ThrownByRuntime              // an exception raised by the JavaScript runtime itself

  /** The `error.message` the handler puts into its failure payload. Every failure the
      program raises itself has its own fixed text; for exceptions of the runtime
      (a TypeError, a URIError, an unreadable request body) the text is the runtime's
      and is not part of this model. */
  function Message(f: Failure): (r: Option<string>)
    ensures r.None? <==> f == ThrownByRuntime
  {
    match f
    case UrlRequired => Some("Wikipedia URL is required")
    case NotWikipediaUrl => Some("Please provide a valid Wikipedia URL")
    case InvalidUrlFormat => Some("Invalid Wikipedia URL format")
    case FetchFailed(st) => Some("Failed to fetch Wikipedia page: " + DecimalString(st))
    case MissingApiKey => Some("LOVABLE_API_KEY is not configured")
    case RateLimited => Some("Rate limit exceeded. Please try again in a moment.")
    case CreditsExhausted => Some("API credits exhausted. Please add funds to continue.")
    case GenerationFailed(st) => Some("AI generation failed: " + DecimalString(st))
    case NoResponse => Some("No response from AI")
    case ParseFailed => Some("Failed to parse AI response as JSON")
    case SaveFailed => Some("Failed to save quiz to database")
    case ThrownByRuntime => None
  }

  /** `Response.ok`: a status in the 2xx range. */
  predicate IsOkStatus(status: nat) {
    200 <= status <= 299
  }
}
