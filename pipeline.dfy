/**
 * What both `lambda_handler` variants share: the incoming event, the services the handler
 * calls out to, the response it builds, and the middle of its decision flow, from a URL to
 * extracted text to a summary.
 */
module Pipeline {
  import opened Wrappers
  import opened PyStr
  import opened Extraction
  import opened Summarization

  /** The API Gateway event once its `body` has been read as JSON. `Unparsable` stands for every
      way that step raises (a body that is not JSON, or JSON that is not an object); `reason` is
      the text of the exception. `Parsed` holds the value of the `url` key, if any. */
  datatype Event = Unparsable(reason: string) | Parsed(url: Option<string>)

  /** The world outside the handler: the page fetched for a URL, whether `MISTRAL_API_KEY` is set
      to a non-empty value, and what the model answers for a URL and a prompt text. */
  datatype Services = Services(fetch: string -> Fetch, mistralKeySet: bool, ask: (string, string) -> Reply)

  /** The JSON object in the response body. `wordCount` is absent on a cache hit. */
  datatype Body =
    | ErrorBody(error: string)
    | SummaryBody(url: string, summary: string, wordCount: Option<nat>, fromCache: bool)

  datatype Response = Response(statusCode: int, headers: map<string, string>, body: Body)

  function UrlRequired(): string { "URL is required" }
  function ExtractionFailed(): string { "Could not extract text from article" }
  function SummaryFailed(): string { "Could not generate summary" }

  /** The URL to work on: `url = body.get('url')` followed by `if not url`. */
  function RequestedUrl(url: Option<string>): Option<string> {
    if url.Some? && url.value != [] then url else None
  }

  /** The Mistral summary when the key is set, the simple summary otherwise. */
  function Summarize(text: string, url: string, svc: Services): string {
    if svc.mistralKeySet then MistralSummary(text, url, svc.ask) else SimpleSummary(text)
  }

  /** An empty summary only comes from the model answering with empty content; without the key,
      and whenever the model call fails, the summary is the simple summary of the whole text. */
  lemma SummarizeOutcomes(text: string, url: string, svc: Services)
    ensures Summarize(text, url, svc) == [] ==>
      svc.mistralKeySet && svc.ask(url, Take(text, PromptTextLength)) == Reply("")
    ensures !svc.mistralKeySet || svc.ask(url, Take(text, PromptTextLength)).ApiError? ==>
      Summarize(text, url, svc) == SimpleSummary(text)
  {
    SimpleSummaryShape(text);
  }

  /** Where the middle of the handler ends. */
  datatype Stage = NoText | NoSummary | Summarized(summary: string)

  /** Extract the text of `url` and summarise it, stopping at the first empty result. */
  function Process(url: string, svc: Services): Stage {
    var extracted := Extracted(svc.fetch(url));
    if extracted.None? || extracted.value == [] then NoText
    else
      var summary := Summarize(extracted.value, url, svc);
      if summary == [] then NoSummary else Summarized(summary)
  }

  /** `NoText` exactly when fetching failed or nothing visible was extracted; `NoSummary` only when
      the model answered with empty content; otherwise a non-empty summary of the extracted text,
      which is the simple summary of all of it when the key is unset or the model call failed. */
  lemma ProcessOutcomes(url: string, svc: Services)
    ensures Process(url, svc) == NoText <==>
      match svc.fetch(url)
      case FetchFailed => true
      case Fetched(p) => forall i :: 0 <= i < |SelectText(p)| ==> IsSpace(SelectText(p)[i])
    ensures Process(url, svc) != NoText ==>
      var text := Extracted(svc.fetch(url)).value;
      && text != []
      && (Process(url, svc) == NoSummary ==>
            svc.mistralKeySet && svc.ask(url, Take(text, PromptTextLength)) == Reply(""))
      && (Process(url, svc).Summarized? ==>
            Process(url, svc).summary != [] && Process(url, svc).summary == Summarize(text, url, svc))
      && (!svc.mistralKeySet || svc.ask(url, Take(text, PromptTextLength)).ApiError? ==>
            Process(url, svc) == Summarized(SimpleSummary(text)))
  {
    match svc.fetch(url)
    case FetchFailed =>
    case Fetched(p) =>
      ExtractedShape(p);
      var text := Extracted(svc.fetch(url)).value;
      SummarizeOutcomes(text, url, svc);
      SimpleSummaryShape(text);
  }

  /** The middle of `lambda_handler` as the source runs it: extract, stop on no text, summarise
      with the model or the fallback, stop on an empty summary. */
  method RunStages(url: string, svc: Services) returns (stage: Stage)
    ensures stage == Process(url, svc)
  {
    var text := ExtractArticleText(svc.fetch(url));
    if text.None? || text.value == [] {
      return NoText;
    }
    var summary: string;
    if svc.mistralKeySet {
      summary := MistralSummary(text.value, url, svc.ask);
    } else {
      summary := GetSimpleSummary(text.value);
    }
    if summary == [] {
      return NoSummary;
    }
    return Summarized(summary);
  }

  /** The response for a non-empty URL once the middle of the handler has run. */
  function Respond(url: string, stage: Stage, headers: map<string, string>): Response {
    match stage
    case NoText => Response(400, headers, ErrorBody(ExtractionFailed()))
    case NoSummary => Response(400, headers, ErrorBody(SummaryFailed()))
    case Summarized(summary) => Response(200, headers, SummaryBody(url, summary, Some(WordCount(summary)), false))
  }
}
