/**
 * `lambda_handler` of the root module: no cache and no response headers. It reads the URL,
 * extracts the article text, summarises it, and maps each outcome to a status code and body.
 */
module Lambda {
  import opened Wrappers
  import opened PyStr
  import opened Extraction
  import opened Summarization
  import opened Pipeline

  /** The root handler. Only a body that cannot be read as a JSON object raises out of the
      steps it calls, which gives the 500 answer. */
  function LambdaHandler(event: Event, svc: Services): Response {
    match event
    case Unparsable(reason) => Response(500, map[], ErrorBody(reason))
    case Parsed(url) =>
      if RequestedUrl(url).None? then Response(400, map[], ErrorBody(UrlRequired()))
      else Respond(url.value, Process(url.value, svc), map[])
  }

  /** No response carries headers, and the status is 200, 400 or 500: 500 exactly for an
      unreadable body, 200 exactly for a summary body, and 400 for every other error. */
  lemma ResponseKinds(event: Event, svc: Services)
    ensures var r := LambdaHandler(event, svc);
      && r.headers == map[]
      && (r.statusCode == 500 <==> event.Unparsable?)
      && (r.statusCode == 200 <==> r.body.SummaryBody?)
      && (r.statusCode == 400 <==> event.Parsed? && r.body.ErrorBody?)
      && (r.body.ErrorBody? && event.Parsed? ==>
            r.body.error in {UrlRequired(), ExtractionFailed(), SummaryFailed()})
  {
  }

  /** A missing or empty `url` is answered with 400 "URL is required", and only such a request. */
  lemma UrlIsRequired(url: Option<string>, svc: Services)
    ensures LambdaHandler(Parsed(url), svc) == Response(400, map[], ErrorBody(UrlRequired()))
      <==> url.None? || url.value == []
  {
    if url.Some? && url.value != [] {
      assert ExtractionFailed() != UrlRequired() && SummaryFailed() != UrlRequired();
    }
  }

  /** A 200 answer repeats the URL, carries a non-empty summary of the extracted text, the
      number of whitespace-separated words in it, and `from_cache` false. */
  lemma SuccessBody(event: Event, svc: Services)
    requires LambdaHandler(event, svc).statusCode == 200
    ensures event.Parsed? && event.url.Some?
    ensures var url, b := event.url.value, LambdaHandler(event, svc).body;
      && b.SummaryBody? && b.url == url && b.summary != []
      && Extracted(svc.fetch(url)).Some?
      && b.summary == Summarize(Extracted(svc.fetch(url)).value, url, svc)
      && b.wordCount == Some(|Words(b.summary)|) && !b.fromCache
  {
    ProcessOutcomes(event.url.value, svc);
  }

  /** A fetch that fails, or a page whose selected text is all whitespace, is answered with 400
      "Could not extract text from article". */
  lemma NothingExtracted(url: string, svc: Services)
    requires url != []
    requires match svc.fetch(url)
      case FetchFailed => true
      case Fetched(p) => forall i :: 0 <= i < |SelectText(p)| ==> IsSpace(SelectText(p)[i])
    ensures LambdaHandler(Parsed(Some(url)), svc) == Response(400, map[], ErrorBody(ExtractionFailed()))
  {
    ProcessOutcomes(url, svc);
  }

  /** An <article> of only whitespace hides a <main> with content: the answer is 400. */
  lemma BlankArticleFails(url: string, svc: Services, p: Page)
    requires url != [] && svc.fetch(url) == Fetched(p)
    requires p.article.Some? && p.article.value != ""
    requires forall i :: 0 <= i < |p.article.value| ==> IsSpace(p.article.value[i])
    ensures LambdaHandler(Parsed(Some(url)), svc) == Response(400, map[], ErrorBody(ExtractionFailed()))
  {
    BlankArticleWins(p);
  }

  /** When the model call fails, the answer is the simple summary of the whole extracted text,
      not of the 3000 characters the prompt carried. */
  lemma ModelFailureFallsBack(url: string, svc: Services)
    requires url != [] && svc.mistralKeySet
    requires Extracted(svc.fetch(url)).Some? && Extracted(svc.fetch(url)).value != []
    requires svc.ask(url, Take(Extracted(svc.fetch(url)).value, PromptTextLength)).ApiError?
    ensures var text := Extracted(svc.fetch(url)).value;
      LambdaHandler(Parsed(Some(url)), svc).body ==
        SummaryBody(url, SimpleSummary(text), Some(WordCount(SimpleSummary(text))), false)
  {
    ProcessOutcomes(url, svc);
  }

  /** "Could not generate summary" is only ever the answer when the key is set and the model
      replied with empty content. */
  lemma SummaryFailureCause(url: string, svc: Services)
    requires LambdaHandler(Parsed(Some(url)), svc).body == ErrorBody(SummaryFailed())
    ensures url != [] && svc.mistralKeySet && Extracted(svc.fetch(url)).Some?
    ensures svc.ask(url, Take(Extracted(svc.fetch(url)).value, PromptTextLength)) == Reply("")
  {
    assert UrlRequired() != SummaryFailed() && ExtractionFailed() != SummaryFailed();
    ProcessOutcomes(url, svc);
  }
}
