/**
 * `lambda_handler` of the deployment package: the root handler's flow behind a cache gate,
 * with a CORS header on every response. The DynamoDB table is a map from a key derived from
 * the URL (an MD5 digest in the source, any function here) to the stored item.
 */
module CachedLambda {
  import opened Wrappers
  import opened PyStr
  import opened Extraction
  import opened Summarization
  import opened Pipeline
  import Lambda

  /** The one header every response of the package handler carries. */
  function CorsHeaders(): map<string, string> {
    map["Access-Control-Allow-Origin" := "*"]
  }

  /** A stored item: the URL and its summary (`None` when the item has no `summary` attribute). */
  datatype CacheItem = CacheItem(url: string, summary: Option<string>)

  /** `check_cache` without faults: the summary stored under the URL's key, if any. */
  function Lookup(table: map<string, CacheItem>, keyOf: string -> string, url: string): Option<string> {
    if keyOf(url) in table then table[keyOf(url)].summary else None
  }

  /** `save_to_cache` without faults: put the item under the URL's key, replacing any old one. */
  function Store(table: map<string, CacheItem>, keyOf: string -> string, url: string, summary: string): map<string, CacheItem> {
    table[keyOf(url) := CacheItem(url, Some(summary))]
  }

  /** Looking up a URL just stored gives its summary back; a URL under another key sees the old
      table; a URL whose key was never written finds nothing. */
  lemma LookupStore(table: map<string, CacheItem>, keyOf: string -> string, url: string, summary: string, other: string)
    ensures Lookup(Store(table, keyOf, url, summary), keyOf, url) == Some(summary)
    ensures keyOf(other) != keyOf(url) ==>
      Lookup(Store(table, keyOf, url, summary), keyOf, other) == Lookup(table, keyOf, other)
    ensures keyOf(other) !in table && keyOf(other) != keyOf(url) ==>
      Lookup(Store(table, keyOf, url, summary), keyOf, other).None?
  {
  }

  /** Storing only ever adds or replaces the URL's key. */
  lemma StoreKeys(table: map<string, CacheItem>, keyOf: string -> string, url: string, summary: string)
    ensures Store(table, keyOf, url, summary).Keys == table.Keys + {keyOf(url)}
    ensures forall k :: k in table && k != keyOf(url) ==> Store(table, keyOf, url, summary)[k] == table[k]
  {
  }

  /** A summary to be written to the cache. */
  datatype CacheWrite = CacheWrite(url: string, summary: string)

  /** What the package handler answers and what it asks to save, given what the cache lookup
      returned (`None` when caching is disabled or the lookup failed). */
  datatype Decision = Decision(response: Response, save: Option<CacheWrite>)

  function Decide(event: Event, svc: Services, cached: Option<string>): Decision {
    match event
    case Unparsable(reason) => Decision(Response(500, CorsHeaders(), ErrorBody(reason)), None)
    case Parsed(url) =>
      if RequestedUrl(url).None? then Decision(Response(400, CorsHeaders(), ErrorBody(UrlRequired())), None)
      else if cached.Some? && cached.value != [] then
        Decision(Response(200, CorsHeaders(), SummaryBody(url.value, cached.value, None, true)), None)
      else
        var stage := Process(url.value, svc);
        Decision(Respond(url.value, stage, CorsHeaders()),
                 if stage.Summarized? then Some(CacheWrite(url.value, stage.summary)) else None)
  }

  /** Every response, 200, 400 or 500, carries exactly the CORS header. */
  lemma CorsOnEveryResponse(event: Event, svc: Services, cached: Option<string>)
    ensures Decide(event, svc, cached).response.headers == CorsHeaders()
    ensures Decide(event, svc, cached).response.statusCode in {200, 400, 500}
  {
  }

  /** A non-empty cached summary is answered at once with 200, `from_cache` true and no word
      count, whatever the services would have done, and nothing is saved. */
  lemma CacheHitShortCircuits(url: string, svc: Services, other: Services, cached: string)
    requires url != [] && cached != []
    ensures Decide(Parsed(Some(url)), svc, Some(cached)) ==
      Decision(Response(200, CorsHeaders(), SummaryBody(url, cached, None, true)), None)
    ensures Decide(Parsed(Some(url)), svc, Some(cached)) == Decide(Parsed(Some(url)), other, Some(cached))
  {
  }

  /** A missing or empty cached summary is a plain miss. */
  lemma EmptyCacheIsMiss(event: Event, svc: Services, cached: Option<string>)
    requires cached.None? || cached.value == []
    ensures Decide(event, svc, cached) == Decide(event, svc, None)
  {
  }

  /** On a miss the package handler answers as the root one does, with the CORS header added. */
  lemma MissMatchesRoot(event: Event, svc: Services)
    ensures Decide(event, svc, None).response == Lambda.LambdaHandler(event, svc).(headers := CorsHeaders())
  {
  }

  /** A save is asked for exactly on a fresh 200 answer, and it holds that answer's URL and
      non-empty summary. */
  lemma SaveOnlyFreshSuccess(event: Event, svc: Services, cached: Option<string>)
    ensures var d := Decide(event, svc, cached);
      && (d.save.Some? <==> d.response.statusCode == 200 && !d.response.body.fromCache)
      && (d.save.Some? ==>
            && d.response.body == SummaryBody(d.save.value.url, d.save.value.summary,
                                              Some(WordCount(d.save.value.summary)), false)
            && d.save.value.summary != []
            && event == Parsed(Some(d.save.value.url)))
  {
    match event
    case Unparsable(_) =>
    case Parsed(url) =>
      if RequestedUrl(url).Some? && !(cached.Some? && cached.value != []) {
        ProcessOutcomes(url.value, svc);
      }
  }

  /** After a fresh success has been saved, the same request is a cache hit with the same
      summary, whatever the services do by then. */
  lemma RepeatIsHit(url: string, svc: Services, later: Services,
                    table: map<string, CacheItem>, keyOf: string -> string)
    requires Decide(Parsed(Some(url)), svc, None).save.Some?
    ensures var w := Decide(Parsed(Some(url)), svc, None).save.value;
      Decide(Parsed(Some(url)), later, Lookup(Store(table, keyOf, w.url, w.summary), keyOf, url)) ==
        Decision(Response(200, CorsHeaders(), SummaryBody(url, w.summary, None, true)), None)
  {
    SaveOnlyFreshSuccess(Parsed(Some(url)), svc, None);
    var w := Decide(Parsed(Some(url)), svc, None).save.value;
    LookupStore(table, keyOf, w.url, w.summary, url);
  }

  /** The faults the two DynamoDB calls may meet; both are caught and logged in the source. */
  datatype CacheFaults = CacheFaults(lookupFails: bool, saveFails: bool)

  /** The cache behind the package handler. `enabled` is `CACHE_ENABLED`, fixed when the module
      is loaded; `keyOf` is the key derivation; `table` is the table's contents. */
  class CacheGate {
    const enabled: bool
    const keyOf: string -> string
    var table: map<string, CacheItem>

    constructor(enabled: bool, keyOf: string -> string, table: map<string, CacheItem>)
      ensures this.enabled == enabled && this.keyOf == keyOf && this.table == table
    {
      this.enabled := enabled;
      this.keyOf := keyOf;
      this.table := table;
    }

    /** `check_cache`: the stored summary, or `None` when there is none or the lookup raised
        (which it also does when caching is disabled, the table then being undefined). */
    method CheckCache(url: string, fails: bool) returns (r: Option<string>)
      ensures r == if enabled && !fails then Lookup(table, keyOf, url) else None
    {
      if !enabled || fails {
        return None;
      }
      r := Lookup(table, keyOf, url);
    }

    /** `save_to_cache`: write the item, or leave the table as it was when the write raised. */
    method SaveToCache(url: string, summary: string, fails: bool)
      modifies this
      ensures table == if enabled && !fails then Store(old(table), keyOf, url, summary) else old(table)
    {
      if enabled && !fails {
        table := Store(table, keyOf, url, summary);
      }
    }

    /** The package `lambda_handler`. The cache is consulted only when enabled and for a non-empty
        URL; the answer is the one `Decide` gives for that lookup, so a failed save never changes
        it; the table changes only by the save `Decide` asks for. */
    method LambdaHandler(event: Event, svc: Services, faults: CacheFaults) returns (response: Response)
      modifies this
      ensures var cached :=
        if event.Parsed? && RequestedUrl(event.url).Some? && enabled && !faults.lookupFails
        then Lookup(old(table), keyOf, event.url.value) else None;
        var d := Decide(event, svc, cached);
        && response == d.response
        && table == if d.save.Some? && enabled && !faults.saveFails
                    then Store(old(table), keyOf, d.save.value.url, d.save.value.summary)
                    else old(table)
    {
      if event.Unparsable? {
        return Response(500, CorsHeaders(), ErrorBody(event.reason));
      }
      var url := event.url;
      if RequestedUrl(url).None? {
        return Response(400, CorsHeaders(), ErrorBody(UrlRequired()));
      }
      if enabled {
        var cached := CheckCache(url.value, faults.lookupFails);
        if cached.Some? && cached.value != [] {
          return Response(200, CorsHeaders(), SummaryBody(url.value, cached.value, None, true));
        }
      }
      var stage := RunStages(url.value, svc);
      if stage.Summarized? && enabled {
        SaveToCache(url.value, stage.summary, faults.saveFails);
      }
      response := Respond(url.value, stage, CorsHeaders());
    }
  }
}
