# News summariser Lambda, modelled in Dafny

The repository holds two AWS Lambda handlers that take a URL, pull the article text out of
the page, and answer with a summary. `lambda_function.py` is the plain handler;
`package/lambda_function.py` is the deployed one: it puts a DynamoDB cache in front of the same
work and adds a CORS header to every response. Both files carry the same three pieces of
logic, and each is modelled once:

- the selection chain of `extract_article_text`: `<article>`, then `<main>`, then the first
  matching CSS selector, then all `<p>` texts joined by spaces;
- the clean-up after it: split into lines, strip, split at double spaces, strip, drop empty
  chunks, join with single spaces, and keep the first 5000 characters;
- `get_simple_summary`: split at `.`, keep up to four stripped fragments longer than 50
  characters, join them with `". "`, add a period, and cut to 597 characters plus `"..."`
  when the result is over 600.

Around these sit the Mistral fallback rule, both handlers' decision flows, and the cache gate.

Files:

- `wrappers.dfy`: `Option`.
- `pystr.dfy`: the Python `str` operations the code relies on, over Unicode code points:
  `isspace`, `strip`, `split(sep)`, `split()`, `splitlines()`, `join` and `s[:n]`.
- `extraction.dfy`: the page regions as inputs, the selection chain, the clean-up, and
  `ExtractArticleText`, the step-by-step method.
- `summarization.dfy`: `get_simple_summary` as a specification and as the loop the source runs,
  and the Mistral fallback.
- `pipeline.dfy`: the event, services and response types both handlers share, and the middle
  of the flow: extract, then summarise.
- `lambda.dfy`: the root handler, a pure function.
- `cached_lambda.dfy`: the package handler. `Decide` specifies it for a given cache lookup
  result. The class `CacheGate` holds the table and runs the handler as a method.

A page is given as what BeautifulSoup would have returned after the unwanted tags are removed:
the raw `get_text()` of the first `<article>` and `<main>` (absent when there is no such
element), the text of the first element each selector matches, and the texts of all `<p>`
elements. A Tag is always truthy, so `if article:` means the element exists. The fetch, the
model's reply, `MISTRAL_API_KEY`, the table's key function and the faults of the two DynamoDB
calls are parameters.

Two quirks of the code are kept, and the model proves their consequences:

- The first selector that matches ends the selector loop, even when its text is empty.
- Emptiness is tested on raw text, so an `<article>` holding only whitespace wins. It cleans
  to the empty string, and the handler answers 400 even when `<main>` has content.

## Model

| member | source | states |
|---|---|---|
| PyStr.TrimStartShape | lambda_function.py:173 | `lstrip` removes the longest all-whitespace prefix: what is left is a suffix that is empty or starts with a non-space |
| PyStr.TrimEndShape | lambda_function.py:173 | `rstrip` removes the longest all-whitespace suffix: what is left is a prefix that is empty or ends with a non-space |
| PyStr.StripShape | lambda_function.py:112-113 | `strip()` gives the infix of the string left once the whitespace on both sides is gone; it is empty or has non-space characters at both ends |
| PyStr.StripVisible | lambda_function.py:112-113 | stripping removes only whitespace: the non-space characters are kept, in order |
| PyStr.StripStripped | lambda_function.py:173 | a string with no whitespace at either end strips to itself |
| PyStr.Take | lambda_function.py:116 | `s[:n]` is a prefix of `s` of at most `n` characters, and is all of `s` when `s` is shorter |
| PyStr.JoinSplit | lambda_function.py:172 | joining the pieces of `s.split(sep)` with `sep` gives `s` back |
| PyStr.SplitPiecesFree | lambda_function.py:172 | no piece of `s.split(sep)` contains `sep` |
| PyStr.SplitPiecesWithin | lambda_function.py:113 | every character of a piece comes from the split string |
| PyStr.SplitFree | lambda_function.py:113 | a string that does not contain the separator splits into itself alone |
| PyStr.SplitAtFirst | lambda_function.py:113 | `split(sep)` cuts from left to right: the first piece is the string up to the first occurrence of `sep`, and the remaining pieces are the split of what follows that occurrence |
| PyStr.SplitVisible | lambda_function.py:113 | splitting at a whitespace separator (the double space) keeps exactly the non-space characters, in order |
| PyStr.SplitLines | lambda_function.py:112 | no piece of `splitlines()` contains a line boundary |
| PyStr.SplitLinesVisible | lambda_function.py:112 | `splitlines()` drops only line boundaries: the pieces keep all non-space characters, in order |
| PyStr.SplitLinesOfLine | lambda_function.py:112 | a non-empty string without a line boundary is a single line |
| PyStr.SplitLinesAtBreak | lambda_function.py:112 | `splitlines()` cuts at each line boundary: the line before it, then the lines of what follows; a final boundary adds no empty line |
| PyStr.SplitLinesAtCrLf | lambda_function.py:112 | `"\r\n"` is one line boundary, not two |
| PyStr.VisibleJoin | lambda_function.py:114 | joining with a whitespace separator keeps exactly the non-space characters of the parts |
| PyStr.LeadingWord | lambda_function.py:53 | the word a string starts with is a prefix without whitespace, followed by whitespace or the end |
| PyStr.Words | lambda_function.py:53 | every piece of `split()` is a non-empty run without whitespace (that the runs are maximal is `WordsAtSpace`) |
| PyStr.WordsVisible | lambda_function.py:53 | the pieces of `split()` hold exactly the non-space characters, in order |
| PyStr.WordsOfJoin | lambda_function.py:53 | `split()` of words joined by single spaces gives the words back |
| PyStr.WordsAtSpace | lambda_function.py:53 | `split()` cuts at every whitespace character: the words of `a + c + b` for a whitespace `c` are the words of `a` followed by those of `b`, so no word spans whitespace |
| PyStr.WordsOfWord | lambda_function.py:53 | a non-empty run without whitespace is exactly one word; with `WordsAtSpace` and `WordsOfBlank` this determines `split()` |
| PyStr.WordsOfBlank | lambda_function.py:53 | an all-whitespace string has no word |
| PyStr.WordsAtGap | lambda_function.py:53 | any non-empty run of whitespace separates words as a single whitespace character does |
| PyStr.WordsOfJoinAt | lambda_function.py:114 | joining with a whitespace separator neither merges nor splits the parts' words |
| PyStr.StripWords | lambda_function.py:112-113 | stripping keeps the words of a string |
| PyStr.SplitWords | lambda_function.py:113 | splitting at a whitespace separator keeps the words, in order |
| PyStr.SplitLinesWords | lambda_function.py:112 | `splitlines()` keeps the words, in order |
| Extraction.FirstMatch | lambda_function.py:99-104 | the selector loop finds nothing exactly when no selector matches; otherwise it takes the text of the first matching selector, whatever that text is |
| Extraction.FirstNonEmpty | lambda_function.py:85-109 | the chain of `if not article_text` tests ends empty exactly when every candidate is empty, and otherwise yields the first non-empty candidate |
| Extraction.SelectText | lambda_function.py:85-109 | defines the selected raw text as the first non-empty of the four candidates, the selector candidate being the first match's text; `SelectionOrder` and `SelectTextChain` state its properties |
| Extraction.SelectTextChain | lambda_function.py:85-109 | the selected text is the result of the four tests in source order, each on the raw text the previous tests left |
| Extraction.SelectionOrder | lambda_function.py:88-109 | `<article>` text wins when present and non-empty; else `<main>`; else the first matching selector ends the search, falling through to the paragraphs only when its text is empty; with no match the paragraphs are used |
| Extraction.StripLinesKeep | lambda_function.py:112 | stripping each line keeps lines free of line breaks and keeps all non-space characters |
| Extraction.PhrasesKeep | lambda_function.py:113 | splitting lines at double spaces gives phrases without line breaks or double spaces, keeping all non-space characters |
| Extraction.ChunksKeep | lambda_function.py:113-114 | the kept chunks are non-empty, stripped, one-line, without double spaces, and hold all non-space characters |
| Extraction.JoinChunks | lambda_function.py:114 | joining such chunks with single spaces gives the empty string or a stripped one-line string without double spaces |
| Extraction.CleanVisible | lambda_function.py:112-114 | the clean-up changes only whitespace: it keeps every non-space character, in order |
| Extraction.CleanShape | lambda_function.py:112-114 | cleaned text has no line break, no double space and no whitespace at either end, and is empty exactly when the raw text is all whitespace |
| Extraction.StripLinesWords | lambda_function.py:112 | stripping each line keeps the words, in order |
| Extraction.PhrasesWords | lambda_function.py:113 | splitting the lines at double spaces keeps the words, in order |
| Extraction.ChunksWords | lambda_function.py:113-114 | stripping the phrases and dropping the empty ones keeps the words, in order |
| Extraction.CleanWords | lambda_function.py:112-114 | the clean-up keeps exactly the words of the raw text, in order: it cuts only at whitespace and joins only with a space |
| Extraction.CleanChunk | lambda_function.py:112-114 | text that is already one stripped line without double spaces comes out of the clean-up unchanged |
| Extraction.CleanIdempotent | lambda_function.py:112-114 | cleaning cleaned text changes nothing |
| Extraction.Clean | lambda_function.py:112-114 | defines the clean-up as the composition of the four generator stages; `CleanShape`, `CleanVisible` and `CleanWords` state its properties |
| Extraction.Extracted | lambda_function.py:65-120 | defines `extract_article_text`: `None` on a failed fetch, else the cleaned selected text cut to 5000 characters; `ExtractedShape` and `ExtractedWords` state its properties |
| Extraction.ExtractedWords | lambda_function.py:112-116 | when the cleaned text fits in 5000 characters, the extraction holds exactly the words of the selected raw text |
| Extraction.ExtractedShape | package/lambda_function.py:147-151 | extracted text is at most 5000 characters, a prefix of the cleaned text, one line without double spaces or leading whitespace, and empty exactly when the selected raw text is all whitespace |
| Extraction.BlankArticleWins | lambda_function.py:88-116 | an `<article>` of only whitespace is selected whatever `<main>` holds, and extraction then yields the empty string |
| Extraction.ExtractArticleText | package/lambda_function.py:100-155 | the step-by-step extraction (region by region, selector loop with `break`, clean-up, cut) returns `None` on a failed fetch and otherwise the cleaned selected text cut to 5000 |
| Summarization.SentencesAppend | lambda_function.py:171-175 | the sentences of two runs of fragments are those of the first run followed by those of the second, so the order of `text.split('.')` is kept |
| Summarization.SentencesMembers | lambda_function.py:172-175 | a string is a sentence exactly when it is the strip of some fragment and longer than 50 characters |
| Summarization.SentencesEmpty | lambda_function.py:171-180 | there is no sentence exactly when no fragment strips to more than 50 characters |
| Summarization.KeptSentences | lambda_function.py:171-177 | at most four sentences are kept; they are the first sentences in order, and all of them when there are fewer than four |
| Summarization.FourSentences | lambda_function.py:176-177 | with four or more sentences, exactly the first four are kept |
| Summarization.SimpleSummary | lambda_function.py:167-188 | defines `get_simple_summary` from the kept sentences, the fixed message and the 600-character cut; `SimpleSummaryShape`, `KeptOfFull` and `SimpleSummaryIdempotent` state its properties |
| Summarization.KeptSentencesShape | package/lambda_function.py:207-212 | every kept sentence is longer than 50 characters, has no whitespace at either end and holds no period |
| Summarization.SimpleSummaryShape | package/lambda_function.py:214-223 | the summary is non-empty, at most 600 characters and ends with a period; it is the fixed message exactly when no fragment qualifies; otherwise it is the kept sentences joined by `". "` plus `"."`, or its first 597 characters plus `"..."`, exactly 600 in all, when that is longer than 600 |
| Summarization.NoContentIsFull | lambda_function.py:180 | the fixed message is itself one well-formed sentence and its period |
| Summarization.SentencesOfFull | lambda_function.py:182 | splitting a joined summary at its periods gives back the sentences it was built from |
| Summarization.KeptOfFull | lambda_function.py:171-182 | up to four well-formed sentences survive a round trip through their joined summary |
| Summarization.SimpleSummaryIdempotent | lambda_function.py:167-188 | summarising a summary that was not cut gives the same summary |
| Summarization.SentencesSnoc | lambda_function.py:172-175 | one more loop iteration appends the stripped fragment exactly when it is longer than 50 characters |
| Summarization.KeptFromPrefix | lambda_function.py:176-177 | once the fragments scanned so far give four sentences, they are the ones kept, so the `break` loses nothing |
| Summarization.GetSimpleSummary | lambda_function.py:167-188 | the loop with its early `break` and the join-and-cut return exactly the specified simple summary |
| Summarization.MistralSummary | lambda_function.py:123-164 | the model sees the URL and the first 3000 characters; a reply is returned as it is; on any failure the result is the simple summary of the whole text, which is never empty |
| Pipeline.Summarize | lambda_function.py:36-39 | defines the choice between the model and the simple summary by whether the key is set; `SummarizeOutcomes` states its properties |
| Pipeline.Process | lambda_function.py:26-46 | defines the middle of the handler: extract, stop on no text, summarise, stop on an empty summary; `ProcessOutcomes` states its properties |
| Pipeline.SummarizeOutcomes | lambda_function.py:36-39 | the summary is empty only when the key is set and the model replied with empty content; without the key or on a model failure it is the simple summary of the whole text |
| Pipeline.ProcessOutcomes | lambda_function.py:27-46 | the flow stops at extraction exactly when the fetch failed or the selected text is all whitespace; it stops at summarising only on an empty model reply; otherwise it gives a non-empty summary of the extracted text |
| Pipeline.RunStages | package/lambda_function.py:54-75 | extracting, testing, summarising with the model or the fallback, and testing again gives exactly the specified outcome |
| Lambda.LambdaHandler | lambda_function.py:9-62 | defines the root handler: 500 for an unreadable body, 400 for a missing URL, otherwise the answer for the outcome of the middle flow, with no headers; the `Lambda` lemmas state its properties |
| Lambda.ResponseKinds | lambda_function.py:14-63 | no headers; 500 exactly for an unreadable body; 200 exactly for a summary body; 400 otherwise, with one of the three error messages |
| Lambda.UrlIsRequired | lambda_function.py:17-24 | the answer is 400 "URL is required" exactly when `url` is missing or empty |
| Lambda.SuccessBody | lambda_function.py:48-56 | a 200 answer repeats the URL and holds the non-empty summary of the extracted text, its number of whitespace-separated words, and `from_cache` false |
| Lambda.NothingExtracted | lambda_function.py:27-33 | a failed fetch, or a page whose selected text is all whitespace, is answered 400 "Could not extract text from article" |
| Lambda.BlankArticleFails | lambda_function.py:29-33 | a whitespace-only `<article>` makes the answer 400, whatever `<main>` holds |
| Lambda.ModelFailureFallsBack | lambda_function.py:161-164 | when the model call fails, the answer is 200 with the simple summary of the whole extracted text |
| Lambda.SummaryFailureCause | lambda_function.py:41-46 | "Could not generate summary" is answered only when the key is set and the model replied with empty content |
| CachedLambda.Lookup | package/lambda_function.py:229-251 | defines a faultless `check_cache`: the summary stored under the URL's key, if any; `LookupStore` states its properties |
| CachedLambda.Store | package/lambda_function.py:254-269 | defines a faultless `save_to_cache`: the item put under the URL's key; `LookupStore` and `StoreKeys` state its properties |
| CachedLambda.Decide | package/lambda_function.py:21-97 | defines the package handler's answer and requested save for a given cache lookup result; `CorsOnEveryResponse`, `CacheHitShortCircuits`, `MissMatchesRoot` and `SaveOnlyFreshSuccess` state its properties |
| CachedLambda.LookupStore | package/lambda_function.py:239-267 | looking up a URL just stored gives its summary; a URL with another key sees the old table; a key never written gives nothing |
| CachedLambda.StoreKeys | package/lambda_function.py:258-267 | a save adds or replaces only the URL's key |
| CachedLambda.CorsOnEveryResponse | package/lambda_function.py:33-97 | every response, 200, 400 or 500, carries exactly `Access-Control-Allow-Origin: *` |
| CachedLambda.CacheHitShortCircuits | package/lambda_function.py:40-51 | a non-empty cached summary is answered 200 with `from_cache` true and no word count, nothing is saved, and the services play no part |
| CachedLambda.EmptyCacheIsMiss | package/lambda_function.py:41-42 | an empty or missing cached summary is handled as a miss |
| CachedLambda.MissMatchesRoot | package/lambda_function.py:54-90 | on a miss, for the same page after tag removal, the package handler answers as the root handler does, plus the CORS header (the two files remove different tags, see "Left out") |
| CachedLambda.SaveOnlyFreshSuccess | package/lambda_function.py:69-90 | a save happens exactly on a fresh 200 answer, with that answer's URL and non-empty summary; never on a 400, a 500 or a hit |
| CachedLambda.RepeatIsHit | package/lambda_function.py:40-51 | after a fresh success is saved, the same request is a hit with the same summary |
| CachedLambda.CacheGate.constructor | package/lambda_function.py:11-18 | the gate starts with the given `CACHE_ENABLED` flag, key function and table |
| CachedLambda.CacheGate.CheckCache | package/lambda_function.py:229-251 | the stored summary for the URL's key, or `None` when there is none, the item has no summary, the lookup raises, or caching is off |
| CachedLambda.CacheGate.SaveToCache | package/lambda_function.py:254-269 | the table gets the item under the URL's key; a failing write, or disabled caching, leaves it unchanged |
| CachedLambda.CacheGate.LambdaHandler | package/lambda_function.py:21-97 | the answer is the one `Decide` gives for the cache lookup the gate performs, so a failed save never changes it; the table changes only by the save `Decide` asks for |

## Left out

- Fetching the page: `requests.get`, its timeout, headers and `raise_for_status`. Any failure is the single value `FetchFailed`.
- All BeautifulSoup work: parsing, `decompose` and `get_text`. The root file removes `script`, `style`, `nav`, `footer` and `header` elements, the package file only `script` and `style`. A page is given as it looks after that removal, so the two variants share one extraction model.
- The Mistral client, the model name and the prompt text. The reply is a function of the URL and the first 3000 characters of the text. `Reply("")` stands for an empty or `None` content, and a content that is not a string is not modelled.
- DynamoDB, MD5 and `datetime.now()`. The table is a map, and the key is any function of the URL. Colliding keys behave as colliding digests would. The timestamp is not stored. The `check_cache` docstring mentions a 24-hour limit, but no code checks it, so the model has no expiry.
- JSON decoding of the event and encoding of the body. A body that cannot be read as an object is the single event `Unparsable`, answered with 500 and the exception text. A `url` value that is not a string is not modelled.
- `CACHE_ENABLED` is set by a module-level import attempt in the source. Here it is the `enabled` constant of `CacheGate`, given to its constructor.
- The `except` branch of `get_simple_summary` is not modelled: nothing in it can raise on a string. `print` logging and the `__main__` block are not modelled.
