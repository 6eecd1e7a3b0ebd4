# Web-search chatbots and URL fetchers: a verified model of their sequential core

The repository is a set of Python demo scripts. They search Google, crawl the
pages they find (directly or through the ZenRows scraping API), build a
prompt for an OpenAI model, or fetch and print pages a user types in. Around
the network, thread-pool and terminal calls sits a small amount of
deterministic logic. This project models that logic in Dafny and proves what
it promises. It covers:

- **Page clean-up and truncation** (`PageText`). Both chatbots do this to a
  page's extracted text. The text is split into lines and each line is
  stripped. Each line is then split on double spaces and each piece is
  stripped. Empty pieces are dropped, the rest are joined with single
  spaces, and the result is cut to `max_length` characters plus `"..."`.
  `Text` supplies the string helpers (`strip`, `startswith`, ASCII `lower`,
  decimal formatting, and `str.split()` as the words of a text).
  Whitespace and line breaks are Python's own sets for `str`:
  - whitespace (`str.isspace`, used by `strip` and `split()`): tab, LF, VT,
    FF, CR, the ASCII separators FS, GS, RS and US (`\x1c`-`\x1f`), space,
    NEL, no-break space, U+1680, U+2000-U+200A, U+2028, U+2029, U+202F,
    U+205F and U+3000;
  - line breaks (`splitlines`): LF, CR, CR LF (one break), VT, FF, FS, GS,
    RS, NEL, U+2028 and U+2029.
- **The crawlers' outcomes.**
  - v1 (`ChatbotV1`): a cleaned page, or `""` on any error. The sequential
    crawl loop keeps one reference per search result, in search order.
  - v2 (`ChatbotV2`): a cleaned page, or a failure message that starts with
    `Failed`, `Timeout` or `Error`. The parallel crawl is modelled
    sequentially:
    - the completion order is an arbitrary permutation given as input (`Completion`);
    - a flag per worker says that its future raised;
    - failed futures are dropped;
    - the insertion-sort stand-in for `list.sort` puts the survivors back in
      index order.
- **The Google result mapping** (`Search`): one `{title, link, snippet}` per
  item with `''` defaults, and `[]` when there are no items or on error.
- **The reference-context builder** (`Prompt`), shared by both chatbots:
  - a fixed preamble;
  - one block per usable source, numbered by its position plus one;
  - at most 9000 characters of each source's text, followed by `...`.
  - v1 skips empty texts. v2 also skips texts that start with the failure
    words.
- **The zenrows scripts.**
  - URL acceptance (`Urls`): strip, reject empty lines, default the scheme to
    `https://`, and keep the line when `is_valid_url` accepts it.
    `is_valid_url` is the function parameter `isValid`.
  - The display decision (`Display`): content starting with `Error` is shown
    whole. Other content is cut to the limit with a note giving its total
    length.
  - `ZenRowsSingle`: the accept loop, the fetcher choice, and both fetchers'
    error strings.
  - `ZenRowsParallel`:
    - three URLs read in a nested loop;
    - the futures dict keyed by URL, with Python dict semantics in
      `OrderedDict`;
    - collection of results in completion order, with the linear scan for
      each future's URL;
    - the numbered display.

Which member models which Python function:
- `PageText.CleanText` is the clean-up (split, strip, join) of both crawlers, `PageText.Truncate` the `max_length` cut, and `PageText.CleanPage` the two together. `PageText.SplitLines` is `str.splitlines`, `PageText.SplitDoubleSpace` is `split("  ")`, `PageText.JoinWith` is `str.join`, `Text.Strip` is `str.strip`, `Text.AsciiLower` is `str.lower`, and `Text.NatToString` is `str(n)`.
- `Search.GoogleSearch` is `google_search` of both chatbots.
- `Prompt.BuildContext` is the context loop of `get_answer_from_openai` in both chatbots, `Prompt.Context` its result, and `Prompt.UserMessage` the user message.
- `ChatbotV1.CrawlContent` is v1's `crawl_content`, and `ChatbotV1.CrawlAll` the crawl loop of v1's `run`.
- `ChatbotV2.CrawlContentZenRows` is `crawl_content_zenrows`, `ChatbotV2.CrawlSingleUrl` is `crawl_single_url`, `ChatbotV2.CrawlUrlsParallel` is `crawl_urls_parallel`, and `ChatbotV2.SortByIndex` its `sort`.
- `Urls.DefaultScheme` is the `https://` defaulting, and `Urls.Candidate` the treatment of one typed line.
- `Display.Decide` is the print-or-cut decision of both zenrows scripts, and `Display.Note` the truncation note.
- `ZenRowsSingle.ReadUrl` is the accept loop of `main`, `ZenRowsSingle.ChooseFetcher` the fetcher choice, and `ZenRowsSingle.GetWebContent` both `get_web_content_zenscrape` and `get_web_content_direct`.
- `OrderedDict.Put` is Python's `d[key] = value` on a dict.
- `ZenRowsParallel.GetUrlsFromUser` is `get_urls_from_user`.
- `ZenRowsParallel.SubmitAll` is the futures dict comprehension (zenrows_parallel/app.py:84).
- `ZenRowsParallel.GetWebContentZenRows` is `get_web_content_zenrows`.
- `ZenRowsParallel.ContentOf` is what the collect loop stores for one finished future.
- `ZenRowsParallel.FetchMultipleUrlsParallel` is `fetch_multiple_urls_parallel`.
- `ZenRowsParallel.Sections` is `display_results`.

HTTP is abstracted by `Http.HttpResult`, which has three cases:
- a response that passed `raise_for_status`, with its status and body. The
  status is an `Http.PassedStatus`, which excludes 400-599, so an error
  status reaches the crawlers as a failure;
- a timeout;
- any other failure, with its `str(e)`.

Keyboard input is a sequence of lines. When the lines run out, the model
returns `None`; this is where Python's `input()` would raise `EOFError`.

The v2 context labels do not follow the search position. The comment at
simple_chatbot_v2/app.py:167 says the sort is there "to maintain order", so
the labels were evidently meant to be the search positions. But line 182
enumerates the sorted survivors list, so `Source i+1` uses the position `i`
among the survivors. That equals the search position only when no earlier
future failed. The model follows the code:
- `ChatbotV2.NoFailureKeepsAll` proves the labels match the search positions
  when no future failed;
- `ChatbotV2.PositionAtMostIndex` proves that otherwise a label can only
  fall behind the search position.

The comment in zenrows/app.py:64 says that `http://` is added, but the code
adds `https://`. The model follows the code (`Urls.DefaultScheme`).

## Model

| member | source | states |
|---|---|---|
| Text.Strip | simple_chatbot_v2/app.py:113 | `str.strip()` leaves no whitespace at either end and never lengthens the text |
| Text.StripVisible | simple_chatbot_v2/app.py:113-114 | stripping removes whitespace only: the visible characters are kept, in order |
| Text.NatToStringRoundTrip | simple_chatbot_v2/app.py:123 | the decimal digits written for a status code or a length read back as that number |
| PageText.SplitLines | simple_chatbot_v2/app.py:113 | `splitlines()` yields lines with no line break in them |
| PageText.SplitLinesRoundTrip | simple_chatbot_v2/app.py:113 | each line followed by the boundary `splitlines()` removed after it gives the text back; each boundary is CR LF or one break character, and only the last may be empty |
| PageText.LoneCarriageReturn | simple_chatbot_v2/app.py:113 | CR LF is one boundary: a boundary that is a lone CR is never directly followed by LF |
| PageText.SplitDoubleSpace | simple_chatbot_v2/app.py:114 | `split("  ")` yields at least one piece, none holding a double space or, for a line, a line break |
| PageText.SplitDoubleSpaceRoundTrip | simple_chatbot_v2/app.py:114 | `"  ".join(line.split("  "))` is the line again |
| Text.StripWords | simple_chatbot_v2/app.py:113-114 | `strip()` keeps every word of the text |
| PageText.CleanTextShape | simple_chatbot_v2/app.py:113-115 | the cleaned text has no line break, no two consecutive spaces and no leading or trailing whitespace |
| PageText.CleanTextVisible | simple_chatbot_v1/app.py:94-96 | the clean-up only removes or merges whitespace: the visible characters of the page survive in order |
| PageText.CleanTextEmptyIff | simple_chatbot_v2/app.py:113-115 | the cleaned text is empty exactly when the input is all whitespace and line breaks |
| PageText.CleanTextWords | simple_chatbot_v2/app.py:113-115 | the cleaned text has the same words as the page, in order: words are never lost, split or run together, and only the whitespace between them changes |
| PageText.CleanTextIdempotent | simple_chatbot_v1/app.py:94-96 | cleaning a cleaned text changes nothing |
| PageText.TruncateSpec | simple_chatbot_v2/app.py:118-119 | text over `max_length` becomes its first `max_length` characters plus `"..."` (length `max_length`+3); shorter text is unchanged |
| PageText.TruncateIdempotent | simple_chatbot_v1/app.py:99-100 | truncating twice to the same length equals truncating once |
| PageText.CleanPageSpec | simple_chatbot_v1/app.py:94-100 | a crawled page keeps at most `max_length`+3 characters, has no line break, double space or edge whitespace, and is empty exactly when the page text is all whitespace |
| Search.GoogleSearch | simple_chatbot_v2/app.py:69-82 | one result per item, in order, each field copied or `''` when missing; `[]` when `items` is absent or the call raised |
| Prompt.Excerpt | simple_chatbot_v2/app.py:186 | `text[:9000]` is a prefix of the text of at most 9000 characters, and the whole text when it is short |
| Prompt.BuildContext | simple_chatbot_v2/app.py:179-186 | the `context +=` loop yields the preamble followed by the block of every usable source and no other, in source order, each numbered by its position plus one |
| Prompt.IncludedSpec | simple_chatbot_v1/app.py:114-118 | a source gets a block exactly when its text is usable (non-empty; in v2 also not starting with a failure word); block numbers increase, so skipped sources leave gaps |
| Prompt.BlockShape | simple_chatbot_v2/app.py:184-186 | a source's block is its `--- Source n: title ---` line, its `URL:` line and a `Content:` line holding a prefix of at most 9000 characters of its text (the whole of a shorter text), always followed by `...` |
| Prompt.ContextStartsWithPreamble | simple_chatbot_v2/app.py:179-180 | the context always starts with the fixed preamble |
| Prompt.UserMessageParts | simple_chatbot_v2/app.py:193 | the user message opens with the whole context and ends with the whole question, after the `\n\nQuestion: ` marker |
| Prompt.FailurePrefixSkipped | simple_chatbot_v2/app.py:183 | under the v2 filter a text starting with `Error`, `Failed` or `Timeout` never gets a block |
| ChatbotV1.CrawlContentSpec | simple_chatbot_v1/app.py:94-105 | a failed crawl yields `""`; a fetched page yields `""` exactly when its text is all whitespace; otherwise clean text of at most 9003 characters |
| ChatbotV1.CrawlAll | simple_chatbot_v1/app.py:168-181 | one reference per search result, in search order, title and url copied from the result, text the crawl of its link |
| ChatbotV1.FailedPagesNeverInContext | simple_chatbot_v1/app.py:103-118 | a search result gets a context block exactly when its page was fetched and holds visible text, so failed pages never appear |
| ChatbotV2.CrawlFailuresAreMarked | simple_chatbot_v2/app.py:102-128 | every failure message starts with `Failed`, `Timeout` or `Error` and is never usable under the v2 filter; a page delivered with status 200 yields its cleaned text |
| ChatbotV2.DeliveredPageWithFailureWordSkipped | simple_chatbot_v2/app.py:113-128 | a delivered page whose cleaned text itself starts with a failure word is still non-empty, yet is skipped like a failure |
| ChatbotV2.SortByIndex | simple_chatbot_v2/app.py:168 | the sort yields a list in ascending `index` order that is a permutation of its input |
| ChatbotV2.CrawlUrlsParallel | simple_chatbot_v2/app.py:146-173 | whatever the completion order, the result is the successful records in search order |
| ChatbotV2.CollectPermutation | simple_chatbot_v2/app.py:159-162 | collecting along any completion order gathers the same records up to order |
| ChatbotV2.SortedUnique | simple_chatbot_v2/app.py:168 | sorting by the distinct indices fixes the list: a sorted permutation of a strictly sorted list is that list |
| ChatbotV2.SurvivorsSpec | simple_chatbot_v2/app.py:159-168 | the aggregated records are in strictly ascending index order, each a successful record at its own index, all successes present, as many as successes |
| ChatbotV2.AggregationSpec | simple_chatbot_v2/app.py:138-168 | each aggregated record carries its position in the search results and the crawl of that result; every successful crawl appears once, failed futures are omitted, and the count is at most the number of results |
| ChatbotV2.NoFailureKeepsAll | simple_chatbot_v2/app.py:153-168 | when no future raised, every record is kept in search order, record `k` at position `k` |
| ChatbotV2.PositionAtMostIndex | simple_chatbot_v2/app.py:182-184 | in the sorted survivors a record's position never exceeds its search index |
| ChatbotV2.CrawlFailuresNeverInContext | simple_chatbot_v2/app.py:123-128 | an aggregated record whose crawl was not delivered never gets a context block |
| Completion.PermutationSpec | simple_chatbot_v2/app.py:159 | a completion order names every submitted future exactly once |
| Urls.DefaultScheme | zenrows_parallel/app.py:53-54 | the result has `http://` or `https://`; a URL that had one is unchanged; otherwise `https://` is prepended |
| Urls.DefaultSchemeIdempotent | zenrows_parallel/app.py:53-54 | defaulting the scheme twice equals doing it once |
| Urls.Candidate | zenrows/app.py:58-71 | a typed line is accepted exactly when it is non-empty after stripping and valid after scheme defaulting; an accepted URL has a scheme |
| Urls.AcceptedSpec | zenrows_parallel/app.py:46-58 | every accepted URL has a scheme and passed validation |
| Urls.RejectedLinesIgnored | zenrows_parallel/app.py:48-60 | blank or invalid lines are not counted |
| Urls.AcceptedAppend | zenrows_parallel/app.py:44-60 | acceptance works line by line: the URLs of two runs of lines are the URLs of each, concatenated |
| Display.Decide | zenrows_parallel/app.py:113-121 | what is shown whole is the content itself; a cut happens exactly to non-error content over the limit, keeps a prefix of exactly `limit` characters, and reports the true length |
| Display.CutLosesOnlyTail | zenrows/app.py:99-101 | a cut loses only the tail: the printed head followed by the characters beyond the limit is the content again |
| Display.NoteReportsTotal | zenrows/app.py:101 | the truncation note is its fixed opening and closing words around a run of decimal digits that reads back as the content's length |
| ZenRowsSingle.ReadUrl | zenrows/app.py:57-71 | the accept loop ends with the first URL the typed lines accept, if there is one |
| ZenRowsSingle.ChooseFetcher | zenrows/app.py:77-88 | the ZenRows fetcher is used exactly when the answer is `y` after lower-casing and stripping and the key is non-empty |
| ZenRowsSingle.FetchErrorsShownWhole | zenrows/app.py:28-49 | both fetchers report failure with the prefix `Error fetching content: `, so the display prints it whole; otherwise the response text is used |
| ZenRowsSingle.ShownContent | zenrows/app.py:95-103 | the display cuts only a fetched page longer than 2000 characters that does not start with `Error`, keeping its first 2000 characters and reporting its length |
| OrderedDict.Put | zenrows_parallel/app.py:95-97 | `d[key] = value` keeps an existing key's position, appends a new key, and leaves other entries unchanged |
| OrderedDict.PutSpec | zenrows_parallel/app.py:95-97 | in a dict, an assignment keeps the keys distinct and leaves the new value as the only one under its key |
| ZenRowsParallel.GetUrlsFromUser | zenrows_parallel/app.py:39-62 | yields exactly the first three URLs the typed lines accept, in typing order, or none when the lines run out first |
| ZenRowsParallel.UrlsFromUserSpec | zenrows_parallel/app.py:41-62 | the three URLs returned have a scheme and passed validation |
| ZenRowsParallel.LastIndex | zenrows_parallel/app.py:84 | the last submission of a URL |
| ZenRowsParallel.SubmitAllSpec | zenrows_parallel/app.py:84 | the futures dict has one key per distinct URL, each holding the future of that URL's last submission |
| ZenRowsParallel.DuplicateCollapses | zenrows_parallel/app.py:84 | a repeated URL collapses to one key, so there are fewer entries than URLs |
| ZenRowsParallel.SubmitAllDistinct | zenrows_parallel/app.py:84 | without repeated URLs the dict follows the URLs one to one, entry `k` holding URL `k` and future `k` |
| ZenRowsParallel.FailuresShownWhole | zenrows_parallel/app.py:35-36 | both failure messages (fetch error, raised future) start with `Error` and are shown whole; a fetched page is the response text |
| ZenRowsParallel.FetchMultipleUrlsParallel | zenrows_parallel/app.py:84-103 | the results dict holds one entry per finished future, in completion order, under that future's URL, with its content or error message |
| ZenRowsParallel.ResultsKeys | zenrows_parallel/app.py:89-98 | the results have exactly one key per distinct input URL |
| ZenRowsParallel.ResultsValues | zenrows_parallel/app.py:93-97 | under each URL the results hold the content of that URL's last submitted future |
| ZenRowsParallel.DisplaySpec | zenrows_parallel/app.py:106-121 | the sections are numbered from 1 in dict order, each under its URL; every URL whose fetch failed is printed with its whole error message; a cut only happens to a fetched page and reports its length |

## Left out

- HTTP requests, ZenRows and Google Custom Search calls are not modelled; each outcome is an `HttpResult` or a `SearchReply` given as input.
- BeautifulSoup parsing and the removal of `<script>`/`<style>` are not modelled; the model starts from the extracted text.
- `raise_for_status` itself is not modelled: a 4xx or 5xx status arrives as `RequestFailed` carrying the `HTTPError`'s description, which is an input. So v1 yields `""` and v2 an `Error crawling: ` message for it. Only a status outside 400-599 reaches v2's `status_code == 200` test.
- `is_valid_url` wraps `urlparse`, a foreign library; it is the uninterpreted parameter `isValid`.
- `Text.AsciiLower`: Python's `str.lower` maps every cased Unicode letter and may change a string's length; the model lower-cases the ASCII letters only.
- The thread pool, scheduling, `max_workers` and the print lock are concurrency and are not modelled. Completion order is an input permutation, and a failed future is an input flag or a `Raised` outcome. In zenrows_parallel the unreferenced earlier future of a repeated URL still runs; the model ignores it because nothing reads its result.
- All timing (`time.time()` differences, `crawl_time`, `time.sleep`) involves floats and side effects, so it is left out. `CrawlRecord` has no `crawl_time` field.
- `print` output is not modelled; the display is modelled as decisions (`Display.Shown`, `ZenRowsParallel.Section`), not as the `=` separator lines.
- The interactive `run` loops, the API-key and environment checks, `sys.exit`, and the `KeyboardInterrupt` handlers are not modelled.
- All OpenAI calls, search-term generation and its fallback, and the answer are foreign; only the user message built from the context is modelled (`Prompt.UserMessage`); the system message and the request parameters are not.
- `ChatbotV2.SortByIndex`: the sort stands in for `list.sort`. Its stability is not stated, and is not needed, because the indices are distinct.
- `ZenRowsSingle.ReadUrl` and `ZenRowsParallel.GetUrlsFromUser`: running out of input is modelled as `None`, whereas the script would raise `EOFError` inside `input()`.
- `ZenRowsParallel.FetchMultipleUrlsParallel`: futures are named by their submission number; Python compares them by identity.
- The Quart and streaming apps, tiktoken, the reasoning-model scripts and google_search_engine/app.py are not part of this model.
