/** simple_chatbot_v1/app.py: pages are fetched directly, one after the
    other, and any crawl error becomes the empty text. */
module ChatbotV1 {
  import opened Text
  import opened Http
  import opened PageText
  import opened Search
  import opened Prompt

  /** `crawl_content`: the cleaned and truncated page text, or "" when the
      request, the status check or the parsing raised. */
  function CrawlContent(fetch: HttpResult): string
  {
    match fetch
    case Response(_, page) => CleanPage(page, MaxLength)
    case _ => ""
  }

  /** A failed crawl yields ""; a fetched page yields "" exactly when its
      text is all whitespace; the text is clean and at most 9003 long. */
  lemma CrawlContentSpec(fetch: HttpResult)
    ensures !fetch.Response? ==> CrawlContent(fetch) == ""
    ensures fetch.Response? ==> (CrawlContent(fetch) == "" <==> AllSpace(fetch.body))
    ensures |CrawlContent(fetch)| <= MaxLength + 3
    ensures NoLineBreak(CrawlContent(fetch)) && NoDoubleSpace(CrawlContent(fetch))
    ensures Trimmed(CrawlContent(fetch))
  {
    if fetch.Response? {
      CleanPageSpec(fetch.body, MaxLength);
    }
  }

  /** The reference-content dict built for one search result. */
  function ReferenceFor(result: SearchResult, fetch: HttpResult): Source
  {
    Source(result.title, result.link, CrawlContent(fetch))
  }

  /** The crawl loop of `run`: one reference per search result, in search
      order, with title and url copied from the result. `fetches[i]` is what
      the request for `searchResults[i].link` gave. */
  method CrawlAll(searchResults: seq<SearchResult>, fetches: seq<HttpResult>)
    returns (referenceContent: seq<Source>)
    requires |fetches| == |searchResults|
    ensures |referenceContent| == |searchResults|
    ensures forall i :: 0 <= i < |searchResults| ==>
              && referenceContent[i].title == searchResults[i].title
              && referenceContent[i].url == searchResults[i].link
              && referenceContent[i].text == CrawlContent(fetches[i])
  {
    referenceContent := [];
    for i := 0 to |searchResults|
      invariant |referenceContent| == i
      invariant forall k :: 0 <= k < i ==> referenceContent[k] == ReferenceFor(searchResults[k], fetches[k])
    {
      var content := CrawlContent(fetches[i]);
      referenceContent := referenceContent + [Source(searchResults[i].title, searchResults[i].link, content)];
    }
  }

  lemma ReferencesUsable(searchResults: seq<SearchResult>, fetches: seq<HttpResult>,
                         referenceContent: seq<Source>)
    requires |fetches| == |searchResults| == |referenceContent|
    requires forall i :: 0 <= i < |searchResults| ==> referenceContent[i] == ReferenceFor(searchResults[i], fetches[i])
    ensures forall i :: 0 <= i < |searchResults| ==>
              (Usable(SkipEmpty, referenceContent[i].text) <==> fetches[i].Response? && !AllSpace(fetches[i].body))
  {
    forall i | 0 <= i < |searchResults| {
      CrawlContentSpec(fetches[i]);
    }
  }

  /** A search result gets a block in the context exactly when its page was
      fetched and holds some visible text: failed pages never appear, and
      the block keeps the result's own position as its number. */
  lemma FailedPagesNeverInContext(searchResults: seq<SearchResult>, fetches: seq<HttpResult>,
                                  referenceContent: seq<Source>)
    requires |fetches| == |searchResults| == |referenceContent|
    requires forall i :: 0 <= i < |searchResults| ==> referenceContent[i] == ReferenceFor(searchResults[i], fetches[i])
    ensures forall i :: 0 <= i < |searchResults| ==>
              (i in Included(SkipEmpty, referenceContent, |referenceContent|)
               <==> fetches[i].Response? && !AllSpace(fetches[i].body))
  {
    ReferencesUsable(searchResults, fetches, referenceContent);
    IncludedSpec(SkipEmpty, referenceContent, |referenceContent|);
  }
}
