/** The Google Custom Search result mapping of `google_search`, identical in
    simple_chatbot_v1/app.py and simple_chatbot_v2/app.py. */
module Search {
  import opened Maybe

  /** One element of the reply's "items" array; each field may be missing. */
  datatype SearchItem = SearchItem(title: Option<string>, link: Option<string>, snippet: Option<string>)

  /** The search call either raised (network, status or JSON error) or gave a
      JSON object that may or may not hold "items". */
  datatype SearchReply =
    | SearchRaised(description: string)
    | SearchJson(items: Option<seq<SearchItem>>)

  /** The `{title, link, snippet}` dict handed on to the crawlers. */
  datatype SearchResult = SearchResult(title: string, link: string, snippet: string)

  /** `item.get(field, '')` for the three fields. */
  function FromItem(item: SearchItem): SearchResult
  {
    SearchResult(item.title.GetOr(""), item.link.GetOr(""), item.snippet.GetOr(""))
  }

  /** One result per item, in order, with '' for a missing field; no result
      when "items" is absent or the call raised. */
  method GoogleSearch(reply: SearchReply) returns (searchResults: seq<SearchResult>)
    ensures reply.SearchRaised? ==> searchResults == []
    ensures reply.SearchJson? && reply.items.None? ==> searchResults == []
    ensures reply.SearchJson? && reply.items.Some? ==>
      var items := reply.items.value;
      && |searchResults| == |items|
      && forall i :: 0 <= i < |items| ==>
           && searchResults[i].title == (if items[i].title.Some? then items[i].title.value else "")
           && searchResults[i].link == (if items[i].link.Some? then items[i].link.value else "")
           && searchResults[i].snippet == (if items[i].snippet.Some? then items[i].snippet.value else "")
  {
    searchResults := [];
    match reply
    case SearchRaised(_) =>
    case SearchJson(items) =>
      if items.Some? {
        var all := items.value;
        for i := 0 to |all|
          invariant |searchResults| == i
          invariant forall k :: 0 <= k < i ==> searchResults[k] == FromItem(all[k])
        {
          searchResults := searchResults + [FromItem(all[i])];
        }
      }
  }
}
