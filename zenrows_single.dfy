/** zenrows/app.py: read one URL, choose a fetcher, show what it fetched. */
module ZenRowsSingle {
  import opened Text
  import opened Maybe
  import opened Http
  import opened Urls
  import opened Display

  /** The display limit of this script. */
  const DisplayLimit: nat := 2000

  /** The `while True` accept loop of `main`: reads typed lines until one is
      non-empty and valid after scheme defaulting. It yields the first URL
      the lines accept, and None when they run out before one is accepted
      (where `input()` would raise `EOFError`). */
  method ReadUrl(inputs: seq<string>, isValid: string -> bool) returns (url: Option<string>)
    ensures url.Some? <==> Accepted(inputs, isValid) != []
    ensures url.Some? ==> url.value == Accepted(inputs, isValid)[0]
  {
    var pos := 0;
    while true
      invariant pos <= |inputs|
      invariant Accepted(inputs[..pos], isValid) == []
      decreases |inputs| - pos
    {
      if pos == |inputs| {
        assert inputs[..pos] == inputs;
        return None;
      }
      var line := Strip(inputs[pos]);
      AcceptedStep(inputs, pos, isValid);
      AcceptedPrefix(inputs, pos + 1, isValid);
      pos := pos + 1;
      if line == "" {
        continue;
      }
      var candidate := DefaultScheme(line);
      if isValid(candidate) {
        return Some(candidate);
      }
    }
  }

  datatype Fetcher = ZenScrape | Direct

  /** Which fetcher `main` uses: the ZenRows one only when the answer,
      lower-cased and stripped, is "y" and the key typed next, stripped, is
      non-empty. */
  function ChooseFetcher(answer: string, keyInput: string): (f: Fetcher)
    ensures f == ZenScrape <==> Strip(AsciiLower(answer)) == "y" && Strip(keyInput) != ""
  {
    if Strip(AsciiLower(answer)) == "y" then
      if Strip(keyInput) != "" then ZenScrape else Direct
    else Direct
  }

  /** `get_web_content_zenscrape` and `get_web_content_direct` once the
      request has happened: the response text, or the same error message
      for any `RequestException`. */
  function GetWebContent(fetch: HttpResult): string
  {
    match fetch
    case Response(_, body) => body
    case TimedOut(description) => "Error fetching content: " + description
    case RequestFailed(description) => "Error fetching content: " + description
  }

  /** Both fetchers report failure with the "Error fetching content: "
      prefix, so it is always shown whole; a fetched text is what the
      response carried. */
  lemma FetchErrorsShownWhole(fetch: HttpResult)
    ensures !fetch.Response? ==> StartsWith(GetWebContent(fetch), "Error fetching content: ")
    ensures !fetch.Response? ==> Decide(GetWebContent(fetch), DisplayLimit) == Whole(GetWebContent(fetch))
    ensures fetch.Response? ==> GetWebContent(fetch) == fetch.body
  {
    if !fetch.Response? {
      var c := GetWebContent(fetch);
      assert c[..|"Error fetching content: "|] == "Error fetching content: ";
      assert c[..5] == "Error";
    }
  }

  /** The content `main` shows: the chosen fetcher's outcome; `zen` and
      `direct` are what the two requests for the URL would give. */
  function FetchedContent(answer: string, keyInput: string, zen: HttpResult, direct: HttpResult): string
  {
    match ChooseFetcher(answer, keyInput)
    case ZenScrape => GetWebContent(zen)
    case Direct => GetWebContent(direct)
  }

  /** What `main` prints for the fetched content: a cut happens only for a
      fetched page longer than 2000 characters that does not itself begin
      with "Error", and keeps its first 2000 characters. */
  lemma ShownContent(answer: string, keyInput: string, zen: HttpResult, direct: HttpResult)
    ensures var fetch := if ChooseFetcher(answer, keyInput) == ZenScrape then zen else direct;
      var s := Decide(FetchedContent(answer, keyInput, zen, direct), DisplayLimit);
      && (s.Cut? <==> fetch.Response? && !IsError(fetch.body) && |fetch.body| > DisplayLimit)
      && (s.Cut? ==> s.head == fetch.body[..DisplayLimit] && s.total == |fetch.body|)
      && (s.Whole? ==> s.text == FetchedContent(answer, keyInput, zen, direct))
  {
    FetchErrorsShownWhole(zen);
    FetchErrorsShownWhole(direct);
  }
}
