/** Python dicts as the parallel zenrows script uses them: keys in insertion
    order, assignment to an existing key replacing its value in place. */
module OrderedDict {

  datatype Entry<V> = Entry(key: string, value: V)

  function Keys<V>(d: seq<Entry<V>>): (ks: seq<string>)
    ensures |ks| == |d| && forall i :: 0 <= i < |d| ==> ks[i] == d[i].key
  {
    seq(|d|, i requires 0 <= i < |d| => d[i].key)
  }

  predicate DistinctKeys<V>(d: seq<Entry<V>>) {
    forall a, b :: 0 <= a < b < |d| ==> d[a].key != d[b].key
  }

  /** The position of `key`, or `|d|` when it is absent. */
  function Find<V>(d: seq<Entry<V>>, key: string): (i: nat)
    ensures i <= |d|
    ensures i < |d| ==> d[i].key == key
    ensures forall j :: 0 <= j < i ==> d[j].key != key
  {
    if d == [] then 0
    else if d[0].key == key then 0
    else 1 + Find(d[1..], key)
  }

  /** `d[key] = value`: an existing key keeps its position and takes the new
      value; a new key goes to the end; every other entry is unchanged. */
  function Put<V>(d: seq<Entry<V>>, key: string, value: V): (r: seq<Entry<V>>)
    ensures key in Keys(d) ==> |r| == |d| && Keys(r) == Keys(d)
    ensures key !in Keys(d) ==> r == d + [Entry(key, value)]
    ensures forall i :: 0 <= i < |d| && d[i].key != key ==> r[i] == d[i]
    ensures Entry(key, value) in r
  {
    var i := Find(d, key);
    if i < |d| then
      assert Keys(d)[i] == key;
      d[i := Entry(key, value)]
    else
      d + [Entry(key, value)]
  }

  /** In a dict, putting keeps the keys distinct and leaves `value` as the
      only value under `key`. */
  lemma PutSpec<V>(d: seq<Entry<V>>, key: string, value: V)
    requires DistinctKeys(d)
    ensures DistinctKeys(Put(d, key, value))
    ensures forall i :: 0 <= i < |Put(d, key, value)| && Put(d, key, value)[i].key == key ==>
              Put(d, key, value)[i] == Entry(key, value)
  {
    var r := Put(d, key, value);
    if key in Keys(d) {
      forall a, b | 0 <= a < b < |r| ensures r[a].key != r[b].key {
        assert r[a].key == Keys(r)[a] == Keys(d)[a] == d[a].key;
        assert r[b].key == Keys(r)[b] == Keys(d)[b] == d[b].key;
      }
      var e :| e in r && e == Entry(key, value);
      forall i | 0 <= i < |r| && r[i].key == key ensures r[i] == Entry(key, value) {
        var j :| 0 <= j < |r| && r[j] == e;
        assert r[i].key == r[j].key;
      }
    } else {
      forall a, b | 0 <= a < b < |r| ensures r[a].key != r[b].key {
        if b == |d| {
          assert d[a].key in Keys(d);
        }
      }
      forall i | 0 <= i < |d| ensures d[i].key != key {
        assert Keys(d)[i] == d[i].key;
      }
    }
  }
}

/** zenrows_parallel/app.py: read three URLs, fetch them through ZenRows on
    a pool of workers, and show each result. */
module ZenRowsParallel {
  import opened Text
  import opened Maybe
  import opened Http
  import opened Urls
  import opened Display
  import opened Completion
  import opened OrderedDict

  /** How many URLs `get_urls_from_user` asks for. */
  const UrlCount: nat := 3

  /** The display limit of this script. */
  const DisplayLimit: nat := 1500

  // ---------------------------------------------------------------------
  // Reading the URLs

  /** `get_urls_from_user`: asks for three URLs, re-asking after each blank
      or invalid line. It yields the first three URLs the lines accept, in
      typing order, and None when the lines run out first (where `input()`
      would raise `EOFError`). */
  method GetUrlsFromUser(inputs: seq<string>, isValid: string -> bool) returns (urls: Option<seq<string>>)
    ensures urls.Some? <==> |Accepted(inputs, isValid)| >= UrlCount
    ensures urls.Some? ==> urls.value == Accepted(inputs, isValid)[..UrlCount]
  {
    var collected: seq<string> := [];
    var pos := 0;
    for i := 0 to UrlCount
      invariant pos <= |inputs|
      invariant collected == Accepted(inputs[..pos], isValid) && |collected| == i
    {
      while true
        invariant pos <= |inputs|
        invariant collected == Accepted(inputs[..pos], isValid) && |collected| == i
        decreases |inputs| - pos
      {
        if pos == |inputs| {
          assert inputs[..pos] == inputs;
          return None;
        }
        var url := Strip(inputs[pos]);
        AcceptedStep(inputs, pos, isValid);
        pos := pos + 1;
        if url == "" {
          continue;
        }
        url := DefaultScheme(url);
        if isValid(url) {
          collected := collected + [url];
          break;
        }
      }
    }
    AcceptedPrefix(inputs, pos, isValid);
    assert (collected + Accepted(inputs[pos..], isValid))[..UrlCount] == collected;
    urls := Some(collected);
  }

  /** The URLs `get_urls_from_user` returns have a scheme, passed validation
      and are exactly three. */
  lemma UrlsFromUserSpec(inputs: seq<string>, isValid: string -> bool)
    requires |Accepted(inputs, isValid)| >= UrlCount
    ensures |Accepted(inputs, isValid)[..UrlCount]| == UrlCount
    ensures forall url :: url in Accepted(inputs, isValid)[..UrlCount] ==> HasScheme(url) && isValid(url)
  {
    AcceptedSpec(inputs, isValid);
    forall url | url in Accepted(inputs, isValid)[..UrlCount] ensures url in Accepted(inputs, isValid) {
      var k :| 0 <= k < UrlCount && Accepted(inputs, isValid)[..UrlCount][k] == url;
      assert Accepted(inputs, isValid)[k] == url;
    }
  }

  // ---------------------------------------------------------------------
  // Submitting

  /** The last position of `url` in `urls`. */
  function LastIndex(urls: seq<string>, url: string): (i: nat)
    requires url in urls
    ensures i < |urls| && urls[i] == url
    ensures forall j :: i < j < |urls| ==> urls[j] != url
  {
    if urls[|urls| - 1] == url then |urls| - 1
    else
      assert url in urls[..|urls| - 1] by {
        var k :| 0 <= k < |urls| && urls[k] == url;
        assert urls[..|urls| - 1][k] == url;
      }
      LastIndex(urls[..|urls| - 1], url)
  }

  /** A futures dict for `urls`: one key per distinct URL, each holding the
      future of that URL's last submission (futures are named by their
      submission number). */
  ghost predicate FuturesOf(urls: seq<string>, f: seq<Entry<nat>>) {
    && DistinctKeys(f)
    && (forall url :: url in Keys(f) <==> url in urls)
    && (forall k :: 0 <= k < |f| ==> f[k].key in urls && f[k].value == LastIndex(urls, f[k].key))
    && |f| <= |urls|
  }

  /** `futures = {url: executor.submit(fetch_single_url, url) for url in urls}`:
      a repeated URL is submitted again, and its entry takes the later future. */
  function SubmitAll(urls: seq<string>): seq<Entry<nat>>
  {
    if urls == [] then []
    else Put(SubmitAll(urls[..|urls| - 1]), urls[|urls| - 1], |urls| - 1)
  }

  /** The dict comprehension builds a futures dict. */
  lemma {:induction false} SubmitAllSpec(urls: seq<string>)
    ensures FuturesOf(urls, SubmitAll(urls))
  {
    if urls != [] {
      var prev := urls[..|urls| - 1];
      SubmitAllSpec(prev);
      assert urls == prev + [urls[|urls| - 1]];
      SubmitStep(prev, SubmitAll(prev), urls[|urls| - 1]);
    }
  }

  /** Submitting one more URL keeps the dict a futures dict. */
  lemma SubmitStep(urls: seq<string>, f: seq<Entry<nat>>, u: string)
    requires FuturesOf(urls, f)
    ensures FuturesOf(urls + [u], Put(f, u, |urls|))
  {
    var urls', f' := urls + [u], Put(f, u, |urls|);
    PutSpec(f, u, |urls|);
    forall url ensures url in Keys(f') <==> url in urls' {
      KeysAfterPut(f, u, |urls|, url);
      assert url in urls' <==> url in urls || url == u;
    }
    forall k | 0 <= k < |f'| ensures f'[k].key in urls' && f'[k].value == LastIndex(urls', f'[k].key) {
      if f'[k].key == u {
        assert f'[k] == Entry(u, |urls|);
      } else {
        assert k < |f|;
        assert f'[k] == f[k];
        LastIndexSnoc(urls, u, f[k].key);
      }
    }
  }

  lemma KeysAfterPut<V>(f: seq<Entry<V>>, u: string, v: V, url: string)
    ensures url in Keys(Put(f, u, v)) <==> url in Keys(f) || url == u
  {
    var f' := Put(f, u, v);
    assert Entry(u, v) in f';
    if url in Keys(f) && url != u {
      var k :| 0 <= k < |f| && Keys(f)[k] == url;
      assert f'[k] == f[k];
      assert Keys(f')[k] == url;
    }
    if url == u {
      var k :| 0 <= k < |f'| && f'[k] == Entry(u, v);
      assert Keys(f')[k] == url;
    }
  }

  lemma LastIndexSnoc(urls: seq<string>, u: string, url: string)
    requires url in urls && url != u
    ensures url in urls + [u] && LastIndex(urls + [u], url) == LastIndex(urls, url)
  {
    assert (urls + [u])[..|urls|] == urls;
  }

  /** A repeated URL collapses to one key, so fewer entries than URLs. */
  lemma {:induction false} DuplicateCollapses(urls: seq<string>, i: nat, j: nat)
    requires i < j < |urls| && urls[i] == urls[j]
    ensures |SubmitAll(urls)| < |urls|
  {
    var prev := urls[..|urls| - 1];
    if j < |urls| - 1 {
      assert prev[i] == prev[j];
      DuplicateCollapses(prev, i, j);
    } else {
      RepeatAtEnd(urls, i);
    }
  }

  lemma RepeatAtEnd(urls: seq<string>, i: nat)
    requires i < |urls| - 1 && urls[i] == urls[|urls| - 1]
    ensures |SubmitAll(urls)| < |urls|
  {
    var prev := urls[..|urls| - 1];
    assert prev[i] == urls[|urls| - 1];
    SubmitAllSize(prev);
    SubmittedHasKey(prev, urls[|urls| - 1]);
  }

  lemma {:induction false} SubmitAllSize(urls: seq<string>)
    ensures |SubmitAll(urls)| <= |urls|
  {
    if urls != [] {
      SubmitAllSize(urls[..|urls| - 1]);
    }
  }

  lemma {:induction false} SubmittedHasKey(urls: seq<string>, u: string)
    requires u in urls
    ensures u in Keys(SubmitAll(urls))
  {
    var n := |urls|;
    var prev := urls[..n - 1];
    KeysAfterPut(SubmitAll(prev), urls[n - 1], n - 1, u);
    if u != urls[n - 1] {
      var k :| 0 <= k < n && urls[k] == u;
      assert prev[k] == u;
      SubmittedHasKey(prev, u);
    }
  }

  /** Without repeated URLs, the futures dict follows the URLs one to one. */
  lemma {:induction false} SubmitAllDistinct(urls: seq<string>)
    requires Distinct(urls)
    ensures |SubmitAll(urls)| == |urls|
    ensures forall k :: 0 <= k < |urls| ==> SubmitAll(urls)[k] == Entry(urls[k], k)
  {
    if urls != [] {
      var n := |urls|;
      var prev := urls[..n - 1];
      assert Distinct(prev);
      SubmitAllDistinct(prev);
      assert Keys(SubmitAll(prev)) == prev;
      assert urls[n - 1] !in prev;
      assert SubmitAll(urls) == SubmitAll(prev) + [Entry(urls[n - 1], n - 1)];
    }
  }

  /** Different entries hold different futures. */
  lemma FuturesDistinct(urls: seq<string>, f: seq<Entry<nat>>, p: nat, q: nat)
    requires FuturesOf(urls, f) && p < |f| && q < |f| && p != q
    ensures f[p].value != f[q].value
  {
  }

  // ---------------------------------------------------------------------
  // Fetching and collecting

  /** `get_web_content_zenrows` once the request has happened: the response
      text, or an error message naming the URL for a `RequestException`. */
  function GetWebContentZenRows(url: string, fetch: HttpResult): string
  {
    match fetch
    case Response(_, body) => body
    case TimedOut(description) => "Error fetching content from " + url + ": " + description
    case RequestFailed(description) => "Error fetching content from " + url + ": " + description
  }

  /** How a future ended: `fetch_single_url` returned after the request, or
      raised some other exception. */
  datatype FutureOutcome = Returned(fetch: HttpResult) | Raised(description: string)

  /** The value stored in `results[url]` for a finished future. */
  function ContentOf(url: string, outcome: FutureOutcome): string
  {
    match outcome
    case Returned(fetch) => GetWebContentZenRows(url, fetch)
    case Raised(description) => "Error fetching " + url + ": " + description
  }

  /** The future delivered the page as the response text. */
  predicate Fetched(outcome: FutureOutcome) {
    outcome.Returned? && outcome.fetch.Response?
  }

  /** Both failure messages start with "Error", so the display prints them whole. */
  lemma FailuresShownWhole(url: string, outcome: FutureOutcome)
    ensures !Fetched(outcome) ==> IsError(ContentOf(url, outcome))
    ensures !Fetched(outcome) ==> Decide(ContentOf(url, outcome), DisplayLimit) == Whole(ContentOf(url, outcome))
    ensures Fetched(outcome) ==> ContentOf(url, outcome) == outcome.fetch.body
  {
    if !Fetched(outcome) {
      assert ContentOf(url, outcome)[..5] == "Error";
    }
  }

  predicate FuturesBelow(futures: seq<Entry<nat>>, n: nat) {
    forall k :: 0 <= k < |futures| ==> futures[k].value < n
  }

  /** The results dict after the futures at `order` have finished, in that order. */
  function Collected(futures: seq<Entry<nat>>, outcomes: seq<FutureOutcome>, order: seq<nat>): (r: seq<Entry<string>>)
    requires InRange(order, |futures|) && FuturesBelow(futures, |outcomes|)
    ensures |r| == |order|
  {
    seq(|order|, k requires 0 <= k < |order| =>
      var e := futures[order[k]];
      Entry(e.key, ContentOf(e.key, outcomes[e.value])))
  }

  /** `fetch_multiple_urls_parallel`: `outcomes[j]` is how the future of the
      `j`-th submission ended, and `order` the order in which `as_completed`
      hands back the futures of the dict (as positions in the dict). For each
      finished future the loop scans the dict for its URL and stores the
      content under that URL. */
  method FetchMultipleUrlsParallel(urls: seq<string>, outcomes: seq<FutureOutcome>, order: seq<nat>)
    returns (results: seq<Entry<string>>)
    requires |outcomes| == |urls|
    requires IsPermutation(order, |SubmitAll(urls)|)
    ensures InRange(order, |SubmitAll(urls)|) && FuturesBelow(SubmitAll(urls), |outcomes|)
    ensures results == Collected(SubmitAll(urls), outcomes, order)
  {
    var futures := SubmitAll(urls);
    SubmitAllSpec(urls);
    PermutationSpec(order, |futures|);
    results := [];
    for k := 0 to |order|
      invariant results == Collected(futures, outcomes, order[..k])
    {
      var future := futures[order[k]].value;
      var p := 0;
      while p < |futures|
        invariant p <= |futures|
        invariant forall q :: 0 <= q < p ==> futures[q].value != future
      {
        if futures[p].value == future {
          if p != order[k] {
            FuturesDistinct(urls, futures, p, order[k]);
          }
          var url := futures[p].key;
          var content := ContentOf(url, outcomes[future]);
          CollectStep(futures, outcomes, order, k);
          results := Put(results, url, content);
          break;
        }
        p := p + 1;
      }
    }
    assert order[..|order|] == order;
  }

  /** Storing the `k`-th finished future appends its entry: its URL is not
      yet a key. */
  lemma CollectStep(futures: seq<Entry<nat>>, outcomes: seq<FutureOutcome>, order: seq<nat>, k: nat)
    requires InRange(order, |futures|) && Distinct(order) && DistinctKeys(futures) && k < |order|
    requires FuturesBelow(futures, |outcomes|)
    ensures var e := futures[order[k]];
      Put(Collected(futures, outcomes, order[..k]), e.key, ContentOf(e.key, outcomes[e.value]))
      == Collected(futures, outcomes, order[..k + 1])
  {
    var e := futures[order[k]];
    var before := Collected(futures, outcomes, order[..k]);
    forall q | 0 <= q < |before| ensures Keys(before)[q] != e.key {
      assert order[..k][q] == order[q];
      assert order[q] != order[k];
    }
    assert order[..k + 1] == order[..k] + [order[k]];
    assert Collected(futures, outcomes, order[..k + 1]) == before + [Entry(e.key, ContentOf(e.key, outcomes[e.value]))];
  }

  /** What `fetch_multiple_urls_parallel` returns: exactly one key per
      distinct input URL, each URL once. */
  lemma ResultsKeys(urls: seq<string>, outcomes: seq<FutureOutcome>, order: seq<nat>)
    requires |outcomes| == |urls|
    requires IsPermutation(order, |SubmitAll(urls)|)
    ensures InRange(order, |SubmitAll(urls)|) && FuturesBelow(SubmitAll(urls), |outcomes|)
    ensures DistinctKeys(Collected(SubmitAll(urls), outcomes, order))
    ensures forall url :: url in Keys(Collected(SubmitAll(urls), outcomes, order)) <==> url in urls
  {
    var futures := SubmitAll(urls);
    SubmitAllSpec(urls);
    PermutationSpec(order, |futures|);
    CollectedKeysDistinct(futures, outcomes, order);
    forall url ensures url in Keys(Collected(futures, outcomes, order)) <==> url in urls {
      CollectedKeysCover(futures, outcomes, order, url);
      CollectedKeysWithin(futures, outcomes, order, url);
    }
  }

  lemma CollectedKeysDistinct(futures: seq<Entry<nat>>, outcomes: seq<FutureOutcome>, order: seq<nat>)
    requires InRange(order, |futures|) && FuturesBelow(futures, |outcomes|)
    requires Distinct(order) && DistinctKeys(futures)
    ensures DistinctKeys(Collected(futures, outcomes, order))
  {
    var results := Collected(futures, outcomes, order);
    forall a, b | 0 <= a < b < |results| ensures results[a].key != results[b].key {
      assert order[a] != order[b];
    }
  }

  /** Every future of the dict finishes once, so every key of the dict is stored. */
  lemma CollectedKeysCover(futures: seq<Entry<nat>>, outcomes: seq<FutureOutcome>, order: seq<nat>, url: string)
    requires InRange(order, |futures|) && FuturesBelow(futures, |outcomes|)
    requires IsPermutation(order, |futures|)
    ensures url in Keys(futures) ==> url in Keys(Collected(futures, outcomes, order))
  {
    if url in Keys(futures) {
      var p :| 0 <= p < |futures| && Keys(futures)[p] == url;
      assert Range(|futures|)[p] == p;
      assert p in multiset(Range(|futures|));
      assert p in multiset(order);
      var k :| 0 <= k < |order| && order[k] == p;
      assert Keys(Collected(futures, outcomes, order))[k] == url;
    }
  }

  /** Only keys of the dict are stored. */
  lemma CollectedKeysWithin(futures: seq<Entry<nat>>, outcomes: seq<FutureOutcome>, order: seq<nat>, url: string)
    requires InRange(order, |futures|) && FuturesBelow(futures, |outcomes|)
    ensures url in Keys(Collected(futures, outcomes, order)) ==> url in Keys(futures)
  {
    var results := Collected(futures, outcomes, order);
    if url in Keys(results) {
      var k :| 0 <= k < |results| && Keys(results)[k] == url;
      assert Keys(futures)[order[k]] == url;
    }
  }

  /** Under each URL the results hold the content of that URL's last
      submitted future. */
  lemma ResultsValues(urls: seq<string>, outcomes: seq<FutureOutcome>, order: seq<nat>)
    requires |outcomes| == |urls|
    requires IsPermutation(order, |SubmitAll(urls)|)
    ensures InRange(order, |SubmitAll(urls)|) && FuturesBelow(SubmitAll(urls), |outcomes|)
    ensures forall k :: 0 <= k < |order| ==>
              var e := Collected(SubmitAll(urls), outcomes, order)[k];
              e.key in urls && e.value == ContentOf(e.key, outcomes[LastIndex(urls, e.key)])
  {
    SubmitAllSpec(urls);
    PermutationSpec(order, |SubmitAll(urls)|);
  }

  // ---------------------------------------------------------------------
  // Display

  /** One section `display_results` prints: its number, the URL, the content. */
  datatype Section = Section(number: nat, url: string, shown: Shown)

  /** `display_results`: sections numbered from 1 in dict order. */
  function Sections(results: seq<Entry<string>>): seq<Section>
  {
    seq(|results|, k requires 0 <= k < |results| =>
      Section(k + 1, results[k].key, Decide(results[k].value, DisplayLimit)))
  }

  /** In the display, every URL whose fetch failed is printed with its whole
      error message; a cut only ever happens to a fetched page. */
  lemma DisplaySpec(urls: seq<string>, outcomes: seq<FutureOutcome>, order: seq<nat>)
    requires |outcomes| == |urls|
    requires IsPermutation(order, |SubmitAll(urls)|)
    ensures InRange(order, |SubmitAll(urls)|) && FuturesBelow(SubmitAll(urls), |outcomes|)
    ensures var futures := SubmitAll(urls);
      var sections := Sections(Collected(futures, outcomes, order));
      forall k :: 0 <= k < |sections| ==>
        && sections[k].number == k + 1
        && sections[k].url == futures[order[k]].key
        && (!Fetched(outcomes[futures[order[k]].value]) ==> sections[k].shown.Whole?)
        && (sections[k].shown.Cut? ==>
              Fetched(outcomes[futures[order[k]].value])
              && sections[k].shown.total == |outcomes[futures[order[k]].value].fetch.body|)
  {
    var futures := SubmitAll(urls);
    SubmitAllSpec(urls);
    PermutationSpec(order, |futures|);
    forall k | 0 <= k < |order| {
      FailuresShownWhole(futures[order[k]].key, outcomes[futures[order[k]].value]);
    }
  }
}
