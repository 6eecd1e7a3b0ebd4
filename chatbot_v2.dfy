/** simple_chatbot_v2/app.py: pages are fetched through ZenRows by a pool of
    workers; the records come back in completion order, failed workers are
    dropped, and the survivors are sorted back into search order. */
module ChatbotV2 {
  import opened Text
  import opened Http
  import opened PageText
  import opened Search
  import opened Prompt
  import opened Completion

  // ---------------------------------------------------------------------
  // One crawl

  /** `crawl_content_zenrows`: the cleaned and truncated page text when the
      API answered 200, a failure message otherwise. */
  function CrawlContentZenRows(fetch: HttpResult): string
  {
    match fetch
    case Response(status, page) =>
      if status == 200 then CleanPage(page, MaxLength)
      else "Failed to retrieve content: HTTP " + NatToString(status)
    case TimedOut(_) => "Timeout: Page took too long to load"
    case RequestFailed(description) => "Error crawling: " + description
  }

  /** The page itself came back. */
  predicate Delivered(fetch: HttpResult) {
    fetch.Response? && fetch.status == 200
  }

  /** Every failure message starts with "Failed", "Timeout" or "Error", so
      the v2 context builder never includes it; a delivered page yields its
      cleaned text, at most 9003 characters long. */
  lemma CrawlFailuresAreMarked(fetch: HttpResult)
    ensures !Delivered(fetch) ==> HasFailurePrefix(CrawlContentZenRows(fetch))
    ensures !Delivered(fetch) ==> !Usable(SkipEmptyAndFailures, CrawlContentZenRows(fetch))
    ensures Delivered(fetch) ==> CrawlContentZenRows(fetch) == CleanPage(fetch.body, MaxLength)
    ensures Delivered(fetch) ==> |CrawlContentZenRows(fetch)| <= MaxLength + 3
  {
    var r := CrawlContentZenRows(fetch);
    match fetch
    case Response(status, page) =>
      if status == 200 {
        CleanPageSpec(page, MaxLength);
      } else {
        assert r[..6] == "Failed";
      }
    case TimedOut(_) =>
      assert r[..7] == "Timeout";
    case RequestFailed(description) =>
      assert r[..5] == "Error";
  }

  /** The prefix test cannot tell a failure from a delivered page whose own
      text begins with one of the words: such a page is dropped too. */
  lemma DeliveredPageWithFailureWordSkipped(fetch: HttpResult)
    requires Delivered(fetch) && HasFailurePrefix(CleanText(fetch.body))
    ensures CrawlContentZenRows(fetch) != ""
    ensures !Usable(SkipEmptyAndFailures, CrawlContentZenRows(fetch))
  {
    var c := CleanText(fetch.body);
    assert CrawlContentZenRows(fetch) == Truncate(c, MaxLength);
    TruncateKeepsFailurePrefix(c, MaxLength);
  }

  lemma TruncateKeepsFailurePrefix(c: string, maxLength: nat)
    requires maxLength >= 7 && HasFailurePrefix(c)
    ensures HasFailurePrefix(Truncate(c, maxLength))
  {
    var t := Truncate(c, maxLength);
    if |c| > maxLength {
      assert t[..maxLength] == c[..maxLength];
      forall p: string | |p| <= 7 && StartsWith(c, p) ensures StartsWith(t, p) {
        assert t[..|p|] == t[..maxLength][..|p|];
        assert c[..|p|] == c[..maxLength][..|p|];
      }
    }
  }

  /** The dict `crawl_single_url` returns (without its float `crawl_time`). */
  datatype CrawlRecord = CrawlRecord(title: string, url: string, text: string, index: nat)

  function CrawlSingleUrl(index: nat, result: SearchResult, fetch: HttpResult): CrawlRecord
  {
    CrawlRecord(result.title, result.link, CrawlContentZenRows(fetch), index)
  }

  /** The record every worker would return, by search position. */
  function Records(searchResults: seq<SearchResult>, fetches: seq<HttpResult>): seq<CrawlRecord>
    requires |fetches| == |searchResults|
  {
    seq(|searchResults|, i requires 0 <= i < |searchResults| => CrawlSingleUrl(i, searchResults[i], fetches[i]))
  }

  predicate Indexed(records: seq<CrawlRecord>) {
    forall i :: 0 <= i < |records| ==> records[i].index == i
  }

  // ---------------------------------------------------------------------
  // Collection in completion order

  /** What worker `i` adds to `reference_content`: its record, or nothing
      when its future raised. */
  function Outcome(records: seq<CrawlRecord>, failed: seq<bool>, i: nat): seq<CrawlRecord>
    requires |failed| == |records| && i < |records|
  {
    if failed[i] then [] else [records[i]]
  }

  /** The records appended while the workers finish in `order`. */
  function Collect(records: seq<CrawlRecord>, failed: seq<bool>, order: seq<nat>): seq<CrawlRecord>
    requires |failed| == |records| && InRange(order, |records|)
  {
    if order == [] then []
    else Collect(records, failed, order[..|order| - 1]) + Outcome(records, failed, order[|order| - 1])
  }

  /** The reference result: the successful records in search order. */
  function Survivors(records: seq<CrawlRecord>, failed: seq<bool>): seq<CrawlRecord>
    requires |failed| == |records|
  {
    Collect(records, failed, Range(|records|))
  }

  /** The number of workers that did not raise. */
  function Successes(failed: seq<bool>): nat
  {
    if failed == [] then 0
    else Successes(failed[..|failed| - 1]) + (if failed[|failed| - 1] then 0 else 1)
  }

  predicate SortedByIndex(rs: seq<CrawlRecord>) {
    forall j, k :: 0 <= j < k < |rs| ==> rs[j].index <= rs[k].index
  }

  predicate StrictlySortedByIndex(rs: seq<CrawlRecord>) {
    forall j, k :: 0 <= j < k < |rs| ==> rs[j].index < rs[k].index
  }

  /** `reference_content.sort(key=lambda x: x['index'])`, as a stable
      insertion sort: sorted by index, and a permutation of its input. */
  method SortByIndex(xs: seq<CrawlRecord>) returns (ys: seq<CrawlRecord>)
    ensures SortedByIndex(ys)
    ensures multiset(ys) == multiset(xs)
  {
    ys := [];
    for i := 0 to |xs|
      invariant SortedByIndex(ys)
      invariant multiset(ys) == multiset(xs[..i])
    {
      var x := xs[i];
      var j := |ys|;
      while j > 0 && ys[j - 1].index > x.index
        invariant 0 <= j <= |ys|
        invariant forall k :: j <= k < |ys| ==> ys[k].index > x.index
      {
        j := j - 1;
      }
      InsertKeepsSorted(ys, j, x);
      assert xs[..i + 1] == xs[..i] + [x];
      ys := ys[..j] + [x] + ys[j..];
    }
    assert xs[..|xs|] == xs;
  }

  /** Placing `x` after every record with a lower or equal index and before
      every record with a higher one keeps the order and adds `x` once. */
  lemma InsertKeepsSorted(ys: seq<CrawlRecord>, j: nat, x: CrawlRecord)
    requires SortedByIndex(ys) && j <= |ys|
    requires j > 0 ==> ys[j - 1].index <= x.index
    requires forall k :: j <= k < |ys| ==> ys[k].index > x.index
    ensures SortedByIndex(ys[..j] + [x] + ys[j..])
    ensures multiset(ys[..j] + [x] + ys[j..]) == multiset(ys) + multiset{x}
  {
    var zs := ys[..j] + [x] + ys[j..];
    assert |zs| == |ys| + 1;
    forall a, b | 0 <= a < b < |zs|
      ensures zs[a].index <= zs[b].index
    {
      InsertPairOrdered(ys, j, x, a, b);
    }
    InsertMultiset(ys, j, x);
  }

  lemma InsertMultiset<T>(ys: seq<T>, j: nat, x: T)
    requires j <= |ys|
    ensures multiset(ys[..j] + [x] + ys[j..]) == multiset(ys) + multiset{x}
  {
    assert ys == ys[..j] + ys[j..];
  }

  lemma InsertPairOrdered(ys: seq<CrawlRecord>, j: nat, x: CrawlRecord, a: nat, b: nat)
    requires SortedByIndex(ys) && j <= |ys|
    requires j > 0 ==> ys[j - 1].index <= x.index
    requires forall k :: j <= k < |ys| ==> ys[k].index > x.index
    requires a < b < |ys| + 1
    ensures (ys[..j] + [x] + ys[j..])[a].index <= (ys[..j] + [x] + ys[j..])[b].index
  {
    var zs := ys[..j] + [x] + ys[j..];
    var za := if a < j then ys[a] else if a == j then x else ys[a - 1];
    var zb := if b < j then ys[b] else if b == j then x else ys[b - 1];
    assert zs[a] == za;
    assert zs[b] == zb;
    if a < j && b == j {
      assert ys[a].index <= ys[j - 1].index;
    }
  }

  /** `crawl_urls_parallel`: `fetches[i]` is what ZenRows gave for
      `searchResults[i]`, `failed[i]` says whether worker `i`'s future raised,
      and `order` is the order in which the workers finished. The result is
      the successful records in search order, whatever that order was. */
  method CrawlUrlsParallel(searchResults: seq<SearchResult>, fetches: seq<HttpResult>,
                           failed: seq<bool>, order: seq<nat>)
    returns (referenceContent: seq<CrawlRecord>)
    requires |fetches| == |searchResults| && |failed| == |searchResults|
    requires IsPermutation(order, |searchResults|)
    ensures referenceContent == Survivors(Records(searchResults, fetches), failed)
  {
    ghost var records := Records(searchResults, fetches);
    PermutationSpec(order, |searchResults|);
    var collected: seq<CrawlRecord> := [];
    for k := 0 to |order|
      invariant InRange(order[..k], |records|)
      invariant collected == Collect(records, failed, order[..k])
    {
      var i := order[k];
      CollectStep(records, failed, order, k);
      if !failed[i] {
        collected := collected + [CrawlSingleUrl(i, searchResults[i], fetches[i])];
      }
    }
    assert order[..|order|] == order;
    referenceContent := SortByIndex(collected);
    SortedCollectionIsSurvivors(records, failed, order, collected, referenceContent);
  }

  // ---------------------------------------------------------------------
  // Lemmas behind the order restoration

  /** One more finished worker: its outcome is appended. */
  lemma CollectStep(records: seq<CrawlRecord>, failed: seq<bool>, order: seq<nat>, k: nat)
    requires |failed| == |records| && InRange(order, |records|) && k < |order|
    ensures InRange(order[..k], |records|) && InRange(order[..k + 1], |records|)
    ensures Collect(records, failed, order[..k + 1])
            == Collect(records, failed, order[..k]) + Outcome(records, failed, order[k])
  {
    assert order[..k + 1][..k] == order[..k];
  }

  /** Sorting what was collected along any completion order gives the
      survivors in search order. */
  lemma SortedCollectionIsSurvivors(records: seq<CrawlRecord>, failed: seq<bool>, order: seq<nat>,
                                    collected: seq<CrawlRecord>, sorted: seq<CrawlRecord>)
    requires |failed| == |records| && Indexed(records)
    requires InRange(order, |records|) && IsPermutation(order, |records|)
    requires collected == Collect(records, failed, order)
    requires SortedByIndex(sorted) && multiset(sorted) == multiset(collected)
    ensures sorted == Survivors(records, failed)
  {
    SurvivorsUpToIsCollect(records, failed, |records|);
    CollectPermutation(records, failed, order, Range(|records|));
    SurvivorsSpec(records, failed);
    SortedUnique(sorted, Survivors(records, failed));
  }

  lemma {:induction false} CollectAppend(records: seq<CrawlRecord>, failed: seq<bool>, a: seq<nat>, b: seq<nat>)
    requires |failed| == |records| && InRange(a, |records|) && InRange(b, |records|)
    ensures InRange(a + b, |records|)
    ensures Collect(records, failed, a + b) == Collect(records, failed, a) + Collect(records, failed, b)
  {
    assert InRange(a + b, |records|) by {
      forall k | 0 <= k < |a + b| ensures (a + b)[k] < |records| {
        if k >= |a| { assert (a + b)[k] == b[k - |a|]; }
      }
    }
    if b != [] {
      var b' := b[..|b| - 1];
      assert (a + b)[..|a + b| - 1] == a + b';
      CollectAppend(records, failed, a, b');
    } else {
      assert a + b == a;
    }
  }

  /** Collecting along two orders that hold the same positions collects the
      same records, up to order. */
  lemma {:induction false} CollectPermutation(records: seq<CrawlRecord>, failed: seq<bool>, a: seq<nat>, b: seq<nat>)
    requires |failed| == |records| && InRange(a, |records|) && InRange(b, |records|)
    requires multiset(a) == multiset(b)
    ensures multiset(Collect(records, failed, a)) == multiset(Collect(records, failed, b))
    decreases |a|
  {
    if a == [] {
      assert |b| == |multiset(b)| == 0;
    } else {
      var x := a[|a| - 1];
      var a' := a[..|a| - 1];
      var j := RemoveLast(a, b);
      var b1, b2 := b[..j], b[j + 1..];
      assert InRange(b1, |records|) && InRange(b2, |records|) && InRange([x], |records|);
      CollectPermutation(records, failed, a', b1 + b2);
      CollectSplit(records, failed, a', x, b1, b2);
    }
  }

  /** The last element of `a` sits somewhere in `b`; removing it from both
      leaves equal multisets. */
  lemma RemoveLast(a: seq<nat>, b: seq<nat>) returns (j: nat)
    requires a != [] && multiset(a) == multiset(b)
    ensures j < |b| && b[j] == a[|a| - 1]
    ensures b == b[..j] + [b[j]] + b[j + 1..]
    ensures multiset(a[..|a| - 1]) == multiset(b[..j] + b[j + 1..])
  {
    var x := a[|a| - 1];
    SnocMultiset(a);
    assert x in multiset(b);
    j :| 0 <= j < |b| && b[j] == x;
    SplitMultiset(b, j);
    assert multiset(a[..|a| - 1]) == multiset(a) - multiset{x};
    assert multiset(b[..j] + b[j + 1..]) == multiset(b) - multiset{x};
  }

  lemma SnocMultiset<T>(a: seq<T>)
    requires a != []
    ensures multiset(a) == multiset(a[..|a| - 1]) + multiset{a[|a| - 1]}
  {
    assert a == a[..|a| - 1] + [a[|a| - 1]];
  }

  lemma ConsMultiset<T>(a: seq<T>)
    requires a != []
    ensures multiset(a) == multiset{a[0]} + multiset(a[1..])
  {
    assert a == [a[0]] + a[1..];
  }

  lemma SplitMultiset<T>(b: seq<T>, j: nat)
    requires j < |b|
    ensures b == b[..j] + [b[j]] + b[j + 1..]
    ensures multiset(b) == multiset(b[..j] + b[j + 1..]) + multiset{b[j]}
  {
    var b1, b2 := b[..j], b[j + 1..];
    assert b == b1 + [b[j]] + b2;
    assert multiset(b1 + b2) == multiset(b1) + multiset(b2);
  }

  lemma CollectSplit(records: seq<CrawlRecord>, failed: seq<bool>, a': seq<nat>, x: nat, b1: seq<nat>, b2: seq<nat>)
    requires |failed| == |records| && InRange(a', |records|) && x < |records|
    requires InRange(b1, |records|) && InRange(b2, |records|)
    requires multiset(Collect(records, failed, a')) == multiset(Collect(records, failed, b1 + b2))
    ensures InRange(a' + [x], |records|) && InRange(b1 + [x] + b2, |records|)
    ensures multiset(Collect(records, failed, a' + [x])) == multiset(Collect(records, failed, b1 + [x] + b2))
  {
    var o := CollectOne(records, failed, x);
    CollectAppend(records, failed, a', [x]);
    CollectAppend(records, failed, b1, b2);
    CollectMiddle(records, failed, b1, x, b2);
    var ca, c1, c2 := Collect(records, failed, a'), Collect(records, failed, b1), Collect(records, failed, b2);
    calc {
      multiset(Collect(records, failed, a' + [x]));
      multiset(ca + o);
      multiset(ca) + multiset(o);
      multiset(c1 + c2) + multiset(o);
      multiset(c1) + multiset(c2) + multiset(o);
      { UnionSwap(multiset(c1), multiset(c2), multiset(o)); }
      multiset(c1) + multiset(o) + multiset(c2);
      multiset(c1 + o + c2);
      multiset(Collect(records, failed, b1 + [x] + b2));
    }
  }

  lemma UnionSwap<T>(p: multiset<T>, q: multiset<T>, r: multiset<T>)
    ensures p + q + r == p + r + q
  {
  }

  lemma CollectMiddle(records: seq<CrawlRecord>, failed: seq<bool>, b1: seq<nat>, x: nat, b2: seq<nat>)
    requires |failed| == |records| && x < |records|
    requires InRange(b1, |records|) && InRange(b2, |records|)
    ensures InRange(b1 + [x] + b2, |records|)
    ensures Collect(records, failed, b1 + [x] + b2)
            == Collect(records, failed, b1) + Outcome(records, failed, x) + Collect(records, failed, b2)
  {
    var c1 := CollectOne(records, failed, x);
    CollectAppend(records, failed, b1, [x]);
    CollectAppend(records, failed, b1 + [x], b2);
  }

  lemma CollectOne(records: seq<CrawlRecord>, failed: seq<bool>, x: nat) returns (c: seq<CrawlRecord>)
    requires |failed| == |records| && x < |records|
    ensures InRange([x], |records|)
    ensures c == Collect(records, failed, [x]) == Outcome(records, failed, x)
  {
    assert [x][..0] == [];
    c := Outcome(records, failed, x);
  }

  /** The survivors among the first `m` records, in position order. */
  function SurvivorsUpTo(records: seq<CrawlRecord>, failed: seq<bool>, m: nat): seq<CrawlRecord>
    requires |failed| == |records| && m <= |records|
  {
    if m == 0 then [] else SurvivorsUpTo(records, failed, m - 1) + Outcome(records, failed, m - 1)
  }

  lemma {:induction false} SurvivorsUpToIsCollect(records: seq<CrawlRecord>, failed: seq<bool>, m: nat)
    requires |failed| == |records| && m <= |records|
    ensures InRange(Range(m), |records|)
    ensures Collect(records, failed, Range(m)) == SurvivorsUpTo(records, failed, m)
  {
    if m > 0 {
      SurvivorsUpToIsCollect(records, failed, m - 1);
      assert Range(m)[..m - 1] == Range(m - 1);
    }
  }

  /** A surviving record among the first `m`: the unchanged record of a
      position below `m` whose future did not raise. */
  predicate SurvivorAt(records: seq<CrawlRecord>, failed: seq<bool>, m: nat, x: CrawlRecord)
    requires |failed| == |records|
  {
    x.index < m && x.index < |records| && !failed[x.index] && x == records[x.index]
  }

  /** For indexed records, the survivors among the first `m` hold exactly
      the successful records below `m`, as many as there were successes. */
  lemma {:induction false} SurvivorsMembers(records: seq<CrawlRecord>, failed: seq<bool>, m: nat)
    requires |failed| == |records| && m <= |records| && Indexed(records)
    ensures forall x :: x in SurvivorsUpTo(records, failed, m) ==> SurvivorAt(records, failed, m, x)
    ensures forall i :: 0 <= i < m && !failed[i] ==> records[i] in SurvivorsUpTo(records, failed, m)
    ensures |SurvivorsUpTo(records, failed, m)| == Successes(failed[..m])
  {
    if m > 0 {
      SurvivorsMembers(records, failed, m - 1);
      assert failed[..m][..m - 1] == failed[..m - 1];
      var prev := SurvivorsUpTo(records, failed, m - 1);
      var now := SurvivorsUpTo(records, failed, m);
      forall x | x in now ensures SurvivorAt(records, failed, m, x) {
        if x in prev {
          assert SurvivorAt(records, failed, m - 1, x);
        }
      }
      forall i | 0 <= i < m && !failed[i] ensures records[i] in now {
        if i < m - 1 { assert records[i] in prev; }
      }
    }
  }

  lemma {:induction false} SurvivorsSorted(records: seq<CrawlRecord>, failed: seq<bool>, m: nat)
    requires |failed| == |records| && m <= |records| && Indexed(records)
    ensures StrictlySortedByIndex(SurvivorsUpTo(records, failed, m))
  {
    if m > 0 {
      SurvivorsSorted(records, failed, m - 1);
      SurvivorsMembers(records, failed, m - 1);
      var prev := SurvivorsUpTo(records, failed, m - 1);
      var now := SurvivorsUpTo(records, failed, m);
      forall j, k | 0 <= j < k < |now| ensures now[j].index < now[k].index {
        assert now[j] == prev[j];
        if k < |prev| {
          assert now[k] == prev[k];
        } else {
          assert prev[j] in prev;
          assert now[k] == records[m - 1];
        }
      }
    }
  }

  /** The survivors of all records, in strictly increasing index order. */
  lemma SurvivorsSpec(records: seq<CrawlRecord>, failed: seq<bool>)
    requires |failed| == |records| && Indexed(records)
    ensures StrictlySortedByIndex(Survivors(records, failed))
    ensures forall x :: x in Survivors(records, failed) ==> SurvivorAt(records, failed, |records|, x)
    ensures forall i :: 0 <= i < |records| && !failed[i] ==> records[i] in Survivors(records, failed)
    ensures |Survivors(records, failed)| == Successes(failed)
  {
    SurvivorsUpToIsCollect(records, failed, |records|);
    SurvivorsMembers(records, failed, |records|);
    SurvivorsSorted(records, failed, |records|);
    assert failed[..|records|] == failed;
  }

  /** A sorted sequence and a strictly sorted one with the same elements are equal. */
  lemma {:induction false} SortedUnique(a: seq<CrawlRecord>, b: seq<CrawlRecord>)
    requires SortedByIndex(a) && StrictlySortedByIndex(b)
    requires multiset(a) == multiset(b)
    ensures a == b
    decreases |a|
  {
    assert |b| == |multiset(b)| == |multiset(a)| == |a|;
    if a != [] {
      SameHead(a, b);
      TailMultisets(a, b);
      TailsSorted(a, b);
      SortedUnique(a[1..], b[1..]);
      SameHeadSameTail(a, b);
    }
  }

  lemma TailMultisets<T>(a: seq<T>, b: seq<T>)
    requires a != [] && b != [] && a[0] == b[0] && multiset(a) == multiset(b)
    ensures multiset(a[1..]) == multiset(b[1..])
  {
    ConsMultiset(a);
    ConsMultiset(b);
    assert multiset(a[1..]) == multiset(a) - multiset{a[0]};
    assert multiset(b[1..]) == multiset(b) - multiset{a[0]};
  }

  lemma TailsSorted(a: seq<CrawlRecord>, b: seq<CrawlRecord>)
    requires SortedByIndex(a) && StrictlySortedByIndex(b) && a != [] && b != []
    ensures SortedByIndex(a[1..]) && StrictlySortedByIndex(b[1..])
  {
    assert forall k :: 0 <= k < |a| - 1 ==> a[1..][k] == a[k + 1];
    assert forall k :: 0 <= k < |b| - 1 ==> b[1..][k] == b[k + 1];
  }

  lemma SameHeadSameTail<T>(a: seq<T>, b: seq<T>)
    requires a != [] && b != [] && a[0] == b[0] && a[1..] == b[1..]
    ensures a == b
  {
    assert a == [a[0]] + a[1..];
    assert b == [b[0]] + b[1..];
  }

  /** Both start with the element of least index. */
  lemma SameHead(a: seq<CrawlRecord>, b: seq<CrawlRecord>)
    requires SortedByIndex(a) && StrictlySortedByIndex(b)
    requires multiset(a) == multiset(b) && a != []
    ensures b != [] && a[0] == b[0]
  {
    assert a[0] in multiset(b);
    var j :| 0 <= j < |b| && b[j] == a[0];
    assert b[0] in multiset(a);
    var i :| 0 <= i < |a| && a[i] == b[0];
    assert a[0].index <= a[i].index == b[0].index <= b[j].index == a[0].index;
  }

  /** What `crawl_urls_parallel` returns, stated on the search results: in
      ascending index order, each record carrying its position in the search
      results and the crawl of that result; every successful crawl present
      exactly once, failed futures absent, as many records as successes. */
  lemma AggregationSpec(searchResults: seq<SearchResult>, fetches: seq<HttpResult>, failed: seq<bool>)
    requires |fetches| == |searchResults| && |failed| == |searchResults|
    ensures var r := Survivors(Records(searchResults, fetches), failed);
      && StrictlySortedByIndex(r)
      && (forall k :: 0 <= k < |r| ==>
            r[k].index < |searchResults| && !failed[r[k].index]
            && r[k] == CrawlSingleUrl(r[k].index, searchResults[r[k].index], fetches[r[k].index]))
      && (forall i :: 0 <= i < |searchResults| && !failed[i] ==>
            CrawlSingleUrl(i, searchResults[i], fetches[i]) in r)
      && |r| == Successes(failed) <= |searchResults|
  {
    var records := Records(searchResults, fetches);
    SurvivorsSpec(records, failed);
    SuccessesBound(failed);
    assert forall k :: 0 <= k < |Survivors(records, failed)| ==> Survivors(records, failed)[k] in Survivors(records, failed);
  }

  lemma {:induction false} SuccessesBound(failed: seq<bool>)
    ensures Successes(failed) <= |failed|
  {
    if failed != [] {
      SuccessesBound(failed[..|failed| - 1]);
    }
  }

  /** When no future raised, every record is there, in search order, so
      record `k` sits at position `k`. */
  lemma NoFailureKeepsAll(searchResults: seq<SearchResult>, fetches: seq<HttpResult>, failed: seq<bool>)
    requires |fetches| == |searchResults| && |failed| == |searchResults|
    requires forall i :: 0 <= i < |failed| ==> !failed[i]
    ensures Survivors(Records(searchResults, fetches), failed) == Records(searchResults, fetches)
    ensures forall k :: 0 <= k < |searchResults| ==> Survivors(Records(searchResults, fetches), failed)[k].index == k
  {
    var records := Records(searchResults, fetches);
    CollectAll(records, failed, |records|);
    assert records[..|records|] == records;
  }

  lemma {:induction false} CollectAll(records: seq<CrawlRecord>, failed: seq<bool>, m: nat)
    requires |failed| == |records| && m <= |records|
    requires forall i :: 0 <= i < |failed| ==> !failed[i]
    ensures InRange(Range(m), |records|)
    ensures Collect(records, failed, Range(m)) == records[..m]
  {
    if m > 0 {
      CollectAll(records, failed, m - 1);
      assert Range(m)[..m - 1] == Range(m - 1);
      assert records[..m] == records[..m - 1] + [records[m - 1]];
    }
  }

  /** The context numbers the survivors by their position in the list, so a
      record's label `k + 1` never exceeds its search position plus one, and
      falls behind it once an earlier future has failed. */
  lemma {:induction false} PositionAtMostIndex(rs: seq<CrawlRecord>, k: nat)
    requires StrictlySortedByIndex(rs) && k < |rs|
    ensures k <= rs[k].index
  {
    if k > 0 {
      PositionAtMostIndex(rs, k - 1);
      assert rs[k - 1].index < rs[k].index;
    }
  }

  // ---------------------------------------------------------------------
  // The context built from the aggregated records

  /** The 'title', 'url', 'text' of each record, as the context builder reads them. */
  function SourcesOf(records: seq<CrawlRecord>): seq<Source>
  {
    seq(|records|, k requires 0 <= k < |records| => Source(records[k].title, records[k].url, records[k].text))
  }

  /** A record whose crawl failed never gets a block in the context. */
  lemma CrawlFailuresNeverInContext(searchResults: seq<SearchResult>, fetches: seq<HttpResult>, failed: seq<bool>)
    requires |fetches| == |searchResults| && |failed| == |searchResults|
    ensures var r := Survivors(Records(searchResults, fetches), failed);
      forall k :: 0 <= k < |r| ==>
        r[k].index < |fetches| &&
        (!Delivered(fetches[r[k].index]) ==> k !in Included(SkipEmptyAndFailures, SourcesOf(r), |r|))
  {
    var r := Survivors(Records(searchResults, fetches), failed);
    AggregationSpec(searchResults, fetches, failed);
    IncludedSpec(SkipEmptyAndFailures, SourcesOf(r), |r|);
    forall k | 0 <= k < |r| && !Delivered(fetches[r[k].index])
      ensures !Usable(SkipEmptyAndFailures, SourcesOf(r)[k].text)
    {
      CrawlFailuresAreMarked(fetches[r[k].index]);
    }
  }
}
