/** What the zenrows scripts do with a line the user typed
    (zenrows/app.py:57-71, zenrows_parallel/app.py:44-60): strip it, reject
    it when empty, give it the `https://` scheme when it has neither
    `http://` nor `https://`, and keep it when `is_valid_url` accepts it.
    `is_valid_url` wraps `urlparse` and is the parameter `isValid` here. */
module Urls {
  import opened Text
  import opened Maybe

  predicate HasScheme(url: string) {
    StartsWith(url, "http://") || StartsWith(url, "https://")
  }

  /** Scheme defaulting: every result has a scheme, a URL that had one is
      left alone, and the scheme added is `https://`, never `http://`. */
  function DefaultScheme(url: string): (r: string)
    ensures HasScheme(r)
    ensures HasScheme(url) ==> r == url
    ensures !HasScheme(url) ==> StartsWith(r, "https://") && r[|"https://"|..] == url
  {
    if HasScheme(url) then url
    else
      var r := "https://" + url;
      assert r[..|"https://"|] == "https://";
      r
  }

  lemma DefaultSchemeIdempotent(url: string)
    ensures DefaultScheme(DefaultScheme(url)) == DefaultScheme(url)
  {
  }

  /** One typed line: the URL it yields, or None when the script rejects it
      and asks again. */
  function Candidate(raw: string, isValid: string -> bool): (r: Option<string>)
    ensures r.Some? ==> HasScheme(r.value) && isValid(r.value) && r.value != ""
    ensures r.Some? <==> Strip(raw) != "" && isValid(DefaultScheme(Strip(raw)))
  {
    var url := Strip(raw);
    if url == "" then None
    else
      var url' := DefaultScheme(url);
      if isValid(url') then Some(url') else None
  }

  /** The URLs a sequence of typed lines yields, in typing order. */
  function Accepted(inputs: seq<string>, isValid: string -> bool): (r: seq<string>)
    ensures |r| <= |inputs|
  {
    if inputs == [] then []
    else
      var rest := Accepted(inputs[1..], isValid);
      match Candidate(inputs[0], isValid)
      case Some(url) => [url] + rest
      case None => rest
  }

  lemma {:induction false} AcceptedAppend(a: seq<string>, b: seq<string>, isValid: string -> bool)
    ensures Accepted(a + b, isValid) == Accepted(a, isValid) + Accepted(b, isValid)
  {
    if a == [] {
      assert a + b == b;
    } else {
      assert (a + b)[0] == a[0];
      assert (a + b)[1..] == a[1..] + b;
      AcceptedAppend(a[1..], b, isValid);
    }
  }

  lemma AcceptedOne(raw: string, isValid: string -> bool)
    ensures Accepted([raw], isValid) == match Candidate(raw, isValid) case Some(url) => [url] case None => []
  {
    assert [raw][1..] == [];
  }

  /** Every accepted URL has a scheme and passed validation. */
  lemma {:induction false} AcceptedSpec(inputs: seq<string>, isValid: string -> bool)
    ensures forall url :: url in Accepted(inputs, isValid) ==> HasScheme(url) && isValid(url)
  {
    if inputs != [] {
      AcceptedSpec(inputs[1..], isValid);
    }
  }

  /** Lines that are blank, or invalid even with the default scheme,
      contribute nothing. */
  lemma {:induction false} RejectedLinesIgnored(inputs: seq<string>, isValid: string -> bool)
    requires forall k :: 0 <= k < |inputs| ==> Candidate(inputs[k], isValid).None?
    ensures Accepted(inputs, isValid) == []
  {
    if inputs != [] {
      assert forall k :: 0 <= k < |inputs[1..]| ==> inputs[1..][k] == inputs[k + 1];
      RejectedLinesIgnored(inputs[1..], isValid);
    }
  }

  /** Advancing over one typed line, as the accept loops do. */
  lemma AcceptedStep(inputs: seq<string>, pos: nat, isValid: string -> bool)
    requires pos < |inputs|
    ensures Accepted(inputs[..pos + 1], isValid)
            == Accepted(inputs[..pos], isValid)
               + match Candidate(inputs[pos], isValid) case Some(url) => [url] case None => []
  {
    assert inputs[..pos + 1] == inputs[..pos] + [inputs[pos]];
    AcceptedAppend(inputs[..pos], [inputs[pos]], isValid);
    AcceptedOne(inputs[pos], isValid);
  }

  /** What was accepted up to `pos` is a prefix of what all lines yield. */
  lemma AcceptedPrefix(inputs: seq<string>, pos: nat, isValid: string -> bool)
    requires pos <= |inputs|
    ensures Accepted(inputs, isValid) == Accepted(inputs[..pos], isValid) + Accepted(inputs[pos..], isValid)
  {
    assert inputs == inputs[..pos] + inputs[pos..];
    AcceptedAppend(inputs[..pos], inputs[pos..], isValid);
  }
}
