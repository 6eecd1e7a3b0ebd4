/** The reference-context builder of `get_answer_from_openai`
    (simple_chatbot_v1/app.py:111-118, simple_chatbot_v2/app.py:179-186):
    a fixed preamble, then one block per usable source, labelled by the
    source's position in the list and holding at most 9000 characters of
    its text followed by "...". The two versions differ only in which
    sources they consider usable. */
module Prompt {
  import opened Text

  const Preamble: string :=
    "Use the following reference content to answer the question. If the answer cannot be found in the reference content, say so.\n\n"
    + "Reference Content:\n"

  /** How many characters of each source's text go into its block. */
  const SourceLimit: nat := 9000

  /** A reference-content dict as the builder reads it: 'title', 'url', 'text'. */
  datatype Source = Source(title: string, url: string, text: string)

  /** v1 skips empty texts; v2 also skips texts that start with the
      crawler's failure words. */
  datatype Filter = SkipEmpty | SkipEmptyAndFailures

  /** Starts with one of the words the v2 crawler opens its failure messages with. */
  predicate HasFailurePrefix(text: string) {
    StartsWith(text, "Error") || StartsWith(text, "Failed") || StartsWith(text, "Timeout")
  }

  predicate Usable(filter: Filter, text: string) {
    text != "" && (filter == SkipEmptyAndFailures ==> !HasFailurePrefix(text))
  }

  /** `text[:9000]`: a prefix of the text, the whole text when it is short enough. */
  function Excerpt(text: string): (e: string)
    ensures |e| <= SourceLimit && StartsWith(text, e)
    ensures |text| <= SourceLimit ==> e == text
    ensures |text| > SourceLimit ==> |e| == SourceLimit
  {
    if |text| <= SourceLimit then text else text[..SourceLimit]
  }

  function TitleLine(number: nat, title: string): string {
    "\n--- Source " + NatToString(number) + ": " + title + " ---\n"
  }

  function UrlLine(url: string): string {
    "URL: " + url + "\n"
  }

  function ContentLine(text: string): string {
    "Content: " + Excerpt(text) + "...\n"
  }

  /** The three lines one source contributes; `number` is its position plus one. */
  function Block(number: nat, s: Source): string {
    TitleLine(number, s.title) + UrlLine(s.url) + ContentLine(s.text)
  }

  /** The whole context string: the preamble, then the block of every usable
      source and of no other, in order, each numbered by its position + 1. */
  function Context(filter: Filter, sources: seq<Source>): string {
    IncludedSpec(filter, sources, |sources|);
    Preamble + BlocksAt(sources, Included(filter, sources, |sources|))
  }

  /** The `context +=` loop. */
  method BuildContext(filter: Filter, sources: seq<Source>) returns (context: string)
    ensures context == Context(filter, sources)
  {
    context := Preamble;
    ghost var blocks := "";
    for i := 0 to |sources|
      invariant IncludedBounded(filter, sources, i)
      invariant blocks == BlocksAt(sources, Included(filter, sources, i))
      invariant context == Preamble + blocks
    {
      IncludedStep(filter, sources, i);
      var s := sources[i];
      if Usable(filter, s.text) {
        ghost var before := context;
        context := context + TitleLine(i + 1, s.title);
        context := context + UrlLine(s.url);
        context := context + ContentLine(s.text);
        AppendBlock(Preamble, blocks, TitleLine(i + 1, s.title), UrlLine(s.url), ContentLine(s.text));
        BlocksAtSnoc(sources, Included(filter, sources, i), i);
        blocks := blocks + Block(i + 1, s);
      } else {
        assert Included(filter, sources, i) + [] == Included(filter, sources, i);
      }
    }
  }

  lemma IncludedStep(filter: Filter, sources: seq<Source>, i: nat)
    requires i < |sources| && IncludedBounded(filter, sources, i)
    ensures IncludedBounded(filter, sources, i + 1)
    ensures Included(filter, sources, i + 1)
            == Included(filter, sources, i) + (if Usable(filter, sources[i].text) then [i] else [])
  {
    var prev, next := Included(filter, sources, i), Included(filter, sources, i + 1);
    forall k | 0 <= k < |next| ensures next[k] < i + 1 {
      if k < |prev| { assert next[k] == prev[k]; }
    }
  }

  lemma BlocksAtSnoc(sources: seq<Source>, ps: seq<nat>, p: nat)
    requires p < |sources| && forall k :: 0 <= k < |ps| ==> ps[k] < |sources|
    ensures BlocksAt(sources, ps + [p]) == BlocksAt(sources, ps) + Block(p + 1, sources[p])
  {
    assert (ps + [p])[..|ps|] == ps;
  }

  lemma AppendBlock(p: string, b: string, t: string, u: string, c: string)
    ensures p + b + t + u + c == p + (b + (t + u + c))
  {
  }

  /** The message sent to the model: the context, then the question. */
  function UserMessage(context: string, question: string): string {
    context + "\n\nQuestion: " + question
  }

  /** The message opens with the whole context and ends with the whole
      question, separated by the fixed question marker. */
  lemma UserMessageParts(context: string, question: string)
    ensures var m := UserMessage(context, question);
      && StartsWith(m, context)
      && |m| == |context| + 12 + |question|
      && m[|context|..|context| + 12] == "\n\nQuestion: "
      && m[|context| + 12..] == question
  {
    var m := UserMessage(context, question);
    assert m[..|context|] == context;
    assert m[|context|..|context| + 12] == "\n\nQuestion: ";
    assert m[|context| + 12..] == question;
  }

  // ---------------------------------------------------------------------
  // Which sources enter the context, and under which number

  /** Positions, among the first `n`, of the sources that get a block. */
  function Included(filter: Filter, sources: seq<Source>, n: nat): seq<nat>
    requires n <= |sources|
  {
    if n == 0 then []
    else Included(filter, sources, n - 1) + (if Usable(filter, sources[n - 1].text) then [n - 1] else [])
  }

  /** The blocks of the sources at `positions`, each labelled position + 1. */
  function BlocksAt(sources: seq<Source>, positions: seq<nat>): string
    requires forall k :: 0 <= k < |positions| ==> positions[k] < |sources|
  {
    if positions == [] then ""
    else
      var p := positions[|positions| - 1];
      BlocksAt(sources, positions[..|positions| - 1]) + Block(p + 1, sources[p])
  }

  predicate IncludedBounded(filter: Filter, sources: seq<Source>, n: nat)
    requires n <= |sources|
  {
    forall k :: 0 <= k < |Included(filter, sources, n)| ==> Included(filter, sources, n)[k] < n
  }

  predicate Increasing(ps: seq<nat>) {
    forall j, k :: 0 <= j < k < |ps| ==> ps[j] < ps[k]
  }

  /** A source gets a block exactly when its text is usable, and the blocks
      keep the sources' order: skipped sources leave gaps in the labels. */
  lemma IncludedSpec(filter: Filter, sources: seq<Source>, n: nat)
    requires n <= |sources|
    ensures IncludedBounded(filter, sources, n)
    ensures forall i :: 0 <= i < n ==> (i in Included(filter, sources, n) <==> Usable(filter, sources[i].text))
    ensures Increasing(Included(filter, sources, n))
  {
    IncludedMembers(filter, sources, n);
    IncludedIncreasing(filter, sources, n);
  }

  lemma {:induction false} IncludedMembers(filter: Filter, sources: seq<Source>, n: nat)
    requires n <= |sources|
    ensures IncludedBounded(filter, sources, n)
    ensures forall i :: 0 <= i < n ==> (i in Included(filter, sources, n) <==> Usable(filter, sources[i].text))
  {
    if n > 0 {
      IncludedMembers(filter, sources, n - 1);
      IncludedStep(filter, sources, n - 1);
      var prev, cur := Included(filter, sources, n - 1), Included(filter, sources, n);
      var tail := if Usable(filter, sources[n - 1].text) then [n - 1] else [];
      assert cur == prev + tail;
      forall i | 0 <= i < n ensures i in cur <==> Usable(filter, sources[i].text) {
        assert i in cur <==> i in prev || i in tail;
        if i == n - 1 {
          assert forall k :: 0 <= k < |prev| ==> prev[k] != n - 1;
        }
      }
    }
  }

  lemma {:induction false} IncludedIncreasing(filter: Filter, sources: seq<Source>, n: nat)
    requires n <= |sources|
    ensures IncludedBounded(filter, sources, n)
    ensures Increasing(Included(filter, sources, n))
  {
    if n > 0 {
      IncludedIncreasing(filter, sources, n - 1);
      IncludedStep(filter, sources, n - 1);
      var prev, cur := Included(filter, sources, n - 1), Included(filter, sources, n);
      forall j, k | 0 <= j < k < |cur| ensures cur[j] < cur[k] {
        assert cur[j] == prev[j];
        if k < |prev| { assert cur[k] == prev[k]; }
      }
    }
  }

  /** The block of a source: its number, title and URL, then at most
      `SourceLimit` characters from the start of its text (all of a short
      text), always followed by "...". */
  lemma BlockShape(number: nat, s: Source)
    ensures exists e :: && |e| <= SourceLimit && StartsWith(s.text, e)
                        && (|s.text| <= SourceLimit ==> e == s.text)
                        && Block(number, s) == "\n--- Source " + NatToString(number) + ": " + s.title + " ---\n"
                                               + "URL: " + s.url + "\n"
                                               + "Content: " + e + "...\n"
  {
    var e := Excerpt(s.text);
    assert Block(number, s) == "\n--- Source " + NatToString(number) + ": " + s.title + " ---\n"
                               + "URL: " + s.url + "\n" + "Content: " + e + "...\n";
  }

  lemma ContextStartsWithPreamble(filter: Filter, sources: seq<Source>)
    ensures StartsWith(Context(filter, sources), Preamble)
  {
    assert Context(filter, sources)[..|Preamble|] == Preamble;
  }

  /** Under the v2 filter a text that opens with a failure word never gets a block. */
  lemma FailurePrefixSkipped(sources: seq<Source>, i: nat)
    requires i < |sources| && HasFailurePrefix(sources[i].text)
    ensures i !in Included(SkipEmptyAndFailures, sources, |sources|)
  {
    IncludedSpec(SkipEmptyAndFailures, sources, |sources|);
  }
}
