/** The clean-up and truncation both chatbots apply to the text extracted
    from a crawled page: split into lines, strip each line, split each line
    on double spaces, strip each piece, drop empty pieces, join the rest with
    single spaces, then cut to `max_length` characters plus "...". */
module PageText {
  import opened Text

  /** The `max_length` default of both crawlers. */
  const MaxLength: nat := 9000

  /** Index of the first line break of `s`, or |s| when there is none. */
  function FirstBreak(s: string): (i: nat)
    ensures i <= |s|
    ensures forall k :: 0 <= k < i ==> !IsLineBreak(s[k])
    ensures i < |s| ==> IsLineBreak(s[i])
  {
    if s == [] || IsLineBreak(s[0]) then 0 else 1 + FirstBreak(s[1..])
  }

  /** Where the text resumes after the line break at `i`: "\r\n" is one break. */
  function AfterBreak(s: string, i: nat): (next: nat)
    requires i < |s|
    ensures i < next <= |s|
  {
    if s[i] == '\r' && i + 1 < |s| && s[i + 1] == '\n' then i + 2 else i + 1
  }

  /** `str.splitlines()`: no line keeps its break, and a final break does
      not open an empty last line. */
  function SplitLines(s: string): (lines: seq<string>)
    ensures forall k :: 0 <= k < |lines| ==> NoLineBreak(lines[k])
    decreases |s|
  {
    if s == [] then []
    else
      var i := FirstBreak(s);
      if i == |s| then [s]
      else [s[..i]] + SplitLines(s[AfterBreak(s, i)..])
  }

  /** A line boundary of `str.splitlines()`. */
  predicate LineEnd(e: string) {
    e == "\r\n" || (|e| == 1 && IsLineBreak(e[0]))
  }

  /** What `str.splitlines()` removes after each line: the boundary that ends
      it, or nothing after a last line that has none. */
  function LineEnds(s: string): (ends: seq<string>)
    ensures |ends| == |SplitLines(s)|
    decreases |s|
  {
    if s == [] then []
    else
      var i := FirstBreak(s);
      if i == |s| then [[]]
      else [s[i..AfterBreak(s, i)]] + LineEnds(s[AfterBreak(s, i)..])
  }

  /** Each line followed by its boundary, in order. */
  function Unsplit(lines: seq<string>, ends: seq<string>): string
    requires |lines| == |ends|
  {
    if lines == [] then [] else lines[0] + ends[0] + Unsplit(lines[1..], ends[1..])
  }

  /** Index of the first "  " in `s`, or |s| when there is none. */
  function FirstDoubleSpace(s: string): (i: nat)
    ensures i <= |s|
    ensures i < |s| ==> i + 1 < |s| && s[i] == ' ' && s[i + 1] == ' '
    ensures forall k :: 0 < k <= i && k < |s| ==> !(s[k - 1] == ' ' && s[k] == ' ')
  {
    if |s| < 2 then |s|
    else if s[0] == ' ' && s[1] == ' ' then 0
    else 1 + FirstDoubleSpace(s[1..])
  }

  /** `str.split("  ")`: left-to-right, non-overlapping; always at least one piece. */
  function SplitDoubleSpace(s: string): (pieces: seq<string>)
    ensures |pieces| >= 1
    ensures forall k :: 0 <= k < |pieces| ==> NoDoubleSpace(pieces[k])
    ensures NoLineBreak(s) ==> forall k :: 0 <= k < |pieces| ==> NoLineBreak(pieces[k])
    decreases |s|
  {
    var i := FirstDoubleSpace(s);
    if i == |s| then [s]
    else [s[..i]] + SplitDoubleSpace(s[i + 2..])
  }

  /** `sep.join(pieces)`. */
  function JoinWith(sep: string, pieces: seq<string>): string
  {
    if pieces == [] then ""
    else if |pieces| == 1 then pieces[0]
    else pieces[0] + sep + JoinWith(sep, pieces[1..])
  }

  /** Strips every piece and keeps the non-empty results. */
  function NonEmptyStripped(pieces: seq<string>): seq<string>
  {
    if pieces == [] then []
    else
      var c := Strip(pieces[0]);
      (if c == [] then [] else [c]) + NonEmptyStripped(pieces[1..])
  }

  /** All chunks of all lines, in order. */
  function Chunks(lines: seq<string>): seq<string>
  {
    if lines == [] then []
    else NonEmptyStripped(SplitDoubleSpace(Strip(lines[0]))) + Chunks(lines[1..])
  }

  /** The clean-up of simple_chatbot_v2/app.py:113-115 (and v1:94-96). */
  function CleanText(text: string): string
  {
    JoinWith(" ", Chunks(SplitLines(text)))
  }

  /** Cuts to `maxLength` characters and marks the cut with "...". */
  function Truncate(text: string, maxLength: nat): string
  {
    if |text| > maxLength then text[..maxLength] + "..." else text
  }

  /** What a crawler returns for a page whose text was extracted. */
  function CleanPage(text: string, maxLength: nat): string
  {
    Truncate(CleanText(text), maxLength)
  }

  // ---------------------------------------------------------------------
  // Shape of the cleaned text

  /** A chunk as the clean-up produces it. */
  predicate GoodChunk(c: string) {
    c != [] && Trimmed(c) && NoDoubleSpace(c) && NoLineBreak(c)
  }

  predicate AllGood(chunks: seq<string>) {
    forall k :: 0 <= k < |chunks| ==> GoodChunk(chunks[k])
  }

  lemma AllGoodAppend(a: seq<string>, b: seq<string>)
    requires AllGood(a) && AllGood(b)
    ensures AllGood(a + b)
  {
    forall k | 0 <= k < |a + b| ensures GoodChunk((a + b)[k]) {
      if k < |a| { assert (a + b)[k] == a[k]; }
      else { assert (a + b)[k] == b[k - |a|]; }
    }
  }

  /** Pieces free of double spaces and line breaks. */
  predicate AllPlain(pieces: seq<string>) {
    forall k :: 0 <= k < |pieces| ==> NoDoubleSpace(pieces[k]) && NoLineBreak(pieces[k])
  }

  lemma {:induction false} NonEmptyStrippedGood(pieces: seq<string>)
    requires AllPlain(pieces)
    ensures AllGood(NonEmptyStripped(pieces))
  {
    if pieces != [] {
      var c, rest := Strip(pieces[0]), NonEmptyStripped(pieces[1..]);
      StripKeepsShape(pieces[0]);
      assert AllPlain(pieces[1..]) by {
        forall k | 0 <= k < |pieces[1..]| ensures NoDoubleSpace(pieces[1..][k]) && NoLineBreak(pieces[1..][k]) {
          assert pieces[1..][k] == pieces[k + 1];
        }
      }
      NonEmptyStrippedGood(pieces[1..]);
      if c == [] {
        assert NonEmptyStripped(pieces) == rest;
      } else {
        assert NonEmptyStripped(pieces) == [c] + rest;
        assert AllGood([c]);
        AllGoodAppend([c], rest);
      }
    }
  }

  lemma {:induction false} ChunksGood(lines: seq<string>)
    requires forall k :: 0 <= k < |lines| ==> NoLineBreak(lines[k])
    ensures AllGood(Chunks(lines))
  {
    if lines != [] {
      var line := Strip(lines[0]);
      StripKeepsShape(lines[0]);
      var pieces := SplitDoubleSpace(line);
      assert AllPlain(pieces);
      NonEmptyStrippedGood(pieces);
      assert forall k :: 0 <= k < |lines[1..]| ==> lines[1..][k] == lines[k + 1];
      ChunksGood(lines[1..]);
      assert Chunks(lines) == NonEmptyStripped(pieces) + Chunks(lines[1..]);
      AllGoodAppend(NonEmptyStripped(pieces), Chunks(lines[1..]));
    }
  }

  /** Joining good chunks with single spaces yields a good text. */
  lemma {:induction false} JoinSpaceShape(chunks: seq<string>)
    requires AllGood(chunks)
    ensures Trimmed(JoinWith(" ", chunks)) && NoDoubleSpace(JoinWith(" ", chunks)) && NoLineBreak(JoinWith(" ", chunks))
    ensures chunks != [] ==> JoinWith(" ", chunks) != []
  {
    if |chunks| > 1 {
      JoinSpaceShape(chunks[1..]);
      var c, j := chunks[0], JoinWith(" ", chunks[1..]);
      var r := c + " " + j;
      assert r == JoinWith(" ", chunks);
      forall i | 0 <= i < |r| ensures !IsLineBreak(r[i]) {
        if i > |c| { assert r[i] == j[i - |c| - 1]; }
      }
      forall i | 0 < i < |r| ensures !(r[i - 1] == ' ' && r[i] == ' ') {
        if i < |c| {
          assert r[i - 1] == c[i - 1] && r[i] == c[i];
        } else if i == |c| {
          assert r[i - 1] == c[|c| - 1];
        } else if i == |c| + 1 {
          assert r[i] == j[0];
        } else {
          assert r[i - 1] == j[i - |c| - 2] && r[i] == j[i - |c| - 1];
        }
      }
      assert r[0] == c[0] && r[|r| - 1] == j[|j| - 1];
    }
  }

  /** After clean-up the text has no line break, no two consecutive spaces
      and no whitespace at either end. */
  lemma CleanTextShape(text: string)
    ensures NoLineBreak(CleanText(text))
    ensures NoDoubleSpace(CleanText(text))
    ensures Trimmed(CleanText(text))
  {
    ChunksGood(SplitLines(text));
    JoinSpaceShape(Chunks(SplitLines(text)));
  }

  // ---------------------------------------------------------------------
  // Content of the cleaned text

  function VisibleAll(ss: seq<string>): string
  {
    if ss == [] then [] else Visible(ss[0]) + VisibleAll(ss[1..])
  }

  lemma {:induction false} VisibleAllAppend(a: seq<string>, b: seq<string>)
    ensures VisibleAll(a + b) == VisibleAll(a) + VisibleAll(b)
  {
    if a == [] {
      assert a + b == b;
    } else {
      assert (a + b)[1..] == a[1..] + b;
      VisibleAllAppend(a[1..], b);
    }
  }

  lemma {:induction false} SplitLinesVisible(s: string)
    ensures VisibleAll(SplitLines(s)) == Visible(s)
    decreases |s|
  {
    if s != [] {
      var i := FirstBreak(s);
      if i < |s| {
        var next := AfterBreak(s, i);
        DropSpacesVisible(s, i, next);
        SplitLinesVisible(s[next..]);
        assert SplitLines(s) == [s[..i]] + SplitLines(s[next..]);
      }
    }
  }

  lemma {:induction false} SplitDoubleSpaceVisible(s: string)
    ensures VisibleAll(SplitDoubleSpace(s)) == Visible(s)
    decreases |s|
  {
    var i := FirstDoubleSpace(s);
    if i == |s| {
      assert SplitDoubleSpace(s) == [s];
      assert VisibleAll([s]) == Visible(s) + VisibleAll([]);
    } else {
      var rest := SplitDoubleSpace(s[i + 2..]);
      assert IsSpace(s[i]) && IsSpace(s[i + 1]);
      DropSpacesVisible(s, i, i + 2);
      SplitDoubleSpaceVisible(s[i + 2..]);
      assert SplitDoubleSpace(s) == [s[..i]] + rest;
      assert ([s[..i]] + rest)[1..] == rest;
    }
  }

  lemma {:induction false} NonEmptyStrippedVisible(pieces: seq<string>)
    ensures VisibleAll(NonEmptyStripped(pieces)) == VisibleAll(pieces)
  {
    if pieces != [] {
      var c, rest := Strip(pieces[0]), NonEmptyStripped(pieces[1..]);
      StripVisible(pieces[0]);
      NonEmptyStrippedVisible(pieces[1..]);
      assert VisibleAll(pieces) == Visible(pieces[0]) + VisibleAll(pieces[1..]);
      if c == [] {
        assert NonEmptyStripped(pieces) == rest;
        assert Visible(c) == [];
      } else {
        assert NonEmptyStripped(pieces) == [c] + rest;
        VisibleAllAppend([c], rest);
        assert VisibleAll([c]) == Visible(c) + VisibleAll([]);
      }
    }
  }

  lemma {:induction false} ChunksVisible(lines: seq<string>)
    ensures VisibleAll(Chunks(lines)) == VisibleAll(lines)
  {
    if lines != [] {
      var pieces := SplitDoubleSpace(Strip(lines[0]));
      VisibleAllAppend(NonEmptyStripped(pieces), Chunks(lines[1..]));
      NonEmptyStrippedVisible(pieces);
      SplitDoubleSpaceVisible(Strip(lines[0]));
      StripVisible(lines[0]);
      ChunksVisible(lines[1..]);
    }
  }

  lemma {:induction false} JoinSpaceVisible(chunks: seq<string>)
    ensures Visible(JoinWith(" ", chunks)) == VisibleAll(chunks)
  {
    if |chunks| == 1 {
      assert chunks[1..] == [];
    } else if |chunks| > 1 {
      JoinSpaceVisible(chunks[1..]);
      VisibleAppend(chunks[0] + " ", JoinWith(" ", chunks[1..]));
      VisibleAppend(chunks[0], " ");
    }
  }

  /** Clean-up only removes and inserts whitespace: the visible characters
      of the page survive, all of them and in order. */
  lemma CleanTextVisible(text: string)
    ensures Visible(CleanText(text)) == Visible(text)
  {
    JoinSpaceVisible(Chunks(SplitLines(text)));
    ChunksVisible(SplitLines(text));
    SplitLinesVisible(text);
  }

  lemma TrimmedSpacesEmpty(s: string)
    requires Trimmed(s) && AllSpace(s)
    ensures s == []
  {
  }

  /** The cleaned text is empty exactly when the page text is all whitespace
      and line breaks. */
  lemma CleanTextEmptyIff(text: string)
    ensures CleanText(text) == "" <==> AllSpace(text)
  {
    var r := CleanText(text);
    CleanTextVisible(text);
    CleanTextShape(text);
    VisibleOfSpaces(text);
    VisibleOfSpaces(r);
    if AllSpace(text) {
      TrimmedSpacesEmpty(r);
    }
  }

  /** Cleaning an already cleaned text changes nothing. */
  lemma CleanTextIdempotent(text: string)
    ensures CleanText(CleanText(text)) == CleanText(text)
  {
    var r := CleanText(text);
    CleanTextShape(text);
    if r != "" {
      assert FirstBreak(r) == |r|;
      assert SplitLines(r) == [r];
      StripTrimmed(r);
      assert FirstDoubleSpace(r) == |r|;
      assert SplitDoubleSpace(r) == [r];
      assert NonEmptyStripped([r]) == [r];
      assert Chunks([r]) == [r] + Chunks([]);
    }
  }

  // ---------------------------------------------------------------------
  // The splits give their text back

  /** The first line of a text that has a break, and the rest. */
  lemma SplitLinesStep(s: string)
    requires s != [] && FirstBreak(s) < |s|
    ensures var i := FirstBreak(s); var u := s[AfterBreak(s, i)..];
      && SplitLines(s) == [s[..i]] + SplitLines(u)
      && LineEnds(s) == [s[i..AfterBreak(s, i)]] + LineEnds(u)
  {
  }

  /** An empty first line ends with a boundary that starts the text. */
  lemma EmptyFirstLine(u: string)
    requires |SplitLines(u)| > 0 && SplitLines(u)[0] == []
    ensures LineEnds(u)[0] != [] && LineEnds(u)[0][0] == u[0]
  {
    var j := FirstBreak(u);
    assert u != [] && j < |u|;
    SplitLinesStep(u);
    assert j == 0;
  }

  /** The text from a break to where the text resumes is one boundary. */
  lemma BreakIsLineEnd(s: string, i: nat)
    requires i < |s| && IsLineBreak(s[i])
    ensures LineEnd(s[i..AfterBreak(s, i)])
  {
    var e := s[i..AfterBreak(s, i)];
    if AfterBreak(s, i) == i + 2 {
      assert |e| == 2 && e[0] == '\r' && e[1] == '\n';
      assert e == "\r\n";
    } else {
      assert |e| == 1 && e[0] == s[i];
    }
  }

  /** Every boundary is "\r\n" or one break character; only the last line
      may have none. */
  lemma {:induction false} LineEndsShape(s: string)
    ensures forall k :: 0 <= k < |LineEnds(s)| ==>
      LineEnd(LineEnds(s)[k]) || (k == |LineEnds(s)| - 1 && LineEnds(s)[k] == [])
    decreases |s|
  {
    if s != [] && FirstBreak(s) < |s| {
      var i := FirstBreak(s);
      var next := AfterBreak(s, i);
      var e, u := s[i..next], s[next..];
      SplitLinesStep(s);
      LineEndsShape(u);
      BreakIsLineEnd(s, i);
      var ends := LineEnds(s);
      forall k | 0 <= k < |ends| ensures LineEnd(ends[k]) || (k == |ends| - 1 && ends[k] == []) {
        if k > 0 {
          assert ends[k] == LineEnds(u)[k - 1];
        }
      }
    }
  }

  /** The lines followed by the boundaries `splitlines` removed are the text
      again; every boundary is "\r\n" or one break character, and only the
      last line may have none. */
  lemma {:induction false} SplitLinesRoundTrip(s: string)
    ensures Unsplit(SplitLines(s), LineEnds(s)) == s
    ensures forall k :: 0 <= k < |LineEnds(s)| ==>
      LineEnd(LineEnds(s)[k]) || (k == |LineEnds(s)| - 1 && LineEnds(s)[k] == [])
    decreases |s|
  {
    LineEndsShape(s);
    if s != [] {
      var i := FirstBreak(s);
      if i == |s| {
        assert Unsplit([s], [[]]) == s + [] + Unsplit([], []);
      } else {
        var next := AfterBreak(s, i);
        var lines, ends := SplitLines(s[next..]), LineEnds(s[next..]);
        SplitLinesRoundTrip(s[next..]);
        assert SplitLines(s) == [s[..i]] + lines;
        assert LineEnds(s) == [s[i..next]] + ends;
        assert ([s[..i]] + lines)[1..] == lines;
        assert ([s[i..next]] + ends)[1..] == ends;
        Slices3(s, i, next);
      }
    }
  }

  /** The first boundary, when it is a lone "\r", is not directly followed by "\n". */
  lemma LoneCarriageReturnFirst(s: string)
    requires 1 < |LineEnds(s)|
    requires LineEnds(s)[0] == "\r" && SplitLines(s)[1] == []
    ensures LineEnds(s)[1] != "\n"
  {
    var i := FirstBreak(s);
    assert s != [] && i < |s|;
    var next := AfterBreak(s, i);
    var u := s[next..];
    SplitLinesStep(s);
    assert s[i..next] == "\r";
    assert next == i + 1 && u[0] == s[i + 1];
    EmptyFirstLine(u);
  }

  /** Past the first line, the lines and boundaries of a text are those of
      the text after its first break. */
  lemma SplitLinesShift(s: string, k: nat)
    requires 0 < k < |LineEnds(s)|
    ensures s != [] && FirstBreak(s) < |s|
    ensures var u := s[AfterBreak(s, FirstBreak(s))..];
      && k - 1 < |LineEnds(u)|
      && LineEnds(s)[k] == LineEnds(u)[k - 1] && SplitLines(s)[k] == SplitLines(u)[k - 1]
  {
    assert s != [] && FirstBreak(s) < |s|;
    SplitLinesStep(s);
  }

  /** "\r\n" is one boundary: a boundary that is a lone "\r" is never
      directly followed by "\n". */
  lemma {:induction false} LoneCarriageReturn(s: string, k: nat)
    requires k + 1 < |LineEnds(s)|
    requires LineEnds(s)[k] == "\r" && SplitLines(s)[k + 1] == []
    ensures LineEnds(s)[k + 1] != "\n"
    decreases |s|
  {
    if k == 0 {
      LoneCarriageReturnFirst(s);
    } else {
      SplitLinesShift(s, k);
      SplitLinesShift(s, k + 1);
      LoneCarriageReturn(s[AfterBreak(s, FirstBreak(s))..], k - 1);
    }
  }

  /** `"  ".join(s.split("  ")) == s`. */
  lemma {:induction false} SplitDoubleSpaceRoundTrip(s: string)
    ensures JoinWith("  ", SplitDoubleSpace(s)) == s
    decreases |s|
  {
    var i := FirstDoubleSpace(s);
    if i < |s| {
      var rest := SplitDoubleSpace(s[i + 2..]);
      SplitDoubleSpaceRoundTrip(s[i + 2..]);
      assert SplitDoubleSpace(s) == [s[..i]] + rest;
      assert ([s[..i]] + rest)[1..] == rest;
      assert s[i..i + 2] == "  ";
      Slices3(s, i, i + 2);
    }
  }

  // ---------------------------------------------------------------------
  // Words of the cleaned text

  /** The words of every string, in order. */
  function WordsAll(ss: seq<string>): seq<string>
  {
    if ss == [] then [] else Words(ss[0]) + WordsAll(ss[1..])
  }

  lemma {:induction false} WordsAllAppend(a: seq<string>, b: seq<string>)
    ensures WordsAll(a + b) == WordsAll(a) + WordsAll(b)
  {
    if a == [] {
      assert a + b == b;
    } else {
      assert (a + b)[1..] == a[1..] + b;
      WordsAllAppend(a[1..], b);
    }
  }

  lemma WordsAllOne(s: string)
    ensures WordsAll([s]) == Words(s)
  {
    assert [s][1..] == [];
  }

  lemma {:induction false} SplitLinesWords(s: string)
    ensures WordsAll(SplitLines(s)) == Words(s)
    decreases |s|
  {
    if s != [] {
      var i := FirstBreak(s);
      if i == |s| {
        WordsAllOne(s);
      } else {
        var next := AfterBreak(s, i);
        var lines := SplitLines(s[next..]);
        SplitLinesWords(s[next..]);
        assert SplitLines(s) == [s[..i]] + lines;
        assert ([s[..i]] + lines)[1..] == lines;
        Slices3(s, i, next);
        WordsSplitAt(s[..i], s[i..next], s[next..]);
      }
    }
  }

  lemma {:induction false} SplitDoubleSpaceWords(s: string)
    ensures WordsAll(SplitDoubleSpace(s)) == Words(s)
    decreases |s|
  {
    var i := FirstDoubleSpace(s);
    if i == |s| {
      WordsAllOne(s);
    } else {
      var rest := SplitDoubleSpace(s[i + 2..]);
      SplitDoubleSpaceWords(s[i + 2..]);
      assert SplitDoubleSpace(s) == [s[..i]] + rest;
      assert ([s[..i]] + rest)[1..] == rest;
      assert s[i..i + 2] == "  ";
      Slices3(s, i, i + 2);
      WordsSplitAt(s[..i], "  ", s[i + 2..]);
    }
  }

  lemma {:induction false} NonEmptyStrippedWords(pieces: seq<string>)
    ensures WordsAll(NonEmptyStripped(pieces)) == WordsAll(pieces)
  {
    if pieces != [] {
      var c, rest := Strip(pieces[0]), NonEmptyStripped(pieces[1..]);
      StripWords(pieces[0]);
      NonEmptyStrippedWords(pieces[1..]);
      if c == [] {
        assert NonEmptyStripped(pieces) == rest;
      } else {
        assert NonEmptyStripped(pieces) == [c] + rest;
        WordsAllAppend([c], rest);
        WordsAllOne(c);
      }
    }
  }

  lemma {:induction false} ChunksWords(lines: seq<string>)
    ensures WordsAll(Chunks(lines)) == WordsAll(lines)
  {
    if lines != [] {
      var pieces := SplitDoubleSpace(Strip(lines[0]));
      WordsAllAppend(NonEmptyStripped(pieces), Chunks(lines[1..]));
      NonEmptyStrippedWords(pieces);
      SplitDoubleSpaceWords(Strip(lines[0]));
      StripWords(lines[0]);
      ChunksWords(lines[1..]);
    }
  }

  lemma {:induction false} JoinSpaceWords(chunks: seq<string>)
    ensures Words(JoinWith(" ", chunks)) == WordsAll(chunks)
  {
    if |chunks| == 1 {
      WordsAllOne(chunks[0]);
      assert chunks == [chunks[0]];
    } else if |chunks| > 1 {
      JoinSpaceWords(chunks[1..]);
      WordsSplitAt(chunks[0], " ", JoinWith(" ", chunks[1..]));
    }
  }

  /** The clean-up keeps the words of the page, all of them, in order, and
      apart: only the whitespace between them changes. */
  lemma CleanTextWords(text: string)
    ensures Words(CleanText(text)) == Words(text)
  {
    JoinSpaceWords(Chunks(SplitLines(text)));
    ChunksWords(SplitLines(text));
    SplitLinesWords(text);
  }

  // ---------------------------------------------------------------------
  // Truncation

  /** Text longer than `maxLength` becomes exactly its first `maxLength`
      characters plus "..." (length `maxLength` + 3); shorter text is kept. */
  lemma TruncateSpec(text: string, maxLength: nat)
    ensures |text| > maxLength ==> |Truncate(text, maxLength)| == maxLength + 3
    ensures |text| > maxLength ==> Truncate(text, maxLength) == text[..maxLength] + "..."
    ensures |text| <= maxLength ==> Truncate(text, maxLength) == text
    ensures StartsWith(Truncate(text, maxLength), text[..if |text| < maxLength then |text| else maxLength])
  {
  }

  /** Truncating twice to the same length is truncating once. */
  lemma TruncateIdempotent(text: string, maxLength: nat)
    ensures Truncate(Truncate(text, maxLength), maxLength) == Truncate(text, maxLength)
  {
    if |text| > maxLength {
      assert (text[..maxLength] + "...")[..maxLength] == text[..maxLength];
    }
  }

  /** Truncation keeps the clean-up's shape. */
  lemma TruncateKeepsShape(text: string, maxLength: nat)
    requires Trimmed(text) && NoDoubleSpace(text) && NoLineBreak(text)
    ensures Trimmed(Truncate(text, maxLength))
    ensures NoDoubleSpace(Truncate(text, maxLength))
    ensures NoLineBreak(Truncate(text, maxLength))
  {
    if |text| > maxLength {
      var r := text[..maxLength] + "...";
      assert forall i :: 0 <= i < maxLength ==> r[i] == text[i];
      assert forall i :: maxLength <= i < |r| ==> r[i] == '.';
    }
  }

  /** What a crawler keeps of a page: at most `maxLength` + 3 characters, no
      line break, no double space, no edge whitespace; empty exactly when the
      page text is all whitespace. */
  lemma CleanPageSpec(text: string, maxLength: nat)
    ensures |CleanPage(text, maxLength)| <= maxLength + 3
    ensures NoLineBreak(CleanPage(text, maxLength)) && NoDoubleSpace(CleanPage(text, maxLength))
    ensures Trimmed(CleanPage(text, maxLength))
    ensures CleanPage(text, maxLength) == "" <==> AllSpace(text)
  {
    CleanTextShape(text);
    CleanTextEmptyIff(text);
    TruncateKeepsShape(CleanText(text), maxLength);
  }
}
