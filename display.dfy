/** How the zenrows scripts show fetched content (zenrows/app.py:95-103,
    zenrows_parallel/app.py:113-121): content starting with "Error" is
    printed whole; other content longer than the limit is printed as its
    first `limit` characters followed by a note with the total length. */
module Display {
  import opened Text

  /** What gets printed for one piece of content. */
  datatype Shown = Whole(text: string) | Cut(head: string, total: nat)

  predicate IsError(content: string) {
    StartsWith(content, "Error")
  }

  /** The display decision, for a given character limit. Nothing is
      invented: what is shown whole is the content itself; a cut happens
      exactly to non-error content over the limit, keeps a prefix of exactly
      `limit` characters and reports the true total length. */
  function Decide(content: string, limit: nat): (s: Shown)
    ensures s.Whole? ==> s.text == content
    ensures s.Cut? <==> !IsError(content) && |content| > limit
    ensures s.Cut? ==> |s.head| == limit && StartsWith(content, s.head) && s.total == |content|
  {
    if IsError(content) then Whole(content)
    else if |content| > limit then Cut(content[..limit], |content|)
    else Whole(content)
  }

  /** Cutting removes the tail only: the kept head and the characters beyond
      the limit make up the content again. */
  lemma CutLosesOnlyTail(content: string, limit: nat)
    requires Decide(content, limit).Cut?
    ensures Decide(content, limit).head + content[limit..] == content
  {
    assert content[..limit] + content[limit..] == content;
  }

  const NoteOpening: string := "\n... (Content truncated. Total length: "
  const NoteClosing: string := " characters)"

  /** The truncation note printed after a cut. */
  function Note(total: nat): string {
    NoteOpening + NatToString(total) + NoteClosing
  }

  /** The note printed after a cut carries, between its fixed opening and
      closing words, a run of decimal digits that reads back as the length
      of the whole content. */
  lemma NoteReportsTotal(content: string, limit: nat)
    requires Decide(content, limit).Cut?
    ensures var note := Note(Decide(content, limit).total);
      && |NoteOpening| + |NoteClosing| < |note|
      && var digits := note[|NoteOpening|..|note| - |NoteClosing|];
      && note == NoteOpening + digits + NoteClosing
      && (forall i :: 0 <= i < |digits| ==> '0' <= digits[i] <= '9')
      && DecimalValue(digits) == |content|
  {
    var digits := NatToString(|content|);
    var note := Note(|content|);
    assert note[|NoteOpening|..|note| - |NoteClosing|] == digits;
    NatToStringRoundTrip(|content|);
  }
}
