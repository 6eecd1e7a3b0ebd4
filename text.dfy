/** Character classes and the string helpers the scripts lean on:
    `str.strip`, `str.startswith`, `str.lower` and decimal formatting. */
module Text {

  /** The characters Python's `str.isspace` accepts, which `str.strip` and
      `str.split` treat as whitespace: tab, LF, VT, FF, CR, the ASCII
      separators FS, GS, RS and US, space, NEL, no-break space, and the
      Unicode space and separator characters. */
  predicate IsSpace(c: char) {
    || c == '\t' || c == '\n' || c == '\U{000B}' || c == '\U{000C}' || c == '\r'
    || ('\U{001C}' <= c <= '\U{001F}') || c == ' ' || c == '\U{0085}' || c == '\U{00A0}'
    || c == '\U{1680}' || ('\U{2000}' <= c <= '\U{200A}') || c == '\U{2028}' || c == '\U{2029}'
    || c == '\U{202F}' || c == '\U{205F}' || c == '\U{3000}'
  }

  /** The line boundaries of `str.splitlines`: LF, CR, VT, FF, FS, GS, RS,
      NEL, and the line and paragraph separators; "\r\n" counts as one. */
  predicate IsLineBreak(c: char) {
    || c == '\n' || c == '\r' || c == '\U{000B}' || c == '\U{000C}'
    || ('\U{001C}' <= c <= '\U{001E}') || c == '\U{0085}' || c == '\U{2028}' || c == '\U{2029}'
  }

  predicate StartsWith(s: string, prefix: string) {
    |prefix| <= |s| && s[..|prefix|] == prefix
  }

  predicate AllSpace(s: string) {
    forall i :: 0 <= i < |s| ==> IsSpace(s[i])
  }

  /** No whitespace at either end. */
  predicate Trimmed(s: string) {
    s == [] || (!IsSpace(s[0]) && !IsSpace(s[|s| - 1]))
  }

  predicate NoLineBreak(s: string) {
    forall i :: 0 <= i < |s| ==> !IsLineBreak(s[i])
  }

  predicate NoDoubleSpace(s: string) {
    forall i :: 0 < i < |s| ==> !(s[i - 1] == ' ' && s[i] == ' ')
  }

  /** The character `c` when it is visible, nothing when it is whitespace. */
  function Keep(c: char): string {
    if IsSpace(c) then [] else [c]
  }

  /** The non-whitespace characters of `s[lo..hi]`, in order. */
  function VisibleRange(s: string, lo: nat, hi: nat): string
    requires lo <= hi <= |s|
    decreases hi - lo
  {
    if lo == hi then [] else VisibleRange(s, lo, hi - 1) + Keep(s[hi - 1])
  }

  /** The non-whitespace characters of `s`, in order. */
  function Visible(s: string): string {
    VisibleRange(s, 0, |s|)
  }

  lemma {:induction false} VisibleRangeSplit(s: string, lo: nat, mid: nat, hi: nat)
    requires lo <= mid <= hi <= |s|
    ensures VisibleRange(s, lo, hi) == VisibleRange(s, lo, mid) + VisibleRange(s, mid, hi)
    decreases hi - mid
  {
    var x := VisibleRange(s, lo, mid);
    if mid == hi {
      assert x + [] == x;
    } else {
      VisibleRangeSplit(s, lo, mid, hi - 1);
      var y, z := VisibleRange(s, mid, hi - 1), Keep(s[hi - 1]);
      assert (x + y) + z == x + (y + z);
    }
  }

  /** A string that agrees with `s[d..]` position by position has the same
      visible characters as that stretch of `s`. */
  lemma {:induction false} VisibleRangeShift(s: string, t: string, d: nat, lo: nat, hi: nat)
    requires lo <= hi <= |t| && d + hi <= |s|
    requires forall k :: lo <= k < hi ==> t[k] == s[d + k]
    ensures VisibleRange(t, lo, hi) == VisibleRange(s, d + lo, d + hi)
    decreases hi - lo
  {
    if lo < hi {
      VisibleRangeShift(s, t, d, lo, hi - 1);
    }
  }

  lemma {:induction false} VisibleRangeSpaces(s: string, lo: nat, hi: nat)
    requires lo <= hi <= |s|
    ensures VisibleRange(s, lo, hi) == [] <==> forall k :: lo <= k < hi ==> IsSpace(s[k])
    decreases hi - lo
  {
    if lo < hi {
      VisibleRangeSpaces(s, lo, hi - 1);
      var x, y := VisibleRange(s, lo, hi - 1), Keep(s[hi - 1]);
      assert |x + y| == |x| + |y|;
    }
  }

  lemma VisiblePrefix(s: string, i: nat)
    requires i <= |s|
    ensures Visible(s[..i]) == VisibleRange(s, 0, i)
  {
    VisibleRangeShift(s, s[..i], 0, 0, i);
  }

  lemma VisibleSuffix(s: string, j: nat)
    requires j <= |s|
    ensures Visible(s[j..]) == VisibleRange(s, j, |s|)
  {
    VisibleRangeShift(s, s[j..], j, 0, |s| - j);
  }

  lemma {:induction false} VisibleAppendLeft(a: string, b: string, hi: nat)
    requires hi <= |a|
    ensures VisibleRange(a + b, 0, hi) == VisibleRange(a, 0, hi)
  {
    if 0 < hi {
      VisibleAppendLeft(a, b, hi - 1);
      assert (a + b)[hi - 1] == a[hi - 1];
    }
  }

  lemma {:induction false} VisibleAppendRight(a: string, b: string, hi: nat)
    requires hi <= |b|
    ensures VisibleRange(a + b, |a|, |a| + hi) == VisibleRange(b, 0, hi)
  {
    if 0 < hi {
      VisibleAppendRight(a, b, hi - 1);
      assert (a + b)[|a| + hi - 1] == b[hi - 1];
    }
  }

  lemma VisibleAppend(a: string, b: string)
    ensures Visible(a + b) == Visible(a) + Visible(b)
  {
    VisibleRangeSplit(a + b, 0, |a|, |a + b|);
    VisibleAppendLeft(a, b, |a|);
    VisibleAppendRight(a, b, |b|);
  }

  lemma VisibleOfSpaces(s: string)
    ensures Visible(s) == [] <==> AllSpace(s)
  {
    VisibleRangeSpaces(s, 0, |s|);
  }

  /** Removing a run of whitespace from `s` keeps its visible characters. */
  lemma DropSpacesVisible(s: string, i: nat, j: nat)
    requires i <= j <= |s|
    requires forall k :: i <= k < j ==> IsSpace(s[k])
    ensures Visible(s) == Visible(s[..i]) + Visible(s[j..])
  {
    VisibleRangeSplit(s, 0, i, |s|);
    VisibleRangeSplit(s, i, j, |s|);
    VisibleRangeSpaces(s, i, j);
    VisiblePrefix(s, i);
    VisibleSuffix(s, j);
    var x, z := VisibleRange(s, 0, i), VisibleRange(s, j, |s|);
    assert [] + z == z;
  }

  /** The first index at or after `i` that holds no whitespace, or |s|. */
  function SkipSpaces(s: string, i: nat): (j: nat)
    requires i <= |s|
    ensures i <= j <= |s|
    ensures forall k :: i <= k < j ==> IsSpace(s[k])
    ensures j < |s| ==> !IsSpace(s[j])
    decreases |s| - i
  {
    if i < |s| && IsSpace(s[i]) then SkipSpaces(s, i + 1) else i
  }

  /** The end of `s[..j]` once its trailing whitespace is dropped. */
  function SkipSpacesBack(s: string, j: nat): (i: nat)
    requires j <= |s|
    ensures i <= j
    ensures forall k :: i <= k < j ==> IsSpace(s[k])
    ensures 0 < i ==> !IsSpace(s[i - 1])
  {
    if 0 < j && IsSpace(s[j - 1]) then SkipSpacesBack(s, j - 1) else j
  }

  /** `str.strip()` over this model's whitespace alphabet. */
  function Strip(s: string): (r: string)
    ensures Trimmed(r)
    ensures |r| <= |s|
  {
    var lo, hi := SkipSpaces(s, 0), SkipSpacesBack(s, |s|);
    if lo < hi then s[lo..hi] else []
  }

  /** Stripping removes whitespace only: what it keeps is a contiguous
      slice of the input, with nothing but whitespace on either side. */
  lemma StripSlice(s: string) returns (lo: nat)
    ensures lo + |Strip(s)| <= |s| && Strip(s) == s[lo..lo + |Strip(s)|]
    ensures AllSpace(s[..lo]) && AllSpace(s[lo + |Strip(s)|..])
    ensures forall k :: 0 <= k < lo ==> IsSpace(s[k])
    ensures forall k :: lo + |Strip(s)| <= k < |s| ==> IsSpace(s[k])
  {
    lo := SkipSpaces(s, 0);
    var hi := SkipSpacesBack(s, |s|);
    var r := Strip(s);
    var rest := s[lo + |r|..];
    assert forall k :: 0 <= k < |s[..lo]| ==> s[..lo][k] == s[k];
    assert forall k :: 0 <= k < |rest| ==> rest[k] == s[lo + |r| + k];
  }

  lemma StripVisible(s: string)
    ensures Visible(Strip(s)) == Visible(s)
  {
    var lo := StripSlice(s);
    var r := Strip(s);
    DropSpacesVisible(s, 0, lo);
    var m := s[lo..];
    assert Visible(s[..0]) == [];
    assert Visible(s) == Visible(m);
    DropSpacesVisible(m, |r|, |m|);
    assert m[..|r|] == r;
    assert Visible(m[|m|..]) == [];
    assert Visible(m) == Visible(r) + [];
  }

  /** Stripping keeps the absence of line breaks and of double spaces. */
  lemma StripKeepsShape(s: string)
    ensures NoLineBreak(s) ==> NoLineBreak(Strip(s))
    ensures NoDoubleSpace(s) ==> NoDoubleSpace(Strip(s))
  {
    var lo := StripSlice(s);
    var r := Strip(s);
    if NoLineBreak(s) {
      forall i | 0 <= i < |r| ensures !IsLineBreak(r[i]) {
        assert r[i] == s[lo + i];
      }
    }
    if NoDoubleSpace(s) {
      forall i | 0 < i < |r| ensures !(r[i - 1] == ' ' && r[i] == ' ') {
        assert r[i - 1] == s[lo + i - 1] && r[i] == s[lo + i];
      }
    }
  }

  /** A string that is already trimmed is left alone. */
  lemma StripTrimmed(s: string)
    requires Trimmed(s)
    ensures Strip(s) == s
  {
  }

  /** A string is its three slices around `i` and `j`, in order. */
  lemma Slices3(s: string, i: nat, j: nat)
    requires i <= j <= |s|
    ensures s == s[..i] + s[i..j] + s[j..]
  {
    assert s[..i] + s[i..j] == s[..j];
  }

  // ---------------------------------------------------------------------
  // Words: `str.split()` with no argument

  predicate NoSpace(w: string) {
    forall i :: 0 <= i < |w| ==> !IsSpace(w[i])
  }

  /** Index of the first whitespace character of `s` at or after `i`, or |s|. */
  function WordEnd(s: string, i: nat): (j: nat)
    requires i <= |s|
    ensures i <= j <= |s|
    ensures forall k :: i <= k < j ==> !IsSpace(s[k])
    ensures j < |s| ==> IsSpace(s[j])
    decreases |s| - i
  {
    if i == |s| || IsSpace(s[i]) then i else WordEnd(s, i + 1)
  }

  /** The words of `s`: its maximal runs of non-whitespace characters, in
      order. This is what `s.split()` returns. */
  function Words(s: string): (words: seq<string>)
    ensures forall k :: 0 <= k < |words| ==> words[k] != [] && NoSpace(words[k])
    decreases |s|
  {
    if s == [] then []
    else if IsSpace(s[0]) then Words(s[1..])
    else
      var j := WordEnd(s, 0);
      [s[..j]] + Words(s[j..])
  }

  /** A word ends exactly where the first whitespace character stands. */
  lemma WordEndUnique(s: string, i: nat, j: nat)
    requires i <= j <= |s|
    requires forall k :: i <= k < j ==> !IsSpace(s[k])
    requires j < |s| ==> IsSpace(s[j])
    ensures WordEnd(s, i) == j
  {
  }

  /** Leading whitespace contributes no word. */
  lemma {:induction false} WordsSpacesLeft(w: string, b: string)
    requires AllSpace(w)
    ensures Words(w + b) == Words(b)
  {
    if w == [] {
      assert w + b == b;
    } else {
      assert (w + b)[0] == w[0];
      assert (w + b)[1..] == w[1..] + b;
      WordsSpacesLeft(w[1..], b);
    }
  }

  /** A non-empty run of whitespace separates words: nothing before it merges
      with anything after it. */
  lemma {:induction false} WordsSplitAt(a: string, w: string, b: string)
    requires w != [] && AllSpace(w)
    ensures Words(a + w + b) == Words(a) + Words(b)
    decreases |a|
  {
    var s := a + w + b;
    if a == [] {
      assert s == w + b;
      WordsSpacesLeft(w, b);
    } else if IsSpace(a[0]) {
      assert s[0] == a[0];
      assert s[1..] == a[1..] + w + b;
      WordsSplitAt(a[1..], w, b);
    } else {
      var j := WordEnd(a, 0);
      assert s[0] == a[0];
      assert forall k :: 0 <= k < j ==> s[k] == a[k];
      assert s[j] == if j < |a| then a[j] else w[0];
      WordEndUnique(s, 0, j);
      assert s[..j] == a[..j];
      assert s[j..] == a[j..] + w + b;
      WordsSplitAt(a[j..], w, b);
    }
  }

  /** Trailing whitespace contributes no word. */
  lemma WordsSpacesRight(a: string, w: string)
    requires AllSpace(w)
    ensures Words(a + w) == Words(a)
  {
    if w != [] {
      WordsSplitAt(a, w, []);
      assert a + w + [] == a + w;
    } else {
      assert a + w == a;
    }
  }

  /** Stripping keeps the words. */
  lemma StripWords(s: string)
    ensures Words(Strip(s)) == Words(s)
  {
    var lo := StripSlice(s);
    var r := Strip(s);
    var rest := s[lo + |r|..];
    assert s == s[..lo] + (r + rest);
    WordsSpacesLeft(s[..lo], r + rest);
    WordsSpacesRight(r, rest);
  }

  function AsciiLowerChar(c: char): (d: char)
  {
    if 'A' <= c <= 'Z' then (c as int + 32) as char else c
  }

  /** `str.lower()` restricted to the ASCII letters. */
  function AsciiLower(s: string): (r: string)
    ensures |r| == |s|
    ensures forall i :: 0 <= i < |s| ==> r[i] == AsciiLowerChar(s[i])
  {
    if s == [] then [] else [AsciiLowerChar(s[0])] + AsciiLower(s[1..])
  }

  function DigitChar(d: nat): char
    requires d < 10
  {
    "0123456789"[d]
  }

  /** Python's `str(n)` for a non-negative integer. */
  function NatToString(n: nat): (r: string)
    ensures |r| >= 1
    ensures forall i :: 0 <= i < |r| ==> '0' <= r[i] <= '9'
    ensures n >= 10 ==> r[0] != '0'
  {
    if n < 10 then [DigitChar(n)] else NatToString(n / 10) + [DigitChar(n % 10)]
  }

  /** The decimal value of a string of digits: the inverse of NatToString. */
  function DecimalValue(s: string): nat
    requires forall i :: 0 <= i < |s| ==> '0' <= s[i] <= '9'
  {
    if s == [] then 0 else 10 * DecimalValue(s[..|s| - 1]) + ((s[|s| - 1] as int) - ('0' as int))
  }

  lemma DigitValue(d: nat)
    requires d < 10
    ensures DigitChar(d) as int - '0' as int == d
  {
  }

  /** Appending one digit multiplies the value by ten and adds the digit. */
  lemma DecimalValueSnoc(s: string, d: nat)
    requires forall i :: 0 <= i < |s| ==> '0' <= s[i] <= '9'
    requires d < 10
    ensures forall i :: 0 <= i < |s + [DigitChar(d)]| ==> '0' <= (s + [DigitChar(d)])[i] <= '9'
    ensures DecimalValue(s + [DigitChar(d)]) == 10 * DecimalValue(s) + d
  {
    var t := s + [DigitChar(d)];
    assert t[..|t| - 1] == s;
    DigitValue(d);
  }

  lemma {:induction false} NatToStringRoundTrip(n: nat)
    ensures DecimalValue(NatToString(n)) == n
  {
    if n >= 10 {
      NatToStringRoundTrip(n / 10);
      DecimalValueSnoc(NatToString(n / 10), n % 10);
    } else {
      DigitValue(n);
      assert NatToString(n)[..0] == [];
    }
  }
}
