/**
 Python's white space (`str.isspace`), `str.strip()` and `str.split()` with
 no arguments, as the corpus filters use them.
 */
module PyText {
  import Runs

  /** The code points for which Python's `str.isspace()` is true. */
  predicate IsSpace(c: char)
  {
    || ('\t' <= c <= '\r')
    || ('\U{001C}' <= c <= '\U{001F}')
    || c == ' '
    || c == '\U{0085}'
    || c == '\U{00A0}'
    || c == '\U{1680}'
    || ('\U{2000}' <= c <= '\U{200A}')
    || c == '\U{2028}'
    || c == '\U{2029}'
    || c == '\U{202F}'
    || c == '\U{205F}'
    || c == '\U{3000}'
  }

  predicate NotSpace(c: char)
  {
    !IsSpace(c)
  }

  /** Number of white-space characters at the end of `s`. */
  function TrailingSpaces(s: string): (k: nat)
    ensures k <= |s|
    ensures forall j :: |s| - k <= j < |s| ==> IsSpace(s[j])
    ensures k < |s| ==> !IsSpace(s[|s| - k - 1])
  {
    if |s| == 0 || !IsSpace(s[|s| - 1]) then 0 else 1 + TrailingSpaces(s[..|s| - 1])
  }

  /** `r` is the slice of `s` starting at `i`, and everything of `s` outside
      that slice is white space. */
  predicate TrimmedAt(s: string, r: string, i: int)
  {
    && 0 <= i <= |s| - |r| && s[i..i + |r|] == r
    && (forall j :: 0 <= j < i ==> IsSpace(s[j]))
    && (forall j :: i + |r| <= j < |s| ==> IsSpace(s[j]))
  }

  /** `s.strip()`: `s` without its leading and trailing white space. */
  function Strip(s: string): (r: string)
    ensures exists i :: TrimmedAt(s, r, i)
    ensures |r| > 0 ==> !IsSpace(r[0]) && !IsSpace(r[|r| - 1])
  {
    var lead := Runs.SpanLen(IsSpace, s, true);
    var t := s[lead..];
    var r := t[..|t| - TrailingSpaces(t)];
    assert s[lead..lead + |r|] == r;
    assert TrimmedAt(s, r, lead);
    r
  }

  /** A word of `str.split()`: non-empty and free of white space. */
  predicate IsWord(w: string)
  {
    |w| > 0 && forall j :: 0 <= j < |w| ==> NotSpace(w[j])
  }

  /** `s.split()`: the maximal runs of non-space characters, in order. */
  function SplitWords(s: string): (words: seq<string>)
    ensures forall k :: 0 <= k < |words| ==> IsWord(words[k])
  {
    var rs := Runs.Split(NotSpace, s);
    InClassAreWords(rs);
    Runs.InClassTexts(rs)
  }

  lemma {:induction false} InClassAreWords(rs: seq<Runs.Run>)
    requires Runs.WellFormed(NotSpace, rs)
    ensures forall k :: 0 <= k < |Runs.InClassTexts(rs)| ==> IsWord(Runs.InClassTexts(rs)[k])
  {
    if |rs| > 0 {
      assert Runs.Homogeneous(NotSpace, rs[0]);
      assert Runs.WellFormed(NotSpace, rs[1..]);
      InClassAreWords(rs[1..]);
    }
  }

  /** The words are the non-space runs of ANY decomposition of `s` into
      maximal alternating runs of space and non-space characters, taken in
      order: `str.split()` is determined by the text alone. */
  lemma SplitWordsOfRuns(s: string, rs: seq<Runs.Run>)
    requires Runs.WellFormed(NotSpace, rs) && Runs.Concat(rs) == s
    ensures SplitWords(s) == Runs.InClassTexts(rs)
  {
    Runs.SplitUnique(NotSpace, s, rs);
  }

  /** A non-empty string without white space is one word. */
  lemma SingleWord(s: string)
    requires |s| > 0 && forall k :: 0 <= k < |s| ==> NotSpace(s[k])
    ensures SplitWords(s) == [s]
  {
    var rs := [Runs.Run(true, s)];
    assert Runs.Concat(rs) == s + Runs.Concat([]);
    assert Runs.Homogeneous(NotSpace, rs[0]);
    Runs.SplitUnique(NotSpace, s, rs);
    assert Runs.InClassTexts(rs) == [s] + Runs.InClassTexts([]);
  }

  /** Stripping twice is stripping once. */
  lemma StripIdempotent(s: string)
    ensures Strip(Strip(s)) == Strip(s)
  {
    var r := Strip(s);
    if |r| > 0 {
      assert Runs.SpanLen(IsSpace, r, true) == 0;
      assert TrailingSpaces(r) == 0;
    }
  }
}
