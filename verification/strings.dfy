/**
 Substring search and Python's `str.split(sep)` / `sep.join(parts)` for a
 non-empty separator, on strings as sequences of code points.
 */
module Strings {
  import opened Options

  /** `pat` occurs in `s` starting at index `i`. */
  predicate OccursAt(s: string, pat: string, i: int)
  {
    0 <= i && i + |pat| <= |s| && s[i..i + |pat|] == pat
  }

  /** Python's `pat in s`. */
  predicate Contains(s: string, pat: string)
  {
    exists i :: 0 <= i <= |s| && OccursAt(s, pat, i)
  }

  /** Python's `s.endswith(suffix)`. */
  predicate EndsWith(s: string, suffix: string)
  {
    |suffix| <= |s| && s[|s| - |suffix|..] == suffix
  }

  /** Index of the first occurrence of `pat` in `s` at or after `from`. */
  function FindFrom(s: string, pat: string, from: nat): (r: Option<nat>)
    decreases |s| - from
    ensures r.Some? ==> from <= r.value && OccursAt(s, pat, r.value)
  {
    if from + |pat| > |s| then None
    else if s[from..from + |pat|] == pat then Some(from)
    else FindFrom(s, pat, from + 1)
  }

  /** The scan finds the first occurrence at or after `from`, and finds
      nothing only when there is none. */
  lemma {:induction false} FindFromFirst(s: string, pat: string, from: nat)
    ensures var r := FindFrom(s, pat, from);
            r.Some? ==> forall k :: from <= k < r.value ==> !OccursAt(s, pat, k)
    ensures FindFrom(s, pat, from).None? ==> forall k :: from <= k ==> !OccursAt(s, pat, k)
    decreases |s| - from
  {
    if from + |pat| <= |s| && s[from..from + |pat|] != pat {
      FindFromFirst(s, pat, from + 1);
    }
  }

  /** The scan from the start finds an occurrence exactly when there is one. */
  lemma FoundIffContains(s: string, pat: string)
    ensures FindFrom(s, pat, 0).Some? <==> Contains(s, pat)
  {
    FindFromFirst(s, pat, 0);
    var r := FindFrom(s, pat, 0);
    if r.Some? {
      assert OccursAt(s, pat, r.value);
    }
  }

  /** Index of the last occurrence of `pat` in `s` that starts before `upto`. */
  function FindLastBefore(s: string, pat: string, upto: nat): (r: Option<nat>)
    ensures r.Some? ==> r.value < upto && OccursAt(s, pat, r.value)
    ensures r.Some? ==> forall k :: r.value < k < upto ==> !OccursAt(s, pat, k)
    ensures r.None? ==> forall k :: 0 <= k < upto ==> !OccursAt(s, pat, k)
  {
    if upto == 0 then None
    else if OccursAt(s, pat, upto - 1) then Some(upto - 1)
    else FindLastBefore(s, pat, upto - 1)
  }

  /** An occurrence in either half is an occurrence in the concatenation. */
  lemma ContainsInAppend(a: string, b: string, pat: string)
    ensures Contains(a, pat) ==> Contains(a + b, pat)
    ensures Contains(b, pat) ==> Contains(a + b, pat)
  {
    var c := a + b;
    if Contains(a, pat) {
      var k :| 0 <= k <= |a| && OccursAt(a, pat, k);
      assert c[k..k + |pat|] == a[k..k + |pat|];
      assert OccursAt(c, pat, k);
    }
    if Contains(b, pat) {
      var k :| 0 <= k <= |b| && OccursAt(b, pat, k);
      assert c[|a| + k..|a| + k + |pat|] == b[k..k + |pat|];
      assert OccursAt(c, pat, |a| + k);
    }
  }

  /** A string ends with what was appended last. */
  lemma EndsWithAppend(x: string, t: string)
    ensures EndsWith(x + t, t)
  {
    assert (x + t)[|x|..] == t;
  }

  /** A string does not end with a suffix whose last character differs. */
  lemma LastCharDiffers(s: string, t: string)
    requires |s| > 0 && |t| > 0 && s[|s| - 1] != t[|t| - 1]
    ensures !EndsWith(s, t)
  {
    if |t| <= |s| {
      assert s[|s| - |t|..][|t| - 1] == s[|s| - 1];
    }
  }

  /** Python's `s.split(sep)`: cut at every occurrence found by a left-to-right,
      non-overlapping scan. */
  function Split(s: string, sep: string): (parts: seq<string>)
    requires |sep| > 0
    decreases |s|, 1
    ensures |parts| >= 1
  {
    SplitOn(s, sep, FindFrom(s, sep, 0))
  }

  /** `Split` once the first occurrence, if any, is known. */
  function SplitOn(s: string, sep: string, first: Option<nat>): (parts: seq<string>)
    requires |sep| > 0 && first == FindFrom(s, sep, 0)
    decreases |s|, 0
    ensures |parts| >= 1
  {
    match first
    case None => [s]
    case Some(i) => [s[..i]] + Split(s[i + |sep|..], sep)
  }

  /** No part of a split contains the separator. */
  lemma {:induction false} SplitPartsLackSep(s: string, sep: string)
    requires |sep| > 0
    ensures forall k :: 0 <= k < |Split(s, sep)| ==> !Contains(Split(s, sep)[k], sep)
    decreases |s|
  {
    match FindFrom(s, sep, 0)
    case None =>
      FoundIffContains(s, sep);
    case Some(i) =>
      var rest := s[i + |sep|..];
      SplitAtFirst(s, sep, i);
      SplitPartsLackSep(rest, sep);
      PrefixLacksSep(s, sep, i);
  }

  /** The text before the first occurrence holds no occurrence. */
  lemma PrefixLacksSep(s: string, sep: string, i: nat)
    requires |sep| > 0 && FindFrom(s, sep, 0) == Some(i)
    ensures !Contains(s[..i], sep)
  {
    FindFromFirst(s, sep, 0);
    assert OccursAt(s, sep, i);
    var pre := s[..i];
    forall k | 0 <= k <= |pre| ensures !OccursAt(pre, sep, k) {
      if k + |sep| <= i {
        assert pre[k..k + |sep|] == s[k..k + |sep|];
        assert !OccursAt(s, sep, k);
      }
    }
  }

  /** Python's `sep.join(parts)`. */
  function Join(parts: seq<string>, sep: string): string
  {
    if |parts| == 0 then ""
    else if |parts| == 1 then parts[0]
    else parts[0] + sep + Join(parts[1..], sep)
  }

  /** Splitting and joining with the same separator gives the string back. */
  lemma {:induction false} JoinSplit(s: string, sep: string)
    requires |sep| > 0
    ensures Join(Split(s, sep), sep) == s
    decreases |s|
  {
    var r := FindFrom(s, sep, 0);
    if r.Some? {
      var i := r.value;
      var rest := s[i + |sep|..];
      JoinSplit(rest, sep);
      SplitAtFirst(s, sep, i);
      JoinCons(s[..i], Split(rest, sep), sep);
      CutAt(s, sep, i);
    }
  }

  /** A string is the text before an occurrence, the occurrence, and the
      text after it. */
  lemma CutAt(s: string, pat: string, i: nat)
    requires OccursAt(s, pat, i)
    ensures s == s[..i] + pat + s[i + |pat|..]
  {
    assert s == s[..i] + s[i..i + |pat|] + s[i + |pat|..];
  }

  /** Unfolding `Split` at the first occurrence. */
  lemma SplitAtFirst(s: string, sep: string, i: nat)
    requires |sep| > 0 && FindFrom(s, sep, 0) == Some(i)
    ensures i + |sep| <= |s|
    ensures Split(s, sep) == [s[..i]] + Split(s[i + |sep|..], sep)
  {
    assert OccursAt(s, sep, i);
    assert Split(s, sep) == SplitOn(s, sep, Some(i));
  }

  /** Joining a part in front of at least one more. */
  lemma JoinCons(a: string, tail: seq<string>, sep: string)
    requires |tail| > 0
    ensures Join([a] + tail, sep) == a + sep + Join(tail, sep)
  {
    assert ([a] + tail)[1..] == tail;
  }

  /** `s.split(sep)` has exactly the two parts `[a, b]` exactly when the first
      occurrence of `sep` in `s` ends `a`, and `b`, the rest, holds none. */
  lemma SplitTwo(s: string, sep: string, a: string, b: string)
    requires |sep| > 0
    ensures Split(s, sep) == [a, b] <==>
              (s == a + sep + b && FindFrom(s, sep, 0) == Some(|a|) && !Contains(b, sep))
  {
    if Split(s, sep) == [a, b] {
      SplitTwoShape(s, sep, a, b);
    }
    if s == a + sep + b && FindFrom(s, sep, 0) == Some(|a|) && !Contains(b, sep) {
      SplitAtOnlyOccurrence(s, sep, a, b);
    }
  }

  lemma SplitTwoShape(s: string, sep: string, a: string, b: string)
    requires |sep| > 0
    requires Split(s, sep) == [a, b]
    ensures s == a + sep + b && FindFrom(s, sep, 0) == Some(|a|) && !Contains(b, sep)
  {
    match FindFrom(s, sep, 0)
    case None =>
    case Some(i) =>
      var rest := s[i + |sep|..];
      SplitAtFirst(s, sep, i);
      assert a == Split(s, sep)[0] == s[..i];
      assert Split(rest, sep) == Split(s, sep)[1..] == [b];
      FoundIffContains(rest, sep);
      CutAt(s, sep, i);
  }

  lemma SplitAtOnlyOccurrence(s: string, sep: string, a: string, b: string)
    requires |sep| > 0
    requires s == a + sep + b && FindFrom(s, sep, 0) == Some(|a|) && !Contains(b, sep)
    ensures Split(s, sep) == [a, b]
  {
    var rest := s[|a| + |sep|..];
    assert rest == b;
    assert s[..|a|] == a;
    FoundIffContains(b, sep);
    assert Split(b, sep) == [b];
    SplitAtFirst(s, sep, |a|);
  }

  /** `s.split(sep)` is `[s]` alone exactly when `sep` does not occur. */
  lemma SplitSingle(s: string, sep: string)
    requires |sep| > 0
    ensures |Split(s, sep)| == 1 <==> !Contains(s, sep)
  {
    FoundIffContains(s, sep);
    match FindFrom(s, sep, 0)
    case None =>
    case Some(i) =>
      SplitAtFirst(s, sep, i);
  }

  /** The part after the first occurrence of `sep`, when there is one and
      no further occurrence follows it. */
  predicate OneOccurrence(s: string, sep: string)
  {
    var i := FindFrom(s, sep, 0);
    i.Some? && !Contains(s[i.value + |sep|..], sep)
  }

  /** `s.split(sep)` has two parts exactly when the scan finds one occurrence
      and nothing after it. */
  lemma SplitTwoParts(s: string, sep: string)
    requires |sep| > 0
    ensures |Split(s, sep)| == 2 <==> OneOccurrence(s, sep)
    ensures OneOccurrence(s, sep) ==>
              Split(s, sep)[1] == s[FindFrom(s, sep, 0).value + |sep|..]
  {
    match FindFrom(s, sep, 0)
    case None =>
    case Some(i) =>
      var rest := s[i + |sep|..];
      SplitAtFirst(s, sep, i);
      SplitSingle(rest, sep);
  }
}
