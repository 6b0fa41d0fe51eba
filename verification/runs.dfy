/**
 Splitting a string into maximal runs of one character class and its
 complement. This is what `re.findall(A+|B+)` does when B is exactly the
 complement of A, and also what `str.split()` keeps when A is "not white space".
 */
module Runs {

  /** One run: its characters all are (`inClass`) or all are not in the class. */
  datatype Run = Run(inClass: bool, text: string)

  /** Length of the longest prefix of `s` whose characters all have class `b`. */
  function SpanLen(cls: char -> bool, s: string, b: bool): (k: nat)
    ensures k <= |s|
    ensures forall j :: 0 <= j < k ==> cls(s[j]) == b
    ensures k < |s| ==> cls(s[k]) != b
  {
    if |s| == 0 || cls(s[0]) != b then 0 else 1 + SpanLen(cls, s[1..], b)
  }

  /** The texts of the runs, joined in order. */
  function Concat(rs: seq<Run>): string
  {
    if |rs| == 0 then "" else rs[0].text + Concat(rs[1..])
  }

  /** A run is non-empty and all its characters have the run's class. */
  predicate Homogeneous(cls: char -> bool, r: Run)
  {
    |r.text| > 0 && forall j :: 0 <= j < |r.text| ==> cls(r.text[j]) == r.inClass
  }

  /** Runs are homogeneous and neighbours differ in class, so no run can be
      extended into the next: every run is maximal. */
  predicate WellFormed(cls: char -> bool, rs: seq<Run>)
  {
    && (forall i :: 0 <= i < |rs| ==> Homogeneous(cls, rs[i]))
    && (forall i :: 0 <= i < |rs| - 1 ==> rs[i].inClass != rs[i + 1].inClass)
  }

  /** The left-to-right scan into maximal runs. */
  function Split(cls: char -> bool, s: string): (rs: seq<Run>)
    decreases |s|
    ensures WellFormed(cls, rs)
    ensures Concat(rs) == s
    ensures |rs| > 0 ==> rs[0].inClass == cls(s[0])
  {
    if |s| == 0 then []
    else
      var b := cls(s[0]);
      var k := SpanLen(cls, s, b);
      var rest := Split(cls, s[k..]);
      SplitStep(cls, s, k, rest);
      [Run(b, s[..k])] + rest
  }

  /** One step of the scan: the maximal first run in front of the runs of
      the remainder. */
  lemma SplitStep(cls: char -> bool, s: string, k: nat, rest: seq<Run>)
    requires 0 < k <= |s|
    requires forall j :: 0 <= j < k ==> cls(s[j]) == cls(s[0])
    requires k < |s| ==> cls(s[k]) != cls(s[0])
    requires WellFormed(cls, rest) && Concat(rest) == s[k..]
    requires |rest| > 0 ==> rest[0].inClass == cls(s[k])
    ensures WellFormed(cls, [Run(cls(s[0]), s[..k])] + rest)
    ensures Concat([Run(cls(s[0]), s[..k])] + rest) == s
  {
    var r := Run(cls(s[0]), s[..k]);
    PrefixRun(cls, s, k);
    if |rest| > 0 {
      assert Homogeneous(cls, rest[0]);
      assert Concat(rest) == rest[0].text + Concat(rest[1..]);
      assert k < |s|;
    }
    ConsRun(cls, r, rest);
    assert s == s[..k] + s[k..];
  }

  /** A prefix whose characters share the first one's class is a run. */
  lemma PrefixRun(cls: char -> bool, s: string, k: nat)
    requires 0 < k <= |s|
    requires forall j :: 0 <= j < k ==> cls(s[j]) == cls(s[0])
    ensures Homogeneous(cls, Run(cls(s[0]), s[..k]))
  {
    var r := Run(cls(s[0]), s[..k]);
    forall j | 0 <= j < k ensures cls(r.text[j]) == r.inClass {
      assert r.text[j] == s[j];
    }
  }

  /** A run put in front of runs of the other class keeps them well formed,
      and its text goes in front of theirs. */
  lemma ConsRun(cls: char -> bool, r: Run, rest: seq<Run>)
    requires Homogeneous(cls, r) && WellFormed(cls, rest)
    requires |rest| > 0 ==> rest[0].inClass != r.inClass
    ensures WellFormed(cls, [r] + rest)
    ensures Concat([r] + rest) == r.text + Concat(rest)
  {
    assert ([r] + rest)[1..] == rest;
  }

  /** The scan is the only decomposition into maximal runs: any well-formed
      sequence of runs that joins to `s` is the one `Split` returns. */
  lemma {:induction false} SplitUnique(cls: char -> bool, s: string, rs: seq<Run>)
    requires WellFormed(cls, rs) && Concat(rs) == s
    ensures rs == Split(cls, s)
    decreases |s|
  {
    if |rs| > 0 {
      var r := rs[0];
      var n := |r.text|;
      FirstRunIsSpan(cls, s, rs);
      WellFormedTail(cls, rs);
      assert s[n..] == Concat(rs[1..]);
      SplitUnique(cls, s[n..], rs[1..]);
      assert Split(cls, s) == [Run(r.inClass, s[..n])] + Split(cls, s[n..]);
      assert rs == [Run(r.inClass, s[..n])] + rs[1..];
    }
  }

  lemma WellFormedTail(cls: char -> bool, rs: seq<Run>)
    requires WellFormed(cls, rs) && |rs| > 0
    ensures WellFormed(cls, rs[1..])
  {
  }

  /** In a well-formed decomposition of `s`, the first run is the span of
      `s[0]`'s class. */
  lemma FirstRunIsSpan(cls: char -> bool, s: string, rs: seq<Run>)
    requires WellFormed(cls, rs) && Concat(rs) == s && |rs| > 0
    ensures cls(s[0]) == rs[0].inClass
    ensures SpanLen(cls, s, rs[0].inClass) == |rs[0].text|
    ensures s[..|rs[0].text|] == rs[0].text && s[|rs[0].text|..] == Concat(rs[1..])
  {
    var r := rs[0];
    var n := |r.text|;
    assert Homogeneous(cls, r);
    assert s == r.text + Concat(rs[1..]);
    assert s[..n] == r.text;
    assert forall j :: 0 <= j < n ==> cls(s[j]) == r.inClass by {
      forall j | 0 <= j < n ensures cls(s[j]) == r.inClass {
        assert s[j] == r.text[j];
      }
    }
    if |rs| > 1 {
      var next := rs[1];
      assert Homogeneous(cls, next);
      assert Concat(rs[1..]) == next.text + Concat(rs[2..]);
      assert s[n] == next.text[0];
    }
    SpanLenOfPrefix(cls, s, r.inClass, n);
  }

  /** A prefix of one class followed by a character of the other (or the
      end) is exactly the span. */
  lemma {:induction false} SpanLenOfPrefix(cls: char -> bool, s: string, b: bool, n: nat)
    requires n <= |s|
    requires forall j :: 0 <= j < n ==> cls(s[j]) == b
    requires n < |s| ==> cls(s[n]) != b
    ensures SpanLen(cls, s, b) == n
    decreases n
  {
    if n > 0 {
      SpanLenOfPrefix(cls, s[1..], b, n - 1);
    }
  }

  /** The empty string, and only it, has no runs. */
  lemma SplitEmpty(cls: char -> bool, s: string)
    ensures Split(cls, s) == [] <==> s == ""
  {
  }

  /** Number of runs whose characters are in the class. */
  function CountInClass(rs: seq<Run>): (n: nat)
    ensures n <= |rs|
  {
    if |rs| == 0 then 0 else (if rs[0].inClass then 1 else 0) + CountInClass(rs[1..])
  }

  /** Texts of the runs whose characters are in the class, in order. */
  function InClassTexts(rs: seq<Run>): (ts: seq<string>)
    ensures |ts| == CountInClass(rs)
  {
    if |rs| == 0 then []
    else (if rs[0].inClass then [rs[0].text] else []) + InClassTexts(rs[1..])
  }
}
