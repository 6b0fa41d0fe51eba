/**
 `segment_text`: split a line into maximal runs of word characters
 (Malayalam block or Python's `\w`) and of everything else, segment each word
 run, copy every other run, and join the results in order.

 Python's `\w` depends on the Unicode tables of the running interpreter, so it
 is a parameter `wordChar` here. What the model needs of it is stated where
 it is needed: '\n' is not `\w`, and the characters of the marker are.
 */
module TextSegmenter {
  import opened Strings
  import opened Script
  import opened Rules
  import opened Segmenter
  import Runs

  /** `[ഀ-ൿ]|\w`. Its complement is `[^\wഀ-ൿ]`. */
  function WordClass(wordChar: char -> bool): char -> bool
  {
    c => IsMalayalam(c) || wordChar(c)
  }

  /** `re.findall(r'(?:[ഀ-ൿ]|\w)+|[^\wഀ-ൿ]+', text)`,
      each run tagged with its class. */
  function Tokenize(wordChar: char -> bool, text: string): (ts: seq<Runs.Run>)
    ensures Runs.WellFormed(WordClass(wordChar), ts)
    ensures Runs.Concat(ts) == text
    ensures ts == [] <==> text == ""
  {
    Runs.Split(WordClass(wordChar), text)
  }

  /** `re.match(r'(?:[ഀ-ൿ]|\w)+$', t)`: word characters up to the
      end, or up to a final '\n' (which `$` also accepts). */
  predicate IsWordToken(wordChar: char -> bool, t: string)
  {
    var cls := WordClass(wordChar);
    || (|t| > 0 && forall k :: 0 <= k < |t| ==> cls(t[k]))
    || (|t| > 1 && t[|t| - 1] == '\n' && forall k :: 0 <= k < |t| - 1 ==> cls(t[k]))
  }

  /** On the runs `Tokenize` yields, the test of line 115 recognises exactly
      the word runs, and word runs carry no '\n'. */
  lemma WordTokenIffWordRun(wordChar: char -> bool, t: Runs.Run)
    requires !wordChar('\n')
    requires Runs.Homogeneous(WordClass(wordChar), t)
    ensures IsWordToken(wordChar, t.text) <==> t.inClass
    ensures t.inClass ==> '\n' !in t.text
  {
    var cls := WordClass(wordChar);
    assert !cls('\n');
    assert cls(t.text[0]) == t.inClass;
  }

  /** The run as written to the output: a word run through `segment_word`,
      any other run as it is. */
  function SegmentToken(rules: seq<Rule>, wordChar: char -> bool, t: Runs.Run): (u: Runs.Run)
    requires !wordChar('\n')
    requires Runs.Homogeneous(WordClass(wordChar), t)
    ensures u.inClass == t.inClass
    ensures t.inClass ==> u.text == SegmentWord(rules, t.text)
    ensures !t.inClass ==> u == t
  {
    WordTokenIffWordRun(wordChar, t);
    if IsWordToken(wordChar, t.text) then Runs.Run(true, SegmentWord(rules, t.text)) else t
  }

  /** The loop of lines 113-118, run by run, in order. */
  function SegmentTokens(rules: seq<Rule>, wordChar: char -> bool, ts: seq<Runs.Run>): (us: seq<Runs.Run>)
    requires !wordChar('\n')
    requires forall i :: 0 <= i < |ts| ==> Runs.Homogeneous(WordClass(wordChar), ts[i])
    ensures |us| == |ts|
    ensures forall i :: 0 <= i < |ts| ==> us[i] == SegmentToken(rules, wordChar, ts[i])
  {
    if |ts| == 0 then [] else [SegmentToken(rules, wordChar, ts[0])] + SegmentTokens(rules, wordChar, ts[1..])
  }

  /** Number of word runs that `segment_word` changes. */
  function MarkedCount(rules: seq<Rule>, ts: seq<Runs.Run>): nat
    requires forall i :: 0 <= i < |ts| ==> ts[i].inClass ==> '\n' !in ts[i].text
  {
    if |ts| == 0 then 0
    else (if ts[0].inClass && SegmentWord(rules, ts[0].text) != ts[0].text then 1 else 0)
         + MarkedCount(rules, ts[1..])
  }

  /** `segment_text(text)`: every run of the tokenizer, each word run
      segmented, joined back together. Segmenting only inserts markers, so
      the output is never shorter than the input. */
  function SegmentText(rules: seq<Rule>, wordChar: char -> bool, text: string): (r: string)
    requires !wordChar('\n')
    ensures |r| >= |text|
  {
    var ts := Tokenize(wordChar, text);
    SegmentedLength(rules, wordChar, ts);
    assert |Marker| == 5;
    Runs.Concat(SegmentTokens(rules, wordChar, ts))
  }

  /** The output of `segment_text` is the input plus one marker for every
      word run that a rule splits. */
  lemma SegmentTextLength(rules: seq<Rule>, wordChar: char -> bool, text: string)
    requires !wordChar('\n')
    ensures NoNewlineInWords(wordChar, Tokenize(wordChar, text))
    ensures |SegmentText(rules, wordChar, text)|
            == |text| + |Marker| * MarkedCount(rules, Tokenize(wordChar, text))
  {
    SegmentedLength(rules, wordChar, Tokenize(wordChar, text));
  }

  predicate NoNewlineInWords(wordChar: char -> bool, ts: seq<Runs.Run>)
  {
    forall i :: 0 <= i < |ts| ==> ts[i].inClass ==> '\n' !in ts[i].text
  }

  lemma WordRunsHaveNoNewline(wordChar: char -> bool, ts: seq<Runs.Run>)
    requires !wordChar('\n')
    requires forall i :: 0 <= i < |ts| ==> Runs.Homogeneous(WordClass(wordChar), ts[i])
    ensures NoNewlineInWords(wordChar, ts)
  {
    forall i | 0 <= i < |ts| ensures ts[i].inClass ==> '\n' !in ts[i].text {
      WordTokenIffWordRun(wordChar, ts[i]);
    }
  }

  lemma {:induction false} SegmentedLength(rules: seq<Rule>, wordChar: char -> bool, ts: seq<Runs.Run>)
    requires !wordChar('\n')
    requires forall i :: 0 <= i < |ts| ==> Runs.Homogeneous(WordClass(wordChar), ts[i])
    ensures NoNewlineInWords(wordChar, ts)
    ensures |Runs.Concat(SegmentTokens(rules, wordChar, ts))|
            == |Runs.Concat(ts)| + |Marker| * MarkedCount(rules, ts)
  {
    WordRunsHaveNoNewline(wordChar, ts);
    if |ts| > 0 {
      SegmentedLength(rules, wordChar, ts[1..]);
      var us := SegmentTokens(rules, wordChar, ts);
      assert us[1..] == SegmentTokens(rules, wordChar, ts[1..]);
      ConcatLength(us);
      ConcatLength(ts);
      SegmentTokenLength(rules, wordChar, ts[0]);
      var m := MarkedCount(rules, ts[1..]);
      var d := if ts[0].inClass && SegmentWord(rules, ts[0].text) != ts[0].text then 1 else 0;
      assert MarkedCount(rules, ts) == d + m;
      assert |Marker| * (d + m) == |Marker| * d + |Marker| * m;
    }
  }

  /** The joined length is the first run's length plus the rest's. */
  lemma ConcatLength(ts: seq<Runs.Run>)
    requires |ts| > 0
    ensures |Runs.Concat(ts)| == |ts[0].text| + |Runs.Concat(ts[1..])|
  {
  }

  /** One run grows by a marker exactly when `segment_word` changes it. */
  lemma SegmentTokenLength(rules: seq<Rule>, wordChar: char -> bool, t: Runs.Run)
    requires !wordChar('\n')
    requires Runs.Homogeneous(WordClass(wordChar), t)
    ensures t.inClass ==> '\n' !in t.text
    ensures |SegmentToken(rules, wordChar, t).text| == |t.text|
      + |Marker| * (if t.inClass && SegmentWord(rules, t.text) != t.text then 1 else 0)
  {
    WordTokenIffWordRun(wordChar, t);
  }

  /** Python's `\w` holds of every character of the marker. */
  predicate MarkerIsWord(wordChar: char -> bool)
  {
    forall k :: 0 <= k < |Marker| ==> wordChar(Marker[k])
  }

  /** A segmented word run is still a run of word characters. */
  lemma SegmentTokenHomogeneous(rules: seq<Rule>, wordChar: char -> bool, t: Runs.Run)
    requires !wordChar('\n') && MarkerIsWord(wordChar)
    requires Runs.Homogeneous(WordClass(wordChar), t)
    ensures Runs.Homogeneous(WordClass(wordChar), SegmentToken(rules, wordChar, t))
  {
    if t.inClass {
      WordTokenIffWordRun(wordChar, t);
      var cls := WordClass(wordChar);
      var r := SegmentWord(rules, t.text);
      SegmentWordChars(rules, t.text);
      forall k | 0 <= k < |r| ensures cls(r[k]) {
        if r[k] in Marker {
          var m :| 0 <= m < |Marker| && Marker[m] == r[k];
        } else {
          var m :| 0 <= m < |t.text| && t.text[m] == r[k];
        }
      }
    }
  }

  lemma SegmentTokensWellFormed(rules: seq<Rule>, wordChar: char -> bool, ts: seq<Runs.Run>)
    requires !wordChar('\n') && MarkerIsWord(wordChar)
    requires Runs.WellFormed(WordClass(wordChar), ts)
    ensures Runs.WellFormed(WordClass(wordChar), SegmentTokens(rules, wordChar, ts))
  {
    var us := SegmentTokens(rules, wordChar, ts);
    forall i | 0 <= i < |us| ensures Runs.Homogeneous(WordClass(wordChar), us[i]) {
      SegmentTokenHomogeneous(rules, wordChar, ts[i]);
    }
  }

  /** Tokenizing the output gives back the input's runs, each word run
      segmented: no run is merged with a neighbour or split apart, and the
      output has as many word runs as the input. */
  lemma RetokenizeSegmented(rules: seq<Rule>, wordChar: char -> bool, text: string)
    requires !wordChar('\n') && MarkerIsWord(wordChar)
    ensures Tokenize(wordChar, SegmentText(rules, wordChar, text))
            == SegmentTokens(rules, wordChar, Tokenize(wordChar, text))
  {
    var ts := Tokenize(wordChar, text);
    var us := SegmentTokens(rules, wordChar, ts);
    SegmentTokensWellFormed(rules, wordChar, ts);
    Runs.SplitUnique(WordClass(wordChar), Runs.Concat(us), us);
  }

  /** Deletes the last marker of every word run. */
  function UnmarkTokens(ts: seq<Runs.Run>): (us: seq<Runs.Run>)
    ensures |us| == |ts|
    ensures forall i :: 0 <= i < |ts| ==>
              us[i] == if ts[i].inClass then Runs.Run(true, Unmark(ts[i].text)) else ts[i]
  {
    if |ts| == 0 then [] else
      [if ts[0].inClass then Runs.Run(true, Unmark(ts[0].text)) else ts[0]] + UnmarkTokens(ts[1..])
  }

  /** The inverse of `segment_text`: tokenize, delete the last marker of each
      word run, join. */
  function Unsegment(wordChar: char -> bool, s: string): string
  {
    Runs.Concat(UnmarkTokens(Tokenize(wordChar, s)))
  }

  /** `segment_text` loses nothing: on a line that does not already hold the
      marker, deleting the inserted markers gives the line back. */
  lemma UnsegmentSegmentText(rules: seq<Rule>, wordChar: char -> bool, text: string)
    requires WellFormedTable(rules)
    requires !wordChar('\n') && MarkerIsWord(wordChar)
    requires !Contains(text, Marker)
    ensures Unsegment(wordChar, SegmentText(rules, wordChar, text)) == text
  {
    var ts := Tokenize(wordChar, text);
    var us := SegmentTokens(rules, wordChar, ts);
    RetokenizeSegmented(rules, wordChar, text);
    WordRunsHaveNoNewline(wordChar, ts);
    var vs := UnmarkTokens(us);
    forall i | 0 <= i < |ts| ensures vs[i] == ts[i] {
      if ts[i].inClass {
        RunTextInConcat(ts, i, Marker);
        UnmarkSegmentWord(rules, ts[i].text);
      }
    }
    assert vs == ts;
  }

  /** A pattern inside one run is inside the joined text. */
  lemma {:induction false} RunTextInConcat(ts: seq<Runs.Run>, i: nat, pat: string)
    requires i < |ts|
    ensures Contains(ts[i].text, pat) ==> Contains(Runs.Concat(ts), pat)
  {
    assert Runs.Concat(ts) == ts[0].text + Runs.Concat(ts[1..]);
    ContainsInAppend(ts[0].text, Runs.Concat(ts[1..]), pat);
    if i > 0 {
      RunTextInConcat(ts[1..], i - 1, pat);
    }
  }

  /** കുട്ടികൾ. keeps its full stop, and the marker goes inside the word
      run only: the output is കുട്ടി_SEP_കൾ. */
  lemma SegmentTextExample(wordChar: char -> bool)
    requires !wordChar('\n') && !wordChar('.')
    ensures SegmentText(MorphRules, wordChar, "കുട്ടി" + "കൾ" + ".")
            == "കുട്ടി" + Marker + "കൾ" + "."
  {
    var ts := ExampleTokens(wordChar);
    SegmentPluralExample();
    var us := SegmentTokens(MorphRules, wordChar, ts);
    assert us[0] == Runs.Run(true, "കുട്ടി" + Marker + "കൾ");
    assert us[1] == Runs.Run(false, ".");
    ConcatOfTwo(us);
  }

  lemma ConcatOfTwo(rs: seq<Runs.Run>)
    requires |rs| == 2
    ensures Runs.Concat(rs) == rs[0].text + rs[1].text
  {
    assert Runs.Concat(rs[2..]) == "";
  }

  /** The tokenizer cuts കുട്ടികൾ. into the word and the full stop. */
  lemma ExampleTokens(wordChar: char -> bool) returns (ts: seq<Runs.Run>)
    requires !wordChar('.')
    ensures ts == [Runs.Run(true, "കുട്ടി" + "കൾ"), Runs.Run(false, ".")]
    ensures Tokenize(wordChar, "കുട്ടി" + "കൾ" + ".") == ts
  {
    var w := "കുട്ടി" + "കൾ";
    ts := [Runs.Run(true, w), Runs.Run(false, ".")];
    var cls := WordClass(wordChar);
    ConcatOfTwo(ts);
    assert forall k :: 0 <= k < |w| ==> IsMalayalam(w[k]);
    assert Runs.Homogeneous(cls, ts[0]);
    assert Runs.Homogeneous(cls, ts[1]);
    Runs.SplitUnique(cls, w + ".", ts);
  }
}
