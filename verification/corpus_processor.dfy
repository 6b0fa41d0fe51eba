/**
 The line loop of `process_corpus` (enhanced_corpus_processor.py) as a fold
 over the lines of the input file: strip, filter on length and Malayalam
 share, write `segment_text(line)`, and keep the statistics. File handling,
 progress printing and the per-line `try/except` are left out: in the model
 no step can fail.
 */
module CorpusProcessor {
  import opened Options
  import opened Strings
  import opened Script
  import opened Rules
  import PyText
  import Runs
  import Seqs
  import TextSegmenter

  /** The counters of `process_corpus`; `morphemes` is the `Counter`. */
  datatype Stats = Stats(
    totalLines: nat,
    processedLines: nat,
    totalWords: nat,
    segmentedWords: nat,
    morphemes: map<string, nat>)

  /** The statistics and the lines written to the output file, each with its
      '\n'. */
  datatype Outcome = Outcome(stats: Stats, written: seq<string>)

  /** The tests of lines 33 and 38 on a stripped line, with `len(line) * 0.3`
      compared exactly as `3 * len(line) / 10`. */
  predicate Keep(line: string)
  {
    && !(|line| == 0 || |line| < 10)
    && !(10 * MalayalamCount(line) < 3 * |line|)
  }

  /** `re.findall(r'\w*_SEP_\w*', seg_line)`. The marker's characters are
      all `\w`, so the leftmost match starting in a maximal `\w` run extends
      to both ends of that run; the matches are therefore exactly the maximal
      `\w` runs that contain the marker. */
  function MarkedTokens(wordChar: char -> bool, segLine: string): (toks: seq<string>)
    requires TextSegmenter.MarkerIsWord(wordChar)
    ensures forall k :: 0 <= k < |toks| ==> Contains(toks[k], Marker)
  {
    Seqs.Filter(MarkerIn, Runs.InClassTexts(Runs.Split(wordChar, segLine)))
  }

  /** The tokens are, in order, the `\w` runs holding the marker of ANY
      decomposition of the line into maximal alternating `\w` and non-`\w`
      runs, so they are determined by the line alone; a word run is found
      exactly when it holds the marker. */
  lemma MarkedTokensOfRuns(wordChar: char -> bool, segLine: string, rs: seq<Runs.Run>, tok: string)
    requires TextSegmenter.MarkerIsWord(wordChar)
    requires Runs.WellFormed(wordChar, rs) && Runs.Concat(rs) == segLine
    ensures MarkedTokens(wordChar, segLine) == Seqs.Filter(MarkerIn, Runs.InClassTexts(rs))
    ensures tok in MarkedTokens(wordChar, segLine) <==> tok in Runs.InClassTexts(rs) && Contains(tok, Marker)
  {
    Runs.SplitUnique(wordChar, segLine, rs);
    Seqs.FilterKeeps(MarkerIn, Runs.InClassTexts(rs), tok);
  }

  predicate MarkerIn(tok: string)
  {
    Contains(tok, Marker)
  }

  /** The key lines 54-57 tally for one matched token: the part after the
      marker, when `tok.split('_SEP_')` has exactly two parts. */
  function MorphemeKey(tok: string): (r: Option<string>)
    ensures r.Some? <==> OneOccurrence(tok, Marker)
    ensures r.Some? ==> FindFrom(tok, Marker, 0) == Some(|tok| - |r.value| - |Marker|)
    ensures r.Some? ==> EndsWith(tok, r.value) && !Contains(r.value, Marker)
  {
    SplitTwoParts(tok, Marker);
    FoundIffContains(tok, Marker);
    if Contains(tok, Marker) then
      var parts := Split(tok, Marker);
      if |parts| == 2 then Some(parts[1]) else None
    else
      None
  }

  /** `counter[k]`, which is 0 for a missing key. */
  function Get(m: map<string, nat>, k: string): nat
  {
    if k in m then m[k] else 0
  }

  /** Number of tokens whose key is `k`. */
  function KeyCount(toks: seq<string>, k: string): nat
  {
    if |toks| == 0 then 0
    else (if MorphemeKey(toks[0]) == Some(k) then 1 else 0) + KeyCount(toks[1..], k)
  }

  /** The tally loop of lines 53-57: every key gains one for each token that
      has it as its morpheme key, and no other key changes. */
  function Tally(m: map<string, nat>, toks: seq<string>): (r: map<string, nat>)
    decreases |toks|
    ensures forall k :: Get(r, k) == Get(m, k) + KeyCount(toks, k)
    ensures forall k :: k in r <==> k in m || KeyCount(toks, k) > 0
  {
    if |toks| == 0 then m else Tally(Bump(m, toks[0]), toks[1..])
  }

  /** Line 57 for one token: its key, if it has one, gains one. */
  function Bump(m: map<string, nat>, tok: string): map<string, nat>
  {
    match MorphemeKey(tok)
    case None => m
    case Some(k) => m[k := Get(m, k) + 1]
  }

  /** Tallying two token lists in turn is tallying their concatenation. */
  lemma {:induction false} TallyAppend(m: map<string, nat>, a: seq<string>, b: seq<string>)
    ensures Tally(Tally(m, a), b) == Tally(m, a + b)
    decreases |a|
  {
    if |a| > 0 {
      var m1 := Bump(m, a[0]);
      var ab := a + b;
      assert ab[0] == a[0] && ab[1..] == a[1..] + b;
      assert Tally(m, ab) == Tally(m1, a[1..] + b);
      TallyAppend(m1, a[1..], b);
    } else {
      assert a + b == b;
      assert Tally(m, a) == m;
    }
  }

  /** The tokens line 47 finds in the segmented form of one kept line. */
  function LineMarks(rules: seq<Rule>, wordChar: char -> bool, line: string): seq<string>
    requires !wordChar('\n') && TextSegmenter.MarkerIsWord(wordChar)
  {
    MarkedTokens(wordChar, TextSegmenter.SegmentText(rules, wordChar, line))
  }

  /** The tokens found over all the given lines, in order. */
  function AllMarks(rules: seq<Rule>, wordChar: char -> bool, lines: seq<string>): seq<string>
    requires !wordChar('\n') && TextSegmenter.MarkerIsWord(wordChar)
  {
    if |lines| == 0 then []
    else AllMarks(rules, wordChar, lines[..|lines| - 1]) + LineMarks(rules, wordChar, lines[|lines| - 1])
  }

  /** One iteration of the loop of lines 28-68. */
  function Step(rules: seq<Rule>, wordChar: char -> bool, acc: Outcome, raw: string): (next: Outcome)
    requires !wordChar('\n') && TextSegmenter.MarkerIsWord(wordChar)
    ensures next.stats.totalLines == acc.stats.totalLines + 1
    ensures var kept := if Keep(PyText.Strip(raw)) then 1 else 0;
            && next.stats.processedLines == acc.stats.processedLines + kept
            && |next.written| == |acc.written| + kept
  {
    var st := acc.stats.(totalLines := acc.stats.totalLines + 1);
    var line := PyText.Strip(raw);
    if !Keep(line) then acc.(stats := st)
    else
      var segLine := TextSegmenter.SegmentText(rules, wordChar, line);
      var words := Runs.CountInClass(TextSegmenter.Tokenize(wordChar, line));
      var segs := LineMarks(rules, wordChar, line);
      Outcome(
        st.(totalWords := st.totalWords + words,
            segmentedWords := st.segmentedWords + |segs|,
            morphemes := Tally(st.morphemes, segs),
            processedLines := st.processedLines + 1),
        acc.written + [OutputLine(rules, wordChar, line)])
  }

  /** The lines that pass the filter, stripped, in input order. */
  function KeptLines(lines: seq<string>): seq<string>
  {
    Seqs.Filter(Keep, Seqs.Map(PyText.Strip, lines))
  }

  /** The line written for a kept line (line 59). */
  function OutputLine(rules: seq<Rule>, wordChar: char -> bool, line: string): string
    requires !wordChar('\n')
  {
    TextSegmenter.SegmentText(rules, wordChar, line) + "\n"
  }

  /** What the loop writes for the kept lines: each line segmented, then
      '\n', in order. */
  function Rendered(rules: seq<Rule>, wordChar: char -> bool, kept: seq<string>): (out: seq<string>)
    requires !wordChar('\n')
    ensures |out| == |kept|
  {
    if |kept| == 0 then []
    else Rendered(rules, wordChar, kept[..|kept| - 1]) + [OutputLine(rules, wordChar, kept[|kept| - 1])]
  }

  /** Line `i` of the output is kept line `i`, segmented, with its '\n'. */
  lemma {:induction false} RenderedLine(rules: seq<Rule>, wordChar: char -> bool, kept: seq<string>, i: nat)
    requires !wordChar('\n') && i < |kept|
    ensures Rendered(rules, wordChar, kept)[i] == OutputLine(rules, wordChar, kept[i])
  {
    if i < |kept| - 1 {
      RenderedLine(rules, wordChar, kept[..|kept| - 1], i);
    }
  }

  /** Word runs of a line, by the tokenizer's own character class. */
  function WordsIn(wordChar: char -> bool, line: string): nat
  {
    Runs.CountInClass(TextSegmenter.Tokenize(wordChar, line))
  }

  function SumWords(wordChar: char -> bool, lines: seq<string>): nat
  {
    if |lines| == 0 then 0 else SumWords(wordChar, lines[..|lines| - 1]) + WordsIn(wordChar, lines[|lines| - 1])
  }

  /** The whole loop over the input lines. Every line is counted, and a line
      is counted as processed exactly when it is written. */
  function Process(rules: seq<Rule>, wordChar: char -> bool, lines: seq<string>): (res: Outcome)
    requires !wordChar('\n') && TextSegmenter.MarkerIsWord(wordChar)
    ensures res.stats.totalLines == |lines|
    ensures res.stats.processedLines == |res.written| <= res.stats.totalLines
  {
    if |lines| == 0 then Outcome(Stats(0, 0, 0, 0, map[]), [])
    else Step(rules, wordChar, Process(rules, wordChar, lines[..|lines| - 1]), lines[|lines| - 1])
  }

  lemma KeptLinesStep(lines: seq<string>)
    requires |lines| > 0
    ensures KeptLines(lines) == KeptLines(lines[..|lines| - 1])
              + (var l := PyText.Strip(lines[|lines| - 1]); if Keep(l) then [l] else [])
  {
    Seqs.FilterMapLast(Keep, PyText.Strip, lines);
  }

  /** One step writes and counts the stripped line exactly when it is kept. */
  lemma StepEffect(rules: seq<Rule>, wordChar: char -> bool, acc: Outcome, raw: string)
    requires !wordChar('\n') && TextSegmenter.MarkerIsWord(wordChar)
    ensures var next := Step(rules, wordChar, acc, raw);
            var line := PyText.Strip(raw);
            if Keep(line) then
              next.written == acc.written + [OutputLine(rules, wordChar, line)]
              && next.stats.totalWords == acc.stats.totalWords + WordsIn(wordChar, line)
            else
              next.written == acc.written && next.stats.totalWords == acc.stats.totalWords
  {
  }

  /** One step adds the kept line's marked tokens to `segmented_words` and
      tallies their keys; a skipped line changes neither. */
  lemma StepTallies(rules: seq<Rule>, wordChar: char -> bool, acc: Outcome, raw: string)
    requires !wordChar('\n') && TextSegmenter.MarkerIsWord(wordChar)
    ensures var next := Step(rules, wordChar, acc, raw);
            var line := PyText.Strip(raw);
            if Keep(line) then
              next.stats.segmentedWords == acc.stats.segmentedWords + |LineMarks(rules, wordChar, line)|
              && next.stats.morphemes == Tally(acc.stats.morphemes, LineMarks(rules, wordChar, line))
            else
              next.stats.segmentedWords == acc.stats.segmentedWords
              && next.stats.morphemes == acc.stats.morphemes
  {
  }

  /** Unfolding `AllMarks` at the last kept line. */
  lemma KeptMarksLast(rules: seq<Rule>, wordChar: char -> bool, lines: seq<string>)
    requires !wordChar('\n') && TextSegmenter.MarkerIsWord(wordChar) && |lines| > 0
    ensures var init := lines[..|lines| - 1];
            var line := PyText.Strip(lines[|lines| - 1]);
            if Keep(line) then
              AllMarks(rules, wordChar, KeptLines(lines))
                == AllMarks(rules, wordChar, KeptLines(init)) + LineMarks(rules, wordChar, line)
            else
              KeptLines(lines) == KeptLines(init)
  {
    KeptLinesStep(lines);
    var k := KeptLines(lines);
    if Keep(PyText.Strip(lines[|lines| - 1])) {
      assert k[..|k| - 1] == KeptLines(lines[..|lines| - 1]);
    }
  }

  /** Unfolding `Rendered` and `SumWords` at the last kept line. */
  lemma KeptLinesLast(rules: seq<Rule>, wordChar: char -> bool, lines: seq<string>)
    requires !wordChar('\n') && |lines| > 0
    ensures var init := lines[..|lines| - 1];
            var line := PyText.Strip(lines[|lines| - 1]);
            if Keep(line) then
              Rendered(rules, wordChar, KeptLines(lines))
                == Rendered(rules, wordChar, KeptLines(init)) + [OutputLine(rules, wordChar, line)]
              && SumWords(wordChar, KeptLines(lines)) == SumWords(wordChar, KeptLines(init)) + WordsIn(wordChar, line)
            else
              KeptLines(lines) == KeptLines(init)
  {
    KeptLinesStep(lines);
    var k := KeptLines(lines);
    if Keep(PyText.Strip(lines[|lines| - 1])) {
      assert k[..|k| - 1] == KeptLines(lines[..|lines| - 1]);
    }
  }

  /** Exactly the kept lines are written, stripped, as `segment_text(line)`
      plus '\n', in input order. */
  lemma {:induction false} ProcessWritesKeptLines(rules: seq<Rule>, wordChar: char -> bool, lines: seq<string>)
    requires !wordChar('\n') && TextSegmenter.MarkerIsWord(wordChar)
    ensures Process(rules, wordChar, lines).written == Rendered(rules, wordChar, KeptLines(lines))
  {
    if |lines| > 0 {
      var init := lines[..|lines| - 1];
      ProcessWritesKeptLines(rules, wordChar, init);
      StepEffect(rules, wordChar, Process(rules, wordChar, init), lines[|lines| - 1]);
      KeptLinesLast(rules, wordChar, lines);
    }
  }

  /** `total_words` counts the word runs of the kept lines, with the
      tokenizer's character class. */
  lemma {:induction false} ProcessCountsWords(rules: seq<Rule>, wordChar: char -> bool, lines: seq<string>)
    requires !wordChar('\n') && TextSegmenter.MarkerIsWord(wordChar)
    ensures Process(rules, wordChar, lines).stats.totalWords == SumWords(wordChar, KeptLines(lines))
  {
    if |lines| > 0 {
      var init := lines[..|lines| - 1];
      ProcessCountsWords(rules, wordChar, init);
      StepEffect(rules, wordChar, Process(rules, wordChar, init), lines[|lines| - 1]);
      KeptLinesLast(rules, wordChar, lines);
    }
  }

  /** `segmented_words` is the number of tokens line 47 finds over the
      segmented kept lines, and the morpheme `Counter` is the tally of all of
      them, in order: nothing is counted for a skipped line. */
  lemma {:induction false} ProcessCountsMarks(rules: seq<Rule>, wordChar: char -> bool, lines: seq<string>)
    requires !wordChar('\n') && TextSegmenter.MarkerIsWord(wordChar)
    ensures Process(rules, wordChar, lines).stats.segmentedWords == |AllMarks(rules, wordChar, KeptLines(lines))|
    ensures Process(rules, wordChar, lines).stats.morphemes == Tally(map[], AllMarks(rules, wordChar, KeptLines(lines)))
  {
    if |lines| > 0 {
      var init := lines[..|lines| - 1];
      ProcessCountsMarks(rules, wordChar, init);
      StepTallies(rules, wordChar, Process(rules, wordChar, init), lines[|lines| - 1]);
      KeptMarksLast(rules, wordChar, lines);
      var line := PyText.Strip(lines[|lines| - 1]);
      if Keep(line) {
        TallyAppend(map[], AllMarks(rules, wordChar, KeptLines(init)), LineMarks(rules, wordChar, line));
      }
    }
  }

  /** The written lines come from the input, in its order. */
  lemma WrittenInOrder(lines: seq<string>)
    ensures Seqs.IsSubsequence(KeptLines(lines), Seqs.Map(PyText.Strip, lines))
  {
    Seqs.FilterIsSubsequence(Keep, Seqs.Map(PyText.Strip, lines));
  }

  /** `seg_rate`: 0 when no word was seen, otherwise the percentage of
      words marked; never a division by zero. */
  function SegRate(segmentedWords: nat, totalWords: nat): (rate: real)
    ensures totalWords == 0 ==> rate == 0.0
    ensures totalWords > 0 ==> rate * totalWords as real == 100.0 * segmentedWords as real
  {
    if totalWords > 0 then segmentedWords as real / totalWords as real * 100.0 else 0.0
  }

  /** The kept percentage of line 73, which divides by `total_lines`. */
  function KeptPercent(processedLines: nat, totalLines: nat): (pct: real)
    requires totalLines > 0
    ensures processedLines <= totalLines ==> 0.0 <= pct <= 100.0
    ensures pct * totalLines as real == 100.0 * processedLines as real
  {
    processedLines as real / totalLines as real * 100.0
  }
}
