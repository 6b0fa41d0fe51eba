/**
 The line filter of `prepare_raw_corpus` (baseline_tokenizer_training.py):
 strip each line and keep it when it is long enough, Malayalam enough and
 has a sentence-like number of words. File handling and progress printing
 are left out.
 */
module RawCorpus {
  import opened Script
  import PyText
  import Seqs
  import CorpusProcessor

  /** The tests of lines 42, 47 and 52 on a stripped line, with
      `len(line) * 0.4` compared exactly as `4 * len(line) / 10`. */
  predicate Keep(line: string)
  {
    var words := PyText.SplitWords(line);
    && !(|line| == 0 || |line| < 10)
    && !(10 * MalayalamCount(line) < 4 * |line|)
    && !(|words| < 3 || |words| > 100)
  }

  /** The counters and the written lines of `prepare_raw_corpus`. */
  datatype Prepared = Prepared(count: nat, kept: nat, written: seq<string>)

  /** The loop of lines 37-56: every line is counted; a line is written,
      stripped and with '\n', exactly when it passes, and only then is
      `kept` raised. */
  function Prepare(lines: seq<string>): (res: Prepared)
    ensures res.count == |lines|
    ensures res.kept == |res.written| <= res.count
    ensures res.written == Seqs.Map(WithNewline, Seqs.Filter(Keep, Seqs.Map(PyText.Strip, lines)))
  {
    if |lines| == 0 then Prepared(0, 0, [])
    else
      var init := lines[..|lines| - 1];
      var acc := Prepare(init);
      var line := PyText.Strip(lines[|lines| - 1]);
      Seqs.FilterMapLast(Keep, PyText.Strip, lines);
      var kept := Seqs.Filter(Keep, Seqs.Map(PyText.Strip, init));
      Seqs.MapAppend(WithNewline, kept, if Keep(line) then [line] else []);
      if !Keep(line) then acc.(count := acc.count + 1)
      else Prepared(acc.count + 1, acc.kept + 1, acc.written + [line + "\n"])
  }

  function WithNewline(line: string): string
  {
    line + "\n"
  }

  /** The written lines are stripped input lines, in input order, and a
      stripped input line is among them exactly when it passes. */
  lemma PreparedInOrder(lines: seq<string>, line: string)
    ensures Seqs.IsSubsequence(Seqs.Filter(Keep, Seqs.Map(PyText.Strip, lines)), Seqs.Map(PyText.Strip, lines))
    ensures line in Seqs.Filter(Keep, Seqs.Map(PyText.Strip, lines))
            <==> line in Seqs.Map(PyText.Strip, lines) && Keep(line)
  {
    Seqs.FilterIsSubsequence(Keep, Seqs.Map(PyText.Strip, lines));
    Seqs.FilterKeeps(Keep, Seqs.Map(PyText.Strip, lines), line);
  }

  /** A line this filter keeps also passes the corpus processor's filter:
      the same length test, and a 40% Malayalam share is above 30%. */
  lemma KeepImpliesProcessorKeep(line: string)
    ensures Keep(line) ==> CorpusProcessor.Keep(line)
  {
  }

  /** The converse fails: this line passes the corpus processor's filter but
      is one word, not three. */
  lemma ProcessorKeepIsWeaker()
    ensures CorpusProcessor.Keep("കകകകകകകകകക") && !Keep("കകകകകകകകകക")
  {
    var line := "കകകകകകകകകക";
    assert forall k :: 0 <= k < |line| ==> IsMalayalam(line[k]);
    assert forall k :: 0 <= k < |line| ==> PyText.NotSpace(line[k]);
    PyText.SingleWord(line);
  }

  /** The retention percentage of line 61, which divides by `count`. */
  function RetentionPercent(kept: nat, count: nat): (pct: real)
    requires count > 0
    ensures kept <= count ==> 0.0 <= pct <= 100.0
    ensures pct * count as real == 100.0 * kept as real
  {
    CorpusProcessor.KeptPercent(kept, count)
  }
}
