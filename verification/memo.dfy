/**
 `MalayalamMorphologicalSegmenter` as a value: the rules compiled once in
 `__init__`, and the `lru_cache` of `segment_word` as a map from word to
 result. The mlmorph analyser is left out: its result is discarded and its
 exceptions are swallowed, so it cannot change any output.
 */
module Memo {
  import opened Rules
  import opened Segmenter
  import TextSegmenter
  import Runs

  /** A segmenter instance: its rules, in order, and its cache. */
  datatype Engine = Engine(rules: seq<Rule>, cache: map<string, string>)

  /** Every cached result equals a fresh computation with the engine's rules. */
  predicate Valid(e: Engine)
  {
    forall w :: w in e.cache ==> '\n' !in w && e.cache[w] == SegmentWord(e.rules, w)
  }

  /** `__init__`: the rules of `MORPH_RULES` and an empty cache. */
  function NewEngine(): (e: Engine)
    ensures e.rules == MorphRules
    ensures Valid(e) && |e.cache| == 0
    ensures WellFormedTable(e.rules) && |e.rules| == 47
  {
    MorphRulesWellFormed();
    Engine(MorphRules, map[])
  }

  /** The cached `segment_word`: the same result as a fresh computation; the
      word is cached afterwards and the rules never change. */
  function CachedSegmentWord(e: Engine, word: string): (res: (string, Engine))
    requires Valid(e) && '\n' !in word
    ensures res.0 == SegmentWord(e.rules, word)
    ensures Valid(res.1) && res.1.rules == e.rules
    ensures res.1.cache.Keys == e.cache.Keys + {word}
  {
    if word in e.cache then (e.cache[word], e)
    else
      var r := SegmentWord(e.rules, word);
      (r, e.(cache := e.cache[word := r]))
  }

  /** Eviction drops entries and nothing else, so the cache stays valid. */
  function Evict(e: Engine, victims: set<string>): (e': Engine)
    requires Valid(e)
    ensures Valid(e') && e'.rules == e.rules
    ensures e'.cache.Keys == e.cache.Keys - victims
  {
    e.(cache := e.cache - victims)
  }

  /** Two calls for the same word agree, whatever was evicted in between. */
  lemma CacheTransparent(e: Engine, word: string, victims: set<string>)
    requires Valid(e) && '\n' !in word
    ensures CachedSegmentWord(Evict(CachedSegmentWord(e, word).1, victims), word).0
            == CachedSegmentWord(e, word).0
  {
  }

  /** The runs of `segment_text`, segmented through the cache. */
  function CachedSegmentTokens(e: Engine, wordChar: char -> bool, ts: seq<Runs.Run>): (res: (string, Engine))
    requires Valid(e) && !wordChar('\n')
    requires forall i :: 0 <= i < |ts| ==> Runs.Homogeneous(TextSegmenter.WordClass(wordChar), ts[i])
    decreases |ts|
    ensures res.0 == Runs.Concat(TextSegmenter.SegmentTokens(e.rules, wordChar, ts))
    ensures Valid(res.1) && res.1.rules == e.rules
  {
    if |ts| == 0 then ("", e)
    else
      var t := ts[0];
      TextSegmenter.WordTokenIffWordRun(wordChar, t);
      var (head, e1) := if t.inClass then CachedSegmentWord(e, t.text) else (t.text, e);
      var (tail, e2) := CachedSegmentTokens(e1, wordChar, ts[1..]);
      var us := TextSegmenter.SegmentTokens(e.rules, wordChar, ts);
      assert us[1..] == TextSegmenter.SegmentTokens(e.rules, wordChar, ts[1..]);
      (head + tail, e2)
  }

  /** `segment_text` on an engine with a cache: the same text as without. */
  function CachedSegmentText(e: Engine, wordChar: char -> bool, text: string): (res: (string, Engine))
    requires Valid(e) && !wordChar('\n')
    ensures res.0 == TextSegmenter.SegmentText(e.rules, wordChar, text)
    ensures Valid(res.1) && res.1.rules == e.rules
  {
    CachedSegmentTokens(e, wordChar, TextSegmenter.Tokenize(wordChar, text))
  }
}
