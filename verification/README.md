# Malayalam morpheme-boundary segmenter, modelled in Dafny

This project models the suffix-segmentation engine that prepares Malayalam
text for subword-tokenizer training. The engine inserts the literal marker
`_SEP_` between a word's stem and a trailing grammatical suffix. It also models
the two line filters that feed it.

- **Rule table** (`rules.dfy`). The 47 rules of `MORPH_RULES`, in
  declaration order. Each source rule `(.{N,})S$ -> \1_SEP_S` becomes a record
  `Rule(minStem := N, suffix := S)`. The table is split into the source's five
  comment groups.
- **`segment_word`** (`segmenter.dfy`). A word is returned unchanged if it
  has at most two code points or no character in U+0D00–U+0D7F. Otherwise the
  first rule whose suffix ends the word, behind a stem of at least `minStem`
  code points, rewrites it to `stem + "_SEP_" + suffix`. Later rules are not
  tried. The source's loop is also modelled, as `SegmentWordScan`, and shown to
  agree.
- **`segment_text`** (`text_segmenter.dfy`, `runs.dfy`). A line is split into
  maximal runs of word characters (the Malayalam block, or Python's `\w`) and
  runs of everything else. Each word run is segmented, every other run is
  copied, and the results are joined in order.
- **The segmenter object** (`memo.dfy`). It holds the rules and the
  `lru_cache` as a map from word to result. Every cached entry equals a fresh
  computation, and eviction keeps that true.
- **`process_corpus`** (`corpus_processor.dfy`). The loop of
  enhanced_corpus_processor.py is a fold over the input lines. Each line is
  stripped, filtered on length and Malayalam share, and written as
  `segment_text(line) + "\n"`. The fold keeps the counters and the morpheme
  `Counter`.
- **`prepare_raw_corpus`** (`raw_corpus.dfy`). The line filter of
  baseline_tokenizer_training.py, also a fold over the lines.
- Helpers: `strings.dfy` (substring search, Python's `str.split(sep)`),
  `pytext.dfy` (Python's white space, `str.strip()`, `str.split()`),
  `script.dfy` (the Malayalam block), `seqs.dfy` (map, filter, subsequence),
  `options.dfy`.

The generic word characters of the code are Python's Unicode-aware `\w`
(enhanced_segmenter.py:109, 115; enhanced_corpus_processor.py:47), not ASCII
letters, digits and underscore. Its extent depends on the interpreter's Unicode
tables, so the model takes it as a parameter, `wordChar: char -> bool`. Where a
fact about it is needed, the member asks for it: '\n' is not `\w`
(`segment_text`, the cache and `process_corpus`), and the characters `_`, `S`, `E` and `P` of
the marker are (`CorpusProcessor.MarkedTokens`, `Step`, `Process` and the
re-tokenizing lemmas).

`segment_word` inserts at most one marker, exactly one when a rule fires,
but its result can hold `_SEP_` more than once. A word may already contain `_SEP_`. A stem that ends in
`_SEP` also creates a second, overlapping occurrence: `x_SEPകൾ` becomes
`x_SEP_SEP_കൾ` (`Segmenter.MarkerCanOverlap`). So the inverse deletes the
*last* marker, which is always the inserted one.

## Model

| member | source | states |
|---|---|---|
| Rules.MorphRulesWellFormed | enhanced_segmenter.py:7-64 | the table has 47 rules; every suffix is non-empty and made of non-ASCII characters, so it shares no character with `_SEP_` |
| Script.ScanMalayalam | enhanced_segmenter.py:81-87 | the early-exit scan finds a character in U+0D00–U+0D7F exactly when the word has one |
| Segmenter.Stem | enhanced_segmenter.py:9 | the captured group `\1` followed by the suffix is the whole word |
| Segmenter.Matches | enhanced_segmenter.py:99 | `pat.match(word)` for `(.{N,})S$` succeeds exactly when the word ends with the suffix S and at least N code points stand before it |
| Segmenter.FirstMatch | enhanced_segmenter.py:98-102 | the rule found matches and no rule before it does; when none is found, no rule from the start index on matches |
| Segmenter.FiringRule | enhanced_segmenter.py:76-102 | a rule fires exactly when the word has more than 2 code points, has a Malayalam character and some rule matches; the one that fires is the lowest-index match |
| Segmenter.SegmentWord | enhanced_segmenter.py:75-104 | short and non-Malayalam words are unchanged; the word changes exactly when a rule fires; a changed word is `stem + _SEP_ + suffix` of the first matching rule, with `stem + suffix` the word and `stem` at least `minStem` long; the length grows by exactly 0 or 5 |
| Segmenter.SegmentWordScan | enhanced_segmenter.py:75-104 | the source's loop over the rules, with its `break` on the first match, returns what `SegmentWord` returns |
| Segmenter.LastMarkerAtStem | enhanced_segmenter.py:101 | in `stem + _SEP_ + suffix` with an ASCII-free suffix, the last marker is the one after the stem |
| Segmenter.UnmarkSegmentWord | enhanced_segmenter.py:97-104 | deleting the last `_SEP_` gives the word back whenever a rule fired, and for every word that did not contain `_SEP_` |
| Segmenter.SegmentWordChars | enhanced_segmenter.py:101 | every character of the result comes from the word or from the marker |
| Segmenter.RulePriority | enhanced_segmenter.py:98-102 | when rules i < j both match, rule j never fires, and on a segmentable word the rule that fires is no later than i |
| Segmenter.ShadowedNeverFires | enhanced_segmenter.py:98-102 | a rule whose suffix ends in an earlier rule's suffix, and whose stem bound reaches that rule's bound, never fires |
| Segmenter.DeadRulesNeverFire | enhanced_segmenter.py:14-50 | none of the rules at lines 16, 21, 24, 26, 27, 39, 42, 45 and 50 fires on any word; each is shadowed by the earlier rule at line 14, 20, 23, 19, 19, 38, 37, 14 or 49 |
| Segmenter.SegmentPluralExample | enhanced_segmenter.py:9 | കുട്ടികൾ becomes കുട്ടി_SEP_കൾ by the plural rule |
| Segmenter.SegmentLocativeExample | enhanced_segmenter.py:14 | കേരളത്തിൽ becomes കേരളത്ത_SEP_ിൽ by the rule at line 14, after the three plural rules fail |
| Segmenter.UnchangedExamples | enhanced_segmenter.py:77-87 | `75000` (no Malayalam) and the two-code-point word കൾ are returned unchanged |
| Segmenter.MarkerCanOverlap | enhanced_segmenter.py:101 | `x_SEPകൾ` becomes `x_SEP_SEP_കൾ`, whose first `_SEP_` is not the inserted one |
| Segmenter.MarkerOverlapUnmark | enhanced_segmenter.py:101 | deleting the last marker of `x_SEP_SEP_കൾ` gives `x_SEPകൾ` back |
| Runs.SpanLen | enhanced_segmenter.py:109 | the length returned is the longest prefix of one class: all characters before it have the class, the next one does not |
| Runs.Split | enhanced_segmenter.py:109-110 | runs are non-empty, each of one class, neighbours differ in class (so each is maximal), and joined in order they give the input back |
| Runs.SplitUnique | enhanced_segmenter.py:109-110 | any decomposition into maximal alternating runs that joins to the text is the one the scan returns |
| Runs.SplitEmpty | enhanced_segmenter.py:110 | the empty text, and only it, has no runs |
| TextSegmenter.Tokenize | enhanced_segmenter.py:109-110 | `findall` with the two complementary classes gives maximal, alternating runs that rebuild the line; an empty line gives no runs |
| TextSegmenter.WordClass | enhanced_segmenter.py:109 | the tokenizer's word class: a character in U+0D00–U+0D7F or a `\w` character |
| TextSegmenter.IsWordToken | enhanced_segmenter.py:115 | the `re.match(...+$)` test: the token is a non-empty run of word-class characters, optionally followed by one final '\n' that `$` accepts |
| TextSegmenter.WordTokenIffWordRun | enhanced_segmenter.py:115 | on the tokenizer's runs, the `re.match` test holds exactly for word runs, and word runs hold no '\n' |
| TextSegmenter.SegmentToken | enhanced_segmenter.py:113-118 | a word run is replaced by `segment_word` of its text; any other run is copied unchanged |
| TextSegmenter.SegmentTokens | enhanced_segmenter.py:113-118 | one output run per input run, in order, each the run as `SegmentToken` writes it |
| TextSegmenter.SegmentText | enhanced_segmenter.py:106-120 | segmenting only inserts, so the output is never shorter than the input |
| TextSegmenter.SegmentTextLength | enhanced_segmenter.py:106-120 | the output is exactly the input's length plus 5 characters per word run that a rule splits |
| TextSegmenter.SegmentedLength | enhanced_segmenter.py:113-120 | the joined output is longer than the joined input by 5 times the number of word runs changed |
| TextSegmenter.RetokenizeSegmented | enhanced_segmenter.py:106-120 | tokenizing the output gives the input's runs, with separators unchanged and each word run segmented |
| TextSegmenter.UnsegmentSegmentText | enhanced_segmenter.py:106-120 | on a line without `_SEP_`, tokenizing the output and deleting the last marker of each word run gives the line back |
| TextSegmenter.SegmentTextExample | enhanced_segmenter.py:113-120 | `കുട്ടികൾ.` becomes `കുട്ടി_SEP_കൾ.`: the full stop is kept and the marker goes only into the word run |
| Memo.NewEngine | enhanced_segmenter.py:67-72 | a new segmenter holds exactly the rules of `MORPH_RULES`, in declaration order (47 of them, all well formed), and an empty, valid cache |
| Memo.CachedSegmentWord | enhanced_segmenter.py:74-75 | the cached call returns the fresh result, keeps every entry equal to a fresh computation, adds the word to the cache and leaves the rules alone |
| Memo.Evict | enhanced_segmenter.py:74 | dropping any entries leaves a valid cache with the same rules |
| Memo.CacheTransparent | enhanced_segmenter.py:74 | two calls for the same word agree, whatever was evicted between them |
| Memo.CachedSegmentTokens | enhanced_segmenter.py:113-120 | segmenting the runs through the cache gives the same text as without it and keeps the cache valid |
| Memo.CachedSegmentText | enhanced_segmenter.py:106-120 | `segment_text` through the cache equals `segment_text` without it |
| Script.MalayalamCount | enhanced_corpus_processor.py:37 | the count is at most the length; it is 0 exactly when there is no Malayalam character, and equals the length exactly when every character is Malayalam |
| PyText.Strip | enhanced_corpus_processor.py:30 | the result is a slice of the line with only white space outside it, and it neither starts nor ends with white space |
| PyText.IsSpace | baseline_tokenizer_training.py:38 | `str.isspace()`: exactly Python's white-space code points, which `strip()` removes and `split()` splits on |
| PyText.StripIdempotent | enhanced_corpus_processor.py:30 | stripping a stripped line changes nothing |
| CorpusProcessor.MarkedTokens | enhanced_corpus_processor.py:47 | every token `\w*_SEP_\w*` finds contains the marker |
| CorpusProcessor.MarkedTokensOfRuns | enhanced_corpus_processor.py:47 | the tokens found are, in order, the `\w` runs holding the marker of any maximal alternating decomposition of the line; a `\w` run is found exactly when it holds the marker |
| CorpusProcessor.MorphemeKey | enhanced_corpus_processor.py:53-57 | a key is tallied exactly when the left-to-right split finds one marker and none after it; the key is the text after that marker, and it holds no marker |
| CorpusProcessor.Tally | enhanced_corpus_processor.py:53-57 | every key's count grows by the number of tokens with that key, and no other count changes |
| CorpusProcessor.TallyAppend | enhanced_corpus_processor.py:53-57 | tallying two token lists in turn equals tallying their concatenation |
| CorpusProcessor.Keep | enhanced_corpus_processor.py:33-39 | a stripped line is kept exactly when it has at least 10 code points and at least 30% of them are in U+0D00–U+0D7F |
| CorpusProcessor.Step | enhanced_corpus_processor.py:28-60 | one iteration counts the line, and writes it and counts it as processed exactly when the stripped line is kept |
| CorpusProcessor.StepEffect | enhanced_corpus_processor.py:30-59 | a kept line is written as `segment_text(line) + '\n'` and adds its word runs to `total_words`; a skipped line changes neither |
| CorpusProcessor.StepTallies | enhanced_corpus_processor.py:43-57 | a kept line adds its found tokens to `segmented_words` and tallies their keys; a skipped line changes neither |
| CorpusProcessor.Process | enhanced_corpus_processor.py:28-60 | every input line is counted, and `processed_lines` is the number of lines written, never more than `total_lines` |
| CorpusProcessor.ProcessWritesKeptLines | enhanced_corpus_processor.py:30-59 | the written lines are exactly the kept stripped lines, in input order, each as `segment_text(line) + '\n'` |
| CorpusProcessor.ProcessCountsWords | enhanced_corpus_processor.py:30-49 | `total_words` is the number of word runs in the kept lines, by the tokenizer's own class; skipped lines add nothing |
| CorpusProcessor.ProcessCountsMarks | enhanced_corpus_processor.py:28-57 | `segmented_words` is the number of tokens found over the segmented kept lines, and the morpheme `Counter` is the tally of all of them, in order |
| CorpusProcessor.RenderedLine | enhanced_corpus_processor.py:43-59 | line i of the output is `segment_text` of kept line i, plus '\n' |
| CorpusProcessor.WrittenInOrder | enhanced_corpus_processor.py:28-59 | the kept lines are a subsequence of the stripped input lines |
| CorpusProcessor.SegRate | enhanced_corpus_processor.py:71 | the rate is 0 when no word was seen, and otherwise `100 * segmented / total` |
| CorpusProcessor.KeptPercent | enhanced_corpus_processor.py:73 | with at least one line read, the kept share is `100 * processed / total`, between 0 and 100 |
| PyText.SplitWords | baseline_tokenizer_training.py:51 | every word `str.split()` returns is non-empty and holds no white space |
| PyText.SplitWordsOfRuns | baseline_tokenizer_training.py:51 | the words are, in order, the non-space runs of any decomposition of the line into maximal alternating space and non-space runs |
| PyText.SingleWord | baseline_tokenizer_training.py:51 | a non-empty string without white space splits into itself alone |
| RawCorpus.Prepare | baseline_tokenizer_training.py:37-56 | every line is counted; the written lines are exactly the stripped lines that pass, in input order, each with '\n'; `kept` is their number, never more than `count` |
| RawCorpus.Keep | baseline_tokenizer_training.py:42-53 | a stripped line is kept exactly when it has at least 10 code points, at least 40% of them are in U+0D00–U+0D7F, and `split()` gives 3 to 100 words |
| RawCorpus.PreparedInOrder | baseline_tokenizer_training.py:37-55 | the written lines are a subsequence of the stripped input, and a stripped line is written exactly when it passes |
| RawCorpus.KeepImpliesProcessorKeep | baseline_tokenizer_training.py:42-48 | every line this filter keeps also passes the corpus processor's filter |
| RawCorpus.ProcessorKeepIsWeaker | baseline_tokenizer_training.py:51-53 | a ten-letter, one-word Malayalam line passes the corpus processor's filter but not this one |
| RawCorpus.RetentionPercent | baseline_tokenizer_training.py:61 | with at least one line read, the retention is `100 * kept / count`, between 0 and 100 |
| Strings.FindFromFirst | enhanced_corpus_processor.py:54-55 | the index found is an occurrence with none before it; when none is found, there is no occurrence |
| Strings.FoundIffContains | enhanced_corpus_processor.py:54 | the scan finds an occurrence exactly when `sep in s` |
| Strings.Split | enhanced_corpus_processor.py:55 | `str.split(sep)`: the parts between the occurrences a left-to-right, non-overlapping scan finds; there is always at least one |
| Strings.Join | enhanced_corpus_processor.py:55 | `sep.join(parts)`: the parts with the separator between neighbours |
| Strings.SplitPartsLackSep | enhanced_corpus_processor.py:55 | no part of `str.split(sep)` contains the separator |
| Strings.JoinSplit | enhanced_corpus_processor.py:55 | joining the parts of a split with the separator gives the string back |
| Strings.SplitTwo | enhanced_corpus_processor.py:55-56 | the split is `[a, b]` exactly when the first occurrence ends `a` and `b` holds no occurrence |
| Strings.SplitTwoParts | enhanced_corpus_processor.py:55-57 | the split has two parts exactly when the scan finds one occurrence and nothing after it, and the second part is the text after it |

## Left out

- The mlmorph `Analyser` (enhanced_segmenter.py:3, 68, 91-94). Its result is discarded and its exceptions are swallowed, so it cannot change an output; the model has no call to it.
- The `lru_cache` capacity of 50000 and its least-recently-used policy. Eviction is modelled as dropping any set of entries, which covers every policy.
- Segmenter.SegmentWord: requires a word without '\n'. On such words `.` matches every character and `$` only the end of the word. A trailing '\n', which Python's `$` would also accept, is not modelled. Word runs from `segment_text` never contain '\n'.
- Python's `\w` table, which is a parameter. The `\w*_SEP_\w*` search is modelled as "the maximal `\w` runs that contain the marker". That is what the leftmost, greedy, backtracking search returns when the marker's characters are `\w`.
- The thresholds `len(line) * 0.3` and `len(line) * 0.4` are compared exactly as `10 * m < 3 * n` and `10 * m < 4 * n`. Floating-point rounding at the boundary is not modelled.
- File I/O: opening, the missing-file return of `process_corpus`, splitting the file into lines, progress printing, and the per-line `try/except`. In the model no line can raise.
- The printed percentages are modelled as reals, without their one-decimal formatting. Both final percentages divide by the line count, and on an empty input the source raises `ZeroDivisionError` there (enhanced_corpus_processor.py:73, baseline_tokenizer_training.py:61). `KeptPercent` and `RetentionPercent` model only the non-empty case and require at least one line.
- Unicode normalisation. The rules at lines 14 and 15 spell the same chillu in two forms, and both are kept as written.
- Idempotence. Segmenting an output again can add a second marker, for example through the plural rule, so it is not claimed.
- `train_bpe`, `train_sp`, `save_metrics`, verify_paper_metrics.py, analyze_tokenizer_results.py, generate_paper_tables.py and download_corpus.py are not part of this model. They are third-party tokenizer training, evaluation, LaTeX output and network download.
