/**
 `MalayalamMorphologicalSegmenter.segment_word`: the first-match suffix
 cascade. A word is returned as it is, or as `stem + "_SEP_" + suffix` for the
 lowest-index rule whose suffix ends the word behind a long enough stem.

 Words are assumed free of '\n': on such words `.` matches every character
 and `$` only the end, so `(.{N,})S$` matches exactly when `Matches` holds.
 */
module Segmenter {
  import opened Options
  import opened Strings
  import opened Script
  import opened Rules

  /** `pat.match(word)` for the rule's pattern `(.{minStem,})suffix$`. */
  predicate Matches(rule: Rule, word: string)
  {
    EndsWith(word, rule.suffix) && |word| - |rule.suffix| >= rule.minStem
  }

  /** The part of `word` before the rule's suffix. */
  function Stem(rule: Rule, word: string): (stem: string)
    requires EndsWith(word, rule.suffix)
    ensures stem + rule.suffix == word
  {
    word[..|word| - |rule.suffix|]
  }

  /** Rule `i` matches and no earlier rule does. */
  predicate IsFirstMatch(rules: seq<Rule>, word: string, i: int)
  {
    0 <= i < |rules| && Matches(rules[i], word) && forall j :: 0 <= j < i ==> !Matches(rules[j], word)
  }

  /** Some rule of the table matches. */
  predicate AnyMatches(rules: seq<Rule>, word: string)
  {
    exists i :: 0 <= i < |rules| && Matches(rules[i], word)
  }

  /** The scan `for pat, repl in self.rules: if pat.match(curr): ...; break`,
      from index `from` on. */
  function FirstMatch(rules: seq<Rule>, word: string, from: nat): (r: Option<nat>)
    decreases |rules| - from
    ensures r.Some? ==> from <= r.value < |rules| && Matches(rules[r.value], word)
    ensures r.Some? ==> forall j :: from <= j < r.value ==> !Matches(rules[j], word)
    ensures r.None? ==> forall j :: from <= j < |rules| ==> !Matches(rules[j], word)
  {
    if from >= |rules| then None
    else if Matches(rules[from], word) then Some(from)
    else FirstMatch(rules, word, from + 1)
  }

  /** The rule `segment_word` applies: none for words of at most two code
      points and for words without a Malayalam character, otherwise the
      first rule that matches, if any. */
  function FiringRule(rules: seq<Rule>, word: string): (r: Option<nat>)
    ensures r.Some? <==> |word| > 2 && HasMalayalam(word) && AnyMatches(rules, word)
    ensures r.Some? ==> IsFirstMatch(rules, word, r.value)
  {
    if |word| <= 2 || !HasMalayalam(word) then None
    else
      var r := FirstMatch(rules, word, 0);
      assert r.None? ==> !AnyMatches(rules, word);
      r
  }

  /** `segment_word(word)`. */
  function SegmentWord(rules: seq<Rule>, word: string): (r: string)
    requires '\n' !in word
    ensures |word| <= 2 ==> r == word
    ensures !HasMalayalam(word) ==> r == word
    ensures r != word <==> |word| > 2 && HasMalayalam(word) && AnyMatches(rules, word)
    ensures r == word || exists i :: IsFirstMatch(rules, word, i)
                                     && r == Stem(rules[i], word) + Marker + rules[i].suffix
    ensures |r| == |word| + (if r == word then 0 else |Marker|)
  {
    match FiringRule(rules, word)
    case None => word
    case Some(i) => Stem(rules[i], word) + Marker + rules[i].suffix
  }

  /** The segmenter exactly as written, as a loop over the rules with an early
      exit, agrees with `SegmentWord`. */
  method SegmentWordScan(rules: seq<Rule>, word: string) returns (curr: string)
    requires '\n' !in word
    ensures curr == SegmentWord(rules, word)
  {
    if |word| == 0 || |word| <= 2 {
      return word;
    }
    var isMalayalam := ScanMalayalam(word);
    if !isMalayalam {
      return word;
    }
    curr := word;
    var k := 0;
    while k < |rules|
      invariant 0 <= k <= |rules|
      invariant forall j :: 0 <= j < k ==> !Matches(rules[j], word)
    {
      if Matches(rules[k], word) {
        assert IsFirstMatch(rules, word, k);
        curr := Stem(rules[k], word) + Marker + rules[k].suffix;
        return;
      }
      k := k + 1;
    }
  }

  /** Deletes the last occurrence of the marker: the inverse of one insertion. */
  function Unmark(s: string): string
  {
    match FindLastBefore(s, Marker, |s|)
    case None => s
    case Some(i) => s[..i] + s[i + |Marker|..]
  }

  lemma FindLastIffContains(s: string, pat: string)
    requires |pat| > 0
    ensures FindLastBefore(s, pat, |s|).Some? <==> Contains(s, pat)
  {
    var r := FindLastBefore(s, pat, |s|);
    if r.Some? {
      assert OccursAt(s, pat, r.value);
    }
  }

  /** After a suffix without ASCII characters, the last marker in
      `stem + Marker + suffix` is the one between stem and suffix. */
  lemma LastMarkerAtStem(stem: string, suffix: string)
    requires forall k :: 0 <= k < |suffix| ==> suffix[k] >= '\U{0080}'
    ensures FindLastBefore(stem + Marker + suffix, Marker, |stem + Marker + suffix|) == Some(|stem|)
  {
    var s := stem + Marker + suffix;
    assert s[|stem|..|stem| + |Marker|] == Marker;
    assert OccursAt(s, Marker, |stem|);
    forall p | |stem| < p < |s|
      ensures !OccursAt(s, Marker, p)
    {
      if p + |Marker| <= |s| {
        assert s[p + 4] == suffix[p + 4 - |stem| - |Marker|];
        assert s[p..p + |Marker|][4] == s[p + 4];
      }
    }
    var r := FindLastBefore(s, Marker, |s|);
    assert r.Some?;
    assert r.value == |stem|;
  }

  /** Deleting the last marker undoes `segment_word`: always when a rule fired,
      and for every word that did not already contain the marker. */
  lemma UnmarkSegmentWord(rules: seq<Rule>, word: string)
    requires WellFormedTable(rules)
    requires '\n' !in word
    ensures SegmentWord(rules, word) != word ==> Unmark(SegmentWord(rules, word)) == word
    ensures !Contains(word, Marker) ==> Unmark(SegmentWord(rules, word)) == word
  {
    match FiringRule(rules, word)
    case None =>
      FindLastIffContains(word, Marker);
    case Some(i) =>
      var rule := rules[i];
      assert WellFormedRule(rule);
      var stem := Stem(rule, word);
      LastMarkerAtStem(stem, rule.suffix);
      var r := stem + Marker + rule.suffix;
      assert r[..|stem|] == stem;
      assert r[|stem| + |Marker|..] == rule.suffix;
  }

  /** Every character of the result comes from the word or from the marker. */
  lemma SegmentWordChars(rules: seq<Rule>, word: string)
    requires '\n' !in word
    ensures forall k :: 0 <= k < |SegmentWord(rules, word)| ==>
              SegmentWord(rules, word)[k] in word || SegmentWord(rules, word)[k] in Marker
  {
    match FiringRule(rules, word)
    case None =>
    case Some(i) =>
      var rule := rules[i];
      var stem := Stem(rule, word);
      SpliceChars(stem, rule.suffix, word);
  }

  /** Every character of a marked word comes from the word or the marker. */
  lemma SpliceChars(stem: string, suffix: string, word: string)
    requires stem + suffix == word
    ensures forall k :: 0 <= k < |stem + Marker + suffix| ==>
              (stem + Marker + suffix)[k] in word || (stem + Marker + suffix)[k] in Marker
  {
    var r := stem + Marker + suffix;
    forall k | 0 <= k < |r| ensures r[k] in word || r[k] in Marker {
      if k < |stem| {
        assert r[k] == word[k];
      } else if k < |stem| + |Marker| {
        assert r[k] == Marker[k - |stem|];
      } else {
        assert r[k] == word[k - |Marker|];
      }
    }
  }

  /** When two rules match, the later one never fires, and a rule no later
      than the earlier one does once the word passes the length and script
      tests. */
  lemma RulePriority(rules: seq<Rule>, word: string, i: nat, j: nat)
    requires i < j < |rules|
    requires Matches(rules[i], word) && Matches(rules[j], word)
    ensures FiringRule(rules, word) != Some(j)
    ensures |word| > 2 && HasMalayalam(word) ==>
              FiringRule(rules, word).Some? && FiringRule(rules, word).value <= i
  {
  }

  /** Rule `b` matches only words that rule `a` matches too: `a`'s suffix ends
      `b`'s, and `b`'s minimum stem plus the extra suffix characters reach
      `a`'s minimum stem. */
  predicate Shadows(a: Rule, b: Rule)
  {
    EndsWith(b.suffix, a.suffix) && b.minStem + |b.suffix| - |a.suffix| >= a.minStem
  }

  lemma {:induction false} EndsWithTrans(s: string, t: string, u: string)
    requires EndsWith(s, t) && EndsWith(t, u)
    ensures EndsWith(s, u)
  {
    assert s[|s| - |u|..] == s[|s| - |t|..][|t| - |u|..];
  }

  /** A rule shadowed by an earlier one can never fire. */
  lemma ShadowedNeverFires(rules: seq<Rule>, i: nat, j: nat, word: string)
    requires i < j < |rules| && Shadows(rules[i], rules[j])
    ensures FiringRule(rules, word) != Some(j)
  {
    if Matches(rules[j], word) {
      EndsWithTrans(word, rules[j].suffix, rules[i].suffix);
      assert Matches(rules[i], word);
    }
  }

  /** No word is ever segmented by one of the nine rules of enhanced_segmenter.py
      that an earlier rule shadows: the rules at source lines 16, 21, 24, 26,
      27, 39, 42, 45 and 50. */
  lemma DeadRulesNeverFire(word: string)
    ensures FiringRule(MorphRules, word) != Some(5)    // line 16
    ensures FiringRule(MorphRules, word) != Some(10)   // line 21
    ensures FiringRule(MorphRules, word) != Some(13)   // line 24
    ensures FiringRule(MorphRules, word) != Some(15)   // line 26
    ensures FiringRule(MorphRules, word) != Some(16)   // line 27
    ensures FiringRule(MorphRules, word) != Some(26)   // line 39
    ensures FiringRule(MorphRules, word) != Some(27)   // line 42
    ensures FiringRule(MorphRules, word) != Some(30)   // line 45
    ensures FiringRule(MorphRules, word) != Some(35)   // line 50
  {
    assert |MorphRules| == 47;
    ShadowedLine16();
    ShadowedNeverFires(MorphRules, 3, 5, word);
    ShadowedLine21();
    ShadowedNeverFires(MorphRules, 9, 10, word);
    ShadowedLine24();
    ShadowedNeverFires(MorphRules, 12, 13, word);
    ShadowedLine26();
    ShadowedNeverFires(MorphRules, 8, 15, word);
    ShadowedLine27();
    ShadowedNeverFires(MorphRules, 8, 16, word);
    ShadowedLine39();
    ShadowedNeverFires(MorphRules, 25, 26, word);
    ShadowedLine42();
    ShadowedNeverFires(MorphRules, 24, 27, word);
    ShadowedLine45();
    ShadowedNeverFires(MorphRules, 3, 30, word);
    ShadowedLine50();
    ShadowedNeverFires(MorphRules, 34, 35, word);
  }

  /** The rule at line 16 (-യിൽ) is shadowed by the rule at line 14 (-ിൽ). */
  lemma ShadowedLine16()
    ensures Shadows(MorphRules[3], MorphRules[5])
  {
    assert MorphRules[5] == Rule(3, "യ" + "ിൽ") && MorphRules[3] == Rule(3, "ിൽ");
    EndsWithAppend("യ", "ിൽ");
  }

  /** The rule at line 21 (-യുടെ) is shadowed by the rule at line 20 (-ുടെ). */
  lemma ShadowedLine21()
    ensures Shadows(MorphRules[9], MorphRules[10])
  {
    assert MorphRules[10] == Rule(3, "യ" + "ുടെ") && MorphRules[9] == Rule(4, "ുടെ");
    EndsWithAppend("യ", "ുടെ");
  }

  /** The rule at line 24 (-ിനാൽ) is shadowed by the rule at line 23 (-ാൽ). */
  lemma ShadowedLine24()
    ensures Shadows(MorphRules[12], MorphRules[13])
  {
    assert MorphRules[13] == Rule(3, "ിന" + "ാൽ") && MorphRules[12] == Rule(3, "ാൽ");
    EndsWithAppend("ിന", "ാൽ");
  }

  /** The rule at line 26 (-ിൽനിന്ന്) is shadowed by the rule at line 19 (-ിന്ന്). */
  lemma ShadowedLine26()
    ensures Shadows(MorphRules[8], MorphRules[15])
  {
    assert MorphRules[15] == Rule(4, "ിൽന" + "ിന്ന്") && MorphRules[8] == Rule(3, "ിന്ന്");
    EndsWithAppend("ിൽന", "ിന്ന്");
  }

  /** The rule at line 27 (-യിൽനിന്ന്) is shadowed by the rule at line 19 (-ിന്ന്). */
  lemma ShadowedLine27()
    ensures Shadows(MorphRules[8], MorphRules[16])
  {
    assert MorphRules[16] == Rule(3, "യിൽന" + "ിന്ന്") && MorphRules[8] == Rule(3, "ിന്ന്");
    EndsWithAppend("യിൽന", "ിന്ന്");
  }

  /** The rule at line 39 (-യും) is shadowed by the rule at line 38 (-ും). */
  lemma ShadowedLine39()
    ensures Shadows(MorphRules[25], MorphRules[26])
  {
    assert MorphRules[26] == Rule(4, "യ" + "ും") && MorphRules[25] == Rule(3, "ും");
    EndsWithAppend("യ", "ും");
  }

  /** The rule at line 42 (-ായി) is shadowed by the rule at line 37 (-യി). */
  lemma ShadowedLine42()
    ensures Shadows(MorphRules[24], MorphRules[27])
  {
    assert MorphRules[27] == Rule(3, "ാ" + "യി") && MorphRules[24] == Rule(3, "യി");
    EndsWithAppend("ാ", "യി");
  }

  /** The rule at line 45 (-ങ്കിൽ) is shadowed by the rule at line 14 (-ിൽ). */
  lemma ShadowedLine45()
    ensures Shadows(MorphRules[3], MorphRules[30])
  {
    assert MorphRules[30] == Rule(4, "ങ്ക" + "ിൽ") && MorphRules[3] == Rule(3, "ിൽ");
    EndsWithAppend("ങ്ക", "ിൽ");
  }

  /** The rule at line 50 (-യോ) is shadowed by the rule at line 49 (-ോ). */
  lemma ShadowedLine50()
    ensures Shadows(MorphRules[34], MorphRules[35])
  {
    assert MorphRules[35] == Rule(3, "യ" + "ോ") && MorphRules[34] == Rule(3, "ോ");
    EndsWithAppend("യ", "ോ");
  }

  /** The plural rule of line 9 splits കുട്ടികൾ into കുട്ടി_SEP_കൾ. */
  lemma SegmentPluralExample()
    ensures SegmentWord(MorphRules, "കുട്ടി" + "കൾ") == "കുട്ടി" + Marker + "കൾ"
  {
    var w := "കുട്ടി" + "കൾ";
    PluralRuleMatches("കുട്ടി");
    assert IsMalayalam(w[0]);
    FirstMatchExample(w, 0);
    assert forall k :: 0 <= k < |w| ==> w[k] != '\n';
    SegmentByRule(MorphRules, w, 0, "കുട്ടി");
  }

  /** The locative rule of line 14 splits കേരളത്തിൽ into കേരളത്ത_SEP_ിൽ,
      after the three plural rules fail. */
  lemma SegmentLocativeExample()
    ensures SegmentWord(MorphRules, "കേരളത്ത" + "ിൽ") == "കേരളത്ത" + Marker + "ിൽ"
  {
    var w := "കേരളത്ത" + "ിൽ";
    LocativeFirstMatch();
    assert IsMalayalam(w[0]);
    FirstMatchExample(w, 3);
    assert forall k :: 0 <= k < |w| ==> w[k] != '\n';
    SegmentByRule(MorphRules, w, 3, "കേരളത്ത");
  }

  /** The plural rule of line 9 matches a stem of at least three code points
      followed by its suffix. */
  lemma PluralRuleMatches(stem: string)
    requires |stem| >= 3
    ensures MorphRules[0].suffix == "കൾ"
    ensures IsFirstMatch(MorphRules, stem + "കൾ", 0)
  {
    assert MorphRules[0] == Rule(3, "കൾ");
    EndsWithAppend(stem, "കൾ");
  }

  /** Rule 3 (line 14) is the first rule to match കേരളത്തിൽ. */
  lemma LocativeFirstMatch()
    ensures MorphRules[3].suffix == "ിൽ"
    ensures IsFirstMatch(MorphRules, "കേരളത്ത" + "ിൽ", 3)
  {
    var w := "കേരളത്ത" + "ിൽ";
    assert MorphRules[0] == Rule(3, "കൾ") && MorphRules[1] == Rule(4, "മാർ");
    assert MorphRules[2] == Rule(3, "ങ്ങൾ") && MorphRules[3] == Rule(3, "ിൽ");
    assert w[|w| - 1] == 'ൽ';
    LastCharDiffers(w, "കൾ");
    LastCharDiffers(w, "മാർ");
    LastCharDiffers(w, "ങ്ങൾ");
    EndsWithAppend("കേരളത്ത", "ിൽ");
  }

  /** Once a rule fires, the word is its stem, the marker and its suffix. */
  lemma SegmentByRule(rules: seq<Rule>, word: string, i: nat, stem: string)
    requires '\n' !in word && FiringRule(rules, word) == Some(i)
    requires word == stem + rules[i].suffix
    ensures SegmentWord(rules, word) == stem + Marker + rules[i].suffix
  {
    assert Stem(rules[i], word) == stem;
  }

  lemma FirstMatchExample(word: string, i: nat)
    requires |word| > 2 && HasMalayalam(word)
    requires i < |MorphRules| && IsFirstMatch(MorphRules, word, i)
    ensures FiringRule(MorphRules, word) == Some(i)
  {
  }

  /** Words of two code points, and words without Malayalam, stay as they are. */
  lemma UnchangedExamples()
    ensures SegmentWord(MorphRules, "75000") == "75000"
    ensures SegmentWord(MorphRules, "കൾ") == "കൾ"
  {
    UnchangedNumber();
    UnchangedShort();
  }

  lemma UnchangedNumber()
    ensures SegmentWord(MorphRules, "75000") == "75000"
  {
    var w := "75000";
    assert forall k :: 0 <= k < |w| ==> w[k] < '\U{0D00}';
    assert !HasMalayalam(w);
    assert forall k :: 0 <= k < |w| ==> w[k] != '\n';
  }

  lemma UnchangedShort()
    ensures SegmentWord(MorphRules, "കൾ") == "കൾ"
  {
    var w := "കൾ";
    assert |w| == 2;
    assert forall k :: 0 <= k < |w| ==> w[k] != '\n';
  }

  /** A stem that ends in "_SEP" makes the marker appear twice, overlapping:
      x_SEPകൾ becomes x_SEP_SEP_കൾ, whose first occurrence of the marker
      starts inside the stem and is not the inserted one. */
  lemma MarkerCanOverlap()
    ensures SegmentWord(MorphRules, "x_SEP" + "കൾ") == "x_SEP" + Marker + "കൾ"
    ensures FindFrom("x_SEP" + Marker + "കൾ", Marker, 0) == Some(1)
  {
    var w := "x_SEP" + "കൾ";
    PluralRuleMatches("x_SEP");
    assert IsMalayalam(w[5]);
    FirstMatchExample(w, 0);
    assert forall k :: 0 <= k < |w| ==> w[k] != '\n';
    SegmentByRule(MorphRules, w, 0, "x_SEP");
    FirstMarkerOfOverlap();
  }

  lemma FirstMarkerOfOverlap()
    ensures FindFrom("x_SEP" + Marker + "കൾ", Marker, 0) == Some(1)
  {
    var s := "x_SEP" + Marker + "കൾ";
    assert s[0] == 'x';
    assert s[1..6] == Marker;
  }

  /** The last occurrence is the inserted one, so deleting it gives the word
      back. */
  lemma MarkerOverlapUnmark()
    ensures Unmark("x_SEP" + Marker + "കൾ") == "x_SEP" + "കൾ"
  {
    LastMarkerAtStem("x_SEP", "കൾ");
  }
}
