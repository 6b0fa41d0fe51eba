/**
 The suffix rule table of the segmenter. Each source rule has the shape
 `(.{N,})S$ -> \1_SEP_S`: a stem of at least N code points, then the literal
 suffix S at the end of the word; the rewrite puts the marker between them.
 */
module Rules {
  import opened Strings

  /** The boundary marker written between stem and suffix. */
  const Marker: string := "_SEP_"

  /** `(.{minStem,})suffix$`, rewritten to `\1_SEP_suffix`. */
  datatype Rule = Rule(minStem: nat, suffix: string)

  /** `MORPH_RULES`, in declaration order; the comment gives the rule's index
      here and its line in enhanced_segmenter.py. The rule at line 15 spells
      the chillu of line 14 as LA, VIRAMA, ZERO WIDTH JOINER. */
  const MorphRules: seq<Rule> :=
    PluralRules + CaseRules + VerbRules + MiscRules + CompoundRules

  /** Plural markers. */
  const PluralRules: seq<Rule> :=
    [
      Rule(3, "കൾ"),            //  0, line 9
      Rule(4, "മാർ"),           //  1, line 10
      Rule(3, "ങ്ങൾ")           //  2, line 11
    ]

  /** Case markers. */
  const CaseRules: seq<Rule> :=
    [
      Rule(3, "ിൽ"),            //  3, line 14
      Rule(3, "ില്\U{200D}"),   //  4, line 15
      Rule(3, "യിൽ"),           //  5, line 16
      Rule(3, "ിന്"),           //  6, line 17
      Rule(3, "ിനു"),           //  7, line 18
      Rule(3, "ിന്ന്"),         //  8, line 19
      Rule(4, "ുടെ"),           //  9, line 20
      Rule(3, "യുടെ"),          // 10, line 21
      Rule(3, "ിന്റെ"),         // 11, line 22
      Rule(3, "ാൽ"),            // 12, line 23
      Rule(3, "ിനാൽ"),          // 13, line 24
      Rule(3, "കൊണ്ട്"),        // 14, line 25
      Rule(4, "ിൽനിന്ന്"),      // 15, line 26
      Rule(3, "യിൽനിന്ന്")      // 16, line 27
    ]

  /** Verb endings. */
  const VerbRules: seq<Rule> :=
    [
      Rule(4, "ുന്നു"),         // 17, line 30
      Rule(4, "ുന്ന"),          // 18, line 31
      Rule(4, "ുകയാണ്"),        // 19, line 32
      Rule(4, "ുകയാണു"),        // 20, line 33
      Rule(4, "ിച്ചു"),         // 21, line 34
      Rule(4, "ിച്ച്"),         // 22, line 35
      Rule(3, "ന്നു"),          // 23, line 36
      Rule(3, "യി"),            // 24, line 37
      Rule(3, "ും"),            // 25, line 38
      Rule(4, "യും")            // 26, line 39
    ]

  /** Miscellaneous suffixes. */
  const MiscRules: seq<Rule> :=
    [
      Rule(3, "ായി"),           // 27, line 42
      Rule(4, "ായിട്ട്"),       // 28, line 43
      Rule(3, "ാതെ"),           // 29, line 44
      Rule(4, "ങ്കിൽ"),         // 30, line 45
      Rule(4, "ുന്നത്"),        // 31, line 46
      Rule(4, "ിയത്"),          // 32, line 47
      Rule(3, "ൽ"),             // 33, line 48
      Rule(3, "ോ"),             // 34, line 49
      Rule(3, "യോ"),            // 35, line 50
      Rule(3, "തന്നെ"),         // 36, line 51
      Rule(3, "കൂടി"),          // 37, line 52
      Rule(3, "കൂടെ"),          // 38, line 53
      Rule(4, "ിനേക്കാൾ")       // 39, line 54
    ]

  /** Compound suffixes. */
  const CompoundRules: seq<Rule> :=
    [
      Rule(4, "കാർ"),           // 40, line 57
      Rule(4, "വാദി"),          // 41, line 58
      Rule(4, "വാദം"),          // 42, line 59
      Rule(4, "ശാല"),           // 43, line 60
      Rule(4, "ശാലാ"),          // 44, line 61
      Rule(4, "ജി"),            // 45, line 62
      Rule(4, "സാർ")           // 46, line 63
    ]

  /** Every suffix is non-empty and made of non-ASCII characters, so it shares
      no character with the marker: a marker can never straddle the
      stem/suffix boundary on the right. */
  predicate WellFormedTable(rules: seq<Rule>)
  {
    forall i :: 0 <= i < |rules| ==> WellFormedRule(rules[i])
  }

  predicate WellFormedRule(r: Rule)
  {
    |r.suffix| > 0 && forall k :: 0 <= k < |r.suffix| ==> r.suffix[k] >= '\U{0080}'
  }

  lemma MorphRulesWellFormed()
    ensures |MorphRules| == 47
    ensures WellFormedTable(MorphRules)
  {
    PluralRulesWellFormed();
    CaseRulesWellFormed();
    VerbRulesWellFormed();
    MiscRulesWellFormed();
    CompoundRulesWellFormed();
    AppendWellFormed(PluralRules, CaseRules);
    AppendWellFormed(PluralRules + CaseRules, VerbRules);
    AppendWellFormed(PluralRules + CaseRules + VerbRules, MiscRules);
    AppendWellFormed(PluralRules + CaseRules + VerbRules + MiscRules, CompoundRules);
  }

  lemma PluralRulesWellFormed()
    ensures WellFormedTable(PluralRules)
  {
  }

  lemma CaseRulesWellFormed()
    ensures WellFormedTable(CaseRules)
  {
  }

  lemma VerbRulesWellFormed()
    ensures WellFormedTable(VerbRules)
  {
  }

  lemma MiscRulesWellFormed()
    ensures WellFormedTable(MiscRules)
  {
  }

  lemma CompoundRulesWellFormed()
    ensures WellFormedTable(CompoundRules)
  {
  }

  lemma AppendWellFormed(a: seq<Rule>, b: seq<Rule>)
    requires WellFormedTable(a) && WellFormedTable(b)
    ensures WellFormedTable(a + b)
  {
    forall i | 0 <= i < |a + b| ensures WellFormedRule((a + b)[i]) {
      if i < |a| {
        assert (a + b)[i] == a[i];
      } else {
        assert (a + b)[i] == b[i - |a|];
      }
    }
  }
}
