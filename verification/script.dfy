/**
 The Malayalam Unicode block, U+0D00 to U+0D7F, and the character tests the
 segmenter and both corpus filters make against it.
 */
module Script {

  /** `'ഀ' <= c <= 'ൿ'`. */
  predicate IsMalayalam(c: char)
  {
    '\U{0D00}' <= c <= '\U{0D7F}'
  }

  /** Some character of `s` is Malayalam. */
  predicate HasMalayalam(s: string)
  {
    exists i :: 0 <= i < |s| && IsMalayalam(s[i])
  }

  /** The early-exit scan `segment_word` makes before applying any rule. */
  method ScanMalayalam(word: string) returns (found: bool)
    ensures found <==> HasMalayalam(word)
  {
    found := false;
    var i := 0;
    while i < |word|
      invariant 0 <= i <= |word|
      invariant !found
      invariant forall j :: 0 <= j < i ==> !IsMalayalam(word[j])
    {
      if IsMalayalam(word[i]) {
        found := true;
        return;
      }
      i := i + 1;
    }
  }

  /** `sum(1 for c in line if 'ഀ' <= c <= 'ൿ')`. */
  function MalayalamCount(s: string): (n: nat)
    ensures n <= |s|
    ensures n == 0 <==> !HasMalayalam(s)
    ensures n == |s| <==> forall i :: 0 <= i < |s| ==> IsMalayalam(s[i])
  {
    if |s| == 0 then 0
    else
      var rest := MalayalamCount(s[1..]);
      assert forall i :: 1 <= i < |s| ==> s[i] == s[1..][i - 1];
      (if IsMalayalam(s[0]) then 1 else 0) + rest
  }
}
