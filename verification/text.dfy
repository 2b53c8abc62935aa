/** The part of String.ToLower the model needs: lower-casing of ASCII letters. */
module Text {

  predicate IsLowerLetter(c: char) {
    'a' <= c <= 'z'
  }

  function LowerChar(c: char): char {
    if 'A' <= c <= 'Z' then (c as int + 32) as char else c
  }

  function UpperChar(c: char): char {
    if 'a' <= c <= 'z' then (c as int - 32) as char else c
  }

  /** Lower-cases every ASCII letter of `s` and leaves every other character alone. */
  function ToLower(s: string): string {
    seq(|s|, i requires 0 <= i < |s| => LowerChar(s[i]))
  }

  /** `s` spells the lower-case word `word` with each letter in either case. */
  predicate IsCaseVariantOf(s: string, word: string) {
    && |s| == |word|
    && forall i :: 0 <= i < |s| ==> s[i] == word[i] || s[i] == UpperChar(word[i])
  }

  /** Exactly two characters lower-case to a given lower-case letter. */
  lemma LowerCharIs(c: char, w: char)
    requires IsLowerLetter(w)
    ensures LowerChar(c) == w <==> c == w || c == UpperChar(w)
  {
  }

  /** Comparing `ToLower(s)` with a lower-case word is a case-insensitive
      comparison of `s` with that word. */
  lemma LowerEqualsIffCaseVariant(s: string, word: string)
    requires forall i :: 0 <= i < |word| ==> IsLowerLetter(word[i])
    ensures ToLower(s) == word <==> IsCaseVariantOf(s, word)
  {
    if |s| == |word| {
      forall i | 0 <= i < |s|
        ensures ToLower(s)[i] == word[i] <==> s[i] == word[i] || s[i] == UpperChar(word[i])
      {
        LowerCharIs(s[i], word[i]);
      }
    }
  }
}
