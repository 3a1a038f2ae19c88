/** Case folding of titles and queries.

    The recommender folds both the stored titles and the user's query with
    `str.lower()`. This model folds the ASCII letters 'A'..'Z' and leaves every
    other character unchanged. */
module CaseFold {

  predicate IsUpper(c: char) {
    'A' <= c <= 'Z'
  }

  predicate IsLetter(c: char) {
    'A' <= c <= 'Z' || 'a' <= c <= 'z'
  }

  /** Lower-case form of one character. */
  function Lower(c: char): char {
    if IsUpper(c) then (c as int + 32) as char else c
  }

  /** Lower-case form of a string, character by character. */
  function LowerStr(s: string): string {
    seq(|s|, i requires 0 <= i < |s| => Lower(s[i]))
  }

  /** Two characters are the same letter up to case: equal, or an upper-case
      and a lower-case ASCII letter of the same alphabet position. */
  predicate SameLetter(a: char, b: char) {
    a == b || (IsLetter(a) && IsLetter(b) && (a as int - b as int == 32 || b as int - a as int == 32))
  }

  /** Two strings that differ only in letter case. */
  predicate EqualIgnoringCase(s: string, t: string) {
    |s| == |t| && forall i | 0 <= i < |s| :: SameLetter(s[i], t[i])
  }

  /** Folding never changes the length, and only letters change. */
  lemma LowerStrShape(s: string)
    ensures |LowerStr(s)| == |s|
    ensures forall i | 0 <= i < |s| :: SameLetter(s[i], LowerStr(s)[i])
    ensures forall i | 0 <= i < |s| :: !IsUpper(LowerStr(s)[i])
  {
  }

  /** Folding twice is folding once. */
  lemma LowerStrIdempotent(s: string)
    ensures LowerStr(LowerStr(s)) == LowerStr(s)
  {
  }

  /** Characters fold to the same character exactly when they are the same
      letter up to case. */
  lemma SameLetterIffLowerEqual(a: char, b: char)
    ensures SameLetter(a, b) <==> Lower(a) == Lower(b)
  {
  }

  /** Strings fold to the same string exactly when they differ only in
      letter case. */
  lemma EqualIgnoringCaseIffLowerEqual(s: string, t: string)
    ensures EqualIgnoringCase(s, t) <==> LowerStr(s) == LowerStr(t)
  {
    if EqualIgnoringCase(s, t) {
      forall i | 0 <= i < |s|
        ensures LowerStr(s)[i] == LowerStr(t)[i]
      {
        SameLetterIffLowerEqual(s[i], t[i]);
      }
    }
    if LowerStr(s) == LowerStr(t) {
      assert |s| == |LowerStr(s)| == |t|;
      forall i | 0 <= i < |s|
        ensures SameLetter(s[i], t[i])
      {
        assert Lower(s[i]) == LowerStr(s)[i] == LowerStr(t)[i] == Lower(t[i]);
        SameLetterIffLowerEqual(s[i], t[i]);
      }
    }
  }
}
