/** Case-insensitive comparison of names, as the store's ordinal
    ignore-case comparer performs it, restricted to ASCII letters. */
module CaseFold {

  /** Maps an ASCII upper-case letter to its lower-case form and keeps every
      other character. */
  function FoldChar(c: char): char
  {
    if 'A' <= c <= 'Z' then (c as int - 'A' as int + 'a' as int) as char else c
  }

  /** The canonical spelling of a name: every character folded. Two names
      are the same entry of the store exactly when their folds are equal. */
  function Fold(s: string): string
  {
    seq(|s|, i requires 0 <= i < |s| => FoldChar(s[i]))
  }

  /** Two characters that are equal, or that are the upper- and lower-case
      forms of one ASCII letter. Stated without FoldChar, as a reference. */
  predicate SameLetter(c: char, d: char)
  {
    || c == d
    || ('A' <= c <= 'Z' && d as int == c as int + 32)
    || ('A' <= d <= 'Z' && c as int == d as int + 32)
  }

  /** Two names of equal length that agree letter by letter up to case. */
  predicate SameIgnoringCase(a: string, b: string)
  {
    |a| == |b| && forall i :: 0 <= i < |a| ==> SameLetter(a[i], b[i])
  }

  lemma FoldCharIff(c: char, d: char)
    ensures FoldChar(c) == FoldChar(d) <==> SameLetter(c, d)
  {
  }

  /** Folding decides case-insensitive equality: the comparer's answer agrees
      with the letter-by-letter reference in both directions. */
  lemma {:induction false} FoldEqualIff(a: string, b: string)
    ensures Fold(a) == Fold(b) <==> SameIgnoringCase(a, b)
  {
    if Fold(a) == Fold(b) {
      forall i | 0 <= i < |a|
        ensures SameLetter(a[i], b[i])
      {
        assert Fold(a)[i] == Fold(b)[i];
        FoldCharIff(a[i], b[i]);
      }
    }
    if SameIgnoringCase(a, b) {
      forall i | 0 <= i < |a|
        ensures Fold(a)[i] == Fold(b)[i]
      {
        FoldCharIff(a[i], b[i]);
      }
    }
  }

  /** Folding a folded name changes nothing. */
  lemma {:induction false} FoldIdempotent(s: string)
    ensures Fold(Fold(s)) == Fold(s)
  {
  }
}
