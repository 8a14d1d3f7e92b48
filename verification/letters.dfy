/**
 * Letters and case folding as the hangman client uses them: the button
 * alphabet, and the ASCII part of JavaScript's `toLowerCase`, applied both
 * to a guessed letter and to the word the server sends at game start.
 */
module Letters {

  /** The letters offered as guess buttons, in display order. */
  const Alphabet: string := "abcdefghijklmnopqrstuvwxyz"

  predicate IsUpper(c: char) {
    'A' <= c <= 'Z'
  }

  predicate IsLowerLetter(c: char) {
    'a' <= c <= 'z'
  }

  /** `toLowerCase` on one character, restricted to the ASCII letters. */
  function Lower(c: char): (r: char)
    ensures !IsUpper(r)
    ensures IsUpper(c) ==> IsLowerLetter(r) && r as int - c as int == 'a' as int - 'A' as int
    ensures !IsUpper(c) ==> r == c
  {
    if IsUpper(c) then (c as int - 'A' as int + 'a' as int) as char else c
  }

  /** Folding twice is folding once. */
  lemma LowerIdempotent(c: char)
    ensures Lower(Lower(c)) == Lower(c)
  {
  }

  /** Two characters fold together exactly when they are the same letter up to case. */
  lemma LowerIdentifiesCase(c: char, d: char)
    ensures Lower(c) == Lower(d) <==>
      (c == d || (IsUpper(c) && d as int - c as int == 'a' as int - 'A' as int)
       || (IsUpper(d) && c as int - d as int == 'a' as int - 'A' as int))
  {
  }

  /** Every button letter is already lower case, so folding leaves it alone. */
  lemma AlphabetIsLower(c: char)
    requires c in Alphabet
    ensures IsLowerLetter(c)
    ensures Lower(c) == c
  {
    assert forall i :: 0 <= i < |Alphabet| ==> Alphabet[i] as int == 'a' as int + i;
  }

  /** `toLowerCase` on a whole string: every position folded, nothing else changed. */
  function LowerWord(w: string): (r: string)
    ensures |r| == |w|
    ensures forall i :: 0 <= i < |w| ==> r[i] == Lower(w[i])
    decreases |w|
  {
    if |w| == 0 then [] else LowerWord(w[..|w| - 1]) + [Lower(w[|w| - 1])]
  }

  /** The folded string holds no upper-case letter. */
  lemma LowerWordHasNoUpper(w: string)
    ensures forall c :: c in LowerWord(w) ==> !IsUpper(c)
  {
  }

  lemma LowerWordIdempotent(w: string)
    ensures LowerWord(LowerWord(w)) == LowerWord(w)
  {
  }

  /** Folding distributes over appending one character at the end. */
  lemma LowerWordSnoc(w: string, c: char)
    ensures LowerWord(w + [c]) == LowerWord(w) + [Lower(c)]
  {
  }

  /** A string of button letters is its own folding. */
  lemma LowerWordOfAlphabet(w: string)
    requires forall c :: c in w ==> c in Alphabet
    ensures LowerWord(w) == w
  {
    forall i | 0 <= i < |w|
      ensures LowerWord(w)[i] == w[i]
    {
      AlphabetIsLower(w[i]);
    }
  }
}
