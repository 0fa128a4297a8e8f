/** The alphabet of the prefix tree: the 26 lower-case letters, their
    child slots, and the strings made of them. */
module WordSets {

  /** The 26 lower-case English letters the tree branches on. */
  predicate IsLetter(c: char)
  {
    'a' <= c <= 'z'
  }

  /** The child slot of a letter: 'a' is 0, 'z' is 25. */
  function Index(c: char): (k: nat)
    requires IsLetter(c)
    ensures k < 26
  {
    c as int - 'a' as int
  }

  /** The letter of a child slot, the inverse of Index. */
  function Letter(k: nat): (c: char)
    requires k < 26
    ensures IsLetter(c) && Index(c) == k
  {
    ('a' as int + k) as char
  }

  lemma LetterOfIndex(c: char)
    requires IsLetter(c)
    ensures Letter(Index(c)) == c
  {
  }

  /** A string the tree can store: letters only (the empty string too). */
  predicate IsWord(s: string)
  {
    forall i :: 0 <= i < |s| ==> IsLetter(s[i])
  }
}
