/** The text form of MongoDB ObjectIds. Stored ids print as 24 lower-case
    hexadecimal digits; `ObjectId.isValid`, `findById` and the
    `new ObjectId(text)` cast also accept the letters a–f in upper case and
    read them as the same id. */
module ObjectIds {

  /** The letter case the cast ignores: A–F become a–f, every other
      character is kept. */
  function LowerHex(c: char): (d: char)
    ensures ('A' <= c <= 'F') ==> 'a' <= d <= 'f' && d != c
    ensures !('A' <= c <= 'F') ==> d == c
  {
    if 'A' <= c <= 'F' then ((c as int) + 32) as char else c
  }

  /** The id a text names once cast: what `findById` looks up and what
      `$addToSet` stores. */
  function Canon(s: string): (r: string)
    ensures |r| == |s|
    ensures forall i :: 0 <= i < |s| ==> r[i] == LowerHex(s[i])
  {
    if s == [] then [] else [LowerHex(s[0])] + Canon(s[1..])
  }

  /** The spelling stored ids have: no upper-case hex letter. */
  predicate IsCanonical(s: string)
  {
    forall i :: 0 <= i < |s| ==> !('A' <= s[i] <= 'F')
  }

  /** The cast leaves a canonical spelling as it is, and always produces one. */
  lemma CanonOfCanonical(s: string)
    ensures IsCanonical(s) ==> Canon(s) == s
    ensures IsCanonical(Canon(s)) && Canon(Canon(s)) == Canon(s)
  {
  }
}
