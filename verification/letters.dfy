/** The 52 atomic statement names and their canonical indices (parse.go, alphaToIdx/idxToAlpha).
    Canonical order puts 'A'..'Z' (indices 0..25) before 'a'..'z' (indices 26..51), which is
    also the order of their character codes. */
module Letters {

  predicate IsLetter(c: char) {
    ('a' <= c <= 'z') || ('A' <= c <= 'Z')
  }

  /** An ASCII letter: the only bytes the lexer turns into statement lexemes. */
  type Letter = c: char | IsLetter(c) witness 'a'

  /** A canonical index, one per letter. */
  type Index = i: nat | i < 52

  /** Subtract 6 from lower-case letters (closing the gap between 'Z' and 'a'), then 65. */
  function AlphaToIdx(c: Letter): (i: Index)
    ensures 'A' <= c <= 'Z' ==> i == (c as int) - ('A' as int)
    ensures 'a' <= c <= 'z' ==> i == (c as int) - ('a' as int) + 26
  {
    var n := if c >= 'a' then c as int - 6 else c as int;
    n - 65
  }

  /** The reverse of AlphaToIdx. */
  function IdxToAlpha(i: Index): (c: Letter)
    ensures AlphaToIdx(c) == i
    ensures i < 26 <==> 'A' <= c <= 'Z'
  {
    var n := if i >= 26 then i + 6 else i;
    (n + 65) as char
  }

  /** AlphaToIdx and IdxToAlpha are mutually inverse, and canonical order is character order. */
  lemma LetterIndexBijection(c: Letter, d: Letter, i: Index)
    ensures IdxToAlpha(AlphaToIdx(c)) == c
    ensures AlphaToIdx(IdxToAlpha(i)) == i
    ensures c < d <==> AlphaToIdx(c) < AlphaToIdx(d)
    ensures AlphaToIdx(c) == AlphaToIdx(d) ==> c == d
  {
  }
}
