/** The relevance score used to order fuzzy search results (`relevance`).
    Bit 12 marks a prefix match, bits 8 to 11 hold `8 - chunks` (doubled when
    the case matches) and the low bits favour shorter keys. */
module Ranking {
  import opened FuzzyMatch

  function Max(a: int, b: int): int {
    if a >= b then a else b
  }

  /** `relevance(result)` for a match of a key of length `keyLength`.
      `x << 7` is written as `x * 128`: `x` is at most 8, so the 32-bit shift
      never overflows. */
  function Relevance(m: Match, keyLength: nat): (r: int)
    ensures m.chunks >= 1 ==> 0 <= r <= 4095
    ensures m.prefix ==> r >= 2048
    ensures m.chunks >= 1 && !m.prefix ==> r <= 2047
  {
    var base := Max(0, 8 - m.chunks) * 128;
    var cased := if m.caseMatch then base * 2 else base;
    var prefixed := if m.prefix then cased + 2048 else cased;
    prefixed + Max(0, 255 - keyLength)
  }

  /** Holding the case flag, the prefix flag and the key length fixed, more
      chunks never score higher. */
  lemma RelevanceMonotoneInChunks(m1: Match, m2: Match, keyLength: nat)
    requires m1.caseMatch == m2.caseMatch && m1.prefix == m2.prefix
    requires m1.chunks <= m2.chunks
    ensures Relevance(m2, keyLength) <= Relevance(m1, keyLength)
  {
  }

  /** Any prefix match outranks any non-prefix match, whatever the chunks,
      case and key lengths. */
  lemma PrefixAlwaysWins(m1: Match, len1: nat, m2: Match, len2: nat)
    requires m1.prefix && !m2.prefix && m2.chunks >= 1
    ensures Relevance(m1, len1) > Relevance(m2, len2)
  {
  }

  /** Among matches alike in every other respect, the shorter key scores higher
      as long as it is shorter than 255 characters. */
  lemma ShorterKeyWins(m: Match, len1: nat, len2: nat)
    requires len1 < len2 && len1 < 255
    ensures Relevance(m, len1) > Relevance(m, len2)
  {
  }
}
