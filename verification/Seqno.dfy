/** The wrapping 16-bit sequence numbers of util.h. */
module Seqno {
  const M := 0x1_0000
  const HALF := 0x8000

  type U16 = x: int | 0 <= x < M

  /** The low 16 bits, which is what & 0xFFFF keeps of a two's-complement int. */
  function Low16(x: int): (w: U16)
    ensures 0 <= w <= 0xFFFF && (x - w) % 0x1_0000 == 0
  {
    x % M
  }

  /** Bit 15 of a two's-complement int. */
  predicate TopBit(x: int) {
    Low16(x) >= HALF
  }

  /** The conversion from unsigned short to short. */
  function ToShort(x: U16): int {
    if x < HALF then x else x - M
  }

  function SeqnoCompare(s1: U16, s2: U16): int {
    if s1 == s2 then 0 else if TopBit(s2 - s1) then 1 else -1
  }

  function SeqnoMinus(s1: U16, s2: U16): int {
    ToShort(Low16(s1 - s2))
  }

  function SeqnoPlus(s: U16, plus: int): U16 {
    Low16(s + plus)
  }

  function Sign(x: int): int {
    if x < 0 then -1 else if x > 0 then 1 else 0
  }

  /** The 16-bit difference is the true one exactly when that is a short. */
  lemma MinusIsDifference(a: int, b: int)
    ensures SeqnoMinus(Low16(a), Low16(b)) == a - b <==> -0x8000 <= a - b <= 0x7FFF
  {}

  /** Less than half the number space apart, 16 bits order two counters as they really are. */
  lemma CompareIsSign(a: int, b: int)
    requires -HALF < a - b < HALF
    ensures SeqnoCompare(Low16(a), Low16(b)) == Sign(a - b)
  {}

  /** Comparison is antisymmetric except for numbers exactly half the space apart. */
  lemma CompareAntisymmetricUnless(s1: U16, s2: U16)
    ensures SeqnoCompare(s1, s2) == -SeqnoCompare(s2, s1) <==> Low16(s1 - s2) != HALF
  {}

  /** There both numbers compare as the greater one. */
  lemma CompareAtHalf(s1: U16, s2: U16)
    requires Low16(s1 - s2) == 0x8000
    ensures SeqnoCompare(s1, s2) == 1 == SeqnoCompare(s2, s1)
  {}

  /** Subtraction undoes addition exactly for distances that are shorts. */
  lemma MinusUndoesPlus(s: U16, d: int)
    ensures SeqnoMinus(SeqnoPlus(s, d), s) == d <==> -HALF <= d < HALF
  {}

  /** Inside any half window comparison is transitive. */
  lemma CompareTransitiveInWindow(w: int, a: int, b: int, c: int)
    requires w <= a < w + HALF && w <= b < w + HALF && w <= c < w + HALF
    requires SeqnoCompare(Low16(a), Low16(b)) > 0 && SeqnoCompare(Low16(b), Low16(c)) > 0
    ensures SeqnoCompare(Low16(a), Low16(c)) > 0
  {
    CompareIsSign(a, b);
    CompareIsSign(b, c);
    CompareIsSign(a, c);
  }
}
