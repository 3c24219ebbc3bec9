/** Code points, code units and the two decoding sentinels that every UTF codec shares
    (the top of include/common/unicode/utf.h). */
module Unicode {

  /** A code unit of any width, held in 32 bits. The narrower widths are subsets of it,
      so sequences of bytes or words are sequences of `Unit` as well. */
  type Unit = bv32

  /** A UTF-8 code unit, read as an unsigned char. */
  type Byte = u: Unit | u < 0x100

  /** A UTF-16 code unit. */
  type Word = u: Unit | u < 0x1_0000

  /** `code_point`: an unsigned 32-bit integer; arithmetic on it wraps like `std::uint32_t`. */
  type CodePoint = bv32

  /** Returned by a decoder that has seen an invalid sequence. */
  const ILLEGAL: CodePoint := 0xFFFF_FFFF

  /** Returned by a decoder whose range ended in the middle of a sequence. */
  const INCOMPLETE: CodePoint := 0xFFFF_FFFE

  predicate IsSentinel(c: CodePoint) {
    c == ILLEGAL || c == INCOMPLETE
  }

  /** A Unicode scalar value: at most 0x10FFFF and not a surrogate. */
  predicate IsValidCodepoint(v: CodePoint) {
    if v > 0x10FFFF then false
    else v < 0xD800 || v > 0xDFFF
  }

  /** The result of one decoding step: the code point (or a sentinel) and the position just
      past the last unit consumed, which is where the by-reference cursor is left. */
  datatype Decoded = Decoded(cp: CodePoint, next: nat)

  datatype Option<T> = None | Some(value: T)

  predicate AllValid(cps: seq<CodePoint>) {
    forall c | c in cps :: IsValidCodepoint(c)
  }

  /** Neither sentinel is a valid code point, so a decoder's answer is never ambiguous. */
  lemma SentinelsInvalid()
    ensures !IsValidCodepoint(ILLEGAL) && !IsValidCodepoint(INCOMPLETE)
    ensures ILLEGAL != INCOMPLETE
  {
  }
}
