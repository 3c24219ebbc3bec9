/** Selection of a `utf_traits` specialisation by the byte size of the character type:
    1 for UTF-8, 2 for UTF-16, 4 for UTF-32. The conversion layer works on sequences of
    `Unit` and dispatches on this tag. */
module Codec {
  import opened Unicode
  import Utf8Traits
  import Utf16Traits
  import Utf32Traits

  datatype Encoding = Utf8 | Utf16 | Utf32

  /** Whether a unit fits the character type of the encoding. */
  predicate Fits(e: Encoding, u: Unit) {
    match e
    case Utf8 => u < 0x100
    case Utf16 => u < 0x1_0000
    case Utf32 => true
  }

  predicate AllFit(e: Encoding, s: seq<Unit>) {
    forall i | 0 <= i < |s| :: Fits(e, s[i])
  }

  function MaxWidth(e: Encoding): nat {
    match e
    case Utf8 => Utf8Traits.MAX_WIDTH
    case Utf16 => Utf16Traits.MAX_WIDTH
    case Utf32 => Utf32Traits.MAX_WIDTH
  }

  function Width(e: Encoding, v: CodePoint): (w: nat)
    ensures 1 <= w <= MaxWidth(e)
  {
    match e
    case Utf8 => Utf8Traits.Width(v)
    case Utf16 => Utf16Traits.Width(v)
    case Utf32 => Utf32Traits.Width(v)
  }

  function Encode(e: Encoding, v: CodePoint): (u: seq<Unit>)
    requires IsValidCodepoint(v)
    ensures |u| == Width(e, v)
  {
    match e
    case Utf8 => Utf8Traits.Encode(v)
    case Utf16 => Utf16Traits.Encode(v)
    case Utf32 => Utf32Traits.Encode(v)
  }

  /** Every unit of an encoding fits the character type. */
  lemma EncodeFits(e: Encoding, v: CodePoint)
    requires IsValidCodepoint(v)
    ensures AllFit(e, Encode(e, v))
  {
  }

  /** One decoding step. On a non-empty range it consumes between one unit and the
      encoding's maximal width, never past the end; a result that is not a sentinel is a
      valid code point whose width is the number of units consumed. */
  function Decode(e: Encoding, s: seq<Unit>, p: nat): (d: Decoded)
    requires p <= |s| && AllFit(e, s)
    ensures p <= d.next <= |s|
    ensures p == |s| ==> d.cp == INCOMPLETE && d.next == p
    ensures p < |s| ==> p + 1 <= d.next <= p + MaxWidth(e)
    ensures !IsSentinel(d.cp) ==> IsValidCodepoint(d.cp) && d.next == p + Width(e, d.cp)
  {
    match e
    case Utf8 => Utf8Traits.Decode(s, p)
    case Utf16 => Utf16Traits.Decode(s, p)
    case Utf32 => Utf32Traits.Decode(s, p)
  }

  /** `encode` through an output iterator, for the encoding `e`: the encoding is written at
      `pos` and nothing else in the array changes. */
  method EncodeInto(e: Encoding, v: CodePoint, out: array<Unit>, pos: nat) returns (next: nat)
    requires IsValidCodepoint(v)
    requires pos + Width(e, v) <= out.Length
    modifies out
    ensures next == pos + Width(e, v)
    ensures out[..] == old(out[..])[..pos] + Encode(e, v) + old(out[..])[next..]
  {
    hide Utf8Traits.Encode, Utf16Traits.Encode, Utf32Traits.Encode;
    ghost var before := out[..];
    match e
    case Utf8 =>
      next := Utf8Traits.EncodeInto(v, out, pos);
      Spliced(before, out[..], pos, next, Utf8Traits.Encode(v));
    case Utf16 =>
      next := Utf16Traits.EncodeInto(v, out, pos);
      Spliced(before, out[..], pos, next, Utf16Traits.Encode(v));
    case Utf32 =>
      next := Utf32Traits.EncodeInto(v, out, pos);
      Spliced(before, out[..], pos, next, Utf32Traits.Encode(v));
  }

  /** A sequence that differs from `before` only in [pos, next), where it holds `piece`. */
  lemma Spliced(before: seq<Unit>, after: seq<Unit>, pos: nat, next: nat, piece: seq<Unit>)
    requires pos <= next <= |before| == |after|
    requires after[pos..next] == piece
    requires forall k | 0 <= k < |after| && !(pos <= k < next) :: after[k] == before[k]
    ensures after == before[..pos] + piece + before[next..]
  {
    assert forall k | pos <= k < next :: after[k] == piece[k - pos];
  }

  /** The units `Decode` accepts are exactly the encoding of the code point it returns. */
  lemma DecodeIsEncoding(e: Encoding, s: seq<Unit>, p: nat)
    requires p <= |s| && AllFit(e, s)
    requires !IsSentinel(Decode(e, s, p).cp)
    ensures s[p..Decode(e, s, p).next] == Encode(e, Decode(e, s, p).cp)
  {
    match e
    case Utf8 => Utf8Traits.DecodeIsEncoding(s, p);
    case Utf16 => Utf16Traits.DecodeIsEncoding(s, p);
    case Utf32 => Utf32Traits.DecodeIsEncoding(s, p);
  }

  /** Round trip in every width: decoding the encoding of a valid code point, whatever
      follows it, gives the code point back and consumes exactly its width. */
  lemma DecodeEncode(e: Encoding, v: CodePoint, s: seq<Unit>, p: nat)
    requires IsValidCodepoint(v) && AllFit(e, s)
    requires p + Width(e, v) <= |s| && s[p..p + Width(e, v)] == Encode(e, v)
    ensures Decode(e, s, p) == Decoded(v, p + Width(e, v))
  {
    match e
    case Utf8 => Utf8Traits.DecodeEncode(v, s, p);
    case Utf16 => Utf16Traits.DecodeEncode(v, s, p);
    case Utf32 => Utf32Traits.DecodeEncode(v, s, p);
  }

  /** A zero unit is the code point 0 in every encoding, one unit wide. */
  lemma DecodeZero(e: Encoding, s: seq<Unit>, p: nat)
    requires p < |s| && AllFit(e, s) && s[p] == 0
    ensures Decode(e, s, p) == Decoded(0, p + 1)
  {
  }

  /** The code point 0 is valid and encodes as a single zero unit. */
  lemma EncodeZero(e: Encoding)
    ensures IsValidCodepoint(0) && Encode(e, 0) == [0] && Fits(e, 0)
  {
  }
}
