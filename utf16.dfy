/** utf_traits<CharType, 2>: UTF-16 as in sections 2.1 (encoding) and 2.2 (decoding) of
    RFC 2781. */
module Utf16Traits {
  import opened Unicode

  const MAX_WIDTH: nat := 2

  /** A high (leading) surrogate, D800..DBFF. */
  predicate IsFirstSurrogate(x: Word) {
    0xD800 <= x <= 0xDBFF
  }

  /** A low (trailing) surrogate, DC00..DFFF. */
  predicate IsSecondSurrogate(x: Word) {
    0xDC00 <= x <= 0xDFFF
  }

  /** The code point a surrogate pair stands for: ten payload bits from each unit, plus
      0x10000. Whatever the two units are, the result lies above the Basic Multilingual Plane
      and is a valid code point. */
  function CombineSurrogate(w1: Word, w2: Word): (c: CodePoint)
    ensures 0x10000 <= c <= 0x10FFFF
    ensures IsValidCodepoint(c)
  {
    (((w1 & 0x3FF) << 10) | (w2 & 0x3FF)) + 0x10000
  }

  /** 1 for a high surrogate, -1 for a low surrogate (which cannot lead), 0 otherwise. */
  function TrailLength(c: Word): (n: int)
    ensures -1 <= n <= 1
    ensures n == -1 <==> IsTrail(c)
  {
    if IsFirstSurrogate(c) then 1
    else if IsSecondSurrogate(c) then -1
    else 0
  }

  predicate IsTrail(c: Word) {
    IsSecondSurrogate(c)
  }

  predicate IsLead(c: Word) {
    !IsSecondSurrogate(c)
  }

  /** `decode(current, last)` on the range s[p..]. */
  function Decode(s: seq<Word>, p: nat): (d: Decoded)
    requires p <= |s|
    ensures p <= d.next <= |s|
    ensures p < |s| ==> p + 1 <= d.next <= p + MAX_WIDTH
    ensures !IsSentinel(d.cp) ==> IsValidCodepoint(d.cp) && d.next == p + Width(d.cp)
  {
    if p == |s| then Decoded(INCOMPLETE, p)
    else
      var w1 := s[p];
      if w1 < 0xD800 || 0xDFFF < w1 then Decoded(w1, p + 1)
      else if w1 > 0xDBFF then Decoded(ILLEGAL, p + 1)
      else if p + 1 == |s| then Decoded(INCOMPLETE, p + 1)
      else
        var w2 := s[p + 1];
        if w2 < 0xDC00 || 0xDFFF < w2 then Decoded(ILLEGAL, p + 2)
        else Decoded(CombineSurrogate(w1, w2), p + 2)
  }

  /** `decode_valid`: no bounds or pairing checks; on a well-formed sequence it agrees with
      `decode`. */
  function DecodeValid(s: seq<Word>, p: nat): (d: Decoded)
    requires p < |s| && !IsSentinel(Decode(s, p).cp)
    ensures d == Decode(s, p)
  {
    var w1 := s[p];
    if w1 < 0xD800 || 0xDFFF < w1 then Decoded(w1, p + 1)
    else
      var w2 := s[p + 1];
      Decoded(CombineSurrogate(w1, w2), p + 2)
  }

  /** Number of units in the encoding of `u`: a surrogate pair above the BMP. */
  function Width(u: CodePoint): (w: nat)
    ensures 1 <= w <= MAX_WIDTH
  {
    if u >= 0x10000 then 2 else 1
  }

  /** The high surrogate for a code point above the BMP: the upper ten bits of u - 0x10000. */
  function HighSurrogate(u: CodePoint): (w: Word)
    requires 0x10000 <= u <= 0x10FFFF
    ensures IsFirstSurrogate(w)
  {
    0xD800 | ((u - 0x10000) >> 10)
  }

  /** The low surrogate for a code point above the BMP: the lower ten bits of u - 0x10000. */
  function LowSurrogate(u: CodePoint): (w: Word)
    requires 0x10000 <= u <= 0x10FFFF
    ensures IsSecondSurrogate(w)
  {
    0xDC00 | ((u - 0x10000) & 0x3FF)
  }

  /** `encode`: one unit in the BMP, otherwise a surrogate pair. */
  function Encode(u: CodePoint): (r: seq<Word>)
    requires IsValidCodepoint(u)
    ensures |r| == Width(u)
    ensures |r| == 1 ==> !IsFirstSurrogate(r[0]) && !IsSecondSurrogate(r[0])
    ensures |r| == 2 ==> IsFirstSurrogate(r[0]) && IsSecondSurrogate(r[1])
  {
    if u <= 0xFFFF then [u]
    else [HighSurrogate(u), LowSurrogate(u)]
  }

  /** `encode` through an output iterator. */
  method EncodeInto(u: CodePoint, out: array<Unit>, pos: nat) returns (next: nat)
    requires IsValidCodepoint(u)
    requires pos + Width(u) <= out.Length
    modifies out
    ensures next == pos + Width(u)
    ensures out[pos..next] == Encode(u)
    ensures forall k | 0 <= k < out.Length && !(pos <= k < next) :: out[k] == old(out[k])
  {
    next := pos;
    if u <= 0xFFFF {
      out[next] := u;
      next := next + 1;
    } else {
      out[next] := HighSurrogate(u);
      out[next + 1] := LowSurrogate(u);
      next := next + 2;
    }
  }

  // ---------------------------------------------------------------------------------------
  // Proofs

  /** The surrogate pair of a code point above the BMP combines back into it. */
  lemma CombineEncoded(u: CodePoint)
    requires 0x10000 <= u <= 0x10FFFF
    ensures CombineSurrogate(HighSurrogate(u), LowSurrogate(u)) == u
  {
  }

  /** A surrogate pair is the encoding of the code point it combines into. */
  lemma CombinePair(w1: Word, w2: Word)
    requires IsFirstSurrogate(w1) && IsSecondSurrogate(w2)
    ensures Encode(CombineSurrogate(w1, w2)) == [w1, w2]
  {
    SplitCombined(w1, w2);
  }

  lemma SplitCombined(w1: Word, w2: Word)
    requires IsFirstSurrogate(w1) && IsSecondSurrogate(w2)
    ensures HighSurrogate(CombineSurrogate(w1, w2)) == w1
    ensures LowSurrogate(CombineSurrogate(w1, w2)) == w2
  {
  }

  /** The units that `Decode` accepts are exactly the encoding of the code point it returns. */
  lemma DecodeIsEncoding(s: seq<Word>, p: nat)
    requires p <= |s|
    requires !IsSentinel(Decode(s, p).cp)
    ensures s[p..Decode(s, p).next] == Encode(Decode(s, p).cp)
  {
    var d := Decode(s, p);
    if d.next == p + 1 {
      assert s[p..d.next] == [s[p]];
    } else {
      CombinePair(s[p], s[p + 1]);
      assert s[p..d.next] == [s[p], s[p + 1]];
    }
  }

  /** Round trip: decoding the encoding of a valid code point gives it back and consumes
      exactly its width, whatever follows it. */
  lemma DecodeEncode(u: CodePoint, s: seq<Word>, p: nat)
    requires IsValidCodepoint(u)
    requires p + Width(u) <= |s| && s[p..p + Width(u)] == Encode(u)
    ensures Decode(s, p) == Decoded(u, p + Width(u))
  {
    var r := Encode(u);
    assert s[p] == r[0];
    if u > 0xFFFF {
      assert s[p + 1] == r[1];
      CombineEncoded(u);
    }
  }

  /** The error cases of `decode`, with how far the cursor has moved. */
  lemma DecodeErrors(s: seq<Word>, p: nat)
    requires p < |s|
    ensures IsSecondSurrogate(s[p]) ==> Decode(s, p) == Decoded(ILLEGAL, p + 1)
    ensures IsFirstSurrogate(s[p]) && p + 1 == |s| ==> Decode(s, p) == Decoded(INCOMPLETE, p + 1)
    ensures IsFirstSurrogate(s[p]) && p + 1 < |s| && !IsSecondSurrogate(s[p + 1]) ==>
              Decode(s, p) == Decoded(ILLEGAL, p + 2)
  {
  }
}
