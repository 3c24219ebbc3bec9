/** utf_traits<CharType, 4>: UTF-32, where a code unit is the code point itself and decoding
    only checks validity. A signed 32-bit `wchar_t` is read as its unsigned bit pattern, as
    the source's cast to `code_point` does. */
module Utf32Traits {
  import opened Unicode

  const MAX_WIDTH: nat := 1

  /** 0 for a unit that is a valid code point, -1 otherwise. */
  function TrailLength(c: Unit): (n: int)
    ensures n == 0 <==> IsValidCodepoint(c)
    ensures n == 0 || n == -1
  {
    if IsValidCodepoint(c) then 0 else -1
  }

  /** A UTF-32 unit is never a trail unit. */
  predicate IsTrail(c: Unit) {
    false
  }

  /** Every UTF-32 unit is a lead unit. */
  predicate IsLead(c: Unit) {
    true
  }

  /** `decode(current, last)` on the range s[p..]. */
  function Decode(s: seq<Unit>, p: nat): (d: Decoded)
    requires p <= |s|
    ensures p <= d.next <= |s|
    ensures p < |s| ==> d.next == p + MAX_WIDTH
    ensures !IsSentinel(d.cp) ==> IsValidCodepoint(d.cp) && d.next == p + Width(d.cp)
  {
    if p == |s| then Decoded(INCOMPLETE, p)
    else
      var c := s[p];
      if !IsValidCodepoint(c) then Decoded(ILLEGAL, p + 1)
      else Decoded(c, p + 1)
  }

  /** `decode_valid`: returns the unit unchecked; on a valid unit that is what `decode` does. */
  function DecodeValid(s: seq<Unit>, p: nat): (d: Decoded)
    requires p < |s|
    ensures d.next == p + 1
    ensures IsValidCodepoint(s[p]) ==> d == Decode(s, p)
  {
    Decoded(s[p], p + 1)
  }

  function Width(u: CodePoint): (w: nat)
    ensures w == MAX_WIDTH
  {
    1
  }

  /** `encode`: the code point as a single unit. */
  function Encode(u: CodePoint): (r: seq<Unit>)
    requires IsValidCodepoint(u)
    ensures |r| == Width(u) && r[0] == u
  {
    [u]
  }

  /** `encode` through an output iterator. */
  method EncodeInto(u: CodePoint, out: array<Unit>, pos: nat) returns (next: nat)
    requires IsValidCodepoint(u)
    requires pos + Width(u) <= out.Length
    modifies out
    ensures next == pos + Width(u)
    ensures out[pos..next] == Encode(u)
    ensures forall k | 0 <= k < out.Length && !(pos <= k < next) :: out[k] == old(out[k])
  {
    out[pos] := u;
    next := pos + 1;
  }

  // ---------------------------------------------------------------------------------------
  // Proofs

  /** The decoder's answer on one unit: the unit itself when valid, `illegal` otherwise. */
  lemma DecodeUnit(s: seq<Unit>, p: nat)
    requires p < |s|
    ensures Decode(s, p).cp == if IsValidCodepoint(s[p]) then s[p] else ILLEGAL
  {
  }

  /** The unit that `Decode` accepts is exactly the encoding of the code point it returns. */
  lemma DecodeIsEncoding(s: seq<Unit>, p: nat)
    requires p <= |s|
    requires !IsSentinel(Decode(s, p).cp)
    ensures s[p..Decode(s, p).next] == Encode(Decode(s, p).cp)
  {
    assert s[p..p + 1] == [s[p]];
  }

  /** Round trip. */
  lemma DecodeEncode(u: CodePoint, s: seq<Unit>, p: nat)
    requires IsValidCodepoint(u)
    requires p + Width(u) <= |s| && s[p..p + Width(u)] == Encode(u)
    ensures Decode(s, p) == Decoded(u, p + Width(u))
  {
    assert s[p] == s[p..p + 1][0];
  }
}
