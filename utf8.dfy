/** utf_traits<CharType, 1>: UTF-8 as laid out in section 3 of RFC 3629, with the
    well-formedness rules of its section 4 (no overlong forms, no surrogates, nothing
    above 0x10FFFF). */
module Utf8Traits {
  import opened Unicode

  const MAX_WIDTH: nat := 4

  /** A continuation byte, 10xxxxxx. */
  predicate IsTrail(c: Byte) {
    (c & 0xC0) == 0x80
  }

  predicate IsLead(c: Byte) {
    !IsTrail(c)
  }

  /** The number of continuation bytes a lead byte announces, or -1 for a byte that can never
      start a well-formed sequence (a continuation byte, the overlong leads C0 and C1, and
      everything above F4). */
  function TrailLength(c: Byte): (n: int)
    ensures -1 <= n <= 3
    ensures n >= 0 ==> IsLead(c)
  {
    if c < 128 then 0
    else if c < 194 then -1
    else if c < 224 then 1
    else if c < 240 then 2
    else if c <= 244 then 3
    else -1
  }

  /** Number of bytes in the shortest encoding of `value`. */
  function Width(value: CodePoint): (w: nat)
    ensures 1 <= w <= MAX_WIDTH
  {
    if value <= 0x7F then 1
    else if value <= 0x7FF then 2
    else if value <= 0xFFFF then 3
    else 4
  }

  /** `(1 << (6 - trailSize)) - 1`: the payload bits of a lead byte that announces
      `trailSize` continuation bytes (see LeadMaskShift). */
  function LeadMask(trailSize: int): CodePoint
    requires 1 <= trailSize <= 3
  {
    if trailSize == 1 then 0x1F else if trailSize == 2 then 0x0F else 0x07
  }

  function LeadBits(lead: Byte, trailSize: int): CodePoint
    requires 1 <= trailSize <= 3
  {
    lead & LeadMask(trailSize)
  }

  /** Appends the six payload bits of a continuation byte. */
  function Shift(c: CodePoint, unit: Byte): CodePoint {
    (c << 6) | (unit & 0x3F)
  }

  /** What reading the continuation bytes leaves: the accumulated value and the cursor, or a
      finished (failed) decoding step. */
  datatype Trail = Complete(c: CodePoint, next: nat) | Stopped(d: Decoded)

  /** The fall-through switch of `decode`: reads `n` continuation bytes from position `p`,
      returning `incomplete` where the range ends and `illegal` (that byte consumed) where a
      byte is not a continuation byte. */
  function ReadTrails(s: seq<Byte>, p: nat, c: CodePoint, n: nat): (t: Trail)
    requires p <= |s|
    ensures t.Complete? ==> t.next == p + n <= |s|
    ensures t.Stopped? ==> IsSentinel(t.d.cp) && p <= t.d.next <= p + n && t.d.next <= |s|
    decreases n
  {
    if n == 0 then Complete(c, p)
    else if p == |s| then Stopped(Decoded(INCOMPLETE, p))
    else if !IsTrail(s[p]) then Stopped(Decoded(ILLEGAL, p + 1))
    else ReadTrails(s, p + 1, Shift(c, s[p]), n - 1)
  }

  /** `decode(p, e)` on the range s[p..]: one code point or a sentinel, and the new cursor.
      The range and shortest-form checks run only once every continuation byte was read. */
  function Decode(s: seq<Byte>, p: nat): (d: Decoded)
    requires p <= |s|
    ensures p <= d.next <= |s|
    ensures p < |s| ==> p + 1 <= d.next <= p + MAX_WIDTH
    ensures !IsSentinel(d.cp) ==> IsValidCodepoint(d.cp) && d.next == p + Width(d.cp)
  {
    if p == |s| then Decoded(INCOMPLETE, p)
    else
      var lead := s[p];
      var trailSize := TrailLength(lead);
      if trailSize < 0 then Decoded(ILLEGAL, p + 1)
      else if trailSize == 0 then Decoded(lead, p + 1)
      else
        match ReadTrails(s, p + 1, LeadBits(lead, trailSize), trailSize)
        case Stopped(d) => d
        case Complete(c, next) =>
          if !IsValidCodepoint(c) then Decoded(ILLEGAL, next)
          else if Width(c) != trailSize + 1 then Decoded(ILLEGAL, next)
          else Decoded(c, next)
  }

  /** The unchecked fast path of `decode_valid`: reads the continuation bytes without looking. */
  function ReadTrailsUnchecked(s: seq<Byte>, p: nat, c: CodePoint, n: nat): (d: Decoded)
    requires p + n <= |s|
    ensures d.next == p + n
    decreases n
  {
    if n == 0 then Decoded(c, p)
    else ReadTrailsUnchecked(s, p + 1, Shift(c, s[p]), n - 1)
  }

  /** `decode_valid`: only defined on a well-formed sequence, where it agrees with `decode`. */
  function DecodeValid(s: seq<Byte>, p: nat): (d: Decoded)
    requires p < |s| && !IsSentinel(Decode(s, p).cp)
    ensures d == Decode(s, p)
  {
    var lead := s[p];
    if lead < 192 then Decoded(lead, p + 1)
    else
      var trailSize := if lead < 224 then 1 else if lead < 240 then 2 else 3;
      DecodeValidAgrees(s, p, trailSize);
      ReadTrailsUnchecked(s, p + 1, LeadBits(lead, trailSize), trailSize)
  }

  /** `encode`: the shortest UTF-8 form of a valid code point. */
  function Encode(value: CodePoint): (u: seq<Byte>)
    requires IsValidCodepoint(value)
    ensures |u| == Width(value)
    ensures TrailLength(u[0]) == |u| - 1
    ensures forall i | 1 <= i < |u| :: IsTrail(u[i])
  {
    if value <= 0x7F then
      [value]
    else if value <= 0x7FF then
      [(value >> 6) | 0xC0, (value & 0x3F) | 0x80]
    else if value <= 0xFFFF then
      [(value >> 12) | 0xE0, ((value >> 6) & 0x3F) | 0x80, (value & 0x3F) | 0x80]
    else
      [(value >> 18) | 0xF0, ((value >> 12) & 0x3F) | 0x80,
       ((value >> 6) & 0x3F) | 0x80, (value & 0x3F) | 0x80]
  }

  /** `encode` through an output iterator: writes `Width(value)` bytes at `pos` and returns
      the position past them; nothing else in `out` changes. */
  method EncodeInto(value: CodePoint, out: array<Unit>, pos: nat) returns (next: nat)
    requires IsValidCodepoint(value)
    requires pos + Width(value) <= out.Length
    modifies out
    ensures next == pos + Width(value)
    ensures out[pos..next] == Encode(value)
    ensures forall k | 0 <= k < out.Length && !(pos <= k < next) :: out[k] == old(out[k])
  {
    next := pos;
    if value <= 0x7F {
      out[next] := value;
      next := next + 1;
    } else if value <= 0x7FF {
      out[next] := (value >> 6) | 0xC0;
      out[next + 1] := (value & 0x3F) | 0x80;
      next := next + 2;
    } else if value <= 0xFFFF {
      out[next] := (value >> 12) | 0xE0;
      out[next + 1] := ((value >> 6) & 0x3F) | 0x80;
      out[next + 2] := (value & 0x3F) | 0x80;
      next := next + 3;
    } else {
      out[next] := (value >> 18) | 0xF0;
      out[next + 1] := ((value >> 12) & 0x3F) | 0x80;
      out[next + 2] := ((value >> 6) & 0x3F) | 0x80;
      out[next + 3] := (value & 0x3F) | 0x80;
      next := next + 4;
    }
  }

  // ---------------------------------------------------------------------------------------
  // Proofs

  /** The masks are the ones the source computes with a shift. */
  lemma LeadMaskShift(trailSize: int)
    requires 1 <= trailSize <= 3
    ensures LeadMask(trailSize) == ((1 as bv32) << (6 - trailSize)) - 1
  {
  }

  /** Reading `n` continuation bytes that are all present succeeds. */
  lemma {:induction false} ReadTrailsAllTrails(s: seq<Byte>, p: nat, c: CodePoint, n: nat)
    requires p + n <= |s|
    requires forall i | p <= i < p + n :: IsTrail(s[i])
    ensures ReadTrails(s, p, c, n) == Complete(ReadTrailsUnchecked(s, p, c, n).cp, p + n)
    decreases n
  {
    if n > 0 {
      ReadTrailsAllTrails(s, p + 1, Shift(c, s[p]), n - 1);
    }
  }

  /** Where the checked reader completes, the unchecked one computes the same value. */
  lemma {:induction false} ReadTrailsAgree(s: seq<Byte>, p: nat, c: CodePoint, n: nat)
    requires p <= |s|
    requires ReadTrails(s, p, c, n).Complete?
    ensures p + n <= |s|
    ensures ReadTrails(s, p, c, n).c == ReadTrailsUnchecked(s, p, c, n).cp
    ensures forall i | p <= i < p + n :: IsTrail(s[i])
    decreases n
  {
    if n > 0 {
      ReadTrailsAgree(s, p + 1, Shift(c, s[p]), n - 1);
    }
  }

  lemma DecodeValidAgrees(s: seq<Byte>, p: nat, trailSize: int)
    requires p < |s| && !IsSentinel(Decode(s, p).cp)
    requires s[p] >= 192
    requires trailSize == if s[p] < 224 then 1 else if s[p] < 240 then 2 else 3
    ensures p + 1 + trailSize <= |s|
    ensures ReadTrailsUnchecked(s, p + 1, LeadBits(s[p], trailSize), trailSize) == Decode(s, p)
  {
    assert TrailLength(s[p]) == trailSize;
    ReadTrailsAgree(s, p + 1, LeadBits(s[p], trailSize), trailSize);
  }

  /** The fall-through reader unrolled for one, two and three continuation bytes. */
  lemma UncheckedUnrolled(s: seq<Byte>, q: nat, c: CodePoint, n: nat)
    requires 1 <= n <= 3 && q + n <= |s|
    ensures n == 1 ==> ReadTrailsUnchecked(s, q, c, n).cp == Shift(c, s[q])
    ensures n == 2 ==> ReadTrailsUnchecked(s, q, c, n).cp == Shift(Shift(c, s[q]), s[q + 1])
    ensures n == 3 ==> ReadTrailsUnchecked(s, q, c, n).cp
                       == Shift(Shift(Shift(c, s[q]), s[q + 1]), s[q + 2])
  {
    if n > 1 {
      assert ReadTrailsUnchecked(s, q, c, n) == ReadTrailsUnchecked(s, q + 1, Shift(c, s[q]), n - 1);
      if n > 2 {
        assert ReadTrailsUnchecked(s, q + 1, Shift(c, s[q]), n - 1)
          == ReadTrailsUnchecked(s, q + 2, Shift(Shift(c, s[q]), s[q + 1]), n - 2);
      }
    }
  }

  // Bit-level facts, one per sequence length, kept apart from the sequence reasoning.

  lemma TwoBytes(b0: Byte, b1: Byte)
    requires TrailLength(b0) == 1 && IsTrail(b1)
    requires IsValidCodepoint(Shift(LeadBits(b0, 1), b1)) && Width(Shift(LeadBits(b0, 1), b1)) == 2
    ensures Encode(Shift(LeadBits(b0, 1), b1)) == [b0, b1]
  {
  }

  lemma ThreeBytes(b0: Byte, b1: Byte, b2: Byte)
    requires TrailLength(b0) == 2 && IsTrail(b1) && IsTrail(b2)
    requires var c := Shift(Shift(LeadBits(b0, 2), b1), b2); IsValidCodepoint(c) && Width(c) == 3
    ensures Encode(Shift(Shift(LeadBits(b0, 2), b1), b2)) == [b0, b1, b2]
  {
  }

  lemma FourBytes(b0: Byte, b1: Byte, b2: Byte, b3: Byte)
    requires TrailLength(b0) == 3 && IsTrail(b1) && IsTrail(b2) && IsTrail(b3)
    requires var c := Shift(Shift(Shift(LeadBits(b0, 3), b1), b2), b3); IsValidCodepoint(c) && Width(c) == 4
    ensures Encode(Shift(Shift(Shift(LeadBits(b0, 3), b1), b2), b3)) == [b0, b1, b2, b3]
  {
  }

  lemma ShiftBits2(value: CodePoint, b0: Byte, b1: Byte)
    requires b0 == (value >> 6) | 0xC0 && b1 == (value & 0x3F) | 0x80
    requires value <= 0x7FF
    ensures Shift(LeadBits(b0, 1), b1) == value
  {
  }

  lemma ShiftBits3(value: CodePoint, b0: Byte, b1: Byte, b2: Byte)
    requires b0 == (value >> 12) | 0xE0 && b1 == ((value >> 6) & 0x3F) | 0x80 && b2 == (value & 0x3F) | 0x80
    requires value <= 0xFFFF
    ensures Shift(Shift(LeadBits(b0, 2), b1), b2) == value
  {
  }

  lemma ShiftBits4(value: CodePoint, b0: Byte, b1: Byte, b2: Byte, b3: Byte)
    requires b0 == (value >> 18) | 0xF0 && b1 == ((value >> 12) & 0x3F) | 0x80
    requires b2 == ((value >> 6) & 0x3F) | 0x80 && b3 == (value & 0x3F) | 0x80
    requires value <= 0x1FFFFF
    ensures Shift(Shift(Shift(LeadBits(b0, 3), b1), b2), b3) == value
  {
  }

  /** The bytes that `Decode` accepts are exactly the encoding of the code point it returns. */
  lemma DecodeIsEncoding(s: seq<Byte>, p: nat)
    requires p <= |s|
    requires !IsSentinel(Decode(s, p).cp)
    ensures s[p..Decode(s, p).next] == Encode(Decode(s, p).cp)
  {
    var d := Decode(s, p);
    var n := TrailLength(s[p]);
    if n == 0 {
      assert s[p..d.next] == [s[p]];
    } else {
      var c0 := LeadBits(s[p], n);
      ReadTrailsAgree(s, p + 1, c0, n);
      assert d.cp == ReadTrailsUnchecked(s, p + 1, c0, n).cp && d.next == p + 1 + n;
      TrailsAreEncoding(s, p, n, d.cp);
    }
  }

  /** A lead byte and `n` continuation bytes whose accumulated value is a valid code point of
      width n + 1 are that code point's encoding. */
  lemma TrailsAreEncoding(s: seq<Byte>, p: nat, n: nat, cp: CodePoint)
    requires 1 <= n <= 3 && p + 1 + n <= |s|
    requires TrailLength(s[p]) == n && forall i | p + 1 <= i < p + 1 + n :: IsTrail(s[i])
    requires cp == ReadTrailsUnchecked(s, p + 1, LeadBits(s[p], n), n).cp
    requires IsValidCodepoint(cp) && Width(cp) == n + 1
    ensures s[p..p + 1 + n] == Encode(cp)
  {
    UncheckedUnrolled(s, p + 1, LeadBits(s[p], n), n);
    if n == 1 {
      TwoBytes(s[p], s[p + 1]);
      SliceOfTwo(s, p);
    } else if n == 2 {
      ThreeBytes(s[p], s[p + 1], s[p + 2]);
      SliceOfThree(s, p);
    } else {
      FourBytes(s[p], s[p + 1], s[p + 2], s[p + 3]);
      SliceOfFour(s, p);
    }
  }

  // Slices as displays, over any element type so that no bit-vector reasoning is in scope.

  lemma SliceOfTwo<T>(s: seq<T>, p: nat)
    requires p + 2 <= |s|
    ensures s[p..p + 2] == [s[p], s[p + 1]]
  {
  }

  lemma SliceOfThree<T>(s: seq<T>, p: nat)
    requires p + 3 <= |s|
    ensures s[p..p + 3] == [s[p], s[p + 1], s[p + 2]]
  {
  }

  lemma SliceOfFour<T>(s: seq<T>, p: nat)
    requires p + 4 <= |s|
    ensures s[p..p + 4] == [s[p], s[p + 1], s[p + 2], s[p + 3]]
  {
  }

  /** What the decoder computes from the bytes of an encoding: the code point itself. */
  lemma EncodingDecodesTo(value: CodePoint, s: seq<Byte>, p: nat)
    requires IsValidCodepoint(value) && Width(value) > 1
    requires p + Width(value) <= |s| && s[p..p + Width(value)] == Encode(value)
    ensures var n := Width(value) - 1;
      TrailLength(s[p]) == n && ReadTrailsUnchecked(s, p + 1, LeadBits(s[p], n), n).cp == value
  {
    hide Encode;
    var n := Width(value) - 1;
    UncheckedUnrolled(s, p + 1, LeadBits(s[p], n), n);
    if n == 1 {
      SliceOfTwo(s, p);
      Accumulates2(value);
    } else if n == 2 {
      SliceOfThree(s, p);
      Accumulates3(value);
    } else {
      SliceOfFour(s, p);
      Accumulates4(value);
    }
  }

  // What the decoder accumulates from the lead and continuation bytes of an encoding.

  lemma Accumulates2(value: CodePoint)
    requires IsValidCodepoint(value) && Width(value) == 2
    ensures var u := Encode(value); Shift(LeadBits(u[0], 1), u[1]) == value
  {
    var u := Encode(value);
    ShiftBits2(value, u[0], u[1]);
  }

  lemma Accumulates3(value: CodePoint)
    requires IsValidCodepoint(value) && Width(value) == 3
    ensures var u := Encode(value); Shift(Shift(LeadBits(u[0], 2), u[1]), u[2]) == value
  {
    var u := Encode(value);
    ShiftBits3(value, u[0], u[1], u[2]);
  }

  lemma Accumulates4(value: CodePoint)
    requires IsValidCodepoint(value) && Width(value) == 4
    ensures var u := Encode(value); Shift(Shift(Shift(LeadBits(u[0], 3), u[1]), u[2]), u[3]) == value
  {
    var u := Encode(value);
    assert value <= 0x10FFFF;
    ShiftBits4(value, u[0], u[1], u[2], u[3]);
  }

  /** Round trip: decoding the encoding of a valid code point gives it back and consumes
      exactly its width, whatever follows it. */
  lemma DecodeEncode(value: CodePoint, s: seq<Byte>, p: nat)
    requires IsValidCodepoint(value)
    requires p + Width(value) <= |s| && s[p..p + Width(value)] == Encode(value)
    ensures Decode(s, p) == Decoded(value, p + Width(value))
  {
    var u := Encode(value);
    var n := Width(value) - 1;
    assert s[p] == u[0];
    if n > 0 {
      EncodingDecodesTo(value, s, p);
      assert forall i | p + 1 <= i < p + 1 + n :: s[i] == u[i - p];
      ReadTrailsAllTrails(s, p + 1, LeadBits(s[p], n), n);
    }
  }

  /** The fall-through reader stops at the first missing or non-continuation byte. */
  lemma {:induction false} ReadTrailsStops(s: seq<Byte>, p: nat, c: CodePoint, n: nat, k: nat)
    requires p + k <= |s| && k < n
    requires forall i | p <= i < p + k :: IsTrail(s[i])
    ensures p + k == |s| ==> ReadTrails(s, p, c, n) == Stopped(Decoded(INCOMPLETE, |s|))
    ensures p + k < |s| && !IsTrail(s[p + k]) ==>
              ReadTrails(s, p, c, n) == Stopped(Decoded(ILLEGAL, p + k + 1))
    decreases k
  {
    if k > 0 {
      ReadTrailsStops(s, p + 1, Shift(c, s[p]), n - 1, k - 1);
    }
  }

  /** A lead byte that cannot start a sequence is illegal and only it is consumed. */
  lemma DecodeBadLead(s: seq<Byte>, p: nat)
    requires p < |s| && TrailLength(s[p]) < 0
    ensures Decode(s, p) == Decoded(ILLEGAL, p + 1)
  {
  }

  /** A byte that is not a continuation byte where one is expected is illegal; it is consumed. */
  lemma DecodeBadTrail(s: seq<Byte>, p: nat, k: nat)
    requires p < |s| && 1 <= k <= TrailLength(s[p]) && p + k < |s|
    requires forall i | p < i < p + k :: IsTrail(s[i])
    requires !IsTrail(s[p + k])
    ensures Decode(s, p) == Decoded(ILLEGAL, p + k + 1)
  {
    var n := TrailLength(s[p]);
    ReadTrailsStops(s, p + 1, LeadBits(s[p], n), n, k - 1);
  }

  /** A range that ends inside a sequence whose bytes so far are fine is incomplete, whatever
      value or form those bytes would have had: the range and shortest-form checks come later. */
  lemma DecodeTruncated(s: seq<Byte>, p: nat)
    requires p < |s| && |s| <= p + TrailLength(s[p])
    requires forall i | p < i < |s| :: IsTrail(s[i])
    ensures Decode(s, p) == Decoded(INCOMPLETE, |s|)
  {
    var n := TrailLength(s[p]);
    ReadTrailsStops(s, p + 1, LeadBits(s[p], n), n, |s| - p - 1);
  }

  /** E0 80 at the end of the range: the prefix of an overlong form, reported as incomplete;
      with one more continuation byte it is reported as illegal. */
  lemma TruncatedOverlong()
    ensures Decode([0xE0, 0x80], 0) == Decoded(INCOMPLETE, 2)
    ensures Decode([0xE0, 0x80, 0x80], 0) == Decoded(ILLEGAL, 3)
  {
    DecodeTruncated([0xE0, 0x80], 0);
    var s: seq<Byte> := [0xE0, 0x80, 0x80];
    ReadTrailsAllTrails(s, 1, LeadBits(0xE0, 2), 2);
    UncheckedUnrolled(s, 1, LeadBits(0xE0, 2), 2);
  }
}
