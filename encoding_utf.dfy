/** `conv::utf_to_utf`: converts a whole source sequence into a freshly built string of
    another encoding, growing it as needed, and throws `conversion_error` (here: returns
    `Failure`) on an illegal or incomplete source. */
module EncodingUtf {
  import opened Unicode
  import opened Codec

  /** `conversion_error` ("Conversion failed"); it carries no partial output. */
  datatype ConversionError = ConversionError

  datatype Result<T> = Success(value: T) | Failure(error: ConversionError)

  /** The code points that successive decoding steps read from s[p..], or None as soon as one
      step yields `illegal` or `incomplete`. */
  function CodePoints(e: Encoding, s: seq<Unit>, p: nat): (r: Option<seq<CodePoint>>)
    requires p <= |s| && AllFit(e, s)
    ensures r.Some? ==> AllValid(r.value)
    decreases |s| - p
  {
    if p == |s| then Some([])
    else
      var d := Decode(e, s, p);
      if IsSentinel(d.cp) then None
      else
        match CodePoints(e, s, d.next)
        case None => None
        case Some(rest) => Some([d.cp] + rest)
  }

  /** The encodings of `cps`, one after another. */
  function EncodeAll(e: Encoding, cps: seq<CodePoint>): (u: seq<Unit>)
    requires AllValid(cps)
  {
    if cps == [] then []
    else Encode(e, cps[0]) + EncodeAll(e, cps[1..])
  }

  /** The sum of the widths of `cps` in the encoding `e`. */
  function TotalWidth(e: Encoding, cps: seq<CodePoint>): nat {
    if cps == [] then 0
    else Width(e, cps[0]) + TotalWidth(e, cps[1..])
  }

  /** What `utf_to_utf` computes for the range `s`: the re-encoded code points, or the error. */
  function Transcode(from: Encoding, to: Encoding, s: seq<Unit>): Result<seq<Unit>>
    requires AllFit(from, s)
  {
    match CodePoints(from, s, 0)
    case None => Failure(ConversionError)
    case Some(cps) => Success(EncodeAll(to, cps))
  }

  /** The position of the first zero unit: the end of a NUL-terminated string. */
  function Terminator(s: seq<Unit>): (n: nat)
    requires 0 in s
    ensures n < |s| && s[n] == 0
    ensures forall k | 0 <= k < n :: s[k] != 0
  {
    if s[0] == 0 then 0 else 1 + Terminator(s[1..])
  }

  /** `done` decoded already, followed by what the rest of the source decodes to. */
  function Prepend(done: seq<CodePoint>, rest: Option<seq<CodePoint>>): Option<seq<CodePoint>> {
    match rest
    case None => None
    case Some(r) => Some(done + r)
  }

  /** `utf_to_utf(begin, end)`: the decode/encode loop appending to the result string. */
  method UtfToUtf(from: Encoding, to: Encoding, source: seq<Unit>) returns (r: Result<seq<Unit>>)
    requires AllFit(from, source)
    ensures r == Transcode(from, to, source)
  {
    hide Codec.Decode, Codec.Encode;
    var result: seq<Unit> := [];
    ghost var done: seq<CodePoint> := [];
    var begin := 0;
    PrependNothing(CodePoints(from, source, 0));
    while begin != |source|
      invariant begin <= |source|
      invariant AllValid(done) && result == EncodeAll(to, done)
      invariant CodePoints(from, source, 0) == Prepend(done, CodePoints(from, source, begin))
      decreases |source| - begin
    {
      var d := Decode(from, source, begin);
      if d.cp == ILLEGAL || d.cp == INCOMPLETE {
        return Failure(ConversionError);
      }
      EncodeAllSnoc(to, done, d.cp);
      result := result + Encode(to, d.cp);
      assert CodePoints(from, source, begin) == Prepend([d.cp], CodePoints(from, source, d.next));
      PrependTwice(done, [d.cp], CodePoints(from, source, d.next));
      done := done + [d.cp];
      begin := d.next;
    }
    assert done + [] == done;
    r := Success(result);
  }

  /** `utf_to_utf(str)` for a NUL-terminated `str`: scans for the terminator, then converts
      the units before it. */
  method UtfToUtfCStr(from: Encoding, to: Encoding, str: seq<Unit>) returns (r: Result<seq<Unit>>)
    requires 0 in str && AllFit(from, str)
    ensures r == Transcode(from, to, str[..Terminator(str)])
  {
    var end := 0;
    while str[end] != 0
      invariant end <= Terminator(str)
      decreases Terminator(str) - end
    {
      end := end + 1;
    }
    r := UtfToUtf(from, to, str[..end]);
  }

  /** `utf_to_utf(basic_string)`: converts all `str.size()` units, embedded zeros included. */
  method UtfToUtfString(from: Encoding, to: Encoding, str: seq<Unit>) returns (r: Result<seq<Unit>>)
    requires AllFit(from, str)
    ensures r == Transcode(from, to, str)
  {
    r := UtfToUtf(from, to, str);
  }

  // ---------------------------------------------------------------------------------------
  // Proofs

  lemma PrependNothing(rest: Option<seq<CodePoint>>)
    ensures Prepend([], rest) == rest
  {
    if rest.Some? {
      assert [] + rest.value == rest.value;
    }
  }

  lemma PrependTwice(a: seq<CodePoint>, b: seq<CodePoint>, rest: Option<seq<CodePoint>>)
    ensures Prepend(a, Prepend(b, rest)) == Prepend(a + b, rest)
  {
    if rest.Some? {
      assert a + (b + rest.value) == (a + b) + rest.value;
    }
  }

  lemma EncodeAllSnoc(e: Encoding, cps: seq<CodePoint>, c: CodePoint)
    requires AllValid(cps) && IsValidCodepoint(c)
    ensures AllValid(cps + [c])
    ensures EncodeAll(e, cps + [c]) == EncodeAll(e, cps) + Encode(e, c)
  {
    hide Codec.Encode;
    EncodeAllAppend(e, cps, [c]);
    assert EncodeAll(e, [c]) == Encode(e, c) + EncodeAll(e, []);
  }

  /** Encoding a concatenation is concatenating the encodings. */
  lemma {:induction false} EncodeAllAppend(e: Encoding, a: seq<CodePoint>, b: seq<CodePoint>)
    requires AllValid(a) && AllValid(b)
    ensures AllValid(a + b)
    ensures EncodeAll(e, a + b) == EncodeAll(e, a) + EncodeAll(e, b)
    decreases |a|
  {
    hide Codec.Encode;
    if a == [] {
      assert a + b == b;
    } else {
      var ab := a + b;
      assert ab[0] == a[0] && ab[1..] == a[1..] + b;
      EncodeAllAppend(e, a[1..], b);
      calc {
        EncodeAll(e, ab);
        Encode(e, a[0]) + EncodeAll(e, a[1..] + b);
        Encode(e, a[0]) + (EncodeAll(e, a[1..]) + EncodeAll(e, b));
        (Encode(e, a[0]) + EncodeAll(e, a[1..])) + EncodeAll(e, b);
      }
    }
  }

  /** Every unit of an encoding fits the encoding's character type. */
  lemma {:induction false} EncodeAllFits(e: Encoding, cps: seq<CodePoint>)
    requires AllValid(cps)
    ensures AllFit(e, EncodeAll(e, cps))
    decreases |cps|
  {
    if cps != [] {
      EncodeFits(e, cps[0]);
      EncodeAllFits(e, cps[1..]);
    }
  }

  /** The length of a conversion result is the sum of the output widths: there is no
      capacity limit and nothing is dropped. */
  lemma {:induction false} EncodeAllLength(e: Encoding, cps: seq<CodePoint>)
    requires AllValid(cps)
    ensures |EncodeAll(e, cps)| == TotalWidth(e, cps)
    decreases |cps|
  {
    if cps != [] {
      EncodeAllLength(e, cps[1..]);
    }
  }

  /** Soundness of decoding: what was decoded re-encodes to exactly the units read. */
  lemma {:induction false} CodePointsSound(e: Encoding, s: seq<Unit>, p: nat)
    requires p <= |s| && AllFit(e, s)
    requires CodePoints(e, s, p).Some?
    ensures EncodeAll(e, CodePoints(e, s, p).value) == s[p..]
    decreases |s| - p
  {
    hide Codec.Decode, Codec.Encode;
    if p < |s| {
      var d := Decode(e, s, p);
      CodePointsHead(e, s, p);
      CodePointsSound(e, s, d.next);
      DecodeIsEncoding(e, s, p);
      var cps := CodePoints(e, s, p).value;
      assert cps[1..] == CodePoints(e, s, d.next).value;
      assert s[p..] == s[p..d.next] + s[d.next..];
    }
  }

  /** Completeness of decoding: the concatenated encodings of valid code points decode back
      to exactly those code points. */
  lemma {:induction false} CodePointsComplete(e: Encoding, cps: seq<CodePoint>, s: seq<Unit>, p: nat)
    requires AllValid(cps) && AllFit(e, s)
    requires p <= |s| && s[p..] == EncodeAll(e, cps)
    ensures CodePoints(e, s, p) == Some(cps)
    decreases |cps|
  {
    // Only the codec's contracts are needed here, not how each encoding works.
    hide Codec.Decode, Codec.Encode;
    if cps == [] {
      assert p == |s|;
    } else {
      var c, w := cps[0], Width(e, cps[0]);
      CompleteHead(e, cps, s, p);
      CodePointsComplete(e, cps[1..], s, p + w);
      CodePointsCons(e, s, p, c, p + w, cps[1..]);
      assert cps == [c] + cps[1..];
    }
  }

  /** The first code point of a concatenation of encodings decodes first. */
  lemma CompleteHead(e: Encoding, cps: seq<CodePoint>, s: seq<Unit>, p: nat)
    requires cps != [] && AllValid(cps) && AllFit(e, s)
    requires p <= |s| && s[p..] == EncodeAll(e, cps)
    ensures p + Width(e, cps[0]) <= |s|
    ensures Decode(e, s, p) == Decoded(cps[0], p + Width(e, cps[0]))
    ensures s[p + Width(e, cps[0])..] == EncodeAll(e, cps[1..])
  {
    hide Codec.Decode, Codec.Encode;
    SplitAt(s, p, Encode(e, cps[0]), EncodeAll(e, cps[1..]));
    DecodeEncode(e, cps[0], s, p);
  }

  /** One step of `CodePoints`: a valid code point followed by a well-formed rest. */
  lemma CodePointsCons(e: Encoding, s: seq<Unit>, p: nat, c: CodePoint, q: nat, rest: seq<CodePoint>)
    requires p < |s| && AllFit(e, s)
    requires Decode(e, s, p) == Decoded(c, q) && IsValidCodepoint(c)
    requires CodePoints(e, s, q) == Some(rest)
    ensures CodePoints(e, s, p) == Some([c] + rest)
  {
    hide Codec.Decode;
  }

  /** The first step of a successful decoding: a code point, then a well-formed rest. */
  lemma CodePointsHead(e: Encoding, s: seq<Unit>, p: nat)
    requires p < |s| && AllFit(e, s) && CodePoints(e, s, p).Some?
    ensures var d := Decode(e, s, p);
      !IsSentinel(d.cp) && CodePoints(e, s, d.next).Some? &&
      CodePoints(e, s, p).value == [d.cp] + CodePoints(e, s, d.next).value
  {
    hide Codec.Decode;
  }

  /** One step of `CodePoints` past a code point that is not a sentinel. */
  lemma CodePointsStep(e: Encoding, s: seq<Unit>, p: nat)
    requires p < |s| && AllFit(e, s) && !IsSentinel(Decode(e, s, p).cp)
    ensures var d := Decode(e, s, p);
      CodePoints(e, s, p) == Prepend([d.cp], CodePoints(e, s, d.next))
  {
    hide Codec.Decode;
  }

  lemma EncodeAllCons(e: Encoding, c: CodePoint, rest: seq<CodePoint>)
    requires IsValidCodepoint(c) && AllValid(rest)
    ensures AllValid([c] + rest)
    ensures EncodeAll(e, [c] + rest) == Encode(e, c) + EncodeAll(e, rest)
  {
    hide Codec.Encode;
    assert ([c] + rest)[1..] == rest;
  }

  lemma SplitAt(s: seq<Unit>, p: nat, a: seq<Unit>, b: seq<Unit>)
    requires p <= |s| && s[p..] == a + b
    ensures p + |a| <= |s| && s[p..p + |a|] == a && s[p + |a|..] == b
  {
    assert s[p..p + |a|] == s[p..][..|a|];
    assert s[p + |a|..] == s[p..][|a|..];
  }

  /** A successful conversion decoded the whole source into code points whose encodings make
      up the source, and its result is their encodings in the target. */
  lemma TranscodeSound(from: Encoding, to: Encoding, s: seq<Unit>)
    requires AllFit(from, s) && Transcode(from, to, s).Success?
    ensures var cps := CodePoints(from, s, 0).value;
      AllValid(cps) && EncodeAll(from, cps) == s && Transcode(from, to, s).value == EncodeAll(to, cps)
  {
    CodePointsSound(from, s, 0);
    assert s[0..] == s;
  }

  /** A source made of the encodings of valid code points converts to their encodings in the
      target. */
  lemma TranscodeComplete(from: Encoding, to: Encoding, s: seq<Unit>, cps: seq<CodePoint>)
    requires AllFit(from, s) && AllValid(cps) && EncodeAll(from, cps) == s
    ensures Transcode(from, to, s) == Success(EncodeAll(to, cps))
  {
    assert s[0..] == s;
    CodePointsComplete(from, cps, s, 0);
  }

  /** `utf_to_utf` succeeds exactly on sources that are a concatenation of encodings of valid
      code points; the code points are then determined by the source. */
  lemma TranscodeSucceedsIffWellFormed(from: Encoding, to: Encoding, s: seq<Unit>)
    requires AllFit(from, s)
    ensures Transcode(from, to, s).Success? <==>
              exists cps :: AllValid(cps) && EncodeAll(from, cps) == s
    ensures forall cps :: AllValid(cps) && EncodeAll(from, cps) == s ==>
              Transcode(from, to, s) == Success(EncodeAll(to, cps))
  {
    if Transcode(from, to, s).Success? {
      TranscodeSound(from, to, s);
    }
    forall cps | AllValid(cps) && EncodeAll(from, cps) == s
      ensures Transcode(from, to, s) == Success(EncodeAll(to, cps))
    {
      TranscodeComplete(from, to, s, cps);
    }
  }

  /** An empty range converts to an empty string, never an error. */
  lemma TranscodeEmpty(from: Encoding, to: Encoding)
    ensures Transcode(from, to, []) == Success([])
  {
  }

  /** Converting a well-formed source to its own encoding returns it unchanged, because the
      decoders accept only shortest forms. */
  lemma TranscodeSameEncoding(e: Encoding, s: seq<Unit>)
    requires AllFit(e, s)
    requires Transcode(e, e, s).Success?
    ensures Transcode(e, e, s).value == s
  {
    CodePointsSound(e, s, 0);
    assert s[0..] == s;
  }

  /** Converting there and back returns the original source. */
  lemma TranscodeRoundTrip(a: Encoding, b: Encoding, s: seq<Unit>)
    requires AllFit(a, s)
    requires Transcode(a, b, s).Success?
    ensures AllFit(b, Transcode(a, b, s).value)
    ensures Transcode(b, a, Transcode(a, b, s).value) == Success(s)
  {
    var cps := CodePoints(a, s, 0).value;
    var t := EncodeAll(b, cps);
    EncodeAllFits(b, cps);
    assert t[0..] == t;
    CodePointsComplete(b, cps, t, 0);
    CodePointsSound(a, s, 0);
    assert s[0..] == s;
  }

  /** The length of a successful result is the sum of the output widths of the code points. */
  lemma TranscodeLength(from: Encoding, to: Encoding, s: seq<Unit>)
    requires AllFit(from, s)
    requires Transcode(from, to, s).Success?
    ensures |Transcode(from, to, s).value| == TotalWidth(to, CodePoints(from, s, 0).value)
  {
    EncodeAllLength(to, CodePoints(from, s, 0).value);
  }

  /** A zero unit inside a range passes through as a zero unit. */
  lemma TranscodeKeepsZeros(from: Encoding, to: Encoding, a: seq<Unit>, b: seq<Unit>)
    requires AllFit(from, a) && AllFit(from, b)
    requires Transcode(from, to, a).Success? && Transcode(from, to, b).Success?
    ensures AllFit(from, a + [0] + b)
    ensures Transcode(from, to, a + [0] + b)
              == Success(Transcode(from, to, a).value + [0] + Transcode(from, to, b).value)
  {
    hide Codec.Decode, Codec.Encode;
    TranscodeSound(from, to, a);
    TranscodeSound(from, to, b);
    var ca, cb := CodePoints(from, a, 0).value, CodePoints(from, b, 0).value;
    ZeroBetween(from, ca, cb);
    ZeroBetween(to, ca, cb);
    FitsAround(from, a, b);
    TranscodeComplete(from, to, a + [0] + b, ca + [0] + cb);
  }

  /** Encoding code points with a 0 between them puts a zero unit between their encodings. */
  lemma ZeroBetween(e: Encoding, a: seq<CodePoint>, b: seq<CodePoint>)
    requires AllValid(a) && AllValid(b)
    ensures AllValid(a + [0] + b)
    ensures EncodeAll(e, a + [0] + b) == EncodeAll(e, a) + [0] + EncodeAll(e, b)
  {
    hide Codec.Encode;
    EncodeZero(e);
    assert EncodeAll(e, [0]) == Encode(e, 0) + EncodeAll(e, []);
    EncodeAllAppend(e, a, [0]);
    EncodeAllAppend(e, a + [0], b);
  }

  lemma FitsAround(e: Encoding, a: seq<Unit>, b: seq<Unit>)
    requires AllFit(e, a) && AllFit(e, b)
    ensures AllFit(e, a + [0] + b)
  {
    EncodeZero(e);
  }

}
