/** Bounded conversion (`basic_convert` and the buffer-based `narrow`/`widen`): converts a
    source range into a caller-supplied array of `buffer_size` units, one of which is kept for
    the NUL terminator, and returns the buffer, or null when the source is ill-formed or the
    buffer is too small. The allocating `narrow`/`widen` overloads delegate to `utf_to_utf`. */
module Convert {
  import opened Unicode
  import opened Codec
  import opened EncodingUtf

  /** How far the conversion loop gets with `budget` units of room: whether it ran to the end
      of the source, and the units it wrote. A code point is written whole or not at all. */
  datatype Run = Run(ok: bool, out: seq<Unit>)

  /** The loop of `basic_convert` from source position `p` with `budget` units left. */
  function BoundedRun(from: Encoding, to: Encoding, s: seq<Unit>, p: nat, budget: nat): (r: Run)
    requires p <= |s| && AllFit(from, s)
    ensures |r.out| <= budget
    decreases |s| - p
  {
    if p == |s| then Run(true, [])
    else
      var d := Decode(from, s, p);
      if d.cp == ILLEGAL || d.cp == INCOMPLETE then Run(false, [])
      else
        var width := Width(to, d.cp);
        if budget < width then Run(false, [])
        else
          var rest := BoundedRun(from, to, s, d.next, budget - width);
          Run(rest.ok, Encode(to, d.cp) + rest.out)
  }

  /** The whole effect of a bounded conversion on a buffer of `size` units: nothing for size 0;
      otherwise what the loop wrote, a 0 just after it (on failure too), the rest untouched. */
  ghost predicate Converted(from: Encoding, to: Encoding, source: seq<Unit>, size: nat,
                            before: seq<Unit>, after: seq<Unit>, ok: bool)
    requires AllFit(from, source)
  {
    size <= |before| && |after| == |before| &&
    if size == 0 then !ok && after == before
    else
      var run := BoundedRun(from, to, source, 0, size - 1);
      ok == run.ok && after == run.out + [0] + before[|run.out| + 1..]
  }

  function Then(written: seq<Unit>, r: Run): Run {
    Run(r.ok, written + r.out)
  }

  /** `basic_convert(buffer, buffer_size, source_begin, source_end)`. */
  method BasicConvert(to: Encoding, from: Encoding, buffer: array<Unit>, bufferSize: nat,
                      source: seq<Unit>) returns (rv: array?<Unit>)
    requires bufferSize <= buffer.Length && AllFit(from, source)
    modifies buffer
    ensures rv == null || rv == buffer
    ensures Converted(from, to, source, bufferSize, old(buffer[..]), buffer[..], rv != null)
  {
    // The loop needs only the lemmas below, not how the codecs or the run are defined.
    hide Codec.Decode, Codec.Encode, Codec.Width, BoundedRun, AllFit, IsValidCodepoint;
    rv := buffer;
    if bufferSize == 0 {
      rv := null;
      return;
    }
    ghost var before := buffer[..];
    var budget: nat := bufferSize - 1;
    var out: nat := 0;
    var begin: nat := 0;
    ghost var total := BoundedRun(from, to, source, 0, bufferSize - 1);
    ghost var written: seq<Unit> := [];
    while begin != |source|
      invariant begin <= |source| && out + budget == bufferSize - 1
      invariant rv == buffer && |written| == out
      invariant buffer[..] == written + before[out..]
      invariant total == Then(written, BoundedRun(from, to, source, begin, budget))
      decreases |source| - begin
    {
      ghost var at := begin;
      var c := Decode(from, source, begin);
      begin := c.next;
      if c.cp == ILLEGAL || c.cp == INCOMPLETE {
        rv := null;
        Stopped(from, to, source, at, budget, written, total);
        break;
      }
      var width := Width(to, c.cp);
      if budget < width {
        rv := null;
        Stopped(from, to, source, at, budget, written, total);
        break;
      }
      Advance(from, to, source, at, budget, written, before);
      out := EncodeInto(to, c.cp, buffer, out);
      budget := budget - width;
      written := written + Encode(to, c.cp);
    }
    if rv != null {
      Stopped(from, to, source, begin, budget, written, total);
    }
    buffer[out] := 0;
    Finished(from, to, source, bufferSize, before, written, rv != null);
  }

  /** `details::basic_strend`: the position of the terminating zero unit. */
  method StrEnd(s: seq<Unit>) returns (end: nat)
    requires 0 in s
    ensures end == Terminator(s)
  {
    end := 0;
    while s[end] != 0
      invariant end <= Terminator(s)
      decreases Terminator(s) - end
    {
      end := end + 1;
    }
  }

  /** What `wchar_t` holds: UTF-16 where it is two bytes wide (Windows), UTF-32 where it is
      four bytes wide (elsewhere). */
  datatype Platform = Windows | Posix

  function WideEncoding(platform: Platform): Encoding {
    match platform
    case Windows => Utf16
    case Posix => Utf32
  }

  /** `narrow(output, output_size, begin, end)`: wide range to NUL-terminated UTF-8. */
  method NarrowRange(platform: Platform, output: array<Unit>, outputSize: nat, source: seq<Unit>)
    returns (rv: array?<Unit>)
    requires outputSize <= output.Length && AllFit(WideEncoding(platform), source)
    modifies output
    ensures rv == null || rv == output
    ensures Converted(WideEncoding(platform), Utf8, source, outputSize, old(output[..]), output[..], rv != null)
  {
    rv := BasicConvert(Utf8, WideEncoding(platform), output, outputSize, source);
  }

  /** `narrow(output, output_size, source)`: NUL-terminated wide string to UTF-8; converts the
      units before the first zero. */
  method Narrow(platform: Platform, output: array<Unit>, outputSize: nat, source: seq<Unit>)
    returns (rv: array?<Unit>)
    requires 0 in source && outputSize <= output.Length && AllFit(WideEncoding(platform), source)
    modifies output
    ensures rv == null || rv == output
    ensures Converted(WideEncoding(platform), Utf8, source[..Terminator(source)], outputSize,
                      old(output[..]), output[..], rv != null)
  {
    var end := StrEnd(source);
    rv := BasicConvert(Utf8, WideEncoding(platform), output, outputSize, source[..end]);
  }

  /** `widen(output, output_size, begin, end)`: UTF-8 range to a NUL-terminated wide string. */
  method WidenRange(platform: Platform, output: array<Unit>, outputSize: nat, source: seq<Unit>)
    returns (rv: array?<Unit>)
    requires outputSize <= output.Length && AllFit(Utf8, source)
    modifies output
    ensures rv == null || rv == output
    ensures Converted(Utf8, WideEncoding(platform), source, outputSize, old(output[..]), output[..], rv != null)
  {
    rv := BasicConvert(WideEncoding(platform), Utf8, output, outputSize, source);
  }

  /** `widen(output, output_size, source)`: NUL-terminated UTF-8 to a wide string. */
  method Widen(platform: Platform, output: array<Unit>, outputSize: nat, source: seq<Unit>)
    returns (rv: array?<Unit>)
    requires 0 in source && outputSize <= output.Length && AllFit(Utf8, source)
    modifies output
    ensures rv == null || rv == output
    ensures Converted(Utf8, WideEncoding(platform), source[..Terminator(source)], outputSize,
                      old(output[..]), output[..], rv != null)
  {
    var end := StrEnd(source);
    rv := BasicConvert(WideEncoding(platform), Utf8, output, outputSize, source[..end]);
  }

  // The allocating overloads: conversion through `utf_to_utf`, whose `conversion_error` is
  // the Failure arm of the result.

  /** `narrow(s)`: NUL-terminated wide string to a UTF-8 string. */
  method NarrowCString(platform: Platform, s: seq<Unit>) returns (r: Result<seq<Unit>>)
    requires 0 in s && AllFit(WideEncoding(platform), s)
    ensures r == Transcode(WideEncoding(platform), Utf8, s[..Terminator(s)])
  {
    r := UtfToUtfCStr(WideEncoding(platform), Utf8, s);
  }

  /** `widen(s)`: NUL-terminated UTF-8 string to a wide string. */
  method WidenCString(platform: Platform, s: seq<Unit>) returns (r: Result<seq<Unit>>)
    requires 0 in s && AllFit(Utf8, s)
    ensures r == Transcode(Utf8, WideEncoding(platform), s[..Terminator(s)])
  {
    r := UtfToUtfCStr(Utf8, WideEncoding(platform), s);
  }

  /** `narrow(std::wstring)`: every unit of the string, embedded zeros included. */
  method NarrowString(platform: Platform, s: seq<Unit>) returns (r: Result<seq<Unit>>)
    requires AllFit(WideEncoding(platform), s)
    ensures r == Transcode(WideEncoding(platform), Utf8, s)
  {
    r := UtfToUtfString(WideEncoding(platform), Utf8, s);
  }

  /** `widen(std::string)`: every unit of the string, embedded zeros included. */
  method WidenString(platform: Platform, s: seq<Unit>) returns (r: Result<seq<Unit>>)
    requires AllFit(Utf8, s)
    ensures r == Transcode(Utf8, WideEncoding(platform), s)
  {
    r := UtfToUtfString(Utf8, WideEncoding(platform), s);
  }

  /** `narrow(begin, end)`: a wide range to a UTF-8 string. */
  method NarrowRangeString(platform: Platform, source: seq<Unit>) returns (r: Result<seq<Unit>>)
    requires AllFit(WideEncoding(platform), source)
    ensures r == Transcode(WideEncoding(platform), Utf8, source)
  {
    r := UtfToUtf(WideEncoding(platform), Utf8, source);
  }

  // ---------------------------------------------------------------------------------------
  // Proofs

  /** The bounded loop succeeds exactly when the unbounded conversion does and its result
      fits the budget; it then writes that result. */
  lemma {:induction false} BoundedRunMatchesTranscode(from: Encoding, to: Encoding, s: seq<Unit>,
                                                      p: nat, budget: nat)
    requires p <= |s| && AllFit(from, s)
    ensures var run := BoundedRun(from, to, s, p, budget);
      var cps := CodePoints(from, s, p);
      (run.ok <==> cps.Some? && |EncodeAll(to, cps.value)| <= budget) &&
      (run.ok ==> run.out == EncodeAll(to, cps.value))
    decreases |s| - p
  {
    hide Codec.Decode, Codec.Encode;
    if p < |s| {
      var d := Decode(from, s, p);
      if !IsSentinel(d.cp) {
        var width := Width(to, d.cp);
        var rest := CodePoints(from, s, d.next);
        CodePointsStep(from, s, p);
        if budget >= width {
          BoundedRunMatchesTranscode(from, to, s, d.next, budget - width);
        }
        if rest.Some? {
          EncodeAllCons(to, d.cp, rest.value);
        }
      }
    }
  }

  /** One step of the loop: a decoded code point that fits is written after what the loop
      wrote so far, in the run and in the buffer. */
  lemma Advance(from: Encoding, to: Encoding, s: seq<Unit>, p: nat, budget: nat,
                written: seq<Unit>, before: seq<Unit>)
    requires p < |s| && AllFit(from, s)
    requires !IsSentinel(Decode(from, s, p).cp) && Width(to, Decode(from, s, p).cp) <= budget
    requires |written| + budget < |before|
    ensures var d := Decode(from, s, p);
      var piece := Encode(to, d.cp);
      var buf := written + before[|written|..];
      Then(written, BoundedRun(from, to, s, p, budget)) ==
        Then(written + piece, BoundedRun(from, to, s, d.next, budget - Width(to, d.cp))) &&
      buf[..|written|] + piece + buf[|written| + |piece|..] ==
        (written + piece) + before[|written| + |piece|..]
  {
    hide Codec.Decode, Codec.Encode;
    var d := Decode(from, s, p);
    var piece := Encode(to, d.cp);
    var rest := BoundedRun(from, to, s, d.next, budget - Width(to, d.cp));
    assert written + (piece + rest.out) == (written + piece) + rest.out;
    SpliceStep(written, piece, before);
  }

  /** Writing `piece` just after `written` in a buffer that holds `written`, then what was
      there before. */
  lemma SpliceStep<T>(written: seq<T>, piece: seq<T>, before: seq<T>)
    requires |written| + |piece| <= |before|
    ensures var buf := written + before[|written|..];
      buf[..|written|] + piece + buf[|written| + |piece|..] ==
        (written + piece) + before[|written| + |piece|..]
  {
    var buf := written + before[|written|..];
    assert buf[..|written|] == written;
    assert buf[|written| + |piece|..] == before[|written| + |piece|..];
  }

  /** The loop has stopped at `p`, on a sentinel, for lack of room or at the end: what was
      written is all there is. */
  lemma Stopped(from: Encoding, to: Encoding, s: seq<Unit>, p: nat, budget: nat,
                written: seq<Unit>, total: Run)
    requires p <= |s| && AllFit(from, s)
    requires total == Then(written, BoundedRun(from, to, s, p, budget))
    requires p == |s| || IsSentinel(Decode(from, s, p).cp) || budget < Width(to, Decode(from, s, p).cp)
    ensures total == Run(p == |s|, written)
  {
    assert written + [] == written;
  }

  /** The loop's outcome and the terminator after it make up the whole effect. */
  lemma Finished(from: Encoding, to: Encoding, source: seq<Unit>, size: nat,
                 before: seq<Unit>, written: seq<Unit>, ok: bool)
    requires AllFit(from, source) && 0 < size <= |before|
    requires BoundedRun(from, to, source, 0, size - 1) == Run(ok, written)
    ensures |written| < |before|
    ensures Converted(from, to, source, size, before,
                      (written + before[|written|..])[|written| := 0], ok)
  {
    var out := |written|;
    var after := (written + before[out..])[out := 0];
    assert after[..out] == written;
    assert after[out + 1..] == before[out + 1..];
    assert after == written + [0] + before[out + 1..];
  }

  /** What the loop wrote before it stopped is a prefix of the full conversion result. */
  lemma {:induction false} BoundedRunPrefix(from: Encoding, to: Encoding, s: seq<Unit>,
                                            p: nat, budget: nat)
    requires p <= |s| && AllFit(from, s)
    requires CodePoints(from, s, p).Some?
    ensures BoundedRun(from, to, s, p, budget).out <= EncodeAll(to, CodePoints(from, s, p).value)
    decreases |s| - p
  {
    hide Codec.Decode, Codec.Encode;
    if p < |s| {
      var d := Decode(from, s, p);
      var width := Width(to, d.cp);
      var cps := CodePoints(from, s, p).value;
      CodePointsHead(from, s, p);
      assert cps[1..] == CodePoints(from, s, d.next).value;
      if budget >= width {
        BoundedRunPrefix(from, to, s, d.next, budget - width);
        var head := Encode(to, d.cp);
        var rest := BoundedRun(from, to, s, d.next, budget - width).out;
        PrefixAfter(head, rest, EncodeAll(to, cps[1..]));
      }
    }
  }

  lemma PrefixAfter(head: seq<Unit>, a: seq<Unit>, b: seq<Unit>)
    requires a <= b
    ensures head + a <= head + b
  {
    assert b == a + b[|a|..];
    assert head + b == (head + a) + b[|a|..];
  }

  /** What a bounded conversion promises its caller: null for a zero-size buffer, which is
      left alone; otherwise success exactly when the source is well-formed and its conversion
      plus the terminator fits, the buffer then holding that conversion and a 0; and never a
      write at or beyond `size`. */
  lemma ConvertedMeaning(from: Encoding, to: Encoding, source: seq<Unit>, size: nat,
                         before: seq<Unit>, after: seq<Unit>, ok: bool)
    requires AllFit(from, source)
    requires Converted(from, to, source, size, before, after, ok)
    ensures size == 0 ==> !ok && after == before
    ensures ok <==> size > 0 && Transcode(from, to, source).Success? &&
                    |Transcode(from, to, source).value| < size
    ensures ok ==> var r := Transcode(from, to, source).value;
                   after[..|r| + 1] == r + [0]
    ensures size > 0 ==> 0 in after[..size]
    ensures forall k | size <= k < |after| :: after[k] == before[k]
  {
    hide Codec.Decode, Codec.Encode;
    if size > 0 {
      var run := BoundedRun(from, to, source, 0, size - 1);
      BoundedRunMatchesTranscode(from, to, source, 0, size - 1);
      assert after[|run.out|] == 0;
    }
  }

  /** An empty source always succeeds with a lone terminator, given room for it. */
  lemma EmptySource(from: Encoding, to: Encoding, size: nat, before: seq<Unit>, after: seq<Unit>, ok: bool)
    requires size > 0 && Converted(from, to, [], size, before, after, ok)
    ensures ok && after[0] == 0
  {
  }
}
