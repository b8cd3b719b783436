/**
 * What one decode produces from a captured symbol run: the alignment
 * heuristic, the grouping of 24 symbols per LED and the LED cap. Beside it,
 * a synthetic encoder (the inverse of decoding) and the round-trip lemmas.
 */
module Frame {
  import opened RmtSymbol
  import opened GrbColor

  function Min(a: int, b: int): int { if a < b then a else b }

  /** high_duration_tick as the constructor sets it: a high phase under 8 ticks is a 1. */
  const DefaultThreshold: uint16 := 8

  /**
   * begin(): the number of LEDs one decode may produce, buf/24 - 1 but at
   * least 1. One LED's worth of symbols is kept spare for the alignment skip.
   */
  function MaxLeds(bufSize: nat): (m: nat)
    ensures m >= 1
    ensures bufSize >= 48 ==> (m + 1) * 24 <= bufSize < (m + 2) * 24
    ensures bufSize < 48 ==> m == 1
  {
    var n := bufSize / 24;
    if n > 1 then n - 1 else 1
  }

  /** The bit each symbol of a run decodes to. */
  function SymbolBits(s: seq<uint32>, threshold: uint16): (bits: seq<bool>)
    ensures |bits| == |s|
  {
    seq(|s|, i requires 0 <= i < |s| => DecodeBit(s[i], threshold))
  }

  /**
   * Where 24-bit grouping starts: 1 when the first symbol's high phase is
   * short and the second's is long (a spurious leading pulse), else 0.
   */
  function AlignOffset(s: seq<uint32>, threshold: uint16): (o: nat)
    ensures o <= 1
    ensures o == 1 <==> |s| > 1 && DecodeBit(s[0], threshold) && !DecodeBit(s[1], threshold)
  {
    if |s| > 1 then
      var p0 := ExtractPulseDurations(s[0]);
      var p1 := ExtractPulseDurations(s[1]);
      if p0.high < threshold && p1.high >= threshold then 1 else 0
    else
      0
  }

  /** Only the first two symbols take part in the alignment decision. */
  lemma AlignOffsetLooksAtTwo(s: seq<uint32>, s': seq<uint32>, threshold: uint16)
    requires |s| >= 2 && |s'| >= 2 && s[..2] == s'[..2]
    ensures AlignOffset(s, threshold) == AlignOffset(s', threshold)
  {
    assert s[0] == s[..2][0] && s[1] == s[..2][1];
    assert s'[0] == s'[..2][0] && s'[1] == s'[..2][1];
  }

  /** The value of the bits of symbols `start` up to `end`, read most significant first. */
  function ValueAt(s: seq<uint32>, threshold: uint16, start: nat, end: nat): (v: nat)
    requires start <= end <= |s|
    ensures v < Pow2(end - start)
    decreases end - start
  {
    if end == start then 0
    else 2 * ValueAt(s, threshold, start, end - 1) + (if DecodeBit(s[end - 1], threshold) then 1 else 0)
  }

  lemma {:induction false} ValueAtBits(s: seq<uint32>, threshold: uint16, start: nat, end: nat)
    requires start <= end <= |s|
    ensures ValueAt(s, threshold, start, end) == BitsValue(SymbolBits(s, threshold)[start..end])
    decreases end - start
  {
    if end > start {
      ValueAtBits(s, threshold, start, end - 1);
      var all := SymbolBits(s, threshold);
      var bits := all[start..end];
      assert bits[..|bits| - 1] == all[start..end - 1];
      assert bits[|bits| - 1] == DecodeBit(s[end - 1], threshold);
    }
  }

  /**
   * The colour carried by the 24 symbols starting at `start`: green from
   * the first eight, red from the next eight, blue from the last eight.
   */
  function ColorAt(s: seq<uint32>, threshold: uint16, start: nat): Color
    requires start + 24 <= |s|
  {
    assert Pow2(8) == 0x100;
    Color(ValueAt(s, threshold, start, start + 8),
          ValueAt(s, threshold, start + 8, start + 16),
          ValueAt(s, threshold, start + 16, start + 24))
  }

  /** The colour at `start` carries exactly the 24 bits of the symbols from `start` on. */
  lemma ColorAtBits(s: seq<uint32>, threshold: uint16, start: nat)
    requires start + 24 <= |s|
    ensures ColorBits(ColorAt(s, threshold, start)) == SymbolBits(s, threshold)[start..start + 24]
  {
    var bits := SymbolBits(s, threshold);
    var g, r, b := bits[start..start + 8], bits[start + 8..start + 16], bits[start + 16..start + 24];
    ValueAtBits(s, threshold, start, start + 8);
    ValueAtBits(s, threshold, start + 8, start + 16);
    ValueAtBits(s, threshold, start + 16, start + 24);
    NatBitsOfBitsValue(g);
    NatBitsOfBitsValue(r);
    NatBitsOfBitsValue(b);
    assert bits[start..start + 24] == g + r + b;
  }

  /**
   * The colours one decode of the run `s` yields: none below 24 symbols;
   * otherwise one per whole group of 24 after the alignment offset, capped
   * at `maxLeds`, a trailing partial group dropped.
   */
  function DecodeSpec(s: seq<uint32>, threshold: uint16, maxLeds: nat): (cs: seq<Color>)
    ensures |cs| <= maxLeds
    ensures cs != [] ==> AlignOffset(s, threshold) + 24 * |cs| <= |s|
    ensures forall k :: 0 <= k < |cs| ==> cs[k] == ColorAt(s, threshold, AlignOffset(s, threshold) + 24 * k)
  {
    if |s| < 24 then []
    else
      var o := AlignOffset(s, threshold);
      Groups(s, threshold, o, Min((|s| - o) / 24, maxLeds))
  }

  /** The colours of the `n` consecutive groups of 24 symbols from `o` on. */
  function Groups(s: seq<uint32>, threshold: uint16, o: nat, n: nat): (cs: seq<Color>)
    requires o + 24 * n <= |s|
    ensures |cs| == n
  {
    seq(n, k requires 0 <= k < n => ColorAt(s, threshold, o + 24 * k))
  }

  /** A sequence holding the colour of each group in turn, as many as DecodeSpec yields, is DecodeSpec. */
  lemma DecodeSpecFromColors(s: seq<uint32>, threshold: uint16, maxLeds: nat, offset: nat, cs: seq<Color>)
    requires |s| >= 24 && offset == AlignOffset(s, threshold)
    requires |cs| == Min((|s| - offset) / 24, maxLeds)
    requires offset + 24 * |cs| <= |s|
    requires forall k :: 0 <= k < |cs| ==> cs[k] == ColorAt(s, threshold, offset + 24 * k)
    ensures DecodeSpec(s, threshold, maxLeds) == cs
  {
    var d := DecodeSpec(s, threshold, maxLeds);
    assert |d| == |cs|;
    forall k | 0 <= k < |cs|
      ensures d[k] == cs[k]
    {
    }
  }

  /**
   * The number of colours decoded: min((n - offset) / 24, maxLeds), and zero
   * for a run shorter than one LED.
   */
  lemma DecodedCount(s: seq<uint32>, threshold: uint16, maxLeds: nat)
    ensures |DecodeSpec(s, threshold, maxLeds)| ==
      if |s| < 24 then 0 else Min((|s| - AlignOffset(s, threshold)) / 24, maxLeds)
  {
  }

  /**
   * Colour k carries, green then red then blue, most significant bit first,
   * the bits of symbols offset + 24k .. offset + 24k + 23.
   */
  lemma DecodedColorBits(s: seq<uint32>, threshold: uint16, maxLeds: nat, k: nat)
    requires k < |DecodeSpec(s, threshold, maxLeds)|
    ensures var start := AlignOffset(s, threshold) + 24 * k;
      start + 24 <= |s| &&
      ColorBits(DecodeSpec(s, threshold, maxLeds)[k]) == SymbolBits(s, threshold)[start..start + 24]
  {
    ColorAtBits(s, threshold, AlignOffset(s, threshold) + 24 * k);
  }

  // ---------------------------------------------------------------------
  // The inverse: synthesising the capture of a colour sequence

  /** The pulse a transmitter sends for a 0 bit and for a 1 bit, and the marker the peripheral reports. */
  datatype LineTiming = LineTiming(zero: Pulse, one: Pulse, marker: bool)

  predicate Encodable(lt: LineTiming)
  {
    lt.zero.high <= MaxDuration && lt.zero.low <= MaxDuration &&
    lt.one.high <= MaxDuration && lt.one.low <= MaxDuration
  }

  /** The threshold tells the two pulses apart: a 1 has a short high phase, a 0 a long one. */
  predicate SeparatedBy(lt: LineTiming, threshold: uint16)
  {
    Encodable(lt) && lt.one.high < threshold <= lt.zero.high
  }

  function EncodeBits(bits: seq<bool>, lt: LineTiming): (s: seq<uint32>)
    requires Encodable(lt)
    ensures |s| == |bits|
  {
    seq(|bits|, i requires 0 <= i < |bits| => PackSymbol(if bits[i] then lt.one else lt.zero, lt.marker))
  }

  lemma EncodeBitsRoundTrip(bits: seq<bool>, lt: LineTiming, threshold: uint16)
    requires SeparatedBy(lt, threshold)
    ensures SymbolBits(EncodeBits(bits, lt), threshold) == bits
  {
    var s := EncodeBits(bits, lt);
    forall i | 0 <= i < |bits|
      ensures DecodeBit(s[i], threshold) == bits[i]
    {
      assert ExtractPulseDurations(s[i]) == if bits[i] then lt.one else lt.zero;
    }
  }

  /** The bits of a colour sequence in transmission order. */
  function FrameBits(cs: seq<Color>): (bits: seq<bool>)
    ensures |bits| == 24 * |cs|
  {
    if cs == [] then [] else ColorBits(cs[0]) + FrameBits(cs[1..])
  }

  lemma {:induction false} FrameBitsAt(cs: seq<Color>, k: nat)
    requires k < |cs|
    ensures FrameBits(cs)[24 * k..24 * k + 24] == ColorBits(cs[k])
  {
    if k > 0 {
      FrameBitsAt(cs[1..], k - 1);
      assert FrameBits(cs)[24 * k..24 * k + 24] == FrameBits(cs[1..])[24 * (k - 1)..24 * (k - 1) + 24];
    }
  }

  /** The symbol run a capture of the colours `cs` holds. */
  function Encode(cs: seq<Color>, lt: LineTiming): (s: seq<uint32>)
    requires Encodable(lt)
    ensures |s| == 24 * |cs|
  {
    EncodeBits(FrameBits(cs), lt)
  }

  /** The first LED's green byte starts with the bits 1, 0. */
  predicate Misaligning(cs: seq<Color>)
  {
    |cs| > 0 && 0x80 <= cs[0].g < 0xC0
  }

  /** The alignment heuristic fires on an encoded run exactly when green starts with 1, 0. */
  lemma EncodedAlignment(cs: seq<Color>, lt: LineTiming, threshold: uint16)
    requires SeparatedBy(lt, threshold)
    ensures AlignOffset(Encode(cs, lt), threshold) == if Misaligning(cs) then 1 else 0
  {
    var s := Encode(cs, lt);
    if |cs| > 0 {
      EncodeBitsRoundTrip(FrameBits(cs), lt, threshold);
      FrameBitsAt(cs, 0);
      LeadingBits(cs[0]);
      assert DecodeBit(s[0], threshold) == SymbolBits(s, threshold)[0] == ColorBits(cs[0])[0];
      assert DecodeBit(s[1], threshold) == SymbolBits(s, threshold)[1] == ColorBits(cs[0])[1];
    }
  }

  /** In a run holding the encoding of `cs` from offset `o` on, the LED k group decodes to cs[k]. */
  lemma ColorAtEncoded(s: seq<uint32>, o: nat, cs: seq<Color>, lt: LineTiming, threshold: uint16, k: nat)
    requires SeparatedBy(lt, threshold)
    requires o <= |s| && s[o..] == Encode(cs, lt)
    requires k < |cs|
    ensures o + 24 * k + 24 <= |s|
    ensures ColorAt(s, threshold, o + 24 * k) == cs[k]
  {
    var start := o + 24 * k;
    EncodedGroupBits(s, o, cs, lt, threshold, k);
    ColorAtBits(s, threshold, start);
    ColorBitsInjective(ColorAt(s, threshold, start), cs[k]);
  }

  /** The bits decoded from the k-th group of an encoded run are the bits of colour k. */
  lemma EncodedGroupBits(s: seq<uint32>, o: nat, cs: seq<Color>, lt: LineTiming, threshold: uint16, k: nat)
    requires SeparatedBy(lt, threshold)
    requires o <= |s| && s[o..] == Encode(cs, lt)
    requires k < |cs|
    ensures o + 24 * k + 24 <= |s|
    ensures SymbolBits(s, threshold)[o + 24 * k..o + 24 * k + 24] == ColorBits(cs[k])
  {
    var start := o + 24 * k;
    var bits := SymbolBits(s, threshold);
    EncodeBitsRoundTrip(FrameBits(cs), lt, threshold);
    assert bits[o..] == FrameBits(cs) by {
      assert SymbolBits(s[o..], threshold) == bits[o..];
    }
    assert bits[start..start + 24] == FrameBits(cs)[24 * k..24 * k + 24];
    FrameBitsAt(cs, k);
  }

  /**
   * A run holding, from offset `o` on, the encoding of `cs`, and whose
   * alignment offset is `o`, decodes to `cs` up to the LED cap.
   */
  lemma DecodeEncodedFrom(s: seq<uint32>, o: nat, cs: seq<Color>, lt: LineTiming, threshold: uint16, maxLeds: nat)
    requires SeparatedBy(lt, threshold)
    requires o == AlignOffset(s, threshold) && o <= |s|
    requires s[o..] == Encode(cs, lt)
    ensures DecodeSpec(s, threshold, maxLeds) == cs[..Min(|cs|, maxLeds)]
  {
    var d := DecodeSpec(s, threshold, maxLeds);
    var n := Min(|cs|, maxLeds);
    assert |s| == o + 24 * |cs|;
    if |cs| == 0 {
      assert |s| < 24;
    } else {
      assert (|s| - o) / 24 == |cs|;
      assert |d| == n;
      forall k | 0 <= k < n
        ensures d[k] == cs[k]
      {
        ColorAtEncoded(s, o, cs, lt, threshold, k);
      }
    }
  }

  /**
   * Round trip: when green does not start with 1, 0, decoding an encoded
   * colour sequence gives the colours back, truncated to the LED cap.
   */
  lemma RoundTrip(cs: seq<Color>, lt: LineTiming, threshold: uint16, maxLeds: nat)
    requires SeparatedBy(lt, threshold)
    requires !Misaligning(cs)
    ensures DecodeSpec(Encode(cs, lt), threshold, maxLeds) == cs[..Min(|cs|, maxLeds)]
  {
    var s := Encode(cs, lt);
    EncodedAlignment(cs, lt, threshold);
    assert s[0..] == s;
    DecodeEncodedFrom(s, 0, cs, lt, threshold, maxLeds);
  }

  /**
   * The round trip fails when green starts with 1, 0: the first symbol is
   * skipped as spurious and one LED fewer is decoded.
   */
  lemma MisalignedRoundTrip(cs: seq<Color>, lt: LineTiming, threshold: uint16, maxLeds: nat)
    requires SeparatedBy(lt, threshold)
    requires Misaligning(cs)
    ensures |DecodeSpec(Encode(cs, lt), threshold, maxLeds)| == Min(|cs| - 1, maxLeds)
    ensures |cs| <= maxLeds ==> DecodeSpec(Encode(cs, lt), threshold, maxLeds) != cs
  {
    var s := Encode(cs, lt);
    EncodedAlignment(cs, lt, threshold);
    DecodedCount(s, threshold, maxLeds);
    if |s| >= 24 {
      assert (|s| - 1) / 24 == |cs| - 1;
    }
  }

  /**
   * A spurious short-high symbol in front of a frame whose first bit is 0 is
   * consumed by the alignment skip, and the colours come out intact.
   */
  lemma AlignmentSkip(spurious: uint32, cs: seq<Color>, lt: LineTiming, threshold: uint16, maxLeds: nat)
    requires SeparatedBy(lt, threshold)
    requires DecodeBit(spurious, threshold)
    requires |cs| > 0 && cs[0].g < 0x80
    ensures DecodeSpec([spurious] + Encode(cs, lt), threshold, maxLeds) == cs[..Min(|cs|, maxLeds)]
  {
    var e := Encode(cs, lt);
    var s := [spurious] + e;
    EncodeBitsRoundTrip(FrameBits(cs), lt, threshold);
    FrameBitsAt(cs, 0);
    LeadingBits(cs[0]);
    assert !DecodeBit(e[0], threshold) by {
      assert DecodeBit(e[0], threshold) == SymbolBits(e, threshold)[0] == ColorBits(cs[0])[0];
    }
    assert s[1] == e[0];
    assert s[1..] == e;
    DecodeEncodedFrom(s, 1, cs, lt, threshold, maxLeds);
  }

  /**
   * The worked example of the wire protocol: threshold 8 ticks, a 0 sent as
   * (high 12, low 6), a 1 as (high 4, low 14); one LED of green 0xFF, red
   * 0x00, blue 0x80 decodes to exactly that colour.
   */
  lemma WorkedExample(maxLeds: nat)
    requires maxLeds >= 1
    ensures var lt := LineTiming(zero := Pulse(12, 6), one := Pulse(4, 14), marker := true);
      DecodeSpec(Encode([Color(0xFF, 0x00, 0x80)], lt), DefaultThreshold, maxLeds) == [Color(0xFF, 0x00, 0x80)]
  {
    var lt := LineTiming(zero := Pulse(12, 6), one := Pulse(4, 14), marker := true);
    var cs := [Color(0xFF, 0x00, 0x80)];
    RoundTrip(cs, lt, DefaultThreshold, maxLeds);
    assert cs[..Min(|cs|, maxLeds)] == cs;
  }
}
