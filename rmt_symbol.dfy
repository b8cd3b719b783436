/**
 * One captured RMT symbol word and its classification into a WS2811 bit.
 *
 * A symbol is a 32-bit word holding two 16-bit halves; in each half the low
 * 15 bits are a duration in ticks. Bit 15 of the lower half (the "level0"
 * marker) tells the decoder which half it takes as the high phase. Masks and
 * shifts of the unsigned source are written as `%` and `/` by powers of two,
 * which is exact for non-negative values.
 */
module RmtSymbol {

  type uint16 = x: int | 0 <= x < 0x1_0000
  type uint32 = x: int | 0 <= x < 0x1_0000_0000

  /** The largest duration a 15-bit field can hold. */
  const MaxDuration: nat := 0x7FFF

  /** A resolved pulse: the high-phase and the low-phase durations, in ticks. */
  datatype Pulse = Pulse(high: uint16, low: uint16)

  /** `symbol_val & 0xFFFF` */
  function LowWord(v: uint32): uint16 { v % 0x1_0000 }

  /** `(symbol_val >> 16) & 0xFFFF` */
  function HighWord(v: uint32): uint16 { (v / 0x1_0000) % 0x1_0000 }

  /** `(low_word >> 15) & 0x01`: the marker bit, bit 15 of the word. */
  function Level0(v: uint32): (m: int)
    ensures m == 0 || m == 1
  {
    (LowWord(v) / 0x8000) % 2
  }

  /**
   * extractPulseDurations: when the marker is 1 the high phase is taken from
   * the upper half and the low phase from the lower half; otherwise the other
   * way round. Bit 31 (the upper half's own level bit) is never consulted.
   */
  function ExtractPulseDurations(v: uint32): (p: Pulse)
    ensures p.high <= MaxDuration && p.low <= MaxDuration
  {
    if Level0(v) == 1 then
      Pulse(high := HighWord(v) % 0x8000, low := LowWord(v) % 0x8000)
    else
      Pulse(high := LowWord(v) % 0x8000, low := HighWord(v) % 0x8000)
  }

  /**
   * The same resolution read off the whole word: bit 15 selects; the
   * durations are bits 0..14 and bits 16..30.
   */
  lemma PulseDurationsOfWord(v: uint32)
    ensures var p := ExtractPulseDurations(v);
      && p.high == (if (v / 0x8000) % 2 == 1 then (v / 0x1_0000) % 0x8000 else v % 0x8000)
      && p.low == (if (v / 0x8000) % 2 == 1 then v % 0x8000 else (v / 0x1_0000) % 0x8000)
  {
    WordSplit(v);
  }

  /** How the two halves of a word relate to divisions of the whole word. */
  lemma WordSplit(v: uint32)
    ensures v == LowWord(v) + 0x1_0000 * HighWord(v)
    ensures LowWord(v) % 0x8000 == v % 0x8000
    ensures HighWord(v) % 0x8000 == (v / 0x1_0000) % 0x8000
    ensures Level0(v) == (v / 0x8000) % 2
  {
    var lo: int, hi: int := LowWord(v), HighWord(v);
    assert v / 0x1_0000 == hi;
    assert v % 0x8000 == lo % 0x8000 by {
      assert v == lo + 0x8000 * (2 * hi);
    }
    assert v / 0x8000 == lo / 0x8000 + 2 * hi by {
      assert v == lo % 0x8000 + 0x8000 * (lo / 0x8000 + 2 * hi);
    }
  }

  /**
   * decodeBit, written as the source writes it (it repeats the resolution
   * rather than calling extractPulseDurations): a bit is 1 exactly when the
   * resolved high duration is strictly below the threshold.
   */
  function DecodeBit(v: uint32, threshold: uint16): (bit: bool)
    ensures bit <==> ExtractPulseDurations(v).high < threshold
  {
    var lowWord := LowWord(v);
    var highWord := HighWord(v);
    var level0 := Level0(v);
    var highDuration := if level0 == 1 then highWord % 0x8000 else lowWord % 0x8000;
    highDuration < threshold
  }

  /**
   * The word the capture peripheral would deliver for pulse `p` when it sets
   * the marker to `marker`: the inverse of ExtractPulseDurations.
   */
  function PackSymbol(p: Pulse, marker: bool): (v: uint32)
    requires p.high <= MaxDuration && p.low <= MaxDuration
    ensures ExtractPulseDurations(v) == p
    ensures Level0(v) == (if marker then 1 else 0)
  {
    var lo := if marker then p.low + 0x8000 else p.high;
    var hi := if marker then p.high else p.low;
    JoinWords(lo, hi);
    lo + 0x1_0000 * hi
  }

  /** Joining two halves into a word and splitting the word again gives the halves back. */
  lemma JoinWords(lo: uint16, hi: uint16)
    ensures LowWord(lo + 0x1_0000 * hi) == lo
    ensures HighWord(lo + 0x1_0000 * hi) == hi
  {
    var v := lo + 0x1_0000 * hi;
    assert v / 0x1_0000 == hi;
  }

  /** Bit 31 plays no part in the resolution: flipping it changes neither duration. */
  lemma Bit31Ignored(v: uint32)
    ensures ExtractPulseDurations((v + 0x8000_0000) % 0x1_0000_0000) == ExtractPulseDurations(v)
  {
    var lo: int, hi: int := LowWord(v), HighWord(v);
    WordSplit(v);
    var hi': uint16 := (hi + 0x8000) % 0x1_0000;
    assert (v + 0x8000_0000) % 0x1_0000_0000 == lo + 0x1_0000 * hi' by {
      if hi < 0x8000 {
        assert hi' == hi + 0x8000;
      } else {
        assert hi' == hi - 0x8000;
      }
    }
    JoinWords(lo, hi');
    assert hi' % 0x8000 == hi % 0x8000;
  }
}
