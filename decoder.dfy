/**
 * The argb_decoder object: its receive session (the `receiving` flag and
 * the captured symbol count), the completion event that fills the symbol
 * buffer, and the decode step that turns the buffer into colours.
 *
 * Outcomes of the RMT driver and of `malloc` are parameters. Both buffers
 * exist from construction on; the flags `symbolsAllocated` and
 * `decodedAllocated` stand for the source's pointers being non-NULL.
 */
module ArgbDecoder {
  import opened RmtSymbol
  import opened GrbColor
  import opened Frame

  /** The session lifecycle: Idle, armed and waiting, or holding unconsumed symbols. */
  datatype SessionState = Idle | Receiving | DataReady

  datatype Option<T> = None | Some(value: T)

  class Decoder {
    /** rmt_rx_buf_size: capacity of the symbol buffer, in symbols. */
    const bufSize: nat
    /** high_duration_tick: a high phase shorter than this is a 1 bit. */
    const threshold: uint16
    /** rx_symbols_: the staging buffer the completion event fills. */
    const symbols: array<uint32>
    var symbolsAllocated: bool
    /** rx_channel_ != NULL */
    var hasChannel: bool
    /** max_leds_ */
    var maxLeds: nat
    /** decoded_leds_ and whether it is allocated */
    var decoded: array<Color>
    var decodedAllocated: bool
    /** decoded_led_count_ */
    var decodedCount: nat
    /** receiving_ and rx_symbol_num_, shared with the completion event */
    var receiving: bool
    var count: nat

    ghost predicate Valid()
      reads this
    {
      && symbols.Length == bufSize
      && (maxLeds == 0 || maxLeds == MaxLeds(bufSize))
      && decodedCount <= maxLeds
      && (decodedAllocated ==> maxLeds > 0 && decoded.Length == maxLeds)
      && (receiving ==> hasChannel && count == 0)
    }

    /** The session state the two shared fields encode. */
    function State(): SessionState
      reads this
    {
      if receiving then Receiving else if count > 0 then DataReady else Idle
    }

    /** The symbols captured in the pending session. */
    ghost function Pending(): seq<uint32>
      reads this, symbols
      requires count <= symbols.Length
    {
      symbols[..count]
    }

    /** The construction state: properties set, nothing allocated, no channel, Idle. */
    constructor (bufSize: nat, threshold: uint16)
      ensures Valid()
      ensures this.bufSize == bufSize && this.threshold == threshold
      ensures !symbolsAllocated && !hasChannel && !decodedAllocated
      ensures maxLeds == 0 && decodedCount == 0
      ensures State() == Idle
      ensures fresh(symbols) && fresh(decoded)
    {
      this.bufSize := bufSize;
      this.threshold := threshold;
      symbols := new uint32[bufSize];
      symbolsAllocated := false;
      hasChannel := false;
      maxLeds := 0;
      decoded := new Color[0];
      decodedAllocated := false;
      decodedCount := 0;
      receiving := false;
      count := 0;
    }

    /**
     * begin(): sets the LED cap from the buffer size, (re)allocates the
     * decoded buffer, and creates the channel unless one exists.
     * `allocOk` is the outcome of malloc, `channelOk` that of creating,
     * registering and enabling the RMT channel.
     */
    method Begin(allocOk: bool, channelOk: bool) returns (ok: bool)
      requires Valid()
      modifies this`maxLeds, this`decoded, this`decodedAllocated, this`hasChannel
      ensures Valid()
      ensures maxLeds == MaxLeds(bufSize)
      ensures decodedAllocated == allocOk
      ensures allocOk ==> fresh(decoded) && decoded.Length == maxLeds
      ensures !allocOk ==> decoded == old(decoded)
      ensures hasChannel == (old(hasChannel) || (allocOk && channelOk))
      ensures ok == (allocOk && (old(hasChannel) || channelOk))
    {
      maxLeds := MaxLeds(bufSize);
      decodedAllocated := false;
      if !allocOk {
        return false;
      }
      decoded := new Color[maxLeds];
      decodedAllocated := true;
      if hasChannel {
        return true;
      }
      if !channelOk {
        return false;
      }
      hasChannel := true;
      return true;
    }

    /**
     * startReceive(): without a channel, fails and changes nothing; while a
     * session is in flight, succeeds and changes nothing; otherwise
     * allocates the symbol buffer if needed, discards any undecoded count
     * and arms the receiver. `allocOk` is the outcome of malloc, `armOk`
     * that of rmt_receive.
     */
    method StartReceive(allocOk: bool, armOk: bool) returns (ok: bool)
      requires Valid()
      modifies this`receiving, this`symbolsAllocated, this`count
      ensures Valid()
      ensures !old(hasChannel) ==> !ok && unchanged(this)
      ensures old(hasChannel) && old(receiving) ==> ok && unchanged(this)
      ensures old(hasChannel) && !old(receiving) ==>
        && symbolsAllocated == (old(symbolsAllocated) || allocOk)
        && count == (if symbolsAllocated then 0 else old(count))
        && ok == (symbolsAllocated && armOk)
        && receiving == ok
      ensures ok <==> State() == Receiving
    {
      if !hasChannel {
        return false;
      }
      if receiving {
        return true;
      }
      receiving := true;
      if !symbolsAllocated {
        if !allocOk {
          receiving := false;
          return false;
        }
        symbolsAllocated := true;
      }
      count := 0;
      if !armOk {
        receiving := false;
        return false;
      }
      return true;
    }

    /** isReceiving() */
    function IsReceiving(): (r: bool)
      reads this
      ensures r <==> State() == Receiving
    {
      receiving
    }

    /** hasNewData(): a session has completed and its symbols are not yet consumed. */
    function HasNewData(): (r: bool)
      reads this
      ensures r <==> State() == DataReady
    {
      !receiving && count > 0
    }

    /** getDecodedLedCount() */
    function GetDecodedLedCount(): (n: nat)
      reads this
      requires Valid()
      ensures n <= maxLeds
      ensures decodedAllocated ==> n <= decoded.Length
    {
      decodedCount
    }

    /** getDecodedLeds(): the whole decoded buffer, or None for a NULL pointer. */
    function GetDecodedLeds(): (r: Option<seq<Color>>)
      reads this, decoded
      requires Valid()
      ensures r.Some? <==> decodedAllocated
      ensures r.Some? ==> |r.value| == maxLeds && r.value[..decodedCount] == decoded[..decodedCount]
    {
      if decodedAllocated then Some(decoded[..]) else None
    }

    /**
     * resetStuckReceive(): with a channel, disables and re-enables it and
     * forces the session to Idle, dropping any pending count; without a
     * channel it does nothing.
     */
    method ResetStuckReceive()
      requires Valid()
      modifies this`receiving, this`count
      ensures Valid()
      ensures old(hasChannel) ==> !receiving && count == 0 && State() == Idle
      ensures !old(hasChannel) ==> unchanged(this)
    {
      if !hasChannel {
        return;
      }
      receiving := false;
      count := 0;
    }

    /**
     * onRmtRxDone(): the completion event. It stores the reported count
     * first and copies the symbols only when that count is positive and
     * fits the buffer; in every case the session leaves Receiving.
     */
    method OnRmtRxDone(received: seq<uint32>)
      requires Valid()
      modifies this`count, this`receiving, symbols
      ensures Valid()
      ensures count == |received| && !receiving
      ensures State() == if |received| > 0 then DataReady else Idle
      ensures symbols[..] ==
        if symbolsAllocated && 0 < |received| <= symbols.Length
        then received + old(symbols[|received|..])
        else old(symbols[..])
      ensures symbolsAllocated && count <= symbols.Length ==> Pending() == received
    {
      count := |received|;
      if symbolsAllocated && count > 0 && count <= symbols.Length {
        forall i | 0 <= i < count {
          symbols[i] := received[i];
        }
      }
      receiving := false;
    }

    /**
     * What one run of decodeColorsFromSymbols leaves behind, given the
     * pending symbols `s` and the decoded buffer `before` it started from.
     */
    ghost predicate DecodedFrom(s: seq<uint32>, before: seq<Color>)
      reads this, decoded
    {
      && |before| == decoded.Length
      && if !symbolsAllocated || !decodedAllocated || |s| < 24 then
           decodedCount == 0 && count == |s| && decoded[..] == before
         else
           && count == 0
           && decodedCount <= decoded.Length
           && decodedCount == Min((|s| - AlignOffset(s, threshold)) / 24, maxLeds)
           && decoded[..decodedCount] == DecodeSpec(s, threshold, maxLeds)
           && decoded[decodedCount..] == before[decodedCount..]
    }

    /**
     * decodeColorsFromSymbols(): resolve the alignment offset, then read
     * the pending symbols 24 at a time, green, red, blue, most significant
     * bit first, up to the LED cap, writing decoded[0..decodedCount).
     * It reads only symbols below the pending count, so the early exit at
     * the end of the symbols is never taken.
     */
    method DecodeColorsFromSymbols()
      requires Valid()
      requires count <= symbols.Length
      modifies this`decodedCount, this`count, decoded
      ensures Valid()
      ensures DecodedFrom(old(Pending()), old(decoded[..]))
    {
      var symbolNum := count;
      decodedCount := 0;
      if !symbolsAllocated || !decodedAllocated || symbolNum < 24 {
        return;
      }
      ghost var s := symbols[..symbolNum];

      var symbolIdx := ResolveAlignment(symbolNum);
      ghost var offset := symbolIdx;

      var available := symbolNum - symbolIdx;
      var ledLimit := available / 24;
      if ledLimit > maxLeds {
        ledLimit := maxLeds;
      }

      FillColors(symbolIdx, ledLimit, symbolNum);
      count := 0;
      DecodeSpecFromColors(s, threshold, maxLeds, offset, decoded[..decodedCount]);
    }

    /**
     * The LED loop of decodeColorsFromSymbols: LED i is assembled from the
     * 24 symbols at offset + 24i and written to decoded[i], counting each
     * one in decodedCount, until `ledLimit` LEDs are written.
     */
    method FillColors(offset: nat, ledLimit: nat, symbolNum: nat)
      requires symbolNum <= symbols.Length && offset + 24 * ledLimit <= symbolNum
      requires ledLimit <= decoded.Length && decodedCount == 0
      modifies this`decodedCount, decoded
      ensures decodedCount == ledLimit
      ensures forall j :: 0 <= j < ledLimit ==> decoded[j] == ColorAt(symbols[..symbolNum], threshold, offset + 24 * j)
      ensures forall j :: ledLimit <= j < decoded.Length ==> decoded[j] == old(decoded[j])
    {
      ghost var s := symbols[..symbolNum];
      var symbolIdx := offset;
      var ledIdx := 0;
      while ledIdx < ledLimit
        invariant 0 <= ledIdx <= ledLimit
        invariant symbolIdx == offset + 24 * ledIdx
        invariant decodedCount == ledIdx
        invariant forall j :: 0 <= j < ledIdx ==> decoded[j] == ColorAt(s, threshold, offset + 24 * j)
        invariant forall j :: ledIdx <= j < decoded.Length ==> decoded[j] == old(decoded[j])
      {
        var color, complete;
        color, symbolIdx, complete := AssembleLed(symbolIdx, symbolNum);
        if !complete {
          break;
        }
        decoded[decodedCount] := color;
        decodedCount := decodedCount + 1;
        ledIdx := ledIdx + 1;
      }
    }

    /**
     * The alignment step of decodeColorsFromSymbols: skip the first symbol
     * when its high phase is short and the second's is long.
     */
    method ResolveAlignment(symbolNum: nat) returns (offset: nat)
      requires symbolNum <= symbols.Length
      ensures offset == AlignOffset(symbols[..symbolNum], threshold)
    {
      offset := 0;
      if symbolNum > 1 {
        var pulse0 := ExtractPulseDurations(symbols[0]);
        var pulse1 := ExtractPulseDurations(symbols[1]);
        if pulse0.high < threshold && pulse1.high >= threshold {
          offset := 1;
        }
      }
    }

    /**
     * The inner loop of decodeColorsFromSymbols: the 24 bits from symbol
     * `start` on, OR-ed into green, red and blue most significant bit
     * first. It stops early, reporting `complete` false, if it reaches the
     * end of the pending symbols; from a whole group it never does.
     */
    method AssembleLed(start: nat, symbolNum: nat) returns (color: Color, next: nat, complete: bool)
      requires symbolNum <= symbols.Length
      ensures complete <==> start + 24 <= symbolNum
      ensures complete ==> next == start + 24 && color == ColorAt(symbols[..symbolNum], threshold, start)
    {
      ghost var s := symbols[..symbolNum];
      ghost var whole := start + 24 <= symbolNum;
      ghost var bits := SymbolBits(s, threshold);
      var symbolIdx := start;
      var g, r, b := 0, 0, 0;
      var bitIdx := 0;
      while bitIdx < 24
        invariant 0 <= bitIdx <= 24
        invariant symbolIdx == start + bitIdx
        invariant bitIdx > 0 ==> symbolIdx <= symbolNum
        invariant whole ==> (g, r, b) == Assembled(bits, start, bitIdx)
      {
        if symbolIdx >= symbolNum {
          return Color(0, 0, 0), symbolIdx, false;
        }
        var bit := DecodeBit(symbols[symbolIdx], threshold);
        // One unfolding of Assembled, spelled out: it keeps this loop within the resource limit.
        if whole {
          assert bit == bits[start + bitIdx];
          assert Assembled(bits, start, bitIdx + 1) ==
            if bitIdx < 8 then (g + (if bit then Pow2(7 - bitIdx) else 0), r, b)
            else if bitIdx < 16 then (g, r + (if bit then Pow2(15 - bitIdx) else 0), b)
            else (g, r, b + (if bit then Pow2(23 - bitIdx) else 0));
        }
        if bitIdx < 8 {
          g := g + (if bit then Pow2(7 - bitIdx) else 0);
        } else if bitIdx < 16 {
          r := r + (if bit then Pow2(15 - bitIdx) else 0);
        } else {
          b := b + (if bit then Pow2(23 - bitIdx) else 0);
        }
        symbolIdx := symbolIdx + 1;
        bitIdx := bitIdx + 1;
      }
      AssembledColor(s, threshold, start, bitIdx);
      return Color(g, r, b), symbolIdx, true;
    }

    /**
     * decode(): does nothing unless hasNewData(); otherwise runs
     * decodeColorsFromSymbols. Fewer than 24 pending symbols leave the
     * session DataReady with no colours; otherwise it ends Idle.
     */
    method Decode()
      requires Valid()
      requires HasNewData() ==> count <= symbols.Length
      modifies this`decodedCount, this`count, decoded
      ensures Valid()
      ensures !old(HasNewData()) ==>
        decodedCount == old(decodedCount) && count == old(count) && decoded[..] == old(decoded[..])
      ensures old(HasNewData()) ==> DecodedFrom(old(Pending()), old(decoded[..]))
      ensures State() == if old(HasNewData()) && symbolsAllocated && decodedAllocated && old(count) >= 24
                         then Idle else old(State())
    {
      if !HasNewData() {
        return;
      }
      DecodeColorsFromSymbols();
    }
  }

  /**
   * A sketch's receive cycle on a fresh decoder: construct, begin,
   * startReceive, the completion event delivering a WS2811 frame of `cs`,
   * then decode. With a buffer one LED larger than the frame, the decoded
   * colours are the frame.
   */
  method ReceiveFrame(cs: seq<Color>, lt: LineTiming, threshold: uint16) returns (leds: seq<Color>)
    requires SeparatedBy(lt, threshold) && !Misaligning(cs)
    ensures leds == cs
  {
    var d := new Decoder(24 * (|cs| + 1), threshold);
    var ok := d.Begin(true, true);
    ok := d.StartReceive(true, true);
    var frame := Encode(cs, lt);
    d.OnRmtRxDone(frame);
    assert d.Pending() == frame;
    d.Decode();
    leds := d.decoded[..d.decodedCount];
    if |cs| > 0 {
      assert d.maxLeds == |cs|;
      RoundTrip(cs, lt, threshold, d.maxLeds);
    }
  }

  /** Clamp a bit position to one byte's worth of consumed bits. */
  function Clamp8(x: int): nat
  {
    if x < 0 then 0 else if x > 8 then 8 else x
  }

  /**
   * Green, red and blue after the first `k` of the 24 symbols from `start`
   * have been OR-ed in: bit i goes to position 7 - i of green, 15 - i of
   * red or 23 - i of blue. Each position is set once, so the OR is an
   * addition.
   */
  ghost function Assembled(bits: seq<bool>, start: nat, k: nat): (int, int, int)
    requires start + 24 <= |bits| && k <= 24
  {
    if k == 0 then (0, 0, 0)
    else
      var acc := Assembled(bits, start, k - 1);
      var i := k - 1;
      var bit := bits[start + i];
      if i < 8 then (acc.0 + (if bit then Pow2(7 - i) else 0), acc.1, acc.2)
      else if i < 16 then (acc.0, acc.1 + (if bit then Pow2(15 - i) else 0), acc.2)
      else (acc.0, acc.1, acc.2 + (if bit then Pow2(23 - i) else 0))
  }

  /**
   * A byte with the bits of the first `k` of the eight symbols from
   * `from` placed most significant first and the rest clear.
   */
  ghost function PartialByte(bits: seq<bool>, from: nat, k: nat): int
    requires from + 8 <= |bits| && k <= 8
  {
    if k == 0 then 0
    else PartialByte(bits, from, k - 1) + (if bits[from + k - 1] then Pow2(8 - k) else 0)
  }

  /** The three partial bytes after `k` of the 24 bits. */
  ghost function PartialBytes(bits: seq<bool>, start: nat, k: nat): (int, int, int)
    requires start + 24 <= |bits|
  {
    (PartialByte(bits, start, Clamp8(k)),
     PartialByte(bits, start + 8, Clamp8(k - 8)),
     PartialByte(bits, start + 16, Clamp8(k - 16)))
  }

  /** After `k` bits, each channel is the partial byte of its own eight symbols. */
  lemma {:induction false} AssembledBytes(bits: seq<bool>, start: nat, k: nat)
    requires start + 24 <= |bits| && k <= 24
    ensures Assembled(bits, start, k) == PartialBytes(bits, start, k)
  {
    if k > 0 {
      AssembledBytes(bits, start, k - 1);
      AssembledStep(bits, start, k);
    }
  }

  /** One more bit OR-ed in moves every channel on to its next partial byte. */
  lemma AssembledStep(bits: seq<bool>, start: nat, k: nat)
    requires start + 24 <= |bits| && 0 < k <= 24
    requires Assembled(bits, start, k - 1) == PartialBytes(bits, start, k - 1)
    ensures Assembled(bits, start, k) == PartialBytes(bits, start, k)
  {
    if k <= 8 {
      assert Clamp8(k) == k && Clamp8(k - 8) == Clamp8(k - 1 - 8) == 0 && Clamp8(k - 16) == Clamp8(k - 1 - 16) == 0;
    } else if k <= 16 {
      assert Clamp8(k) == Clamp8(k - 1) == 8 && Clamp8(k - 8) == k - 8 && Clamp8(k - 16) == Clamp8(k - 1 - 16) == 0;
    } else {
      assert Clamp8(k) == Clamp8(k - 1) == 8 && Clamp8(k - 8) == Clamp8(k - 1 - 8) == 8 && Clamp8(k - 16) == k - 16;
    }
  }

  /** The partial byte is the value of the bits set so far, shifted into place. */
  lemma {:induction false} PartialByteValue(s: seq<uint32>, threshold: uint16, from: nat, k: nat)
    requires from + 8 <= |s| && k <= 8
    ensures PartialByte(SymbolBits(s, threshold), from, k) == ValueAt(s, threshold, from, from + k) * Pow2(8 - k)
  {
    if k > 0 {
      PartialByteValue(s, threshold, from, k - 1);
      ByteStep(s, threshold, from, k - 1);
    }
  }

  /** Adding bit j of a byte at position 7 - j extends the shifted prefix value by one bit. */
  lemma ByteStep(s: seq<uint32>, threshold: uint16, from: nat, j: nat)
    requires from + 8 <= |s| && j < 8
    ensures ValueAt(s, threshold, from, from + j) * Pow2(8 - j)
              + (if DecodeBit(s[from + j], threshold) then Pow2(7 - j) else 0)
            == ValueAt(s, threshold, from, from + j + 1) * Pow2(8 - (j + 1))
  {
    var p := Pow2(7 - j);
    assert Pow2(8 - j) == 2 * p;
    var v := ValueAt(s, threshold, from, from + j);
    var e := if DecodeBit(s[from + j], threshold) then 1 else 0;
    ShiftIn(v, e, p);
  }

  /** Distributing the shift, stated apart from the symbols so the solver sees only arithmetic. */
  lemma ShiftIn(v: int, e: int, p: int)
    ensures (2 * v + e) * p == v * (2 * p) + e * p
  {
  }

  /** Once all 24 bits are in, the three channels are the colour the symbols at `start` carry. */
  lemma AssembledColor(s: seq<uint32>, threshold: uint16, start: nat, k: nat)
    requires start + 24 <= |s| && k == 24
    ensures var acc := Assembled(SymbolBits(s, threshold), start, k);
      && 0 <= acc.0 < 0x100 && 0 <= acc.1 < 0x100 && 0 <= acc.2 < 0x100
      && Color(acc.0, acc.1, acc.2) == ColorAt(s, threshold, start)
  {
    var bits := SymbolBits(s, threshold);
    // k stands for 24 and w for 8: with literal arguments the solver unrolls the recursions.
    var w := k - 16;
    AssembledBytes(bits, start, k);
    assert Clamp8(k) == Clamp8(k - 8) == Clamp8(k - 16) == w;
    PartialByteValue(s, threshold, start, w);
    PartialByteValue(s, threshold, start + 8, w);
    PartialByteValue(s, threshold, start + 16, w);
    assert Pow2(w - w) == 1 && Pow2(w) == 0x100;
  }
}
