# argb_decoder: a verified model of the WS2811 symbol decoder

The `argb_decoder` class receives a single-wire WS2811-style LED line through
the ESP32 RMT capture peripheral. Each captured *symbol* is a 32-bit word
that holds two 15-bit phase durations. A marker bit says which half is the
high phase. A bit is 1 when the high phase is shorter than
`high_duration_tick` (8 ticks by default). Symbols are read 24 to an LED,
green then red then blue, most significant bit first. A spurious leading
symbol is skipped by an alignment heuristic, and the LED count is capped at
`max_leds_ = rmt_rx_buf_size/24 - 1`, but never below 1. Around the decoder sits a small
receive session: `receiving_` and `rx_symbol_num_` are driven by
`startReceive`, the completion event, `resetStuckReceive` and `decode`.

The project has four modules:

- `rmt_symbol.dfy` (`RmtSymbol`): splitting a symbol word, `extractPulseDurations`, `decodeBit`, and the inverse packing of a pulse into a word.
- `grb_color.dfy` (`GrbColor`): `GRB_Color` and the most-significant-bit-first reading of a byte.
- `frame.dfy` (`Frame`): the LED cap, the alignment offset and `DecodeSpec`. `DecodeSpec` is the functional specification of one decode: the colours a symbol run yields. The module also has a synthetic encoder that sends colours as symbols, and the round-trip lemmas.
- `decoder.dfy` (`ArgbDecoder`): the `Decoder` class. Its fields are the object's state and its methods are the object's operations. The decode loops are proved against `DecodeSpec`.

The source ORs each bit into a byte that starts at zero, and each position is set only once. The model therefore writes the OR as an addition. Masks and shifts of the unsigned words are written as `%` and `/` by powers of two.

## Model

| member | source | states |
|---|---|---|
| RmtSymbol.LowWord | transmitter/argb_decoder.cpp:157 | the lower 16 bits of the word (no contract of its own; its relation to the whole word is `RmtSymbol.WordSplit`) |
| RmtSymbol.HighWord | transmitter/argb_decoder.cpp:158 | the upper 16 bits of the word (no contract of its own; see `RmtSymbol.WordSplit`) |
| RmtSymbol.WordSplit | transmitter/argb_decoder.cpp:157-159 | the word is low + 0x10000 * high; the 15-bit fields of the halves are bits 0..14 and 16..30 of the word; the marker is bit 15 |
| RmtSymbol.Level0 | transmitter/argb_decoder.cpp:159 | the marker bit is 0 or 1 |
| RmtSymbol.ExtractPulseDurations | transmitter/argb_decoder.cpp:154-167 | both extracted durations are at most 0x7FFF |
| RmtSymbol.PulseDurationsOfWord | transmitter/argb_decoder.cpp:157-166 | when bit 15 of the word is set, high is `(v>>16)&0x7FFF` and low is `v&0x7FFF`; otherwise the other way round |
| RmtSymbol.DecodeBit | transmitter/argb_decoder.cpp:170-176 | decodeBit is 1 exactly when the high duration from extractPulseDurations is below the threshold, so the two resolutions always agree |
| RmtSymbol.PackSymbol | transmitter/argb_decoder.cpp:154-167 | for every pulse with 15-bit durations and either marker value there is a word that resolves back to that pulse with that marker (the inverse of extraction) |
| RmtSymbol.Bit31Ignored | transmitter/argb_decoder.cpp:157-166 | flipping bit 31 changes neither extracted duration |
| GrbColor.BitsValue | transmitter/argb_decoder.cpp:207-213 | n bits read most significant first give a value below 2^n |
| GrbColor.NatBitsAt | transmitter/argb_decoder.cpp:207-213 | bit j of the MSB-first expansion of x over n bits is bit n-1-j of x |
| GrbColor.BitsValueOfNatBits | transmitter/argb_decoder.cpp:207-213 | reading back the bits of a number below 2^n gives the number |
| GrbColor.NatBitsOfBitsValue | transmitter/argb_decoder.cpp:207-213 | writing out the value of a bit string gives the bit string |
| GrbColor.ByteBitsOfByteOf | transmitter/argb_decoder.cpp:207-213 | eight bits assembled into a byte and expanded again give the same bits |
| GrbColor.ByteOfByteBits | transmitter/argb_decoder.cpp:207-213 | a byte expanded to bits and assembled again is the same byte |
| GrbColor.ColorOfBits | transmitter/argb_decoder.h:16-20 | every 24-bit string is the transmission of some GRB colour |
| GrbColor.ColorOfColorBits | transmitter/argb_decoder.h:16-20 | a colour sent as 24 bits and read back is the same colour |
| GrbColor.ColorBitsInjective | transmitter/argb_decoder.h:16-20 | two colours sent as the same 24 bits are equal |
| GrbColor.LeadingBits | transmitter/argb_decoder.cpp:207-208 | the first two bits sent for a colour are green's bits 7 and 6 |
| Frame.MaxLeds | transmitter/argb_decoder.cpp:49-50 | the LED cap is at least 1; for buffers of 48 or more symbols one LED plus one spare group fit, `(m+1)*24 <= buf < (m+2)*24`; below 48 it is 1 |
| Frame.SymbolBits | transmitter/argb_decoder.cpp:205-206 | decodeBit applied to every symbol of the run, one bit per symbol |
| Frame.AlignOffset | transmitter/argb_decoder.cpp:185-195 | the offset is 1 exactly when there are two symbols, symbol 0 decodes to 1 and symbol 1 decodes to 0; otherwise 0 |
| Frame.AlignOffsetLooksAtTwo | transmitter/argb_decoder.cpp:186-194 | runs that agree on their first two symbols have the same offset |
| Frame.ValueAt | transmitter/argb_decoder.cpp:203-213 | the value assembled from end-start symbols fits in end-start bits |
| Frame.ValueAtBits | transmitter/argb_decoder.cpp:203-213 | that value is the MSB-first reading of the decoded bits of those symbols |
| Frame.ColorAt | transmitter/argb_decoder.cpp:202-219 | one LED's colour: green, red and blue are the MSB-first values of the three runs of eight symbols from `start` (no contract of its own; its bit content is `Frame.ColorAtBits`) |
| Frame.ColorAtBits | transmitter/argb_decoder.cpp:201-219 | the colour at a position is sent as exactly the 24 decoded bits of the symbols from there on |
| Frame.DecodeSpec | transmitter/argb_decoder.cpp:183-220 | one decode yields at most max_leds_ colours, all read inside the run; colour k is the group at offset + 24k |
| Frame.DecodeSpecFromColors | transmitter/argb_decoder.cpp:201-220 | the right number of colours, each the colour of its group, is the decode |
| Frame.DecodedCount | transmitter/argb_decoder.cpp:183-199 | the decoded count is `min((n - offset)/24, max_leds_)`; it is 0 below 24 symbols |
| Frame.DecodedColorBits | transmitter/argb_decoder.cpp:201-219 | colour k carries g, r and b from the bits of symbols offset+24k to offset+24k+23, MSB first |
| Frame.EncodeBitsRoundTrip | transmitter/argb_decoder.cpp:170-176 | with the threshold between the short and the long high phase, encoded bits decode back to themselves |
| Frame.FrameBitsAt | transmitter/argb_decoder.cpp:201-215 | LED k occupies bits 24k to 24k+23 of the frame |
| Frame.EncodedAlignment | transmitter/argb_decoder.cpp:185-195 | on an encoded frame, the alignment skip fires exactly when green starts with bits 1, 0 (0x80 <= g < 0xC0) |
| Frame.EncodedGroupBits | transmitter/argb_decoder.cpp:201-215 | group k of an encoded run decodes to the bits of colour k |
| Frame.ColorAtEncoded | transmitter/argb_decoder.cpp:201-219 | group k of an encoded run is read as colour k |
| Frame.DecodeEncodedFrom | transmitter/argb_decoder.cpp:197-220 | a run that holds an encoded frame from its alignment offset on decodes to that frame, truncated to the cap |
| Frame.RoundTrip | transmitter/argb_decoder.cpp:185-220 | when green does not start with 1, 0, decoding an encoded frame gives the colours back, truncated to the cap |
| Frame.MisalignedRoundTrip | transmitter/argb_decoder.cpp:192-193 | when green starts with 1, 0, the first symbol is skipped and one LED fewer is decoded, so an uncapped frame never survives |
| Frame.AlignmentSkip | transmitter/argb_decoder.cpp:185-195 | a spurious short-high symbol in front of a frame whose first bit is 0 is skipped, and the colours come out intact |
| Frame.WorkedExample | transmitter/argb_decoder.h:27 | with the default threshold of 8 ticks, one LED (0xFF, 0x00, 0x80) sent as (12,6)/(4,14) pulses decodes to itself |
| ArgbDecoder.Decoder.Valid | transmitter/argb_decoder.h:56-63 | the invariant over the object's fields: the symbol buffer has the configured size, max_leds_ is 0 before begin and the computed cap after it, the decoded count is within the cap, an allocated decoded buffer has max_leds_ entries, and a session in flight has a channel and count 0 (a predicate, no contract of its own) |
| ArgbDecoder.Decoder.State | transmitter/argb_decoder.h:39-45 | the session state the fields `receiving_` and `rx_symbol_num_` encode: Receiving, DataReady when not receiving with symbols pending, else Idle (no contract of its own; `IsReceiving` and `HasNewData` are stated in it) |
| ArgbDecoder.Decoder.constructor | transmitter/argb_decoder.cpp:14-26 | the properties are set, nothing is allocated, there is no channel, and the session is Idle; both buffers are new and belong to this instance alone |
| ArgbDecoder.Decoder.Begin | transmitter/argb_decoder.cpp:46-94 | sets the LED cap; the decoded buffer exists exactly when allocation succeeded, as a new buffer of max_leds_ entries (a failed allocation leaves the old array standing in for NULL); a channel that exists is kept; success means allocation succeeded and a channel is now present |
| ArgbDecoder.Decoder.StartReceive | transmitter/argb_decoder.cpp:97-123 | without a channel it fails and changes nothing; while receiving it succeeds and changes nothing; otherwise it allocates if needed, zeroes the count and reports success exactly when it is left Receiving |
| ArgbDecoder.Decoder.IsReceiving | transmitter/argb_decoder.h:39 | true exactly in the Receiving state, reading state only |
| ArgbDecoder.Decoder.HasNewData | transmitter/argb_decoder.h:45 | true exactly when `!receiving_ && rx_symbol_num_ > 0`, the DataReady state |
| ArgbDecoder.Decoder.GetDecodedLedCount | transmitter/argb_decoder.h:53 | the count never exceeds max_leds_ or the decoded buffer |
| ArgbDecoder.Decoder.GetDecodedLeds | transmitter/argb_decoder.h:52 | NULL exactly when the decoded buffer is not allocated; otherwise the buffer as it stands, max_leds_ entries; its first decodedCount entries are the colours last decoded only if `begin` has not run since (see "Differences") |
| ArgbDecoder.Decoder.ResetStuckReceive | transmitter/argb_decoder.cpp:126-132 | with a channel the session ends Idle with count 0; without one nothing changes |
| ArgbDecoder.Decoder.OnRmtRxDone | transmitter/argb_decoder.cpp:135-142 | the count becomes the reported number and the session leaves Receiving; symbols are copied only when the buffer exists and 0 < n <= capacity, the rest of the buffer unchanged |
| ArgbDecoder.Decoder.DecodeColorsFromSymbols | transmitter/argb_decoder.cpp:179-223 | with a missing buffer or fewer than 24 symbols: count 0 decoded and the data left pending; otherwise decoded[0..count) is `DecodeSpec` of the pending symbols, count is `min((n-offset)/24, max_leds_)`, the rest of the buffer is untouched and the pending count is cleared |
| ArgbDecoder.Decoder.ResolveAlignment | transmitter/argb_decoder.cpp:185-195 | the offset computed from the two pulses is `AlignOffset` of the pending symbols |
| ArgbDecoder.Decoder.FillColors | transmitter/argb_decoder.cpp:201-220 | writes exactly ledLimit colours, colour j being the group at offset+24j, and leaves the rest of the buffer unchanged |
| ArgbDecoder.Decoder.AssembleLed | transmitter/argb_decoder.cpp:202-215 | the inner loop completes exactly when at least 24 symbols remain from the start (so `goto done` is never taken from a whole group); it then yields the colour of that group and advances by 24 |
| ArgbDecoder.Decoder.Decode | transmitter/argb_decoder.cpp:226-228 | nothing changes unless hasNewData(); otherwise as decodeColorsFromSymbols, ending Idle exactly when a decode ran over at least 24 symbols with both buffers present |
| ArgbDecoder.ReceiveFrame | transmitter/argb_decoder.h:29-52 | the documented call sequence on a new decoder (construct, begin, startReceive, completion event, decode) with a buffer one LED larger than a well-separated, aligned frame yields exactly the frame's colours |
| ArgbDecoder.AssembledBytes | transmitter/argb_decoder.cpp:203-215 | after k bits, each channel holds the bits of its own eight symbols received so far, in place |
| ArgbDecoder.AssembledStep | transmitter/argb_decoder.cpp:207-214 | one more bit moves each channel on to its next partial byte |
| ArgbDecoder.PartialByteValue | transmitter/argb_decoder.cpp:207-213 | a partial byte is the value of the bits set so far, shifted into its top positions |
| ArgbDecoder.ByteStep | transmitter/argb_decoder.cpp:207-213 | OR-ing bit j in at position 7-j extends the shifted prefix value by that bit |
| ArgbDecoder.AssembledColor | transmitter/argb_decoder.cpp:202-219 | after all 24 bits, g, r and b are bytes and form the colour of the group |

## Left out

- RMT driver calls are not modelled. These are channel creation, callback registration, enable/disable/delete and `rmt_receive`. Each outcome is a boolean parameter of `Begin` or `StartReceive`.
- The GPIO number, clock resolution and nanosecond signal-range settings are hardware configuration and are not modelled.
- `malloc`, `free` and the destructor are left out. Both buffers exist from construction on; the flags `symbolsAllocated` and `decodedAllocated` stand for the pointers being non-NULL. `Begin` reallocates the decoded buffer as a fresh array.
- ArgbDecoder.Decoder.Valid: the two public properties `rmt_rx_buf_size` and `high_duration_tick` are fixed at construction (`bufSize` and `threshold` are constants), while the source lets a caller assign them at any time. Every contract is parametric in the threshold, so fixing it loses nothing. Fixing the size does: `decodedCount <= maxLeds` in `Valid` and `GetDecodedLedCount`'s bound hold only because of it. In the source, lowering the size and calling `begin` again shrinks `max_leds_` and the new decoded buffer but leaves `decoded_led_count_` alone (size 1024, 41 LEDs decoded, size set to 96, `begin`: `max_leds_` is 3 and `getDecodedLedCount()` still returns 41, past the end of `getDecodedLeds()`). Raising the size after the symbol buffer exists leaves that buffer at its old size, because it is allocated only while NULL, while `rmt_receive` and the bounds check in the completion event use the new size. The model captures neither.
- The `volatile` handoff between the completion interrupt and the main loop is not modelled; `OnRmtRxDone` is an ordinary method. The static `rmtRxDoneCallback` trampoline only casts a pointer and is not modelled.
- The `memcpy` from the driver's buffer is not modelled as such. The received symbols are a sequence and the copy assigns a prefix, so aliasing between the driver's buffer and the staging buffer is not modelled.
- Pointer type-punning of a symbol to `uint32_t` is not modelled; symbols are 32-bit values.
- `size_t` arithmetic is unbounded. The counts involved are at most the buffer size, so no wrap-around arises.
- ArgbDecoder.Decoder.Decode: requires `count <= symbols.Length` while data is pending. The completion event stores the reported count before checking it, so a count larger than the buffer would make the decode loop read past the buffer. `rmt_receive` is given the buffer's size, so the driver does not report more.

## Differences between the code and its documentation

The model follows the code in each of these places:

- After `decode` with fewer than 24 pending symbols, or with a missing buffer, the data stays pending. The session is still DataReady, not Idle, because `rx_symbol_num_` is cleared only after the loop.
- `resetStuckReceive` without a channel does nothing.
- `begin` does not roll back on failure. It sets `max_leds_` and frees the old decoded buffer before the `malloc` that may fail, so a failed allocation leaves no decoded buffer. It keeps the new decoded buffer when channel setup fails. `Begin`'s contract states both.
- A second `begin` frees and reallocates the decoded buffer but keeps `decoded_led_count_`. `getDecodedLedCount()` then counts colours that the new, uninitialised buffer does not hold. In the model the new buffer is an array whose initial colours are unspecified, and `decodedCount` is likewise left unchanged.
- When `startReceive` fails in `rmt_receive`, the earlier zeroing of the count is not undone. Undecoded data is lost even though the call failed.
