# clock.c relay link in Dafny

`clock.c` is the firmware of one device in a chain. Each device relays frames over a two-wire link: a clock line and a data line.

- One core receives. `data_receive_core` calls `read_frame` again and again. `read_frame` drives the edge scanner `scan`, which classifies every clock cycle as a 0 bit, a 1 bit or a frame end. `read_frame` packs the bits least significant bit first into a 31-byte buffer, and accepts a frame end only on a non-zero byte boundary.
- The receiving core then rewrites the first byte of every frame whose two top bits are `10`, using a code chosen by a frame counter, and queues the frame.
- The other core, in the loop of `main`, takes frames from the queue and drives the output lines. Each bit is sent as: data set, clock high, clock low. The previous frame's end marker is sent at the start of the next cycle.

The model has six modules:

- `Wire` holds the values on the link: samples of the two input lines, the `Frame` record, bit numbering, and the line shapes of a bit (`Pulse`), of the end marker and of a whole frame (`Segment`).
- `Scanner` models `wait_low_clk` and `scan`. The input pins are a finite sequence of samples, and every polling iteration consumes one sample. A loop that would spin for ever because the samples ran out gives `Stalled`. The methods `WaitLowClk` and `Scan` keep the source's polling loops and are proved equal to the functions `LowAfter` and `ScanSpec`. The lemmas classify a clock cycle in both directions.
- `Assembler` models `read_frame`. `ReadFrame` keeps the source's in-place buffer: an `array<bv8>` that each received bit is OR-ed into. It is proved equal to `ReadFrameSpec`, which runs one loop iteration (`NextStep`) at a time. Two quirks are modelled as written:
  - On a rejected frame end, the buffer keeps its bits.
  - A pulse that arrives once the count has reached 248 would be written past the buffer. The model reports this as `Overflow`.
- `Receiver` models the rewrite rule and the counter of `data_receive_core`. `ReceiveCore` runs the receive loop over a finite sample stream and returns the frames it queues, in order.
- `Transmitter` models the transmit loop of `main` as the trace of `gpio_put` writes it performs. `Lines` turns a trace into the line states a listener sees, one sample per write.
- `Link` joins the two sides for one hop. A listener that reads what the transmit loop sends, starting with both lines low, receives every frame, in order. Each received frame has the same length and payload, and zero bytes past the payload.

## Model

| member | source | states |
|---|---|---|
| Wire.Frame.Payload | clock.c:13-16 | the transmitted bytes of a frame are the first `length` bytes of its 31-byte buffer |
| Wire.Zeros | clock.c:115 | `Frame f = {0}`: a buffer of n bytes, all zero |
| Wire.MaskShift | clock.c:138 | the mask table entry j is `1 << j` |
| Wire.ByteBitShift | clock.c:207 | bit j of a byte, as read through the mask, is `(x >> j) & 1 == 1` |
| Scanner.FirstWhere | clock.c:19-24 | a polling loop exits at the first sample at or after `from` that passes its test; no earlier sample passes; None means no sample left passes |
| Scanner.FirstWhereSkip | clock.c:19-24 | samples on which the polling loop does not exit can be skipped: it stops at the same sample from after them |
| Scanner.FirstWhereIs | clock.c:19-24 | any index that passes the test with no earlier index passing is the one the polling loop stops at |
| Scanner.LowAfter | clock.c:18-25 | `wait_low_clk` returns just after the first clock-low sample; every sample before it has the clock high; None when the clock stays high to the end |
| Scanner.ScanSpec | clock.c:75-112 | a completed scan consumes at least two samples (a rising clock and the sample that ends the cycle) and never reads past the end |
| Scanner.LowAfterHighLow | clock.c:18-25 | clock high then clock low: `wait_low_clk` returns right after the low sample |
| Scanner.WaitLowClk | clock.c:18-25 | the polling loop of `wait_low_clk` returns exactly `LowAfter` |
| Scanner.Scan | clock.c:75-112 | the three nested polling loops of `scan` return exactly `ScanSpec` |
| Scanner.ScanComplete | clock.c:81-109 | a rising clock followed by a Bit1, Bit0 or FrameEnd cycle shape is reported as that kind, ending right after the deciding sample |
| Scanner.ScanSound | clock.c:81-109 | whatever `scan` reports is preceded by a first clock-high sample and forms a cycle of the reported kind |
| Scanner.ScanClassification | clock.c:81-109 | both directions: `scan` reports `kind` ending before `next` iff the first clock-high sample and sample `next - 1` form a cycle of that kind; Bit1 iff data was high at the rising edge; with data low, Bit0 if the clock falls before data rises (also when both happen in one sample), FrameEnd if data rises while the clock is high |
| Scanner.ScanStalls | clock.c:76-111 | `scan` stalls iff no complete cycle follows the start position |
| Assembler.ShiftedShift | clock.c:137-138 | the byte OR-ed in for a bit is `bit << bit_idx` |
| Assembler.OrBitOfByte | clock.c:138 | `|=` with a shifted bit sets that bit and leaves the other seven bits of the byte |
| Assembler.OrBit | clock.c:122-138 | OR-ing bit number k changes only byte k / 8, where it ORs in bit k % 8 |
| Assembler.OrBitBit | clock.c:122-138 | after OR-ing bit number k, bit k' is set iff it was set before or k' is k and the bit is 1 |
| Assembler.OrBitBits | clock.c:122-138 | the same for every bit number of the buffer at once |
| Assembler.PackInto | clock.c:137-139 | OR-ing a run of bits into the buffer one by one keeps its size; `PackIntoBits` states which bits end up set |
| Assembler.PackIntoBits | clock.c:122-139 | packing a bit sequence from bit number k is least significant bit first: bit k + j ends up set iff it was set or bits[j] is 1; bits outside the range are unchanged |
| Assembler.ByteFromBits | clock.c:138 | two bytes with the same eight bits are equal |
| Assembler.BuffersFromBits | clock.c:14 | two buffers of the same size with the same bits are equal |
| Assembler.NextStep | clock.c:119-142 | one loop iteration moves forward in the samples, keeps a 31-byte buffer with at most 248 bits counted, and returns only valid frames of length at least 1 |
| Assembler.Assemble | clock.c:119-142 | the loop of `read_frame` returns only valid frames whose length is at least 1, ending after its start and within the samples |
| Assembler.ReadFrameSpec | clock.c:114-143 | `read_frame` returns only valid frames with `1 <= length <= 31`, and consumes samples |
| Assembler.ReadStep | clock.c:120-139 | one loop iteration on the in-place array: the new array contents, position and bit count are those of `NextStep`, or it returns `NextStep`'s outcome |
| Assembler.ReadFrame | clock.c:114-143 | `read_frame`, with its buffer updated in place, returns exactly `ReadFrameSpec` |
| Assembler.PulsesAtSlice | clock.c:208-213 | the per-sample description of a run of bit pulses holds iff that slice of the samples equals `Pulses(bits)` |
| Assembler.ScanPulse | clock.c:81-103 | a bit pulse (data set, clock high, clock low) is scanned as Bit1 or Bit0 by its data level |
| Assembler.ScanEndMarker | clock.c:96-108 | the end marker (clock high, then data high while the clock is high) is scanned as FrameEnd |
| Assembler.AssemblePulse | clock.c:120-139 | while the buffer has room, one pulse ORs in one bit as bit number k and raises the count by exactly 1 |
| Assembler.Run | clock.c:119-142 | n loop iterations keep the position within the samples, the buffer size and the count bound |
| Assembler.AssembleRun | clock.c:119-142 | iterations that continue do not change the eventual outcome of the loop |
| Assembler.RunPulses | clock.c:122-139 | the pulses of `bits` take exactly one iteration each, pack `bits` from bit number k, and raise the count by `|bits|` |
| Assembler.AssemblePulses | clock.c:122-139 | the outcome after a run of pulses is the outcome from the packed buffer and the raised count |
| Assembler.SegmentAtSlice | clock.c:199-217 | the per-sample description of a frame's line shape holds iff that slice of the samples equals `Segment(bits)` |
| Assembler.AssembleAccepts | clock.c:125-134 | the end marker with a non-zero count that is a multiple of 8 returns the frame with `length = bit_count / 8` |
| Assembler.AssembleRejects | clock.c:126-131 | the end marker with any other count resets the count to 0, waits for clock low and goes on with the same buffer |
| Assembler.AssembleOverflows | clock.c:137-138 | a pulse that arrives with 248 bits counted would be written past the buffer: `Overflow` |
| Assembler.ReadOverflows | clock.c:119-142 | nothing bounds the count: 248 bits then one more pulse with no frame end make `read_frame` overflow |
| Assembler.ReadSegment | clock.c:114-143 | a frame shape carrying 8 to 248 bits, a multiple of 8, is read as one frame of `|bits| / 8` bytes whose buffer holds those bits packed into zeros, ending right after it |
| Assembler.ReadAfterRejected | clock.c:126-131 | a rejected attempt followed by a good frame gives one frame whose buffer has both bit sequences OR-ed in |
| Receiver.Marked | clock.c:153 | the test `(b & 0b11000000) == 0b10000000` holds iff the byte lies in 0x80..0xBF |
| Receiver.Replacement | clock.c:153-166 | the replacement byte is `Codes[(i % 50) / 10]`, one of 0x88, 0x89, 0x8A, 0x8B, 0x8F, and itself passes the `10xxxxxx` test |
| Receiver.Rewrite | clock.c:153-166 | a marked first byte becomes `Replacement(i)`; an unmarked frame is unchanged; in every case `length` and `data[1..]` are untouched and the marking is kept |
| Receiver.RewriteAgain | clock.c:153-166 | rewriting an already rewritten frame with counter j equals rewriting the original with j |
| Receiver.RewriteIdempotent | clock.c:153-166 | rewriting twice with the same counter is rewriting once |
| Receiver.ReplacementPeriodic | clock.c:154 | the replacement depends on the counter only modulo 50 |
| Receiver.Rotation | clock.c:154-165 | the fifty counter values from a multiple of 50 give 0x88 ten times, then 0x89, 0x8A, 0x8B and 0x8F ten times each |
| Receiver.ReceiveFrom | clock.c:149-150 | repeated `read_frame` calls return only valid frames of at least one byte, and stop only when the samples run out or a frame overflows |
| Receiver.ReceiveStep | clock.c:149-150 | one call of `read_frame`: a frame followed by what the later calls read, or the way reading stops |
| Receiver.ReceiveNext | clock.c:149-150 | the frames read so far plus one more, followed by what is read after it, are all the frames |
| Receiver.Relay | clock.c:148-169 | one queued frame per frame read |
| Receiver.RelayValid | clock.c:148-169 | every queued frame is valid: the rule keeps the buffer size and the length |
| Receiver.RelayAt | clock.c:148-169 | queued frame k is frame k as read, rewritten with counter k: the counter rises by one per frame whether or not the rule fired |
| Receiver.RelaySnoc | clock.c:168-169 | queuing one more frame appends its rewrite with the next counter value |
| Receiver.RelayIndex | clock.c:148-169 | queued frame i is frame i as read, rewritten with counter i |
| Receiver.ReplacementInBlock | clock.c:154-165 | within a block of fifty counter values starting at a multiple of 50, value base + k gets code k / 10 |
| Receiver.RelayRotation | clock.c:148-169 | when the fifty frames read from a multiple of 50 on are all marked, each is queued with only its first byte changed, ten of them to each code in turn (0x88, 0x89, 0x8A, 0x8B, 0x8F) |
| Receiver.ReceiveCore | clock.c:147-171 | the receive loop queues, in order, exactly the frames `read_frame` returns, frame k rewritten with counter k, and stops as the reads stop |
| Transmitter.ByteBits | clock.c:206-207 | the eight bits of a byte in sending order: bit j is bit j of the byte |
| Transmitter.PayloadBits | clock.c:204-207 | the payload's bits in sending order: bit k is bit k % 8 of byte k / 8, `8 * length` of them |
| Transmitter.BitWrites | clock.c:208-213 | from any state with the clock low, the three writes for a bit (data, clock high, clock low) put exactly one `Pulse` carrying the bit on the lines and leave the clock low with data at the bit |
| Transmitter.PulseLines | clock.c:208-213 | the three line states of data-set / clock-high / clock-low, from a clock-low state, are those of a `Pulse` |
| Transmitter.BitsWrites | clock.c:206-214 | three writes per bit |
| Transmitter.BitsWritesAppend | clock.c:204-215 | sending `a` then `b` writes what sending `a + b` writes |
| Transmitter.FrameWrites | clock.c:199-217 | a frame takes `24 * length + 3` writes |
| Transmitter.SendBit | clock.c:207-213 | sending bit j of a byte extends the bits sent so far by that bit |
| Transmitter.SendByte | clock.c:204-215 | after the eight bits of byte i, the bits of bytes 0..i have been sent |
| Transmitter.SendFrame | clock.c:199-217 | the nested byte and bit loops write exactly `FrameWrites(f)`: data low, clock low, each of the `8 * length` bits least significant first as data-set / clock-high / clock-low, then data low |
| Transmitter.TransmitLoop | clock.c:189-219 | the loop over a finite queue writes exactly `Transmission(queue)`: an opening before each frame and before waiting on the empty queue |
| Transmitter.Tail | clock.c:189-219 | the writes after the first opening: for a non-empty queue they start with data low then clock low, the start of the first frame, and end with an opening |
| Transmitter.Transmission | clock.c:189-219 | everything the loop writes for a queue starts with clock high then data high, and ends the same way, the end marker before waiting for the next frame |
| Transmitter.SendNext | clock.c:189-219 | sending the frame at index i extends the transmission of the frames before it |
| Transmitter.TailSnoc | clock.c:189-219 | appending a frame to the queue appends its writes and an opening |
| Transmitter.TransmissionTail | clock.c:189-219 | a transmission is the first opening followed by each frame's writes and the next opening |
| Transmitter.Apply | clock.c:190-212 | a write changes only the level of the pin it names |
| Transmitter.Lines | clock.c:189-219 | a listener sees one line state per write |
| Transmitter.LinesAppend | clock.c:189-219 | the line states of two traces in a row are those of the first, then those of the second from where the first left the pins |
| Transmitter.LinesBits | clock.c:206-214 | sending bits with the clock low puts one `Pulse` per bit on the lines and leaves the clock low |
| Transmitter.FrameLines | clock.c:190-217 | from both lines high, a frame and the next opening put exactly the frame's `Segment` on the lines and leave both lines high |
| Transmitter.TailLines | clock.c:189-219 | every frame after the first opening puts its `Segment` on the lines, in order |
| Transmitter.OpeningLines | clock.c:190-192 | from both lines low, the opening raises the clock, then the data |
| Transmitter.TransmissionLines | clock.c:189-219 | from both lines low, a whole transmission reads as the opening followed by one `Segment` per frame |
| Link.ZeroBits | clock.c:115 | a zeroed buffer has no bit set |
| Link.PaddedBit | clock.c:115 | a payload padded with zero bytes has the payload's bits and no others |
| Link.PackPayload | clock.c:204-207 | packing the bits of a payload in sending order into a zeroed buffer the way `read_frame` does (line 138) gives back the payload followed by zero bytes |
| Link.Rebuilt | clock.c:133 | the frame a receiver rebuilds is valid, with the same length and payload and zeros after it |
| Link.RebuiltAll | clock.c:149-150 | one rebuilt frame per frame sent, in order |
| Link.ReadSentFrame | clock.c:114-143 | the line shape of a frame of at least one byte is read back by `read_frame` as the rebuilt frame |
| Link.ReceiveSegments | clock.c:147-150 | consecutive frame shapes are read as the rebuilt frames, in order, after which the samples run out |
| Link.ReceiveSkipsHigh | clock.c:118 | any run of clock-high samples before a position does not change what is read from there, because `read_frame` first waits for the clock to be low |
| Link.ReceiveSkipsOpening | clock.c:118 | the two clock-high samples of the first opening are skipped before the first frame is read |
| Link.RoundTrip | clock.c:189-219 | round trip of one hop: a receiver reads the lines driven by the transmit loop as exactly the rebuilt frames, in order, then waits for more samples |
| Link.RewriteRebuilt | clock.c:153-166 | rewriting commutes with rebuilding, since it touches only the first byte of a non-empty payload |
| Link.StaleBitExample | clock.c:128-129 | a one-bit attempt that is dropped leaves its bit in the buffer, so a following frame 0x00 is returned as 0x01 |

`read_frame` resets only `length` and `bit_count` (clock.c:128-129). The bits already OR-ed into `f.data` stay, and the next attempt ORs on top of them. `Assembler.AssembleRejects` and `Assembler.ReadAfterRejected` state this behaviour, and `Link.StaleBitExample` gives a concrete case. A clean round trip therefore needs a call of `read_frame` with no rejected attempt before the frame. `Link.RoundTrip` covers such streams.

## Left out

- GPIO setup and direction (clock.c:174-181), `gpio_get`/`gpio_put` themselves, and every `sleep_us` delay. These are hardware and timing. The model has a finite sample sequence as input and a trace of writes as output.
- The sampling rate. The model assumes the listener samples each line state exactly once. `Link.RoundTrip` uses one sample per write, and `Link.ReceiveSkipsHigh` shows that any number of clock-high samples before a call of `read_frame` do not matter. Oversampling of the other states is not modelled.
- `queue_t` (`queue_init`, `queue_add_blocking`, `queue_remove_blocking`) and `multicore_launch_core1`. These are library code and two-core concurrency. The hand-off is a sequence of frames in FIFO order. The capacity of 16 frames and the blocking when the queue is full are not modelled.
- Non-termination. The polling loops of `scan` and `wait_low_clk` spin for ever on a stalled line. So do the endless loops of `data_receive_core` and `main`. The model runs them over finite input and reports `Stalled`, `Starved` or the end of the queue. Liveness is not proved.
- `wait_high_clk` (clock.c:27-34). It is never called.
- The commented-out LED code (clock.c:183-184).
- Assembler.ReadFrame: a bit that arrives with 248 bits counted is written past the 31-byte array in C, which is undefined behaviour. The model stops with `Overflow` at that point and does not describe what the write corrupts.
- Receiver.ReceiveCore: the counter is a `nat`. The C `int i` would overflow after 2^31 - 1 frames, and the model does not describe what happens then.
- Transmitter.SendFrame: a frame's `length` is a `uint8_t` in C. The model requires a valid frame (`length <= 31`), which every frame produced by `read_frame` is. A `length` over 31 would make the C loop read past the array, and that case is not modelled.
