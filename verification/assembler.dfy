/**
 * The frame assembler of clock.c: `read_frame`, which packs scanned bits
 * least-significant-bit first into a 31-byte buffer and accepts a frame end
 * only on a non-zero byte boundary.
 */
module Assembler {
  import opened Wire
  import opened Scanner

  /** `bit << bit_idx`: a byte with at most bit j set. */
  function Shifted(bit: bool, j: nat): bv8
    requires j < 8
  {
    if bit then Mask(j) else 0
  }

  /** `Shifted` is the shift `(bit ? 1 : 0) << j` that `read_frame` OR-s into its buffer. */
  lemma ShiftedShift(bit: bool, j: nat)
    requires j < 8
    ensures Shifted(bit, j) == (if bit then 1 else 0) << j
  {
    MaskShift(j);
  }

  /** Setting bit j of a byte with `|=` sets that bit and leaves the other seven. */
  lemma OrBitOfByte(x: bv8, j: nat, j': nat, b: bool)
    requires j < 8 && j' < 8
    ensures ByteBit(x | Shifted(b, j), j') <==> (ByteBit(x, j') || (j' == j && b))
  {
  }

  /** `f.data[byte_idx] |= (bit << bit_idx)` for bit number k. */
  function OrBit(data: seq<bv8>, k: nat, b: bool): (r: seq<bv8>)
    requires k < 8 * |data|
    ensures |r| == |data|
    ensures r[k / 8] == data[k / 8] | Shifted(b, k % 8)
    ensures forall i :: 0 <= i < |data| && i != k / 8 ==> r[i] == data[i]
  {
    data[k / 8 := data[k / 8] | Shifted(b, k % 8)]
  }

  /** Bit number k' after OR-ing in bit number k: set when it was set before, or when k' is k and b holds. */
  lemma OrBitBit(data: seq<bv8>, k: nat, b: bool, k': nat)
    requires k < 8 * |data| && k' < 8 * |data|
    ensures BitAt(OrBit(data, k, b), k') == (BitAt(data, k') || (k' == k && b))
  {
    var i, j := k' / 8, k' % 8;
    if i == k / 8 {
      OrBitOfByte(data[i], k % 8, j, b);
      assert (j == k % 8) == (k' == k);
    }
  }

  /** OR-ing in bit number k sets that bit when b holds and leaves every other bit as it was. */
  lemma OrBitBits(data: seq<bv8>, k: nat, b: bool)
    requires k < 8 * |data|
    ensures forall k' :: 0 <= k' < 8 * |data| ==>
      BitAt(OrBit(data, k, b), k') == (BitAt(data, k') || (k' == k && b))
  {
    forall k' | 0 <= k' < 8 * |data| {
      OrBitBit(data, k, b, k');
    }
  }

  /** The buffer after OR-ing `bits` into it one by one, the first as bit number k. */
  function PackInto(data: seq<bv8>, k: nat, bits: seq<bool>): (r: seq<bv8>)
    requires k + |bits| <= 8 * |data|
    ensures |r| == |data|
    decreases |bits|
  {
    if bits == [] then data
    else PackInto(OrBit(data, k, bits[0]), k + 1, bits[1..])
  }

  /**
   * Packing is least significant bit first: after packing, bit number k + j
   * of the buffer is set exactly when it was set before or bits[j] holds,
   * and the bits outside k .. k + |bits| are unchanged.
   */
  lemma {:induction false} PackIntoBits(data: seq<bv8>, k: nat, bits: seq<bool>)
    requires k + |bits| <= 8 * |data|
    ensures forall k' :: 0 <= k' < 8 * |data| ==>
      BitAt(PackInto(data, k, bits), k') == (BitAt(data, k') || (k <= k' < k + |bits| && bits[k' - k]))
    decreases |bits|
  {
    if bits != [] {
      OrBitBits(data, k, bits[0]);
      PackIntoBits(OrBit(data, k, bits[0]), k + 1, bits[1..]);
    }
  }

  /** A byte is determined by its eight bits. */
  lemma ByteFromBits(x: bv8, y: bv8)
    requires forall j: nat :: j < 8 ==> ByteBit(x, j) == ByteBit(y, j)
    ensures x == y
  {
    assert ByteBit(x, 0) == ByteBit(y, 0) && ByteBit(x, 1) == ByteBit(y, 1);
    assert ByteBit(x, 2) == ByteBit(y, 2) && ByteBit(x, 3) == ByteBit(y, 3);
    assert ByteBit(x, 4) == ByteBit(y, 4) && ByteBit(x, 5) == ByteBit(y, 5);
    assert ByteBit(x, 6) == ByteBit(y, 6) && ByteBit(x, 7) == ByteBit(y, 7);
  }

  /** Two buffers with the same bits are the same buffer. */
  lemma BuffersFromBits(a: seq<bv8>, b: seq<bv8>)
    requires |a| == |b|
    requires forall k :: 0 <= k < 8 * |a| ==> BitAt(a, k) == BitAt(b, k)
    ensures a == b
  {
    forall i | 0 <= i < |a|
      ensures a[i] == b[i]
    {
      forall j: nat | j < 8
        ensures ByteBit(a[i], j) == ByteBit(b[i], j)
      {
        assert BitAt(a, 8 * i + j) == BitAt(b, 8 * i + j);
      }
      ByteFromBits(a[i], b[i]);
    }
  }

  /** A returned frame and the index after its end marker; or the samples ran out; or a bit was written past the buffer. */
  datatype ReadResult = Read(frame: Frame, next: nat) | Starved | Overflow

  /** Where one iteration of `read_frame`'s loop leaves it: at a later sample with a new buffer and bit count, or returning. */
  datatype Step = Continue(pos: nat, data: seq<bv8>, bits: nat) | Done(result: ReadResult)

  /**
   * One iteration of `read_frame`'s loop from sample `pos`, with the buffer
   * holding `data` and `bits` bits counted: a Bit0 or Bit1 is OR-ed in as bit
   * number `bits` (past the buffer once it is full: `Overflow`); a frame end
   * on a non-zero byte boundary returns the frame; any other frame end zeroes
   * the count but keeps the buffer and waits for the clock to be low.
   */
  function NextStep(s: seq<Sample>, pos: nat, data: seq<bv8>, bits: nat): (st: Step)
    requires pos <= |s| && |data| == MaxDataBytes && bits <= MaxBits
    ensures st.Continue? ==> pos < st.pos <= |s| && |st.data| == MaxDataBytes && st.bits <= MaxBits
    ensures st.Done? && st.result.Read? ==> st.result.frame.Valid() && 1 <= st.result.frame.length && pos < st.result.next <= |s|
  {
    match ScanSpec(s, pos)
    case Stalled => Done(Starved)
    case Got(FrameEnd, next) =>
      if bits == 0 || bits % 8 != 0 then
        match LowAfter(s, next)
        case None => Done(Starved)
        case Some(m) => Continue(m, data, 0)
      else
        Done(Read(Frame(data, bits / 8), next))
    case Got(bit, next) =>
      if bits / 8 >= MaxDataBytes then Done(Overflow)
      else Continue(next, OrBit(data, bits, bit == Bit1), bits + 1)
  }

  /** The loop of `read_frame` run to its end from sample `pos`, buffer `data` and count `bits`. */
  function Assemble(s: seq<Sample>, pos: nat, data: seq<bv8>, bits: nat): (r: ReadResult)
    requires pos <= |s| && |data| == MaxDataBytes && bits <= MaxBits
    ensures r.Read? ==> r.frame.Valid() && 1 <= r.frame.length && pos < r.next <= |s|
    decreases |s| - pos
  {
    match NextStep(s, pos, data, bits)
    case Done(r) => r
    case Continue(p, d, b) => Assemble(s, p, d, b)
  }

  /** What `read_frame` returns when started at `pos`: wait for clock low, then assemble from an all-zero frame. */
  function ReadFrameSpec(s: seq<Sample>, pos: nat): (r: ReadResult)
    requires pos <= |s|
    ensures r.Read? ==> r.frame.Valid() && 1 <= r.frame.length && pos < r.next <= |s|
  {
    match LowAfter(s, pos)
    case None => Starved
    case Some(m) => Assemble(s, m, Zeros(MaxDataBytes), 0)
  }

  /** The outcome of one loop iteration of `read_frame` whose buffer is an array updated in place. */
  datatype Progress = Again(pos: nat, bits: nat) | Finished(result: ReadResult)

  /** One iteration of `read_frame`'s loop, OR-ing a received bit into the buffer in place. */
  method ReadStep(s: seq<Sample>, i: nat, data: array<bv8>, bitCount: nat) returns (p: Progress)
    requires i <= |s| && data.Length == MaxDataBytes && bitCount <= MaxBits
    modifies data
    ensures var st := NextStep(s, i, old(data[..]), bitCount);
      match p
      case Again(pos, bits) => st == Continue(pos, data[..], bits)
      case Finished(r) => st == Done(r)
  {
    ghost var buf := data[..];
    var res := Scan(s, i);
    if res.Stalled? {
      return Finished(Starved);
    }
    var byteIdx := bitCount / 8;
    var bitIdx := bitCount % 8;
    if res.kind == FrameEnd {
      if bitCount == 0 || bitIdx != 0 {
        // Skip this frame: the count restarts, the buffer keeps its bits.
        var w := WaitLowClk(s, res.next);
        if w.None? {
          return Finished(Starved);
        }
        return Again(w.value, 0);
      }
      return Finished(Read(Frame(data[..], byteIdx), res.next));
    }
    if byteIdx >= MaxDataBytes {
      return Finished(Overflow);
    }
    data[byteIdx] := data[byteIdx] | Shifted(res.kind == Bit1, bitIdx);
    assert data[..] == OrBit(buf, bitCount, res.kind == Bit1);
    return Again(res.next, bitCount + 1);
  }

  /** `read_frame`: assemble one frame in a buffer updated in place. */
  method ReadFrame(s: seq<Sample>, pos: nat) returns (r: ReadResult)
    requires pos <= |s|
    ensures r == ReadFrameSpec(s, pos)
  {
    var data := new bv8[MaxDataBytes](_ => 0);
    assert data[..] == Zeros(MaxDataBytes);
    var bitCount: nat := 0;
    var w := WaitLowClk(s, pos);
    if w.None? {
      return Starved;
    }
    var i := w.value;
    ghost var goal := ReadFrameSpec(s, pos);
    while true
      invariant pos <= i <= |s| && bitCount <= MaxBits
      invariant Assemble(s, i, data[..], bitCount) == goal
      decreases |s| - i
    {
      var p := ReadStep(s, i, data, bitCount);
      if p.Finished? {
        return p.result;
      }
      i, bitCount := p.pos, p.bits;
    }
  }

  // The line shapes of `Wire` are sequences; the predicates below state the
  // same shapes sample by sample, which keeps the proofs about the loop
  // cheap. `PulsesAtSlice` and `SegmentAtSlice` prove the two forms agree.

  /** The samples from `pos` on begin with a `Pulse` carrying b. */
  predicate PulseAt(s: seq<Sample>, pos: nat, b: bool) {
    pos + 3 <= |s| && s[pos] == Sample(false, b) && s[pos + 1] == Sample(true, b) && s[pos + 2] == Sample(false, b)
  }

  /** The samples from `pos` on begin with the pulses of `bits`. */
  predicate PulsesAt(s: seq<Sample>, pos: nat, bits: seq<bool>)
    decreases |bits|
  {
    if bits == [] then pos <= |s| else PulseAt(s, pos, bits[0]) && PulsesAt(s, pos + 3, bits[1..])
  }

  /** The samples from `pos` on begin with the `EndMarker`. */
  predicate EndMarkerAt(s: seq<Sample>, pos: nat) {
    pos + 3 <= |s| && s[pos] == Sample(false, false) && s[pos + 1] == Sample(true, false) && s[pos + 2] == Sample(true, true)
  }

  /** `PulsesAt` says that a slice of the samples is `Pulses(bits)`. */
  lemma {:induction false} PulsesAtSlice(s: seq<Sample>, pos: nat, bits: seq<bool>)
    requires pos + 3 * |bits| <= |s|
    ensures PulsesAt(s, pos, bits) <==> s[pos..pos + 3 * |bits|] == Pulses(bits)
    decreases |bits|
  {
    if bits != [] {
      var n := 3 * |bits|;
      PulsesAtSlice(s, pos + 3, bits[1..]);
      assert Pulses(bits) == Pulse(bits[0]) + Pulses(bits[1..]);
      assert s[pos..pos + n] == s[pos..pos + 3] + s[pos + 3..pos + n];
      if s[pos..pos + n] == Pulses(bits) {
        assert s[pos..pos + 3] == Pulses(bits)[..3];
        assert s[pos + 3..pos + n] == Pulses(bits)[3..];
      }
    }
  }

  /** A `Pulse` carrying b is scanned as Bit1 or Bit0, ending just after it. */
  lemma ScanPulse(s: seq<Sample>, pos: nat, b: bool)
    requires PulseAt(s, pos, b)
    ensures ScanSpec(s, pos) == Got(if b then Bit1 else Bit0, pos + 3)
  {
    ScanComplete(s, pos, pos + 1, pos + 2, if b then Bit1 else Bit0);
  }

  /** The `EndMarker` is scanned as a frame end, ending just after it. */
  lemma ScanEndMarker(s: seq<Sample>, pos: nat)
    requires EndMarkerAt(s, pos)
    ensures ScanSpec(s, pos) == Got(FrameEnd, pos + 3)
  {
    ScanComplete(s, pos, pos + 1, pos + 2, FrameEnd);
  }

  /**
   * One pulse advances the assembly by one bit while the buffer has room.
   * (Positions and counts that are sums are passed by name throughout these
   * lemmas, so that equal outcomes are recognised without arithmetic.)
   */
  lemma AssemblePulse(s: seq<Sample>, pos: nat, data: seq<bv8>, k: nat, b: bool, next: nat, k1: nat)
    requires PulseAt(s, pos, b) && next == pos + 3 && k1 == k + 1
    requires |data| == MaxDataBytes && k < MaxBits
    ensures NextStep(s, pos, data, k) == Continue(next, OrBit(data, k, b), k1)
  {
    ScanPulse(s, pos, b);
  }

  /** The state after n iterations of `read_frame`'s loop, or how it returned before. */
  ghost function Run(s: seq<Sample>, pos: nat, data: seq<bv8>, k: nat, n: nat): (st: Step)
    requires pos <= |s| && |data| == MaxDataBytes && k <= MaxBits
    ensures st.Continue? ==> pos <= st.pos <= |s| && |st.data| == MaxDataBytes && st.bits <= MaxBits
    decreases n
  {
    if n == 0 then Continue(pos, data, k)
    else
      match NextStep(s, pos, data, k)
      case Done(r) => Done(r)
      case Continue(p, d, c) => Run(s, p, d, c, n - 1)
  }

  /** Iterations that go on leave the outcome of `read_frame`'s loop as it was. */
  lemma {:induction false} AssembleRun(s: seq<Sample>, pos: nat, data: seq<bv8>, k: nat, n: nat)
    requires pos <= |s| && |data| == MaxDataBytes && k <= MaxBits
    requires Run(s, pos, data, k, n).Continue?
    ensures var st := Run(s, pos, data, k, n); Assemble(s, pos, data, k) == Assemble(s, st.pos, st.data, st.bits)
    decreases n
  {
    if n > 0 {
      var st := NextStep(s, pos, data, k);
      AssembleRun(s, st.pos, st.data, st.bits, n - 1);
    }
  }

  /** The pulses of `bits` take |bits| iterations, each OR-ing in one bit and counting it. */
  lemma {:induction false} RunPulses(s: seq<Sample>, pos: nat, data: seq<bv8>, k: nat, bits: seq<bool>, n: nat, end: nat, count: nat)
    requires PulsesAt(s, pos, bits) && n == |bits| && end == pos + 3 * n && count == k + n
    requires |data| == MaxDataBytes && count <= MaxBits
    ensures end <= |s|
    ensures Run(s, pos, data, k, n) == Continue(end, PackInto(data, k, bits), count)
    decreases n
  {
    if n > 0 {
      var packed, next, k1, n1 := OrBit(data, k, bits[0]), pos + 3, k + 1, n - 1;
      AssemblePulse(s, pos, data, k, bits[0], next, k1);
      RunPulses(s, next, packed, k1, bits[1..], n1, end, count);
      assert PackInto(packed, k1, bits[1..]) == PackInto(data, k, bits);
    } else {
      assert end == pos && count == k && PackInto(data, k, bits) == data;
    }
  }

  /**
   * Packing: while the buffer has room, the pulses of `bits` are OR-ed into
   * the buffer one per bit, least significant bit first, starting at bit
   * number k, and the count rises by one per bit.
   */
  lemma AssemblePulses(s: seq<Sample>, pos: nat, data: seq<bv8>, k: nat, bits: seq<bool>, end: nat, count: nat)
    requires PulsesAt(s, pos, bits) && end == pos + 3 * |bits| && count == k + |bits|
    requires |data| == MaxDataBytes && count <= MaxBits
    ensures end <= |s|
    ensures Assemble(s, pos, data, k) == Assemble(s, end, PackInto(data, k, bits), count)
  {
    RunPulses(s, pos, data, k, bits, |bits|, end, count);
    AssembleRun(s, pos, data, k, |bits|);
  }

  /** The samples from `pos` on begin with a `Segment` carrying `bits`. */
  predicate SegmentAt(s: seq<Sample>, pos: nat, bits: seq<bool>) {
    pos + 2 <= |s| && s[pos] == Sample(true, false) && s[pos + 1] == Sample(false, false) &&
    PulsesAt(s, pos + 2, bits) && EndMarkerAt(s, pos + 2 + 3 * |bits|)
  }

  /** `SegmentAt` says that a slice of the samples is `Segment(bits)`. */
  lemma SegmentAtSlice(s: seq<Sample>, pos: nat, bits: seq<bool>)
    requires pos + |Segment(bits)| <= |s|
    ensures SegmentAt(s, pos, bits) <==> s[pos..pos + |Segment(bits)|] == Segment(bits)
  {
    var n := 3 * |bits|;
    var seg := s[pos..pos + n + 5];
    PulsesAtSlice(s, pos + 2, bits);
    assert seg == s[pos..pos + 2] + s[pos + 2..pos + 2 + n] + s[pos + 2 + n..pos + n + 5];
    if seg == Segment(bits) {
      assert s[pos..pos + 2] == Segment(bits)[..2];
      assert s[pos + 2..pos + 2 + n] == Segment(bits)[2..2 + n];
      assert s[pos + 2 + n..pos + n + 5] == Segment(bits)[2 + n..];
    }
  }

  /** A frame end on a non-zero byte boundary ends the loop with the frame of bits / 8 bytes. */
  lemma AssembleAccepts(s: seq<Sample>, pos: nat, data: seq<bv8>, k: nat, next: nat)
    requires EndMarkerAt(s, pos) && next == pos + 3
    requires |data| == MaxDataBytes && 0 < k <= MaxBits && k % 8 == 0
    ensures Assemble(s, pos, data, k) == Read(Frame(data, k / 8), next)
  {
    ScanEndMarker(s, pos);
  }

  /**
   * Any other frame end drops the attempt: the count restarts after the
   * clock is low again, and the buffer keeps the bits already OR-ed in.
   */
  lemma AssembleRejects(s: seq<Sample>, pos: nat, data: seq<bv8>, k: nat, next: nat, m: nat)
    requires EndMarkerAt(s, pos) && next == pos + 3 && LowAfter(s, next) == Some(m)
    requires |data| == MaxDataBytes && k <= MaxBits && (k == 0 || k % 8 != 0)
    ensures Assemble(s, pos, data, k) == Assemble(s, m, data, 0)
  {
    ScanEndMarker(s, pos);
  }

  /** A bit that arrives when the buffer already holds 248 bits is written past it. */
  lemma AssembleOverflows(s: seq<Sample>, pos: nat, data: seq<bv8>, b: bool)
    requires PulseAt(s, pos, b) && |data| == MaxDataBytes
    ensures Assemble(s, pos, data, MaxBits) == Overflow
  {
    ScanPulse(s, pos, b);
  }

  /**
   * Nothing bounds the bit count: a body of 248 bits followed by one more
   * pulse, without an end marker in between, ends `read_frame` in `Overflow`.
   */
  lemma ReadOverflows(s: seq<Sample>, pos: nat, bits: seq<bool>, b: bool)
    requires pos + 2 <= |s| && s[pos] == Sample(true, false) && s[pos + 1] == Sample(false, false)
    requires PulsesAt(s, pos + 2, bits) && |bits| == MaxBits && PulseAt(s, pos + 2 + 3 * MaxBits, b)
    ensures ReadFrameSpec(s, pos) == Overflow
  {
    var start, end := pos + 2, pos + 2 + 3 * MaxBits;
    LowAfterHighLow(s, pos, start);
    AssemblePulses(s, start, Zeros(MaxDataBytes), 0, bits, end, MaxBits);
    AssembleOverflows(s, end, PackInto(Zeros(MaxDataBytes), 0, bits), b);
  }

  /**
   * A segment carrying a whole number of bytes, at least one and at most the
   * buffer, is read as one frame whose length is the number of bytes and
   * whose buffer is those bits packed into a zeroed buffer; the read ends
   * just after the segment.
   */
  lemma ReadSegment(s: seq<Sample>, pos: nat, bits: seq<bool>, next: nat)
    requires SegmentAt(s, pos, bits) && next == pos + 3 * |bits| + 5
    requires 0 < |bits| <= MaxBits && |bits| % 8 == 0
    ensures ReadFrameSpec(s, pos) == Read(Frame(PackInto(Zeros(MaxDataBytes), 0, bits), |bits| / 8), next)
  {
    var start, mid := pos + 2, pos + 2 + 3 * |bits|;
    LowAfterHighLow(s, pos, start);
    AssemblePulses(s, start, Zeros(MaxDataBytes), 0, bits, mid, |bits|);
    AssembleAccepts(s, mid, PackInto(Zeros(MaxDataBytes), 0, bits), |bits|, next);
  }

  /**
   * The bits of a rejected attempt stay in the buffer: a segment whose bit
   * count is zero or not a whole number of bytes, followed by a segment of
   * whole bytes, is read as one frame whose buffer has both bodies OR-ed
   * into it.
   */
  lemma ReadAfterRejected(s: seq<Sample>, pos: nat, dropped: seq<bool>, pos2: nat, bits: seq<bool>, next: nat)
    requires SegmentAt(s, pos, dropped) && |dropped| <= MaxBits && (|dropped| == 0 || |dropped| % 8 != 0)
    requires SegmentAt(s, pos2, bits) && pos2 == pos + 3 * |dropped| + 5
    requires 0 < |bits| <= MaxBits && |bits| % 8 == 0 && next == pos2 + 3 * |bits| + 5
    ensures ReadFrameSpec(s, pos) ==
      Read(Frame(PackInto(PackInto(Zeros(MaxDataBytes), 0, dropped), 0, bits), |bits| / 8), next)
  {
    var start, mid := pos + 2, pos + 2 + 3 * |dropped|;
    var resume, mid2 := pos2 + 2, pos2 + 2 + 3 * |bits|;
    var stale := PackInto(Zeros(MaxDataBytes), 0, dropped);
    LowAfterHighLow(s, pos, start);
    AssemblePulses(s, start, Zeros(MaxDataBytes), 0, dropped, mid, |dropped|);
    LowAfterHighLow(s, pos2, resume);
    AssembleRejects(s, mid, stale, |dropped|, pos2, resume);
    AssemblePulses(s, resume, stale, 0, bits, mid2, |bits|);
    AssembleAccepts(s, mid2, PackInto(stale, 0, bits), |bits|, next);
  }
}
