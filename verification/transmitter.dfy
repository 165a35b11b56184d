/**
 * The transmit loop of clock.c's `main`: for every frame taken from the
 * queue it drives the output pins CLKOUT and DIOOUT. The pins are modelled
 * by the sequence of `gpio_put` writes the loop performs (the delays between
 * them are left out), and `Lines` turns such a trace into the line states a
 * device listening on the pins passes through.
 */
module Transmitter {
  import opened Wire

  /** The two output pins. */
  datatype Pin = ClkOut | DioOut

  /** One `gpio_put(pin, high)`. */
  datatype Write = Put(pin: Pin, high: bool)

  /** The eight bits of a byte in the order `main` sends them, least significant first. */
  function ByteBits(x: bv8): (bits: seq<bool>)
    ensures |bits| == 8
    ensures forall j :: 0 <= j < 8 ==> bits[j] == ByteBit(x, j)
  {
    seq(8, j requires 0 <= j < 8 => ByteBit(x, j))
  }

  /**
   * The bits of a payload in sending order, byte by byte: bit k is bit
   * k % 8 of byte k / 8, the order in which `read_frame` packs them.
   */
  function PayloadBits(d: seq<bv8>): (bits: seq<bool>)
    ensures |bits| == 8 * |d|
    ensures forall k :: 0 <= k < |bits| ==> bits[k] == BitAt(d, k)
  {
    if d == [] then []
    else
      var init := d[..|d| - 1];
      var bits := PayloadBits(init) + ByteBits(d[|d| - 1]);
      assert forall k :: 0 <= k < 8 * |init| ==> BitAt(d, k) == BitAt(init, k);
      bits
  }

  /**
   * The writes that send one bit: data, then a clock pulse. From any state
   * with the clock low they put one `Pulse` carrying the bit on the lines.
   */
  function BitWrites(b: bool): (w: seq<Write>)
    ensures forall st: Sample :: !st.clk ==> Lines(st, w) == Pulse(b) && Final(st, w) == Sample(false, b)
  {
    var w := [Put(DioOut, b), Put(ClkOut, true), Put(ClkOut, false)];
    assert forall st: Sample :: !st.clk ==> Lines(st, w) == Pulse(b) && Final(st, w) == Sample(false, b) by {
      forall st: Sample | !st.clk
        ensures Lines(st, w) == Pulse(b) && Final(st, w) == Sample(false, b)
      {
        PulseLines(st, b, w);
      }
    }
    w
  }

  /** Data, clock high, clock low, written with the clock low, pass through the three states of a `Pulse`. */
  lemma PulseLines(st: Sample, b: bool, w: seq<Write>)
    requires !st.clk && w == [Put(DioOut, b), Put(ClkOut, true), Put(ClkOut, false)]
    ensures Lines(st, w) == Pulse(b) && Final(st, w) == Sample(false, b)
  {
    var s1, s2 := Sample(false, b), Sample(true, b);
    assert w[1..] == [Put(ClkOut, true), Put(ClkOut, false)];
    assert w[1..][1..] == [Put(ClkOut, false)];
    assert Lines(s2, w[1..][1..]) == [Sample(false, b)];
    assert Lines(s1, w[1..]) == [s2, Sample(false, b)];
    assert Final(Sample(false, b), w[1..][1..][1..]) == Sample(false, b);
    assert Final(s2, w[1..][1..]) == Sample(false, b);
    assert Final(s1, w[1..]) == Sample(false, b);
  }

  /** The writes that send a sequence of bits, one `BitWrites` each. */
  function BitsWrites(bits: seq<bool>): (w: seq<Write>)
    ensures |w| == 3 * |bits|
  {
    if bits == [] then [] else BitWrites(bits[0]) + BitsWrites(bits[1..])
  }

  /** Sending `a` then `b` is sending `a + b`. */
  lemma {:induction false} BitsWritesAppend(a: seq<bool>, b: seq<bool>)
    ensures BitsWrites(a + b) == BitsWrites(a) + BitsWrites(b)
    decreases |a|
  {
    if a != [] {
      assert (a + b)[1..] == a[1..] + b;
      BitsWritesAppend(a[1..], b);
    } else {
      assert a + b == b;
    }
  }

  /**
   * What the loop writes before waiting for a frame: clock high, then data
   * high while the clock is high. This is the end marker of the previous
   * frame, and also what starts the very first one.
   */
  const Opening: seq<Write> := [Put(ClkOut, true), Put(DioOut, true)]

  /** What the loop writes for one frame after taking it from the queue. */
  function FrameWrites(f: Frame): (w: seq<Write>)
    requires f.Valid()
    ensures |w| == 24 * f.length + 3
  {
    [Put(DioOut, false), Put(ClkOut, false)] + BitsWrites(PayloadBits(f.Payload())) + [Put(DioOut, false)]
  }

  /** Sending bit j of `val` extends the bits sent so far by that bit. */
  lemma SendBit(start: seq<Write>, sent: seq<bool>, val: bv8, j: nat, trace: seq<Write>)
    requires j < 8 && trace == start + BitsWrites(sent + ByteBits(val)[..j])
    ensures trace + BitWrites(ByteBit(val, j)) == start + BitsWrites(sent + ByteBits(val)[..j + 1])
  {
    var b := ByteBit(val, j);
    assert sent + ByteBits(val)[..j + 1] == (sent + ByteBits(val)[..j]) + [b];
    BitsWritesAppend(sent + ByteBits(val)[..j], [b]);
    assert BitsWrites([b]) == BitWrites(b);
  }

  /** After the eight bits of byte i, the bits of the first i + 1 bytes have been sent. */
  lemma SendByte(data: seq<bv8>, i: nat)
    requires i < |data|
    ensures PayloadBits(data[..i]) + ByteBits(data[i])[..8] == PayloadBits(data[..i + 1])
  {
    assert data[..i + 1][..i] == data[..i];
    assert ByteBits(data[i])[..8] == ByteBits(data[i]);
  }

  /**
   * Sends one frame (the body of the transmit loop after the queue hands it
   * over): data low, clock low, the bits of `length` bytes, data low.
   */
  method SendFrame(f: Frame) returns (trace: seq<Write>)
    requires f.Valid()
    ensures trace == FrameWrites(f)
  {
    var start := [Put(DioOut, false), Put(ClkOut, false)];
    trace := start;
    var i := 0;
    while i < f.length
      invariant 0 <= i <= f.length
      invariant trace == start + BitsWrites(PayloadBits(f.data[..i]))
    {
      var val := f.data[i];
      ghost var sent := PayloadBits(f.data[..i]);
      var j := 0;
      assert sent + ByteBits(val)[..0] == sent;
      while j < 8
        invariant 0 <= j <= 8
        invariant trace == start + BitsWrites(sent + ByteBits(val)[..j])
      {
        var bit := (val >> j) & 1;
        ByteBitShift(val, j);
        SendBit(start, sent, val, j, trace);
        trace := trace + BitWrites(bit == 1);
        j := j + 1;
      }
      SendByte(f.data, i);
      i := i + 1;
    }
    assert f.data[..f.length] == f.Payload();
    trace := trace + [Put(DioOut, false)];
  }

  /** The writes for a queue of frames after the first `Opening`: each frame, then the next opening. */
  function Tail(queue: seq<Frame>): (w: seq<Write>)
    requires forall i :: 0 <= i < |queue| ==> queue[i].Valid()
    ensures queue != [] ==> 2 <= |w| && w[..2] == [Put(DioOut, false), Put(ClkOut, false)]
    ensures queue != [] ==> w[|w| - 2..] == Opening
  {
    if queue == [] then [] else FrameWrites(queue[0]) + Opening + Tail(queue[1..])
  }

  /**
   * Everything the loop writes while it sends `queue`, up to waiting for the
   * next frame: the writes for all frames but the last, then the last
   * frame and an opening.
   */
  function Transmission(queue: seq<Frame>): (w: seq<Write>)
    requires forall i :: 0 <= i < |queue| ==> queue[i].Valid()
    ensures 2 <= |w| && w[0] == Put(ClkOut, true) && w[1] == Put(DioOut, true)
    ensures w[|w| - 2] == Put(ClkOut, true) && w[|w| - 1] == Put(DioOut, true)
  {
    if queue == [] then Opening
    else
      var n := |queue| - 1;
      Transmission(queue[..n]) + FrameWrites(queue[n]) + Opening
  }

  /** Sending the frame at index i extends the transmission of the frames before it. */
  lemma SendNext(queue: seq<Frame>, i: nat)
    requires forall k :: 0 <= k < |queue| ==> queue[k].Valid()
    requires i < |queue|
    ensures Transmission(queue[..i]) + FrameWrites(queue[i]) + Opening == Transmission(queue[..i + 1])
  {
    assert queue[..i + 1][..i] == queue[..i];
  }

  /** Concatenation regrouped. */
  lemma Regroup<T>(a: seq<T>, b: seq<T>, c: seq<T>, d: seq<T>)
    ensures a + b + c + d == a + (b + c + d)
  {
  }

  /** Appending a frame to the queue appends its writes and an opening to `Tail`. */
  lemma {:induction false} TailSnoc(queue: seq<Frame>, f: Frame)
    requires forall i :: 0 <= i < |queue| ==> queue[i].Valid()
    requires f.Valid()
    ensures Tail(queue + [f]) == Tail(queue) + FrameWrites(f) + Opening
    decreases |queue|
  {
    if queue == [] {
      assert [f][1..] == [];
    } else {
      var first, rest, last := FrameWrites(queue[0]), Tail(queue[1..]), FrameWrites(f);
      assert (queue + [f])[1..] == queue[1..] + [f];
      TailSnoc(queue[1..], f);
      Regroup(first + Opening, rest, last, Opening);
    }
  }

  /** The transmission is the first opening followed by `Tail`. */
  lemma {:induction false} TransmissionTail(queue: seq<Frame>)
    requires forall i :: 0 <= i < |queue| ==> queue[i].Valid()
    ensures Transmission(queue) == Opening + Tail(queue)
    decreases |queue|
  {
    if queue != [] {
      var n := |queue| - 1;
      var pre, f := queue[..n], queue[n];
      assert pre + [f] == queue;
      TransmissionTail(pre);
      TailSnoc(pre, f);
      var head, body := Tail(pre), FrameWrites(f);
      assert Transmission(queue) == Opening + head + body + Opening;
      assert Tail(queue) == head + body + Opening;
      Regroup(Opening, head, body, Opening);
    }
  }

  /**
   * The transmit loop of `main` over a finite queue: it writes the opening,
   * takes a frame, sends it, and repeats; when the queue is empty it has
   * written the opening and waits for ever in `queue_remove_blocking`.
   */
  method TransmitLoop(queue: seq<Frame>) returns (trace: seq<Write>)
    requires forall i :: 0 <= i < |queue| ==> queue[i].Valid()
    ensures trace == Transmission(queue)
  {
    trace := [];
    var i := 0;
    while true
      invariant 0 <= i <= |queue|
      invariant trace + Opening == Transmission(queue[..i])
      decreases |queue| - i
    {
      trace := trace + [Put(ClkOut, true), Put(DioOut, true)];
      if i == |queue| {
        assert queue[..i] == queue;
        break;
      }
      var f := queue[i];
      var body := SendFrame(f);
      SendNext(queue, i);
      trace := trace + body;
      i := i + 1;
    }
  }

  /** The pin levels after one write; the clock level is `clk`, the data level `din`. */
  function Apply(st: Sample, w: Write): (r: Sample)
    ensures w.pin == ClkOut ==> r == Sample(w.high, st.din)
    ensures w.pin == DioOut ==> r == Sample(st.clk, w.high)
  {
    match w.pin
    case ClkOut => st.(clk := w.high)
    case DioOut => st.(din := w.high)
  }

  /** The pin levels after a whole trace, starting from `st`. */
  function Final(st: Sample, trace: seq<Write>): Sample
    decreases |trace|
  {
    if trace == [] then st else Final(Apply(st, trace[0]), trace[1..])
  }

  /**
   * The line states a listener sees while the trace is written, starting
   * from `st`: one sample per write, holding the levels just after it.
   */
  function Lines(st: Sample, trace: seq<Write>): (r: seq<Sample>)
    ensures |r| == |trace|
    decreases |trace|
  {
    if trace == [] then []
    else
      var next := Apply(st, trace[0]);
      [next] + Lines(next, trace[1..])
  }

  /** The line states of `a + b` are those of `a`, then those of `b` from where `a` left the pins. */
  lemma {:induction false} LinesAppend(st: Sample, a: seq<Write>, b: seq<Write>)
    ensures Lines(st, a + b) == Lines(st, a) + Lines(Final(st, a), b)
    ensures Final(st, a + b) == Final(Final(st, a), b)
    decreases |a|
  {
    if a == [] {
      assert a + b == b;
    } else {
      assert (a + b)[1..] == a[1..] + b;
      LinesAppend(Apply(st, a[0]), a[1..], b);
    }
  }

  /** Sending bits with the clock low gives one `Pulse` per bit and leaves the clock low. */
  lemma {:induction false} LinesBits(st: Sample, bits: seq<bool>)
    requires !st.clk
    ensures Lines(st, BitsWrites(bits)) == Pulses(bits)
    ensures !Final(st, BitsWrites(bits)).clk
    decreases |bits|
  {
    if bits != [] {
      var mid := Sample(false, bits[0]);
      LinesAppend(st, BitWrites(bits[0]), BitsWrites(bits[1..]));
      assert Lines(st, BitWrites(bits[0])) == Pulse(bits[0]);
      assert Final(st, BitWrites(bits[0])) == mid;
      LinesBits(mid, bits[1..]);
    }
  }

  /**
   * From the opened state (both lines high) a frame followed by the next
   * opening puts exactly the `Segment` of the frame's payload bits on the
   * lines, and leaves them opened again.
   */
  lemma FrameLines(f: Frame)
    requires f.Valid()
    ensures Lines(Sample(true, true), FrameWrites(f) + Opening) == Segment(PayloadBits(f.Payload()))
    ensures Final(Sample(true, true), FrameWrites(f) + Opening) == Sample(true, true)
  {
    var head := [Put(DioOut, false), Put(ClkOut, false)];
    var body := BitsWrites(PayloadBits(f.Payload()));
    var tail := [Put(DioOut, false)] + Opening;
    var low := Sample(false, false);
    assert FrameWrites(f) + Opening == head + (body + tail);
    LinesAppend(Sample(true, true), head, body + tail);
    assert Lines(Sample(true, true), head) == [Sample(true, false), Sample(false, false)];
    assert Final(Sample(true, true), head) == low;
    LinesAppend(low, body, tail);
    LinesBits(low, PayloadBits(f.Payload()));
    var afterBody := Final(low, body);
    assert Lines(afterBody, tail) == EndMarker;
  }

  /** The line states of a whole queue, from the opened state: one `Segment` per frame. */
  function Segments(queue: seq<Frame>): seq<Sample>
    requires forall i :: 0 <= i < |queue| ==> queue[i].Valid()
  {
    if queue == [] then [] else Segment(PayloadBits(queue[0].Payload())) + Segments(queue[1..])
  }

  /** `Tail` puts `Segments` on the lines and leaves them opened. */
  lemma {:induction false} TailLines(queue: seq<Frame>)
    requires forall i :: 0 <= i < |queue| ==> queue[i].Valid()
    ensures Lines(Sample(true, true), Tail(queue)) == Segments(queue)
    ensures Final(Sample(true, true), Tail(queue)) == Sample(true, true)
    decreases |queue|
  {
    if queue != [] {
      var up := Sample(true, true);
      FrameLines(queue[0]);
      LinesAppend(up, FrameWrites(queue[0]) + Opening, Tail(queue[1..]));
      TailLines(queue[1..]);
    }
  }

  /** From both lines low, the opening raises the clock, then the data. */
  lemma OpeningLines()
    ensures Lines(Sample(false, false), Opening) == [Sample(true, false), Sample(true, true)]
    ensures Final(Sample(false, false), Opening) == Sample(true, true)
  {
    var second := [Put(DioOut, true)];
    assert Opening[1..] == second && second[1..] == [];
  }

  /**
   * Starting with both lines low (as `gpio_init` leaves them), the whole
   * transmission reads as an opening (clock high, then data high) followed
   * by one `Segment` per frame.
   */
  lemma TransmissionLines(queue: seq<Frame>)
    requires forall i :: 0 <= i < |queue| ==> queue[i].Valid()
    ensures Lines(Sample(false, false), Transmission(queue)) ==
      [Sample(true, false), Sample(true, true)] + Segments(queue)
  {
    var idle := Sample(false, false);
    OpeningLines();
    TransmissionTail(queue);
    LinesAppend(idle, Opening, Tail(queue));
    TailLines(queue);
  }
}
