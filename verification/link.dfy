/**
 * One hop of the relay chain: what a device running clock.c's receiving
 * core reads from the lines that another device's transmit loop drives.
 * The lines start low, as `gpio_init` leaves them, and the listener sees
 * every line state the transmitter produces.
 */
module Link {
  import opened Wire
  import opened Scanner
  import opened Assembler
  import opened Receiver
  import opened Transmitter

  /** The zero byte has no bit set. */
  lemma ZeroBits(n: nat, k: nat)
    requires k < 8 * n
    ensures !BitAt(Zeros(n), k)
  {
    var j := k % 8;
    assert Zeros(n)[k / 8] == 0;
    assert j == 0 || j == 1 || j == 2 || j == 3 || j == 4 || j == 5 || j == 6 || j == 7;
  }

  /** A payload padded with zero bytes has the payload's bits, then none. */
  lemma PaddedBit(d: seq<bv8>, n: nat, k: nat)
    requires |d| <= n && k < 8 * n
    ensures BitAt(d + Zeros(n - |d|), k) == (k < 8 * |d| && BitAt(d, k))
  {
    var padded := d + Zeros(n - |d|);
    if k < 8 * |d| {
      assert k / 8 < |d|;
      assert padded[k / 8] == d[k / 8];
    } else {
      assert k / 8 >= |d|;
      assert padded[k / 8] == 0;
      ZeroBits(1, k % 8);
    }
  }

  /**
   * Packing the bits of a payload, in sending order, into a zeroed buffer
   * gives back the payload followed by zero bytes.
   */
  lemma PackPayload(d: seq<bv8>)
    requires |d| <= MaxDataBytes
    ensures PackInto(Zeros(MaxDataBytes), 0, PayloadBits(d)) == d + Zeros(MaxDataBytes - |d|)
  {
    var bits := PayloadBits(d);
    var packed := PackInto(Zeros(MaxDataBytes), 0, bits);
    var want := d + Zeros(MaxDataBytes - |d|);
    PackIntoBits(Zeros(MaxDataBytes), 0, bits);
    forall k | 0 <= k < 8 * MaxDataBytes
      ensures BitAt(packed, k) == BitAt(want, k)
    {
      ZeroBits(MaxDataBytes, k);
      PaddedBit(d, MaxDataBytes, k);
    }
    BuffersFromBits(packed, want);
  }

  /**
   * The frame a receiver rebuilds from the transmission of f: the same
   * payload and length, with zero bytes after the payload (the transmitter
   * never sends the bytes past `length`).
   */
  function Rebuilt(f: Frame): (r: Frame)
    requires f.Valid()
    ensures r.Valid() && r.length == f.length && r.Payload() == f.Payload()
    ensures forall i :: f.length <= i < MaxDataBytes ==> r.data[i] == 0
  {
    Frame(f.Payload() + Zeros(MaxDataBytes - f.length), f.length)
  }

  /** The frames a receiver rebuilds from the transmission of a queue, in order. */
  function RebuiltAll(queue: seq<Frame>): (r: seq<Frame>)
    requires forall i :: 0 <= i < |queue| ==> queue[i].Valid()
    ensures |r| == |queue|
    ensures forall i :: 0 <= i < |queue| ==> r[i] == Rebuilt(queue[i])
  {
    if queue == [] then [] else [Rebuilt(queue[0])] + RebuiltAll(queue[1..])
  }

  /** A frame of at least one byte, sent as a `Segment`, is read back as `Rebuilt` of it. */
  lemma ReadSentFrame(s: seq<Sample>, pos: nat, f: Frame, bits: seq<bool>, next: nat)
    requires f.Valid() && 1 <= f.length && bits == PayloadBits(f.Payload())
    requires SegmentAt(s, pos, bits) && next == pos + 3 * |bits| + 5
    ensures ReadFrameSpec(s, pos) == Read(Rebuilt(f), next)
  {
    ReadSegment(s, pos, bits, next);
    PackPayload(f.Payload());
    assert |bits| / 8 == f.length;
  }

  /** Samples that end with `seg + rest` hold `seg` at `pos` and `rest` right after it. */
  lemma SplitAt(s: seq<Sample>, pos: nat, seg: seq<Sample>, rest: seq<Sample>)
    requires pos <= |s| && s[pos..] == seg + rest
    ensures pos + |seg| <= |s| && s[pos..pos + |seg|] == seg && s[pos + |seg|..] == rest
  {
    assert s[pos..pos + |seg|] == s[pos..][..|seg|];
    assert s[pos + |seg|..] == s[pos..][|seg|..];
  }

  /**
   * Samples that end with the segments of a queue of non-empty frames are
   * read as the rebuilt frames of the queue, in order, after which the
   * samples run out.
   */
  lemma {:induction false} ReceiveSegments(s: seq<Sample>, pos: nat, queue: seq<Frame>)
    requires forall i :: 0 <= i < |queue| ==> queue[i].Valid() && 1 <= queue[i].length
    requires pos <= |s| && s[pos..] == Segments(queue)
    ensures ReceiveFrom(s, pos) == Reception(RebuiltAll(queue), Starved)
    decreases |queue|
  {
    ReceiveStep(s, pos);
    if queue == [] {
      assert pos == |s|;
    } else {
      var f := queue[0];
      var bits := PayloadBits(f.Payload());
      var next := pos + 3 * |bits| + 5;
      SplitAt(s, pos, Segment(bits), Segments(queue[1..]));
      SegmentAtSlice(s, pos, bits);
      ReadSentFrame(s, pos, f, bits, next);
      ReceiveSegments(s, next, queue[1..]);
    }
  }

  /**
   * `read_frame` starts by waiting for the clock to fall, so any run of
   * clock-high samples before a position changes nothing that is read.
   */
  lemma ReceiveSkipsHigh(s: seq<Sample>, pos: nat, n: nat)
    requires pos <= n <= |s|
    requires forall j :: pos <= j < n ==> s[j].clk
    ensures ReceiveFrom(s, pos) == ReceiveFrom(s, n)
  {
    FirstWhereSkip(s, pos, n, ClkLow);
    assert LowAfter(s, pos) == LowAfter(s, n);
    assert ReadFrameSpec(s, pos) == ReadFrameSpec(s, n);
  }

  /** The two samples of the first opening, both with the clock high, are skipped. */
  lemma ReceiveSkipsOpening(s: seq<Sample>)
    requires 2 <= |s| && s[0].clk && s[1].clk
    ensures ReceiveFrom(s, 0) == ReceiveFrom(s, 2)
  {
    ReceiveSkipsHigh(s, 0, 2);
  }

  /**
   * The round trip of one hop: when the transmit loop sends a queue of
   * frames of at least one byte each, a receiver reads exactly the rebuilt
   * frames, in order, and then waits for more samples.
   */
  lemma RoundTrip(queue: seq<Frame>)
    requires forall i :: 0 <= i < |queue| ==> queue[i].Valid() && 1 <= queue[i].length
    ensures ReceiveFrom(Lines(Sample(false, false), Transmission(queue)), 0) ==
      Reception(RebuiltAll(queue), Starved)
  {
    var wire := Lines(Sample(false, false), Transmission(queue));
    TransmissionLines(queue);
    assert wire[2..] == Segments(queue);
    ReceiveSkipsOpening(wire);
    ReceiveSegments(wire, 2, queue);
  }

  /**
   * Rewriting happens on the first byte, which is part of every non-empty
   * payload: rewriting a rebuilt frame is rebuilding the rewritten frame.
   */
  lemma RewriteRebuilt(f: Frame, i: nat)
    requires f.Valid() && 1 <= f.length
    ensures Rewrite(Rebuilt(f), i) == Rebuilt(Rewrite(f, i))
  {
    var r := Rewrite(f, i);
    assert Rebuilt(f).data[0] == f.data[0];
    if Marked(f.data[0]) {
      assert r.Payload() == f.Payload()[0 := Replacement(i)];
      assert Rebuilt(f).data[0 := Replacement(i)] == Rebuilt(r).data;
    }
  }

  /**
   * A frame whose end marker comes after a single bit is dropped, but its
   * bit stays in the buffer: if the next frame carries the one byte 0x00,
   * the receiver returns a frame whose first byte is 0x01.
   */
  lemma StaleBitExample(s: seq<Sample>, pos: nat, pos2: nat, next: nat)
    requires SegmentAt(s, pos, [true]) && pos2 == pos + 3 * |[true]| + 5
    requires SegmentAt(s, pos2, PayloadBits([0])) && next == pos2 + 3 * |PayloadBits([0])| + 5
    ensures ReadFrameSpec(s, pos) == Read(Frame([1] + Zeros(MaxDataBytes - 1), 1), next)
  {
    var zero := Zeros(MaxDataBytes);
    var bits := PayloadBits([0]);
    var stale := PackInto(zero, 0, [true]);
    var want := [1] + Zeros(MaxDataBytes - 1);
    ReadAfterRejected(s, pos, [true], pos2, bits, next);
    PackIntoBits(zero, 0, [true]);
    PackIntoBits(stale, 0, bits);
    forall k | 0 <= k < 8 * MaxDataBytes
      ensures BitAt(PackInto(stale, 0, bits), k) == BitAt(want, k)
    {
      ZeroBits(MaxDataBytes, k);
      if k < 8 {
        assert want[k / 8] == 1;
        assert BitAt(want, k) == (k == 0);
        assert BitAt([0], k) == false;
      } else {
        assert want[k / 8] == 0;
        assert BitAt(want, k) == BitAt(zero, k);
      }
    }
    BuffersFromBits(PackInto(stale, 0, bits), want);
  }
}
