/**
 * `data_receive_core` of clock.c: it reads frames for ever, rewrites the
 * first byte of every frame whose two top bits are `10`, and queues each
 * frame for the transmit loop, counting the frames it has read.
 */
module Receiver {
  import opened Wire
  import opened Scanner
  import opened Assembler

  /** The test on the first byte: its two top bits are `10`. */
  predicate Marked(b: bv8): (m: bool)
    ensures m <==> 0x80 <= b < 0xC0
  {
    b & 0xC0 == 0x80
  }

  /** The five replacement bytes, one per block of ten frames in every fifty. */
  const Codes: seq<bv8> := [0x88, 0x89, 0x8A, 0x8B, 0x8F]

  /**
   * The byte written into a marked frame read when the counter is i. The
   * last test of the source (`n < 50`) always holds, so its fall-through
   * case, which would leave the byte alone, never happens.
   */
  function Replacement(i: nat): (b: bv8)
    ensures Marked(b)
    ensures b == Codes[(i % 50) / 10]
  {
    var n := i % 50;
    if n < 10 then 0x88
    else if n < 20 then 0x89
    else if n < 30 then 0x8A
    else if n < 40 then 0x8B
    else 0x8F
  }

  /**
   * The rewrite rule applied to a frame read when the counter is i: a marked
   * first byte becomes `Replacement(i)`; every other byte, the length, and
   * any frame that is not marked stay as they are.
   */
  function Rewrite(f: Frame, i: nat): (r: Frame)
    requires f.Valid()
    ensures r.Valid() && r.length == f.length && r.data[1..] == f.data[1..]
    ensures Marked(f.data[0]) ==> r.data[0] == Replacement(i)
    ensures !Marked(f.data[0]) ==> r == f
    ensures Marked(r.data[0]) == Marked(f.data[0])
  {
    if Marked(f.data[0]) then f.(data := f.data[0 := Replacement(i)]) else f
  }

  /** Rewriting a rewritten frame with any counter is rewriting the original with that counter. */
  lemma RewriteAgain(f: Frame, i: nat, j: nat)
    requires f.Valid()
    ensures Rewrite(Rewrite(f, i), j) == Rewrite(f, j)
  {
    var r := Rewrite(f, i);
    if Marked(f.data[0]) {
      assert r.data[0 := Replacement(j)] == f.data[0 := Replacement(j)];
    }
  }

  /** The rule is idempotent: rewriting twice with the same counter is rewriting once. */
  lemma RewriteIdempotent(f: Frame, i: nat)
    requires f.Valid()
    ensures Rewrite(Rewrite(f, i), i) == Rewrite(f, i)
  {
    RewriteAgain(f, i, i);
  }

  /** The replacement only depends on the counter modulo 50. */
  lemma ReplacementPeriodic(i: nat, k: nat)
    ensures Replacement(i + 50 * k) == Replacement(i)
  {
    assert (i + 50 * k) % 50 == i % 50;
  }

  /** n copies of a byte. */
  function Repeat(b: bv8, n: nat): (r: seq<bv8>)
    ensures |r| == n && forall j :: 0 <= j < n ==> r[j] == b
  {
    seq(n, _ => b)
  }

  /**
   * Fifty consecutive marked frames, starting at a multiple of fifty, get ten
   * of each replacement byte in turn.
   */
  lemma Rotation(base: nat)
    requires base % 50 == 0
    ensures seq(50, k requires 0 <= k < 50 => Replacement(base + k)) ==
      Repeat(0x88, 10) + Repeat(0x89, 10) + Repeat(0x8A, 10) + Repeat(0x8B, 10) + Repeat(0x8F, 10)
  {
    var rotation := Repeat(0x88, 10) + Repeat(0x89, 10) + Repeat(0x8A, 10) + Repeat(0x8B, 10) + Repeat(0x8F, 10);
    forall k | 0 <= k < 50
      ensures Replacement(base + k) == rotation[k]
    {
      assert (base + k) % 50 == k;
    }
  }

  /** The frames read from the samples, and how reading stopped. */
  datatype Reception = Reception(frames: seq<Frame>, halt: ReadResult)

  /**
   * The frames that `read_frame`, called again and again from `pos`, returns
   * before the samples run out or a frame overflows its buffer.
   */
  function ReceiveFrom(s: seq<Sample>, pos: nat): (r: Reception)
    requires pos <= |s|
    ensures !r.halt.Read?
    ensures forall f :: f in r.frames ==> f.Valid() && 1 <= f.length
    decreases |s| - pos
  {
    match ReadFrameSpec(s, pos)
    case Read(f, next) =>
      var rest := ReceiveFrom(s, next);
      Reception([f] + rest.frames, rest.halt)
    case halt => Reception([], halt)
  }

  /** One call of `read_frame` at `pos`: a frame followed by what is read after it, or the way reading stops. */
  lemma ReceiveStep(s: seq<Sample>, pos: nat)
    requires pos <= |s|
    ensures ReadFrameSpec(s, pos).Read? ==>
      var next := ReadFrameSpec(s, pos).next;
      ReceiveFrom(s, pos).frames == [ReadFrameSpec(s, pos).frame] + ReceiveFrom(s, next).frames &&
      ReceiveFrom(s, pos).halt == ReceiveFrom(s, next).halt
    ensures !ReadFrameSpec(s, pos).Read? ==> ReceiveFrom(s, pos) == Reception([], ReadFrameSpec(s, pos))
  {
  }

  /** The frames read so far followed by those read from the next position are all the frames. */
  lemma ReceiveNext(s: seq<Sample>, pos: nat, r: ReadResult, read: seq<Frame>, total: Reception)
    requires pos <= |s| && r == ReadFrameSpec(s, pos) && r.Read?
    requires total.frames == read + ReceiveFrom(s, pos).frames
    requires total.halt == ReceiveFrom(s, pos).halt
    ensures total.frames == (read + [r.frame]) + ReceiveFrom(s, r.next).frames
    ensures total.halt == ReceiveFrom(s, r.next).halt
  {
    ReceiveStep(s, pos);
  }

  /** What the receiving core queues for the frames it read, in order: each rewritten with the count of frames before it. */
  function Relay(frames: seq<Frame>): (q: seq<Frame>)
    requires forall k :: 0 <= k < |frames| ==> frames[k].Valid()
    ensures |q| == |frames|
  {
    if frames == [] then []
    else
      var n := |frames| - 1;
      Relay(frames[..n]) + [Rewrite(frames[n], n)]
  }

  /** Frame k of the queue is frame k as read, rewritten with counter k. */
  lemma {:induction false} RelayAt(frames: seq<Frame>)
    requires forall k :: 0 <= k < |frames| ==> frames[k].Valid()
    ensures forall k :: 0 <= k < |frames| ==> Relay(frames)[k] == Rewrite(frames[k], k)
  {
    if frames != [] {
      var n := |frames| - 1;
      RelayAt(frames[..n]);
    }
  }

  /** Every queued frame is valid: the rule keeps the buffer size and the length. */
  lemma RelayValid(frames: seq<Frame>)
    requires forall k :: 0 <= k < |frames| ==> frames[k].Valid()
    ensures forall k :: 0 <= k < |frames| ==> Relay(frames)[k].Valid()
  {
    RelayAt(frames);
  }

  /** Queuing one more frame appends its rewrite with the next counter value. */
  lemma RelaySnoc(frames: seq<Frame>, f: Frame)
    requires forall k :: 0 <= k < |frames| ==> frames[k].Valid()
    requires f.Valid()
    ensures Relay(frames + [f]) == Relay(frames) + [Rewrite(f, |frames|)]
  {
    assert (frames + [f])[..|frames|] == frames;
  }

  /**
   * The counter counts every frame, marked or not: when the fifty frames read
   * from a multiple of fifty on are all marked, each is queued with its first
   * byte replaced, ten of them by each code in turn (0x88, 0x89, 0x8A, 0x8B,
   * 0x8F), and nothing else changed.
   */
  lemma RelayRotation(frames: seq<Frame>, base: nat)
    requires forall k :: 0 <= k < |frames| ==> frames[k].Valid()
    requires base % 50 == 0 && base + 50 <= |frames|
    requires forall k :: base <= k < base + 50 ==> frames[k].Valid() && Marked(frames[k].data[0])
    ensures forall k :: 0 <= k < 50 ==>
      Relay(frames)[base + k] == frames[base + k].(data := frames[base + k].data[0 := Codes[k / 10]])
  {
    forall k | 0 <= k < 50
      ensures Relay(frames)[base + k] == frames[base + k].(data := frames[base + k].data[0 := Codes[k / 10]])
    {
      var i := base + k;
      RelayIndex(frames, i);
      ReplacementInBlock(base, k, i);
    }
  }

  /** Queued frame i is frame i as read, rewritten with counter i. */
  lemma RelayIndex(frames: seq<Frame>, i: nat)
    requires forall k :: 0 <= k < |frames| ==> frames[k].Valid()
    requires i < |frames|
    ensures Relay(frames)[i] == Rewrite(frames[i], i)
  {
    RelayAt(frames);
  }

  /** Within a block of fifty counter values, value base + k gets code k / 10. */
  lemma ReplacementInBlock(base: nat, k: nat, i: nat)
    requires base % 50 == 0 && k < 50 && i == base + k
    ensures Replacement(i) == Codes[k / 10]
  {
    assert i % 50 == k;
  }

  /**
   * `data_receive_core` over a finite stream of samples: read a frame, apply
   * the rewrite rule with the counter, queue the frame, count it. The result
   * is the sequence of queued frames in order and the way reading stopped:
   * `Starved` when the samples ran out (the core then waits for ever), or
   * `Overflow` when a frame ran past its buffer.
   */
  method ReceiveCore(s: seq<Sample>) returns (queue: seq<Frame>, halt: ReadResult)
    ensures halt == ReceiveFrom(s, 0).halt
    ensures var frames := ReceiveFrom(s, 0).frames;
      |queue| == |frames| && forall k :: 0 <= k < |queue| ==> queue[k] == Rewrite(frames[k], k)
  {
    var i := 0;
    var pos := 0;
    queue := [];
    ghost var read: seq<Frame> := [];
    ghost var total := ReceiveFrom(s, 0);
    while true
      invariant pos <= |s| && i == |queue| == |read|
      invariant total.frames == read + ReceiveFrom(s, pos).frames
      invariant total.halt == ReceiveFrom(s, pos).halt
      invariant forall k :: 0 <= k < |read| ==> read[k].Valid()
      invariant queue == Relay(read)
      decreases |s| - pos
    {
      var r := ReadFrame(s, pos);
      if !r.Read? {
        ReceiveStep(s, pos);
        halt := r;
        assert read + [] == read;
        RelayAt(read);
        return;
      }
      ReceiveNext(s, pos, r, read, total);
      RelaySnoc(read, r.frame);
      var f := Rewrite(r.frame, i);
      queue := queue + [f];
      read := read + [r.frame];
      i := i + 1;
      pos := r.next;
    }
  }
}
