/** The values exchanged on the two-wire (clock + data) link of clock.c. */
module Wire {

  datatype Option<T> = None | Some(value: T)

  /** One sample of the two input lines: the clock line (CLKIN) and the data line (DIOIN). */
  datatype Sample = Sample(clk: bool, din: bool)

  /** Classification of one clock cycle (the SCAN enum). */
  datatype Kind = Bit0 | Bit1 | FrameEnd

  /** MAX_DATA_BYTES: capacity of a frame's payload buffer. */
  const MaxDataBytes: nat := 31

  /** Number of payload bits that fit in the buffer; a bit arriving at this count is written past it. */
  const MaxBits: nat := 8 * MaxDataBytes

  /** The Frame struct: a 31-byte buffer and the number of assembled bytes in it. */
  datatype Frame = Frame(data: seq<bv8>, length: nat) {

    /** A frame whose buffer has its fixed size and whose length stays within it. */
    predicate Valid() {
      |data| == MaxDataBytes && length <= MaxDataBytes
    }

    /** The bytes that are transmitted: data[0..length). */
    function Payload(): (p: seq<bv8>)
      requires Valid()
      ensures |p| == length
    {
      data[..length]
    }
  }

  /** A buffer of n zero bytes (`Frame f = {0}`). */
  function Zeros(n: nat): (z: seq<bv8>)
    ensures |z| == n
    ensures forall i :: 0 <= i < n ==> z[i] == 0
  {
    seq(n, _ => 0)
  }

  /** The byte with only bit j set, `1 << j`, counted from the least significant bit. */
  function Mask(j: nat): bv8
    requires j < 8
  {
    match j
    case 0 => 0x01
    case 1 => 0x02
    case 2 => 0x04
    case 3 => 0x08
    case 4 => 0x10
    case 5 => 0x20
    case 6 => 0x40
    case _ => 0x80
  }

  /** `Mask` is the shift it stands for. */
  lemma MaskShift(j: nat)
    requires j < 8
    ensures Mask(j) == 1 << j
  {
  }

  /** Bit j of a byte, counted from the least significant: `(x >> j) & 1`. */
  function ByteBit(x: bv8, j: nat): bool
    requires j < 8
  {
    x & Mask(j) != 0
  }

  /** `ByteBit` is the shift-and-mask `(x >> j) & 1` that `main` uses to take bits apart. */
  lemma ByteBitShift(x: bv8, j: nat)
    requires j < 8
    ensures ByteBit(x, j) == ((x >> j) & 1 == 1)
  {
  }

  /** Bit k of a buffer in `read_frame`'s packing order: bit k % 8 of byte k / 8. */
  function BitAt(data: seq<bv8>, k: nat): bool
    requires k < 8 * |data|
  {
    ByteBit(data[k / 8], k % 8)
  }

  /**
   * The line states of one bit as `main` drives it, one sample per state:
   * data set while the clock is low, clock high, clock low.
   */
  function Pulse(b: bool): (r: seq<Sample>)
    ensures |r| == 3
  {
    [Sample(false, b), Sample(true, b), Sample(false, b)]
  }

  /** The line states of a sequence of bits, each as a `Pulse`. */
  function Pulses(bits: seq<bool>): (r: seq<Sample>)
    ensures |r| == 3 * |bits|
  {
    if bits == [] then [] else Pulse(bits[0]) + Pulses(bits[1..])
  }

  /**
   * The line states that end a frame: data low with the clock low, clock
   * high, then data high while the clock stays high.
   */
  const EndMarker: seq<Sample> := [Sample(false, false), Sample(true, false), Sample(true, true)]

  /**
   * The line states of one frame whose body carries `bits`, as `main` drives
   * them after the previous end marker: data low, clock low, the pulses of
   * the bits, then the end marker.
   */
  function Segment(bits: seq<bool>): (r: seq<Sample>)
    ensures |r| == 3 * |bits| + 5
  {
    [Sample(true, false), Sample(false, false)] + Pulses(bits) + EndMarker
  }
}
