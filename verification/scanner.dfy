/**
 * The edge scanner of clock.c: `wait_low_clk` and `scan`.
 *
 * The input pins are a finite sequence of samples; each iteration of a
 * polling loop consumes one sample. A scan reports the index just after the
 * last sample it consumed, or `Stalled` when the samples run out before the
 * loop would return (the C loops then spin for ever).
 */
module Scanner {
  import opened Wire

  datatype ScanResult = Got(kind: Kind, next: nat) | Stalled

  /** The exit tests of the polling loops. */
  datatype Probe =
    | ClkHigh          // the outer loop of `scan`
    | ClkLow           // `wait_low_clk`, and `scan` after data was high at the rising edge
    | ClkLowOrDinHigh  // `scan` after data was low at the rising edge

  function Stops(p: Probe, x: Sample): bool {
    match p
    case ClkHigh => x.clk
    case ClkLow => !x.clk
    case ClkLowOrDinHigh => !x.clk || x.din
  }

  /** Index of the first sample at or after `from` on which a loop polling for `stop` exits. */
  function FirstWhere(s: seq<Sample>, from: nat, stop: Probe): (r: Option<nat>)
    requires from <= |s|
    ensures r.Some? ==> from <= r.value < |s| && Stops(stop, s[r.value])
    ensures r.Some? ==> forall j :: from <= j < r.value ==> !Stops(stop, s[j])
    ensures r.None? ==> forall j :: from <= j < |s| ==> !Stops(stop, s[j])
    decreases |s| - from
  {
    if from == |s| then None
    else if Stops(stop, s[from]) then Some(from)
    else FirstWhere(s, from + 1, stop)
  }

  /** The first index satisfying `stop` is the one `FirstWhere` finds. */
  lemma FirstWhereIs(s: seq<Sample>, from: nat, stop: Probe, k: nat)
    requires from <= k < |s| && Stops(stop, s[k])
    requires forall j :: from <= j < k ==> !Stops(stop, s[j])
    ensures FirstWhere(s, from, stop) == Some(k)
  {
  }

  /** Samples on which the loop does not exit can be skipped: polling starts the same after them. */
  lemma {:induction false} FirstWhereSkip(s: seq<Sample>, from: nat, n: nat, stop: Probe)
    requires from <= n <= |s|
    requires forall j :: from <= j < n ==> !Stops(stop, s[j])
    ensures FirstWhere(s, from, stop) == FirstWhere(s, n, stop)
    decreases n - from
  {
    if from < n {
      FirstWhereSkip(s, from + 1, n, stop);
    }
  }

  /**
   * What `wait_low_clk` does, started at `pos`: the index just after the
   * first sample with the clock low, or None if the clock stays high.
   */
  function LowAfter(s: seq<Sample>, pos: nat): (r: Option<nat>)
    requires pos <= |s|
    ensures r.Some? ==> pos < r.value <= |s| && !s[r.value - 1].clk
    ensures r.Some? ==> forall j :: pos <= j < r.value - 1 ==> s[j].clk
    ensures r.None? ==> forall j :: pos <= j < |s| ==> s[j].clk
  {
    match FirstWhere(s, pos, ClkLow)
    case None => None
    case Some(m) => Some(m + 1)
  }

  /**
   * What `scan` returns when started at `pos`: it polls until the clock is
   * high; with data high there it waits for the clock to fall and reports
   * Bit1; otherwise it polls until the clock falls (Bit0) or the data rises
   * while the clock is still high (FrameEnd), testing the clock first.
   */
  function ScanSpec(s: seq<Sample>, pos: nat): (r: ScanResult)
    requires pos <= |s|
    ensures r.Got? ==> pos + 2 <= r.next <= |s|
  {
    match FirstWhere(s, pos, ClkHigh)
    case None => Stalled
    case Some(k) =>
      if s[k].din then
        match FirstWhere(s, k + 1, ClkLow)
        case None => Stalled
        case Some(m) => Got(Bit1, m + 1)
      else
        match FirstWhere(s, k + 1, ClkLowOrDinHigh)
        case None => Stalled
        case Some(m) => if !s[m].clk then Got(Bit0, m + 1) else Got(FrameEnd, m + 1)
  }

  /** A clock-high sample followed by a clock-low one: `wait_low_clk` returns just after the second. */
  lemma LowAfterHighLow(s: seq<Sample>, pos: nat, m: nat)
    requires pos + 2 <= |s| && s[pos].clk && !s[pos + 1].clk && m == pos + 2
    ensures LowAfter(s, pos) == Some(m)
  {
    FirstWhereIs(s, pos, ClkLow, pos + 1);
  }

  /** `wait_low_clk`: poll the clock line until it reads low. */
  method WaitLowClk(s: seq<Sample>, pos: nat) returns (r: Option<nat>)
    requires pos <= |s|
    ensures r == LowAfter(s, pos)
  {
    var i := pos;
    while i < |s|
      invariant pos <= i <= |s|
      invariant forall j :: pos <= j < i ==> s[j].clk
    {
      if !s[i].clk {
        FirstWhereIs(s, pos, ClkLow, i);
        return Some(i + 1);
      }
      i := i + 1;
    }
    return None;
  }

  /** `scan`: classify one clock cycle from live samples. */
  method Scan(s: seq<Sample>, pos: nat) returns (r: ScanResult)
    requires pos <= |s|
    ensures r == ScanSpec(s, pos)
  {
    var i := pos;
    while i < |s|
      invariant pos <= i <= |s|
      invariant forall j :: pos <= j < i ==> !s[j].clk
    {
      if s[i].clk {
        // Rising clock edge.
        var k := i;
        FirstWhereIs(s, pos, ClkHigh, k);
        i := i + 1;
        if s[k].din {
          while i < |s|
            invariant k < i <= |s|
            invariant forall j :: k < j < i ==> s[j].clk
          {
            if !s[i].clk {
              FirstWhereIs(s, k + 1, ClkLow, i);
              return Got(Bit1, i + 1);
            }
            i := i + 1;
          }
          return Stalled;
        }
        while i < |s|
          invariant k < i <= |s|
          invariant forall j :: k < j < i ==> s[j].clk && !s[j].din
        {
          if !s[i].clk {
            FirstWhereIs(s, k + 1, ClkLowOrDinHigh, i);
            return Got(Bit0, i + 1);
          }
          if s[i].din {
            FirstWhereIs(s, k + 1, ClkLowOrDinHigh, i);
            return Got(FrameEnd, i + 1);
          }
          i := i + 1;
        }
        return Stalled;
      }
      i := i + 1;
    }
    return Stalled;
  }

  /** Sample k is the first one at or after `pos` with the clock high. */
  ghost predicate RisesAt(s: seq<Sample>, pos: nat, k: nat) {
    pos <= k < |s| && s[k].clk && forall j :: pos <= j < k ==> !s[j].clk
  }

  /**
   * The clock cycle that rose at k ends at sample m and is of the given kind:
   * Bit1 when data was high at the rising edge, and the clock stays high until
   * it falls at m (data is ignored meanwhile); Bit0 when data was low at the
   * rising edge and stays low while the clock stays high until it falls at m;
   * FrameEnd when data was low at the rising edge, stays low while the clock
   * stays high, and rises at m with the clock still high.
   */
  ghost predicate EndsCycle(s: seq<Sample>, k: nat, m: nat, kind: Kind) {
    k < m < |s| &&
    match kind
    case Bit1 =>
      s[k].din && !s[m].clk && forall j :: k < j < m ==> s[j].clk
    case Bit0 =>
      !s[k].din && !s[m].clk && forall j :: k < j < m ==> s[j].clk && !s[j].din
    case FrameEnd =>
      !s[k].din && s[m].clk && s[m].din && forall j :: k < j < m ==> s[j].clk && !s[j].din
  }

  /** Any cycle shaped as `EndsCycle` describes is what `scan` reports. */
  lemma ScanComplete(s: seq<Sample>, pos: nat, k: nat, m: nat, kind: Kind)
    requires RisesAt(s, pos, k) && EndsCycle(s, k, m, kind)
    ensures ScanSpec(s, pos) == Got(kind, m + 1)
  {
    FirstWhereIs(s, pos, ClkHigh, k);
    match kind
    case Bit1 => FirstWhereIs(s, k + 1, ClkLow, m);
    case Bit0 => FirstWhereIs(s, k + 1, ClkLowOrDinHigh, m);
    case FrameEnd => FirstWhereIs(s, k + 1, ClkLowOrDinHigh, m);
  }

  /** Everything `scan` reports is a cycle shaped as `EndsCycle` describes. */
  lemma ScanSound(s: seq<Sample>, pos: nat)
    requires pos <= |s|
    ensures ScanSpec(s, pos).Got? ==>
      exists k :: RisesAt(s, pos, k) && EndsCycle(s, k, ScanSpec(s, pos).next - 1, ScanSpec(s, pos).kind)
  {
    if ScanSpec(s, pos).Got? {
      var k := FirstWhere(s, pos, ClkHigh).value;
      assert RisesAt(s, pos, k);
    }
  }

  /**
   * The classification of one cycle, both directions: `scan` reports `kind`
   * ending before `next` exactly when the first clock-high sample and the
   * sample before `next` form a cycle of that kind. In particular a sample
   * where the clock falls and the data rises at once ends a Bit0.
   */
  lemma ScanClassification(s: seq<Sample>, pos: nat, kind: Kind, next: nat)
    requires pos <= |s|
    ensures ScanSpec(s, pos) == Got(kind, next) <==>
      next >= 1 && exists k :: RisesAt(s, pos, k) && EndsCycle(s, k, next - 1, kind)
  {
    ScanSound(s, pos);
    if next >= 1 && exists k :: RisesAt(s, pos, k) && EndsCycle(s, k, next - 1, kind) {
      var k :| RisesAt(s, pos, k) && EndsCycle(s, k, next - 1, kind);
      ScanComplete(s, pos, k, next - 1, kind);
    }
  }

  /** A scan stalls exactly when no complete cycle follows `pos`. */
  lemma ScanStalls(s: seq<Sample>, pos: nat)
    requires pos <= |s|
    ensures ScanSpec(s, pos) == Stalled <==>
      forall k, m, kind :: !(RisesAt(s, pos, k) && EndsCycle(s, k, m, kind))
  {
    ScanSound(s, pos);
    if exists k, m, kind :: RisesAt(s, pos, k) && EndsCycle(s, k, m, kind) {
      var k, m, kind :| RisesAt(s, pos, k) && EndsCycle(s, k, m, kind);
      ScanComplete(s, pos, k, m, kind);
    }
  }
}
