/** Baseband filter selection and `hackrf_set_sample_rate_manual`. */
module BasebandFilter {
  import opened Binary64
  import opened Types
  import opened Words

  /** The filter table of the MAX2837, ended by a zero. */
  const MAX2837_FT: seq<nat> := [
    1750000, 2500000, 3500000, 5000000, 5500000, 6000000, 7000000, 8000000, 9000000,
    10000000, 12000000, 14000000, 15000000, 20000000, 24000000, 28000000, 0]

  /** A strictly increasing table of bandwidths, ended by a zero. */
  predicate IsTable(t: seq<nat>) {
    && 2 <= |t| && t[|t| - 1] == 0
    && (forall i | 0 <= i < |t| - 1 :: 0 < t[i])
    && (forall i, j | 0 <= i < j < |t| - 1 :: t[i] < t[j])
  }

  /** The widest bandwidth of the table. */
  function Widest(t: seq<nat>): nat
    requires IsTable(t)
  {
    t[|t| - 2]
  }

  /** r is the widest bandwidth of the table within a limit. */
  predicate IsWidestWithin(t: seq<nat>, r: nat, within: nat -> bool)
    requires IsTable(t)
  {
    && r in t[..|t| - 1] && within(r)
    && forall e | e in t[..|t| - 1] && within(e) :: e <= r
  }

  /** The first index at or after i whose entry is at least bw, or the terminator. */
  function Stop(t: seq<nat>, bw: nat, i: nat): (k: nat)
    requires IsTable(t) && i < |t|
    ensures i <= k < |t|
    ensures t[k] == 0 || bw <= t[k]
    ensures forall j | i <= j < k :: 0 < t[j] < bw
    decreases |t| - i
  {
    if t[i] == 0 || bw <= t[i] then i else Stop(t, bw, i + 1)
  }

  function FilterFor(t: seq<nat>, bw: nat): nat
    requires IsTable(t)
  {
    var k := Stop(t, bw, 0);
    if k != 0 && bw < t[k] then t[k - 1] else t[k]
  }

  function RoundDownLt(t: seq<nat>, bw: nat): nat
    requires IsTable(t)
  {
    var k := Stop(t, bw, 0);
    if k != 0 then t[k - 1] else t[k]
  }

  method ComputeBasebandFilterBw(t: seq<nat>, bw: nat) returns (r: nat)
    requires IsTable(t)
    ensures r == FilterFor(t, bw)
    ensures t[0] <= bw <= Widest(t) ==> IsWidestWithin(t, r, e => e <= bw)
    ensures bw < t[0] ==> r == t[0]
    ensures Widest(t) < bw ==> r == 0
  {
    var p := 0;
    while t[p] != 0
      invariant p < |t| && Stop(t, bw, 0) == Stop(t, bw, p)
      decreases |t| - p
    {
      if bw <= t[p] {
        break;
      }
      p := p + 1;
    }
    if p != 0 {
      if bw < t[p] {
        p := p - 1;
      }
    }
    r := t[p];
    FilterExactlyWhen(t, bw);
  }

  method ComputeBasebandFilterBwRoundDownLt(t: seq<nat>, bw: nat) returns (r: nat)
    requires IsTable(t)
    ensures r == RoundDownLt(t, bw)
    ensures t[0] < bw ==> IsWidestWithin(t, r, e => e < bw)
    ensures bw <= t[0] ==> r == t[0]
  {
    var p := 0;
    while t[p] != 0
      invariant p < |t| && Stop(t, bw, 0) == Stop(t, bw, p)
      decreases |t| - p
    {
      if bw <= t[p] {
        break;
      }
      p := p + 1;
    }
    if p != 0 {
      p := p - 1;
    }
    r := t[p];
    RoundDownIsBelow(t, bw);
  }

  /** The chosen filter is the widest one within the argument exactly for arguments in the table's range. */
  lemma FilterExactlyWhen(t: seq<nat>, bw: nat)
    requires IsTable(t)
    ensures IsWidestWithin(t, FilterFor(t, bw), e => e <= bw) <==> t[0] <= bw <= Widest(t)
    ensures bw < t[0] ==> FilterFor(t, bw) == t[0]
    ensures Widest(t) < bw ==> FilterFor(t, bw) == 0
  {
  }

  lemma RoundDownIsBelow(t: seq<nat>, bw: nat)
    requires IsTable(t)
    ensures t[0] < bw ==> IsWidestWithin(t, RoundDownLt(t, bw), e => e < bw)
    ensures bw <= t[0] ==> RoundDownLt(t, bw) == t[0]
  {
  }

  /** The two selections differ exactly at the entries after the first, and above the table. */
  lemma SelectionsDiffer(t: seq<nat>, bw: nat)
    requires IsTable(t)
    ensures FilterFor(t, bw) != RoundDownLt(t, bw) <==> bw in t[1..|t| - 1] || Widest(t) < bw
  {
  }

  lemma Max2837IsTable()
    ensures IsTable(MAX2837_FT) && MAX2837_FT[0] == 1750000 && Widest(MAX2837_FT) == 28000000
  {
  }

  /** The bandwidths of the table in kilohertz. */
  lemma Max2837Bandwidths()
    ensures |MAX2837_FT| == 17
    ensures var khz := [1750, 2500, 3500, 5000, 5500, 6000, 7000, 8000, 9000,
                        10000, 12000, 14000, 15000, 20000, 24000, 28000];
      forall i | 0 <= i < 16 :: MAX2837_FT[i] == 1000 * khz[i]
  {
  }

  // ----- hackrf_set_sample_rate_manual

  /** The vendor requests sent to the device. */
  datatype Request =
    | SampleRateSet(freqHz: nat, divider: nat)
    | BasebandFilterBandwidthSet(wValue: nat, wIndex: nat)

  /** `(uint32_t) (0.75 * freq_hz / divider)`: the product is exact, the quotient is rounded, then truncated. */
  function ThreeQuarters(freqHz: nat, divider: nat): nat
    requires 1 <= divider
  {
    Quotient53(3 * freqHz * TWO_96, 4 * divider) / TWO_96
  }

  /** e is no more than 75% of the sample rate freqHz / divider. */
  predicate Within75(freqHz: nat, divider: nat, e: nat) {
    4 * divider * e <= 3 * freqHz
  }

  /** `sent` and `tuned` are what the two control transfers return. */
  method SetSampleRateManual(t: seq<nat>, freqHz: nat, divider: nat, sent: int, tuned: int)
    returns (status: Code, requests: seq<Request>)
    requires IsTable(t) && (forall i | 0 <= i < |t| :: t[i] < TWO_32)
    requires freqHz < TWO_32 && 1 <= divider < TWO_32
    ensures sent < 8 ==> status == LibusbError && requests == [SampleRateSet(freqHz, divider)]
    ensures sent >= 8 ==>
      && status == (if tuned == 0 then Success else LibusbError)
      && |requests| == 2 && requests[0] == SampleRateSet(freqHz, divider)
      && requests[1].BasebandFilterBandwidthSet? && requests[1].wValue < TWO_16 && requests[1].wIndex < TWO_16
      && var bw := requests[1].wIndex * TWO_16 + requests[1].wValue;
         bw == FilterFor(t, ThreeQuarters(freqHz, divider))
  {
    requests := [SampleRateSet(freqHz, divider)];
    if sent < 8 {
      status := LibusbError;
    } else {
      var bw := ComputeBasebandFilterBw(t, ThreeQuarters(freqHz, divider));
      requests := requests + [BasebandFilterBandwidthSet(bw % TWO_16, bw / TWO_16)];
      status := if tuned != 0 then LibusbError else Success;
    }
  }

  /**
   * The documented choice, the widest filter that is no more than 75% of the sample rate, is made exactly
   * when the first filter is within 75% and 75% of the rate, cut to whole hertz, is within the last.
   */
  lemma FilterFollowsRate(t: seq<nat>, freqHz: nat, divider: nat)
    requires IsTable(t) && freqHz < TWO_32 && 1 <= divider < TWO_32
    ensures IsWidestWithin(t, FilterFor(t, ThreeQuarters(freqHz, divider)), (e: nat) => Within75(freqHz, divider, e))
       <==> Within75(freqHz, divider, t[0]) && ThreeQuarters(freqHz, divider) <= Widest(t)
  {
    hide Quotient53;
    var bw := ThreeQuarters(freqHz, divider);
    FilterExactlyWhen(t, bw);
    TruncatedQuotient(3 * freqHz, 4 * divider);
    forall e: nat ensures Within75(freqHz, divider, e) <==> e <= bw {
      FloorIsWithin(3 * freqHz, 4 * divider, e);
    }
  }

  lemma FloorIsWithin(a: nat, b: nat, e: nat)
    requires 1 <= b
    ensures b * e <= a <==> e <= a / b
  {
    var q := a / b;
    assert a == b * q + a % b;
    if q < e { MulAtLeast(b, e - q); } else { assert b * e <= b * q; }
  }
}
