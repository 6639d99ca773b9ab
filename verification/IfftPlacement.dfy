/** Where `rx_callback` puts the kept FFT bins in the input of the inverse FFT of a whole sweep. */
module IfftPlacement {
  import opened Binary64
  import opened Constants
  import opened Words
  import opened SweepGeometry

  /** Adjacent sub-steps of the spectrum are a quarter of the sample rate apart. */
  const QUARTER_HZ := 5_000_000

  /** FFT bins of a sweep over `steps` tuning steps. */
  function IfftBins(n: nat, steps: nat): nat { n * steps }

  /** `fft_bin_width`, the binary64 quotient in units of 2^-96 hertz. */
  function BinWidth64(n: nat): (w: nat)
    requires 1 <= n <= 8188
    ensures 1 <= w
    ensures TWO_53 * (w * n - SAMPLE_RATE_HZ * TWO_96) <= SAMPLE_RATE_HZ * TWO_96
    ensures TWO_53 * (SAMPLE_RATE_HZ * TWO_96 - w * n) <= SAMPLE_RATE_HZ * TWO_96
  {
    QuotientError(SAMPLE_RATE_HZ * TWO_96, n);
    Quotient53(SAMPLE_RATE_HZ * TWO_96, n)
  }

  /** `(uint32_t) round(d / fft_bin_width)` for a block d hertz above the start of the range. */
  function BinsAbove(d: nat, n: nat): nat
    requires 1 <= n <= 8188
  {
    (Quotient53(d * TWO_96 * TWO_96, BinWidth64(n)) + TWO_96 / 2) / TWO_96 % TWO_32
  }

  /** The slot of the first kept bin of a block, and of the first bin of its second window. */
  function FirstIndex(d: nat, n: nat, steps: nat): (k: nat)
    requires 1 <= n <= 8188 && 0 < IfftBins(n, steps)
    ensures k < IfftBins(n, steps)
  {
    (BinsAbove(d, n) + IfftBins(n, steps) / 2) % IfftBins(n, steps)
  }

  /** Half an FFT further on, in an array of B slots. */
  function HalfStepOn(k: nat, n: nat, B: nat): nat
    requires 0 < B
  {
    (k + n / 2) % B
  }

  function SecondIndex(d: nat, n: nat, steps: nat): (k: nat)
    requires 1 <= n <= 8188 && 0 < IfftBins(n, steps)
    ensures k < IfftBins(n, steps)
  {
    HalfStepOn(FirstIndex(d, n, steps), n, IfftBins(n, steps))
  }

  /** Bin i of window h of a block, and the index of the same bin in the spectrum of the whole sweep. */
  function WindowBin(n: nat, h: nat, i: nat): nat {
    if h == 0 then FirstBin(n, i) else SecondBin(n, i)
  }

  function WindowIndex(d: nat, n: nat, steps: nat, h: nat): (k: nat)
    requires 1 <= n <= 8188 && 0 < IfftBins(n, steps)
    ensures k < IfftBins(n, steps)
  {
    if h == 0 then FirstIndex(d, n, steps) else SecondIndex(d, n, steps)
  }

  /** Bin i of window h of the block q quarters above the start, as a bin of the sweep's spectrum. */
  function SpectralBin(n: nat, q: nat, h: nat, i: nat): nat {
    n / 4 * (q + 2 * h) + i
  }

  /** That numbering agrees with the frequencies: both name the same centre. */
  lemma SpectralBinCentre(start: int, n: nat, q: nat, h: nat, i: nat)
    requires IsFftSize(n) && h < 2 && i < n / 4
    ensures BinAbove(start, n, SpectralBin(n, q, h, i))
         == Centre(start + q * QUARTER_HZ, n, WindowBin(n, h, i))
  {
    BinLabels(start + q * QUARTER_HZ, n, i);
    var w, c, p := BinWidth(n), n / 4, q + 2 * h;
    QuarterShift(w, c as real, p as real, i as real);
    assert SpectralBin(n, q, h, i) as real == p as real * c as real + i as real;
    assert (p * QUARTER_HZ) as real == p as real * 5_000_000.0;
    assert BinAbove(start + p * QUARTER_HZ, n, i) == Centre(start + q * QUARTER_HZ, n, WindowBin(n, h, i));
  }

  lemma QuarterShift(w: real, c: real, p: real, i: real)
    requires c * w == 5_000_000.0
    ensures (p * c + i + 0.5) * w == p * 5_000_000.0 + (i + 0.5) * w
  {
  }

  /** Where the exact quotient is whole, the two roundings of the source do not move the nearest integer. */
  lemma WholeBins(d: nat, n: nat, k: nat)
    requires 1 <= n <= 8188 && d * n == SAMPLE_RATE_HZ * k && k < 0x4000_0000
    ensures BinsAbove(d, n) == k
  {
    hide Quotient53, BinWidth64;
    var w := BinWidth64(n);
    var y := Quotient53(d * TWO_96 * TWO_96, w);
    if d == 0 {
      QuotientExact(0, w, 0, 0);
    } else {
      WidthBound(d, n, w);
      QuotientError(d * TWO_96 * TWO_96, w);
      QuotientSpread(d, n, k, w, y);
      NearTheWhole(SAMPLE_RATE_HZ * TWO_96, w * n - SAMPLE_RATE_HZ * TWO_96, y, k * TWO_96);
    }
    QuotRem(y + TWO_96 / 2, TWO_96, k, y + TWO_96 / 2 - k * TWO_96);
  }

  lemma WidthBound(d: nat, n: nat, w: nat)
    requires 1 <= n && 1 <= d
    requires TWO_53 * (w * n - SAMPLE_RATE_HZ * TWO_96) <= SAMPLE_RATE_HZ * TWO_96
    ensures TWO_52 * w <= d * TWO_96 * TWO_96
  {
    assert w <= w * n by { MulAtLeast(w, n); }
  }

  /** The rounded quotient times the rounded width, in bins. */
  lemma QuotientSpread(d: nat, n: nat, k: nat, w: nat, y: nat)
    requires d * n == SAMPLE_RATE_HZ * k && 1 <= n
    requires TWO_53 * (y * w - d * TWO_96 * TWO_96) <= d * TWO_96 * TWO_96
    requires TWO_53 * (d * TWO_96 * TWO_96 - y * w) <= d * TWO_96 * TWO_96
    ensures var all := SAMPLE_RATE_HZ * TWO_96 * (k * TWO_96);
      TWO_53 * (y * (w * n) - all) <= all && TWO_53 * (all - y * (w * n)) <= all
  {
    var p, z := d * TWO_96 * TWO_96, y * w;
    assert n * p == SAMPLE_RATE_HZ * TWO_96 * (k * TWO_96);
    assert y * (w * n) == n * z;
    MulMonotoneBy(n, TWO_53 * (z - p), p);
    MulMonotoneBy(n, TWO_53 * (p - z), p);
    assert n * (TWO_53 * (z - p)) == TWO_53 * (n * z - n * p);
  }

  lemma MulMonotoneBy(n: nat, a: int, b: int)
    ensures a <= b ==> n * a <= n * b
  {
  }

  /** A quotient of two numbers, each within 2^-53 of its exact value, is within 2^-51 of the exact quotient. */
  lemma NearTheWhole(A: nat, a: int, y: nat, K: nat)
    requires 1 <= A && TWO_53 * a <= A && -(TWO_53 * a) <= A
    requires TWO_53 * (y * (A + a) - A * K) <= A * K && TWO_53 * (A * K - y * (A + a)) <= A * K
    ensures TWO_52 * (y - K) <= 2 * K && TWO_52 * (K - y) <= 2 * K
  {
    assert y * (A + a) == y * A + y * a;
    SpreadBy(y, a, A);
    ErrorsAdd(y * A, y * a, A * K);
    Differences(A, y, K);
    Cancel(A, TWO_53 * (y - K), 3 * K);
    Cancel(A, TWO_53 * (K - y), 3 * K);
  }

  lemma SpreadBy(y: nat, a: int, A: nat)
    requires TWO_53 * a <= A && -(TWO_53 * a) <= A
    ensures TWO_53 * (y * a) <= y * A && -(TWO_53 * (y * a)) <= y * A
  {
    MulMonotoneBy(y, TWO_53 * a, A);
    MulMonotoneBy(y, -(TWO_53 * a), A);
  }

  lemma ErrorsAdd(yA: int, ya: int, AK: int)
    requires TWO_53 * ya <= yA && -(TWO_53 * ya) <= yA && 0 <= yA && 0 <= AK
    requires TWO_53 * (yA + ya - AK) <= AK && TWO_53 * (AK - (yA + ya)) <= AK
    ensures TWO_53 * (yA - AK) <= 3 * AK && TWO_53 * (AK - yA) <= 3 * AK
  {
  }

  lemma Differences(A: int, y: int, K: int)
    ensures A * (TWO_53 * (y - K)) == TWO_53 * (y * A - A * K)
    ensures A * (TWO_53 * (K - y)) == TWO_53 * (A * K - y * A)
    ensures A * (3 * K) == 3 * (A * K)
  {
  }

  lemma Cancel(A: nat, x: int, y: int)
    requires 1 <= A && A * x <= A * y
    ensures x <= y
  {
    if y < x { MulAtLeast(A, x - y); }
  }

  /** The rounding in the source is exact on the grid of the schedule. */
  lemma OnGridIsExact(q: nat, n: nat)
    requires IsFftSize(n) && n <= 8188 && q * QUARTER_HZ <= 7_250_000_000
    ensures BinsAbove(q * QUARTER_HZ, n) == q * (n / 4)
  {
    hide BinsAbove;
    var c := n / 4;
    MulBound(q, 1450, c, 2047);
    GridProduct(q, n, c);
    WholeBins(q * QUARTER_HZ, n, q * c);
  }

  lemma GridProduct(q: nat, n: nat, c: nat)
    requires n == 4 * c
    ensures q * QUARTER_HZ * n == SAMPLE_RATE_HZ * (q * c)
  {
  }

  lemma MulBound(a: nat, b: nat, c: nat, d: nat)
    requires a <= b && c <= d
    ensures a * c <= b * d
  {
  }

  lemma ScaledMod(c: nat, x: nat, m: nat)
    requires 0 < c && 0 < m
    ensures 0 < c * m && c * x % (c * m) == c * (x % m)
  {
    var q, r := x / m, x % m;
    calc {
      c * x;
      c * (m * q + r);
      c * (m * q) + c * r;
      { Associate(c, m, q); }
      (c * m) * q + c * r;
    }
    assert c * r < c * m by { MulAtLeast(c, m - r); }
    QuotRem(c * x, c * m, q, c * r);
  }

  /** Adding less than c does not leave the unit. */
  lemma ScaledModPlus(c: nat, x: nat, m: nat, i: nat)
    requires i < c && 0 < m
    ensures 0 < c * m && (c * x + i) % (c * m) == c * (x % m) + i < c * m
  {
    ScaledMod(c, x, m);
    var q, r := x / m, x % m;
    calc {
      c * x + i;
      c * (m * q + r) + i;
      { Associate(c, m, q); }
      (c * m) * q + (c * r + i);
    }
    assert c * r + c <= c * m by { MulAtLeast(c, m - r); }
    QuotRem(c * x + i, c * m, q, c * r + i);
  }

  /** A sweep of S steps in units of a quarter of an FFT. */
  lemma BinsInUnits(n: nat, S: nat, c: nat)
    requires n == 4 * c
    ensures IfftBins(n, S) == c * (4 * S) && IfftBins(n, S) / 2 == c * (2 * S)
  {
  }

  /**
   * Every kept bin of a block on the grid lands in bounds, half a turn away from its place in the spectrum.
   */
  lemma HalfRotation(q: nat, n: nat, S: nat, h: nat, i: nat)
    requires IsFftSize(n) && n <= 8188 && 0 < S && h < 2 && i < n / 4
    requires q * QUARTER_HZ <= 7_250_000_000
    ensures var B := IfftBins(n, S);
      && 0 < B
      && WindowIndex(q * QUARTER_HZ, n, S, h) + i < B
      && WindowIndex(q * QUARTER_HZ, n, S, h) + i == HalfTurn(SpectralBin(n, q, h, i), B)
  {
    hide BinsAbove, IfftBins;
    BinsInUnits(n, S, n / 4);
    BinsPositive(n, S);
    WindowStarts(q, n, S, n / 4, h);
    RotatedBin(n, q, h, i, S, n / 4);
  }

  /** Where the window of a block on the grid starts, in units of a quarter of an FFT. */
  lemma WindowStarts(q: nat, n: nat, S: nat, c: nat, h: nat)
    requires IsFftSize(n) && n <= 8188 && 0 < S && h < 2 && n == 4 * c
    requires q * QUARTER_HZ <= 7_250_000_000
    ensures 0 < IfftBins(n, S) && WindowIndex(q * QUARTER_HZ, n, S, h) == c * ((q + 2 * h + 2 * S) % (4 * S))
  {
    hide BinsAbove, IfftBins;
    OnGridIsExact(q, n);
    BinsInUnits(n, S, c);
    BinsPositive(n, S);
    FirstWindow(c, q, S);
    SecondWindow(c, q + 2 * S, 4 * S);
  }

  lemma RotatedBin(n: nat, q: nat, h: nat, i: nat, S: nat, c: nat)
    requires 0 < S && i < c && n == 4 * c
    ensures var B := c * (4 * S);
      && 0 < B && c * ((q + 2 * h + 2 * S) % (4 * S)) + i < B
      && c * ((q + 2 * h + 2 * S) % (4 * S)) + i == (SpectralBin(n, q, h, i) + c * (2 * S)) % B
  {
    ScaledModPlus(c, q + 2 * h + 2 * S, 4 * S, i);
    SpectralShift(c, q, h, i, S);
  }

  lemma FirstWindow(c: nat, q: nat, S: nat)
    requires 0 < c && 0 < S
    ensures 0 < c * (4 * S) && (q * c + c * (2 * S)) % (c * (4 * S)) == c * ((q + 2 * S) % (4 * S))
  {
    assert q * c + c * (2 * S) == c * (q + 2 * S);
    ScaledMod(c, q + 2 * S, 4 * S);
  }

  lemma SecondWindow(c: nat, x: nat, m: nat)
    requires 0 < c && 0 < m
    ensures 0 < c * m && (c * (x % m) + 2 * c) % (c * m) == c * ((x + 2) % m)
  {
    var r := x % m;
    assert c * r + 2 * c == c * (r + 2);
    ScaledMod(c, r + 2, m);
    var q := x / m;
    assert x + 2 == m * (q + (r + 2) / m) + (r + 2) % m by {
      assert x == m * q + r;
      assert m * (q + (r + 2) / m) == m * q + m * ((r + 2) / m);
    }
    QuotRem(x + 2, m, q + (r + 2) / m, (r + 2) % m);
  }

  lemma SpectralShift(c: nat, q: nat, h: nat, i: nat, S: nat)
    ensures c * (q + 2 * h) + i + c * (2 * S) == c * (q + 2 * h + 2 * S) + i
  {
  }

  // ----- labels off the schedule

  /** Both windows of a block lie inside B slots when its first one starts at k. */
  predicate WindowsFit(k: nat, n: nat, B: nat)
    requires 0 < B
  {
    k + n / 4 <= B && HalfStepOn(k, n, B) + n / 4 <= B
  }

  /** They do unless one of them reaches across the end of the array. */
  lemma WindowsFitExactly(k: nat, n: nat, S: nat)
    requires IsFftSize(n) && 0 < S && k < IfftBins(n, S)
    ensures var c, B := n / 4, IfftBins(n, S);
      0 < B && (WindowsFit(k, n, B) <==> !(B - c < k < B) && !(B - 3 * c < k < B - 2 * c))
  {
    hide IfftBins;
    var c, B := n / 4, IfftBins(n, S);
    BinsInUnits(n, S, c);
    assert 4 * c <= B by { MulAtLeast(4 * c, S); }
    if k + n / 2 < B {
      QuotRem(k + n / 2, B, 0, k + n / 2);
    } else {
      QuotRem(k + n / 2, B, 1, k + n / 2 - B);
    }
  }

  /** A block labelled six megahertz above the start of a sweep of one step would be written past the end. */
  lemma OffScheduleOverruns()
    ensures FirstIndex(6_000_000, 20, 1) == 16 && !WindowsFit(16, 20, IfftBins(20, 1))
  {
    hide BinsAbove;
    WholeBins(6_000_000, 20, 6);
  }

  // ----- a whole sweep hits every slot once

  function HalfTurn(x: nat, B: nat): nat
    requires 0 < B
  {
    (x + B / 2) % B
  }

  /** Sub-step, window and bin of a spectral bin, for windows of c bins. */
  function PartsOf(c: nat, bin: nat): (nat, nat, nat)
    requires 0 < c
  {
    var j := Quotient(bin, c);
    (4 * (j / 4) + j % 2, j % 4 / 2, bin % c)
  }

  /** Sub-step, window and bin of a slot: the inverse of the placement. */
  function Locate(n: nat, S: nat, slot: nat): (nat, nat, nat)
    requires 4 <= n && 0 < IfftBins(n, S)
  {
    PartsOf(n / 4, HalfTurn(slot, IfftBins(n, S)))
  }

  /** q is the offset of a sub-step of a sweep over S steps: F or F + 5 MHz of some step. */
  predicate InSchedule(S: nat, q: nat) {
    q < 4 * S && q % 4 < 2
  }

  predicate Hits(n: nat, S: nat, slot: nat, q: nat, h: nat, i: nat)
    requires 0 < IfftBins(n, S)
  {
    && InSchedule(S, q) && h < 2 && i < n / 4
    && slot == HalfTurn(SpectralBin(n, q, h, i), IfftBins(n, S))
  }

  lemma EvenBins(n: nat, S: nat)
    requires n % 4 == 0
    ensures IfftBins(n, S) % 2 == 0
  {
    BinsInUnits(n, S, n / 4);
  }

  lemma BinsPositive(n: nat, S: nat)
    requires 4 <= n && 0 < S
    ensures 0 < IfftBins(n, S)
  {
    MulAtLeast(n, S);
  }

  /** Every slot is hit by exactly one kept bin of a whole sweep. */
  lemma EverySlotOnce(n: nat, S: nat, slot: nat)
    requires IsFftSize(n) && 0 < S
    ensures 0 < IfftBins(n, S)
    ensures slot < IfftBins(n, S) ==> var (q, h, i) := Locate(n, S, slot); Hits(n, S, slot, q, h, i)
    ensures forall q: nat, h: nat, i: nat :: Hits(n, S, slot, q, h, i) ==> Locate(n, S, slot) == (q, h, i)
  {
    hide IfftBins, Locate, Hits;
    BinsPositive(n, S);
    if slot < IfftBins(n, S) { SlotIsHit(n, S, slot); }
    forall q: nat, h: nat, i: nat | Hits(n, S, slot, q, h, i) ensures Locate(n, S, slot) == (q, h, i) {
      HitIsLocated(n, S, slot, q, h, i);
    }
  }

  lemma SlotIsHit(n: nat, S: nat, slot: nat)
    requires IsFftSize(n) && 0 < S && slot < IfftBins(n, S)
    ensures var (q, h, i) := Locate(n, S, slot); Hits(n, S, slot, q, h, i)
  {
    hide SpectralBin, PartsOf, HalfTurn, IfftBins;
    BinsInUnits(n, S, n / 4);
    UndoHalfTurn(slot, IfftBins(n, S));
    PartsHit(n, n / 4, S, HalfTurn(slot, IfftBins(n, S)));
  }

  lemma HitIsLocated(n: nat, S: nat, slot: nat, q: nat, h: nat, i: nat)
    requires IsFftSize(n) && 0 < IfftBins(n, S) && Hits(n, S, slot, q, h, i)
    ensures Locate(n, S, slot) == (q, h, i)
  {
    hide SpectralBin, PartsOf, HalfTurn, IfftBins;
    BinsInUnits(n, S, n / 4);
    PartsUnique(n, n / 4, S, q, h, i);
    UndoHalfTurn(SpectralBin(n, q, h, i), IfftBins(n, S));
  }

  lemma PartsHit(n: nat, c: nat, S: nat, bin: nat)
    requires n / 4 == c && 0 < c && bin < c * (4 * S)
    ensures var (q, h, i) := PartsOf(c, bin);
      SpectralBin(n, q, h, i) == bin && InSchedule(S, q) && h < 2 && i < c
  {
    var j, i := Quotient(bin, c), bin % c;
    DivisionBounds(bin, c, j, i, 4 * S);
    Digits(j);
  }

  lemma DivisionBounds(x: nat, c: nat, j: nat, i: nat, m: nat)
    requires 0 < c && x < c * m && j == x / c && i == x % c
    ensures x == c * j + i && i < c && j < m
  {
  }

  /** The quarter j of a spectrum in terms of its step, sub-step and window. */
  lemma Digits(j: nat)
    ensures 4 * (j / 4) + j % 2 + 2 * (j % 4 / 2) == j
    ensures (4 * (j / 4) + j % 2) % 4 < 2 && j % 4 / 2 < 2
  {
    var a, h, k := j / 4, j % 4 / 2, j % 4 % 2;
    assert j == 4 * a + 2 * h + k;
    QuotRem(j, 2, 2 * a + h, k);
    QuotRem(4 * a + k, 4, a, k);
  }

  lemma DigitsOf(q: nat, h: nat)
    requires q % 4 < 2 && h < 2
    ensures var j := q + 2 * h; 4 * (j / 4) + j % 2 == q && j % 4 / 2 == h
    ensures forall S: nat :: q < 4 * S ==> q + 2 * h < 4 * S
  {
    var s, k := q / 4, q % 4;
    QuotRem(q + 2 * h, 4, s, k + 2 * h);
    QuotRem(q + 2 * h, 2, 2 * s + h, k);
  }

  lemma PartsUnique(n: nat, c: nat, S: nat, q: nat, h: nat, i: nat)
    requires n / 4 == c && InSchedule(S, q) && h < 2 && i < c
    ensures PartsOf(c, SpectralBin(n, q, h, i)) == (q, h, i)
    ensures SpectralBin(n, q, h, i) < c * (4 * S)
  {
    var j := q + 2 * h;
    DigitsOf(q, h);
    MulBound(c, c, j + 1, 4 * S);
    assert c * (j + 1) == c * j + c;
    QuotRem(c * j + i, c, j, i);
  }

  lemma UndoHalfTurn(x: nat, B: nat)
    requires x < B && B % 2 == 0
    ensures HalfTurn(x, B) < B && HalfTurn(HalfTurn(x, B), B) == x
  {
    if x + B / 2 < B {
      QuotRem(x + B / 2, B, 0, x + B / 2);
      QuotRem(x + B / 2 + B / 2, B, 1, x);
    } else {
      QuotRem(x + B / 2, B, 1, x - B / 2);
      QuotRem(x - B / 2 + B / 2, B, 0, x);
    }
  }
}
