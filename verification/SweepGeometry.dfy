/** The constants of an interleaved sweep: which FFT bins are kept, and where they lie in the spectrum. */
module SweepGeometry {
  const SAMPLE_RATE_HZ := 20_000_000
  const OFFSET_HZ := 7_500_000
  const TUNE_STEP := 20
  const FREQ_MAX_MHZ := 7250

  // ----- the two windows of an FFT of n bins

  /** An FFT size as `hackrf_sweep` leaves it: an odd multiple of four. */
  predicate IsFftSize(n: nat) {
    n % 8 == 4
  }

  /** Bin i of the first text record. */
  function FirstBin(n: nat, i: nat): nat { i + 1 + n * 5 / 8 }

  /** Bin i of the second text record. */
  function SecondBin(n: nat, i: nat): nat { i + 1 + n / 8 }

  /** The signed frequency index of a DFT bin. */
  function Signed(n: nat, bin: nat): int {
    if 2 * bin < n then bin else bin - n
  }

  /** The width of a bin in hertz. */
  function BinWidth(n: nat): real
    requires n > 0
  {
    SAMPLE_RATE_HZ as real / n as real
  }

  /** The centre of a DFT bin when the tuner is at f + OFFSET. */
  function Centre(f: int, n: nat, bin: nat): real
    requires n > 0
  {
    (f + OFFSET_HZ) as real + Signed(n, bin) as real * BinWidth(n)
  }

  /** The centre of the i-th bin above f. */
  function BinAbove(f: int, n: nat, i: nat): real
    requires n > 0
  {
    f as real + (i as real + 0.5) * BinWidth(n)
  }

  /** Every value of the two records of a block lies exactly where the record's band says. */
  lemma BinLabels(f: int, n: nat, i: nat)
    requires IsFftSize(n) && i < n / 4
    ensures FirstBin(n, i) < n && SecondBin(n, i) < n
    ensures Centre(f, n, FirstBin(n, i)) == BinAbove(f, n, i)
    ensures Centre(f, n, SecondBin(n, i)) == BinAbove(f + SAMPLE_RATE_HZ / 2, n, i)
    ensures (n / 4) as real * BinWidth(n) == (SAMPLE_RATE_HZ / 4) as real
  {
    var m := n / 8;
    OddWindow(n, m, i);
    var w := BinWidth(n);
    WidthTimes(n, w, m);
    LabelShift(w, m as real, i as real);
  }

  /** Fractions of the sample rate as numbers of bins. */
  lemma WidthTimes(n: nat, w: real, m: nat)
    requires n == 8 * m + 4 && w == BinWidth(n)
    ensures (3.0 * m as real + 1.5) * w == 7_500_000.0
    ensures (4.0 * m as real + 2.0) * w == 10_000_000.0
    ensures (2.0 * m as real + 1.0) * w == 5_000_000.0
  {
    var t := m as real;
    assert n as real == 8.0 * t + 4.0;
    assert n as real * w == 20_000_000.0;
    Distributes(t, w);
  }

  lemma Distributes(t: real, w: real)
    ensures (8.0 * t + 4.0) * w == 8.0 * (t * w) + 4.0 * w
    ensures (3.0 * t + 1.5) * w == 3.0 * (t * w) + 1.5 * w
    ensures (4.0 * t + 2.0) * w == 4.0 * (t * w) + 2.0 * w
    ensures (2.0 * t + 1.0) * w == 2.0 * (t * w) + w
  {
  }

  lemma LabelShift(w: real, m: real, i: real)
    ensures (i - 3.0 * m - 1.0) * w == (i + 0.5) * w - (3.0 * m + 1.5) * w
    ensures (i + m + 1.0) * w == (i + 0.5) * w + (4.0 * m + 2.0) * w - (3.0 * m + 1.5) * w
  {
  }

  /** The windows are mirror images of each other about the tuning frequency. */
  predicate Mirrored(n: nat) {
    forall i | 0 <= i < n / 4 :: Signed(n, FirstBin(n, i)) == -Signed(n, SecondBin(n, n / 4 - 1 - i))
  }

  /**
   * The windows stay inside the spectrum, share no bin, and avoid DC and the Nyquist bin; among multiples of
   * four, rounding to an odd one is exactly what makes them symmetric.
   */
  lemma Windows(n: nat)
    requires n % 4 == 0 && n >= 4
    ensures Mirrored(n) <==> IsFftSize(n)
    ensures IsFftSize(n) ==> forall i | 0 <= i < n / 4 :: 0 < SecondBin(n, i) < n / 2 < FirstBin(n, i) < n
  {
    hide FirstBin, SecondBin, Signed, Mirrored;
    if IsFftSize(n) {
      OddMirrored(n);
      forall i | 0 <= i < n / 4 ensures 0 < SecondBin(n, i) < n / 2 < FirstBin(n, i) < n {
        WindowOrder(n, n / 8, i);
      }
    } else {
      EvenWindow(n, n / 8);
    }
  }

  lemma WindowOrder(n: nat, m: nat, i: nat)
    requires n == 8 * m + 4 && i < n / 4
    ensures 0 < SecondBin(n, i) < n / 2 < FirstBin(n, i) < n
  {
    hide FirstBin, SecondBin, Signed;
    OddWindow(n, m, i);
  }

  lemma OddMirrored(n: nat)
    requires IsFftSize(n)
    ensures Mirrored(n)
  {
    hide FirstBin, SecondBin, Signed;
    forall i | 0 <= i < n / 4 ensures Signed(n, FirstBin(n, i)) == -Signed(n, SecondBin(n, n / 4 - 1 - i)) {
      OddWindow(n, n / 8, i);
    }
  }

  lemma OddWindow(n: nat, m: nat, i: nat)
    requires n == 8 * m + 4 && i < n / 4
    ensures n / 4 == 2 * m + 1
    ensures FirstBin(n, i) == 5 * m + 3 + i && SecondBin(n, i) == m + 1 + i
    ensures Signed(n, FirstBin(n, i)) == i - 3 * m - 1 && Signed(n, SecondBin(n, i)) == i + m + 1
    ensures Signed(n, SecondBin(n, n / 4 - 1 - i)) == 3 * m + 1 - i
  {
  }

  lemma EvenWindow(n: nat, m: nat)
    requires n == 8 * m && m >= 1
    ensures !Mirrored(n)
  {
    assert n * 5 / 8 == 5 * m && n / 8 == m;
    assert Signed(n, FirstBin(n, 0)) == 1 - 3 * m;
    assert Signed(n, SecondBin(n, n / 4 - 1 - 0)) == 3 * m;
  }

  // ----- the schedule of a range, in MHz

  /** Tuning steps planned for a range. */
  function Steps(lo: nat, hi: nat): (s: nat)
    requires lo < hi
    ensures 1 <= s
  {
    1 + (hi - lo - 1) / TUNE_STEP
  }

  /** The planned steps are the fewest whole steps that cover the range; planning again changes nothing. */
  lemma StepsLeast(lo: nat, hi: nat)
    requires lo < hi
    ensures hi <= lo + Steps(lo, hi) * TUNE_STEP < hi + TUNE_STEP
    ensures forall s: nat :: hi <= lo + s * TUNE_STEP <==> Steps(lo, hi) <= s
    ensures Steps(lo, lo + Steps(lo, hi) * TUNE_STEP) == Steps(lo, hi)
  {
  }

  /** The frequency that labels sub-step k of step s. */
  function SubStep(lo: nat, s: nat, k: nat): nat {
    lo + s * TUNE_STEP + 5 * k
  }

  /** x lies in half h of what the block of sub-step (s, k) reports, and the block is not above the cap. */
  predicate InBand(lo: nat, s: nat, k: nat, h: nat, x: real) {
    var f := SubStep(lo, s, k);
    f <= 7250 && (f + 10 * h) as real <= x < (f + 10 * h + 5) as real
  }

  /** x is reported by some block of a sweep over `steps` steps from lo. */
  predicate Reported(lo: nat, steps: nat, x: real) {
    exists s: nat, k: nat, h: nat :: s < steps && k < 2 && h < 2 && InBand(lo, s, k, h, x)
  }

  /** No frequency is reported twice in a sweep. */
  lemma BandsDisjoint(lo: nat, x: real, s: nat, k: nat, h: nat, s': nat, k': nat, h': nat)
    requires k < 2 && h < 2 && k' < 2 && h' < 2
    requires InBand(lo, s, k, h, x) && InBand(lo, s', k', h', x)
    ensures s == s' && k == k' && h == h'
  {
  }

  /** The five-megahertz band of a sweep that x lies in, counted from lo. */
  function Quarter(lo: nat, x: real): int {
    (x.Floor - lo) / 5
  }

  /** Comparing a number with a whole number, and with its floor. */
  lemma FloorCompare(x: real, a: int)
    ensures a as real <= x <==> a <= x.Floor
  {
  }

  lemma QuarterParts(lo: nat, y: int)
    ensures var q := (y - lo) / 5;
      && lo + 5 * q <= y < lo + 5 * q + 5 && (lo <= y <==> 0 <= q)
      && q == 4 * (q / 4) + q % 2 + 2 * (q % 4 / 2)
  {
  }

  /** A point inside the planned interval lies in the band of its own sub-step. */
  lemma InOwnBand(lo: nat, x: real)
    requires lo as real <= x
    ensures var q := Quarter(lo, x);
      && 0 <= q
      && (InBand(lo, q / 4, q % 2, q % 4 / 2, x) <==> lo + q / 4 * TUNE_STEP + q % 2 * 5 <= 7250)
  {
    var q := Quarter(lo, x);
    FloorCompare(x, lo);
    QuarterParts(lo, x.Floor);
    FloorCompare(x, lo + 5 * q);
    FloorCompare(x, lo + 5 * q + 5);
  }

  /** A point in a band determines the sub-step of the band. */
  lemma BandOf(lo: nat, s: nat, k: nat, h: nat, x: real)
    requires k < 2 && h < 2 && InBand(lo, s, k, h, x)
    ensures Quarter(lo, x) == 4 * s + k + 2 * h && lo as real <= x
  {
  }

  /** Being below the end of the planned interval, in terms of the sub-step. */
  lemma BelowEnd(lo: nat, steps: nat, x: real)
    requires lo as real <= x
    ensures x < (lo + steps * TUNE_STEP) as real <==> Quarter(lo, x) / 4 < steps
  {
  }

  /** What a sweep reports: the planned interval without the bands of sub-steps above the cap. */
  lemma ReportedExactly(lo: nat, steps: nat, x: real)
    ensures Reported(lo, steps, x) <==>
      && lo as real <= x < (lo + steps * TUNE_STEP) as real
      && var q := Quarter(lo, x); lo + q / 4 * TUNE_STEP + q % 2 * 5 <= 7250
  {
    var q := Quarter(lo, x);
    if Reported(lo, steps, x) {
      var s: nat, k: nat, h: nat :| s < steps && k < 2 && h < 2 && InBand(lo, s, k, h, x);
      BandOf(lo, s, k, h, x);
      BelowEnd(lo, steps, x);
    }
    if lo as real <= x {
      InOwnBand(lo, x);
      BelowEnd(lo, steps, x);
    }
  }

  /**
   * A sweep of the steps planned for [lo, hi) reports all of [lo, hi), even where the cap drops its last
   * sub-step, and reports the whole planned interval exactly when that sub-step is not above the cap.
   */
  lemma SweepCovers(lo: nat, hi: nat)
    requires lo < hi <= 7250
    ensures forall x: real | lo as real <= x < hi as real :: Reported(lo, Steps(lo, hi), x)
    ensures
      var top := lo + Steps(lo, hi) * TUNE_STEP;
      (forall x: real | lo as real <= x < top as real :: Reported(lo, Steps(lo, hi), x))
      <==> SubStep(lo, Steps(lo, hi) - 1, 1) <= 7250
  {
    StepsLeast(lo, hi);
    var steps := Steps(lo, hi);
    var top := lo + steps * TUNE_STEP;
    forall x: real | lo as real <= x < hi as real ensures Reported(lo, steps, x) {
      WithinRequest(lo, hi, x);
    }
    if SubStep(lo, steps - 1, 1) <= 7250 {
      forall x: real | lo as real <= x < top as real ensures Reported(lo, steps, x) {
        ReportedExactly(lo, steps, x);
        assert Quarter(lo, x) / 4 <= steps - 1;
      }
    } else {
      var x := (top - 15) as real;
      assert x.Floor == top - 15;
      ReportedExactly(lo, steps, x);
      assert Quarter(lo, x) == 4 * (steps - 1) + 1;
    }
  }

  lemma WithinRequest(lo: nat, hi: nat, x: real)
    requires lo < hi <= 7250 && lo as real <= x < hi as real
    ensures Reported(lo, Steps(lo, hi), x)
  {
    StepsLeast(lo, hi);
    ReportedExactly(lo, Steps(lo, hi), x);
    var q := Quarter(lo, x);
    assert x.Floor as real <= x < hi as real;
    assert lo + 5 * q <= x.Floor < hi;
    assert q == 4 * (q / 4) + q % 4 && q % 2 <= q % 4;
  }
}
