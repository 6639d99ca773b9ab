/** Integer arithmetic behind the rate search; M stands for one hertz and U for the unit in the last place. */
module RateArithmetic {
  import opened Words

  /** i * p/d is t/d above the whole number q; the same multiple of the rate is as far, up to i * rho. */
  lemma GapIdentity(Y: int, p: int, d: int, i: int, q: int, t: int, rho: int, M: int)
    requires i * p == d * q + t && d * Y == p * M + rho
    ensures d * (i * Y - q * M) == t * M + i * rho
  {
  }

  lemma GapBounds(w: int, d: nat, t: nat, i: nat, rho: int, M: nat, U: int)
    requires d * w == t * M + i * rho && 1 <= t < d <= 31 && i <= 31
    requires -264 * U <= rho <= 264 * U && 0x400_0000 * U <= M && 1 <= U
    ensures 16 * U <= w < M - 16 * U
  {
    SmallProduct(i, rho, U);
    MulAtLeast(M, t);
    MulAtLeast(M, d - t);
    assert M * (d - t) == M * d - M * t;
    assert d * (M - w) == d * M - d * w;
    if w < 16 * U { SmallTimes(d, w, 16 * U); }
    if M - 16 * U <= w { SmallTimes(d, M - w, 16 * U); }
  }

  lemma SmallProduct(i: nat, rho: int, U: int)
    requires i <= 31 && -264 * U <= rho <= 264 * U && 0 <= U
    ensures -8184 * U <= i * rho <= 8184 * U
  {
    MulMonotone(i, rho, 264 * U);
    MulMonotone(i, -264 * U, rho);
    MulMonotone(264 * U, i, 31);
    assert i * (-264 * U) == -(264 * U * i);
  }

  lemma SmallTimes(d: nat, w: int, b: nat)
    requires d <= 31 && w <= b
    ensures d * w <= 31 * b
  {
  }

  lemma MulMonotone(a: nat, x: int, y: int)
    requires x <= y
    ensures a * x <= a * y
  {
  }

  lemma MulMod(i: int, x: int, m: int)
    requires 0 < m
    ensures i * x % m == i * (x % m) % m
  {
    var q, r := x / m, x % m;
    var y := i * r;
    calc {
      i * x;
      i * (m * q + r);
      i * (m * q) + y;
      { Associate(i, m, q); Associate(m, i, q); }
      m * (i * q) + y;
      m * (i * q) + (m * (y / m) + y % m);
      m * (i * q + y / m) + y % m;
    }
    QuotRem(i * x, m, i * q + y / m, y % m);
  }

  /** A number close to a whole one is near it exactly when the guard bits absorb the distance. */
  lemma CloseToWhole(y: int, P: int, rho: int, M: nat, U: int)
    requires y == M * P + rho && -264 * U <= rho <= 264 * U && 0x400_0000 * U <= M && 1 <= U
    ensures y % M < 16 * U || M - 16 * U <= y % M <==> -16 * U <= rho < 16 * U
  {
    if rho >= 0 {
      QuotRem(y, M, P, rho);
    } else {
      assert M * (P - 1) == M * P - M;
      QuotRem(y, M, P - 1, rho + M);
    }
  }

  /** Truncating half a hertz above P, after errors that stay below half a hertz, gives P. */
  lemma TruncateNear(z: int, P: int, err: int, M: nat, U: int)
    requires z == M * P + M / 2 + err && -400 * U <= err <= 400 * U && 0x400_0000 * U <= M && 1 <= U
    ensures z / M == P
  {
    QuotRem(z, M, P, M / 2 + err);
  }

  /** The distance of d times a drifted number from a whole one. */
  lemma DriftedDistance(d: nat, x: int, r: int, pM: int, U: int)
    requires 1 <= d <= 31 && -8 * U <= r <= 8 * U && 1 <= U
    requires -(d * U) <= 2 * (d * x - pM) <= d * U
    ensures -264 * U <= d * (x + r) - pM <= 264 * U
    ensures -16 * U <= d * x - pM <= 16 * U
    ensures r == 0 || (d <= 10 && -1 * U <= r <= U) ==> -16 * U <= d * (x + r) - pM < 16 * U
  {
    DriftTimes(d, x, r, U);
    MulMonotone(U, d, 31);
    if d <= 10 && -1 * U <= r <= U {
      MulMonotone(U, d, 10);
      MulMonotone(d, r, U);
      MulMonotone(d, -U, r);
      assert d * -U == -(d * U);
    }
  }

  lemma DriftTimes(i: nat, x: int, r: int, U: int)
    requires i <= 31 && -8 * U <= r <= 8 * U && 0 <= U
    ensures i * (x + r) == i * x + i * r
    ensures -248 * U <= i * r <= 248 * U
  {
    MulMonotone(i, r, 8 * U);
    MulMonotone(i, -8 * U, r);
    MulMonotone(8 * U, i, 31);
    assert i * (-8 * U) == -(8 * U * i);
  }

  lemma Distribute(u: int, n: int, v: int, limit: int)
    requires 1 <= u && n + v < limit
    ensures n * u + u * v == u * (n + v) < limit * u
  {
  }

  /** A sum of n + V units U, also counted in units P of twice the size. */
  lemma SumOfUnits(n: nat, U: nat, P: nat, V: nat, x: nat)
    requires 1 <= U && P == 2 * U && U * V == TWO_56 && x == n * U + TWO_56
    requires n < TWO_53 && V <= TWO_52
    ensures x == U * (n + V) && x < TWO_53 * P
    ensures (n + V) % 2 == 0 ==> x == P * ((n + V) / 2)
  {
  }

  lemma OnesBelow(k: nat, c: nat, x: nat)
    requires 1 <= k && x + 1 == k * c
    ensures x % k == k - 1
  {
    assert k * (c - 1) == k * c - k;
    QuotRem(x, k, c - 1, k - 1);
  }
}

/** `hackrf_set_sample_rate`: recovering a fraction with a small denominator from the bits of a rate. */
module SampleRate {
  import opened Words
  import opened Binary64
  import opened Fractions
  import opened RateArithmetic

  const MAX_N := 32

  /** One hertz, in units of 2^-56 Hz. */
  const HZ := TWO_56

  /**
   * A rate x between 2^(k-4) and 2^(k-3) Hz and its unit in the last place, both in units of 2^-56 Hz.
   * `drift` is how far the rounding of `1.0 + freq` moves the fraction that the search loop sees.
   */
  datatype Rate = Rate(k: nat, x: nat, ulp: nat, drift: int) {
    predicate Bounded() {
      && k <= 30 && 1 <= ulp <= 0x4000_0000
      && TWO_52 * ulp <= x < TWO_53 * ulp
      && (k < 4 ==> -8 <= drift <= 8) && (3 <= k ==> drift <= ulp && -drift <= ulp)
    }

    /** The rate as the search loop sees it. */
    function Seen(): int { x + drift }
  }

  /** `1.0 + freq`, evaluated in binary64. */
  function SumWithOne(bits: nat): nat
    requires Supported(bits)
  {
    Round53(Scaled(bits) + HZ)
  }

  function RateOf(bits: nat): (r: Rate)
    requires Supported(bits)
    ensures r.Bounded() && (SumExact(bits) ==> r.drift == 0)
  {
    DriftBound(bits);
    Rate(Exponent(bits), Scaled(bits), Ulp(bits), SumWithOne(bits) - (Scaled(bits) + HZ))
  }

  /**
   * The addition is exact for a rate between 2^e and 2^(e+1) - 1 hertz, and for one whose last bit is clear;
   * below one hertz, for a multiple of 2^-52.
   */
  predicate SumExact(bits: nat)
    requires Supported(bits)
  {
    if Exponent(bits) < 4 then Scaled(bits) % 16 == 0
    else Significand(bits) + Pow2(56 - Exponent(bits)) < TWO_53 || bits % 2 == 0
  }

  /** `1.0 + freq - (int) freq`, evaluated in binary64. */
  function FreqFrac(bits: nat): (v: nat)
    requires Supported(bits)
    ensures HZ <= v <= 2 * HZ && v % 16 == 0
    ensures v == SumWithOne(bits) - Scaled(bits) / HZ * HZ
  {
    FractionFacts(bits);
    Round53(SumWithOne(bits) - Scaled(bits) / HZ * HZ)
  }

  /** The binary64 word of a number v with 1 <= v <= 2. */
  function WordOf(v: nat): (w: nat)
    requires HZ <= v <= 2 * HZ
    ensures w % TWO_52 == v / 16 % TWO_52
  {
    if v < 2 * HZ then 1023 * TWO_52 + (v / 16 - TWO_52) else 1024 * TWO_52
  }

  /** a is within `guard` of a whole number of hertz. */
  predicate Near(a: int, guard: int) {
    a % HZ < guard || HZ - guard <= a % HZ
  }

  /** i times the rate is a whole number of hertz, up to the guard bits. */
  predicate Passes(rate: Rate, i: nat) {
    Near(i * rate.Seen(), 16 * rate.ulp)
  }

  /** The least multiplier that passes, or 1 when none does. */
  predicate IsDivider(rate: Rate, divider: nat) {
    && 1 <= divider <= 31
    && (|| (Passes(rate, divider) && forall i | 1 <= i < divider :: !Passes(rate, i))
        || (divider == 1 && forall i | 1 <= i <= 31 :: !Passes(rate, i)))
  }

  /** `freq * i + 0.5`, evaluated in binary64 and truncated to an integer. */
  function WholeHz(x: nat, i: nat): nat {
    Round53(Round53(x * i) + HZ / 2) / HZ
  }

  /** The rate is within half a unit in the last place of p/d, as the nearest binary64 number is. */
  predicate NearestTo(rate: Rate, p: nat, d: nat) {
    -(d * rate.ulp) <= 2 * (d * rate.x - p * HZ) <= d * rate.ulp
  }

  /** A fraction in lowest terms that the rate stands for, where recovery is certain. */
  predicate Recoverable(rate: Rate, p: nat, d: nat) {
    && 1 <= d <= 31 && Gcd(p, d) == 1 && NearestTo(rate, p, d)
    && (rate.drift == 0 || (d <= 10 && 3 <= rate.k))
  }

  predicate IsUlp(rate: Rate) {
    rate.ulp == Pow2(rate.k)
  }

  predicate IsGuardMask(m: nat, k: nat) {
    m == TWO_52 - Pow2(k)
  }

  /** `(1 << k) - 1`, for the source's k = e + 4. */
  function GuardBits(k: nat): (g: nat)
    requires k <= 30
    ensures g < TWO_32
  {
    Pow2Monotone(k, 30);
    Pow2FiftySix();
    Pow2(k) - 1
  }

  method SetSampleRate(bits: nat) returns (freqHz: nat, divider: nat)
    requires Supported(bits)
    ensures IsDivider(RateOf(bits), divider)
    ensures 1 <= divider <= 31
    ensures (exists i :: 1 <= i <= 31 && Passes(RateOf(bits), i)) ==> Passes(RateOf(bits), divider)
    ensures freqHz == WholeHz(RateOf(bits).x, divider) < TWO_32
    ensures forall p, d :: Recoverable(RateOf(bits), p, d) ==> freqHz == p && divider == d
  {
    hide BitAnd, Pow2, Round53, Grid, RoundTo, Gcd, Recoverable, Passes, WholeHz, WordOf, Scaled;
    hide IsUlp, IsGuardMask, Rate.Seen, Rate.Bounded;
    ghost var rate := RateOf(bits);
    var e := bits / TWO_52 - 1023;
    var m := TWO_52 - 1;
    var u := BitAnd(WordOf(FreqFrac(bits)), m);
    m := BitAnd(m, Not64(GuardBits(e + 4)));
    SearchSetup(bits, rate, u, m);

    var a, i := 0, 1;
    while i < MAX_N
      invariant 1 <= i <= MAX_N
      invariant a == (i - 1) * u
      invariant forall k | 1 <= k < i :: !Passes(rate, k)
    {
      NextMultiple(i, u);
      a := a + u;
      MaskTest(rate, i, u, a, m);
      if BitAnd(a, m) == 0 || BitAnd(Not64(a), m) == 0 {
        break;
      }
      i := i + 1;
    }
    if i == MAX_N {
      i := 1;
    }

    NoTruncation(rate, i);
    freqHz := WholeHz(Scaled(bits), i) % TWO_32;
    divider := i;
    AllRecovered(rate, divider);
  }

  lemma SearchSetup(bits: nat, rate: Rate, u: nat, m: nat)
    requires Supported(bits) && rate == RateOf(bits)
    requires u == BitAnd(WordOf(FreqFrac(bits)), TWO_52 - 1)
    requires m == BitAnd(TWO_52 - 1, Not64(GuardBits(Exponent(bits))))
    ensures rate.Bounded() && IsUlp(rate) && 16 * u == rate.Seen() % HZ && IsGuardMask(m, rate.k)
  {
    FractionWord(bits, u);
    GuardMask(Exponent(bits));
  }

  lemma NextMultiple(i: nat, u: nat)
    ensures (i - 1) * u + u == i * u
  {
  }

  lemma AllRecovered(rate: Rate, divider: nat)
    requires rate.Bounded() && IsUlp(rate) && IsDivider(rate, divider)
    ensures forall p, d :: Recoverable(rate, p, d) ==> WholeHz(rate.x, divider) == p && divider == d
  {
    forall p, d | Recoverable(rate, p, d) ensures WholeHz(rate.x, divider) == p && divider == d {
      ExactRecovery(rate, p, d, divider);
    }
  }

  // ----- the masks

  lemma GuardMask(k: nat)
    requires k <= 30
    ensures Pow2(k) <= TWO_32
    ensures IsGuardMask(BitAnd(TWO_52 - 1, Not64(GuardBits(k))), k)
  {
    hide Pow2, BitAnd;
    var g := GuardBits(k);
    Pow2Constants();
    MaskedField(TWO_52 - 1, 64, k);
    Pow2Adds(k, 52 - k);
    OnesBelow(Pow2(k), Pow2(52 - k), TWO_52 - 1);
  }

  lemma MaskTest(rate: Rate, i: nat, u: nat, a: nat, m: nat)
    requires rate.Bounded() && IsUlp(rate) && IsGuardMask(m, rate.k)
    requires 16 * u == rate.Seen() % HZ && a == i * u && i <= 31
    ensures a < TWO_64
    ensures BitAnd(a, m) == 0 || BitAnd(Not64(a), m) == 0 <==> Passes(rate, i)
  {
    hide Pow2, BitAnd;
    MultipleBound(i, u, a);
    MulMod(i, rate.Seen(), HZ);
    assert i * (16 * u) == 16 * a;
    SixteenTimes(a);
    MaskTestAt(a, rate.k, m);
  }

  lemma SixteenTimes(a: nat)
    ensures 16 * a % HZ == 16 * (a % TWO_52)
  {
    QuotRem(16 * a, HZ, a / TWO_52, 16 * (a % TWO_52));
  }

  lemma MultipleBound(i: nat, u: nat, a: nat)
    requires u < TWO_52 && a == i * u && i <= 31
    ensures a <= 31 * TWO_52
  {
    SmallTimes(i, u, TWO_52);
  }

  lemma MaskTestAt(a: nat, k: nat, m: nat)
    requires k <= 30 && a <= 31 * TWO_52 && m == TWO_52 - Pow2(k)
    ensures BitAnd(a, m) == 0 <==> a % TWO_52 < Pow2(k)
    ensures BitAnd(Not64(a), m) == 0 <==> TWO_52 - Pow2(k) <= a % TWO_52
  {
    hide Pow2, BitAnd;
    Pow2Constants();
    MaskedFieldEmpty(a, 52, k);
    MaskedFieldEmpty(Not64(a), 52, k);
    Complement(a);
  }

  lemma Complement(a: nat)
    requires a <= 31 * TWO_52
    ensures Not64(a) % TWO_52 == TWO_52 - 1 - a % TWO_52
  {
  }

  // ----- the exactness of `1.0 + freq - (int) freq`

  lemma Pow2Scale(k: nat)
    ensures Pow2(k + 1) == 2 * Pow2(k)
    ensures Pow2(5 + k) == 32 * Pow2(k) && Pow2(6 + k) == 64 * Pow2(k)
  {
    Pow2Adds(5, k);
    assert Pow2(5) == 32;
  }

  /** One hertz as a number of units in the last place. */
  lemma Units(k: nat)
    requires k <= 30
    ensures Pow2(k) * Pow2(56 - k) == HZ
    ensures Pow2(56 - k) == 4 * Pow2(54 - k)
    ensures Pow2(k) <= 0x4000_0000
    ensures 4 <= k ==> Pow2(56 - k) <= TWO_52
  {
    hide Pow2;
    Pow2FiftySix();
    Pow2Constants();
    Pow2Adds(k, 56 - k);
    Pow2Adds(2, 54 - k);
    PowFour();
    Pow2Monotone(k, 30);
    if 4 <= k { Pow2Monotone(56 - k, 52); }
  }

  lemma PowFour()
    ensures Pow2(2) == 4 && Pow2(3) == 8 && Pow2(4) == 16
  {
  }

  lemma DriftBound(bits: nat)
    requires Supported(bits)
    ensures TWO_52 * Ulp(bits) <= Scaled(bits) < TWO_53 * Ulp(bits)
    ensures 1 <= Ulp(bits) <= 0x4000_0000
    ensures Exponent(bits) < 4 ==> -8 <= SumWithOne(bits) - (Scaled(bits) + HZ) <= 8
    ensures 3 <= Exponent(bits) ==> SumWithOne(bits) - (Scaled(bits) + HZ) <= Ulp(bits)
    ensures 3 <= Exponent(bits) ==> Scaled(bits) + HZ - SumWithOne(bits) <= Ulp(bits)
    ensures SumExact(bits) ==> SumWithOne(bits) == Scaled(bits) + HZ
  {
    hide Pow2, Round53, Grid, RoundTo, Scaled, Significand;
    Units(Exponent(bits));
    ScaledBounds(bits);
    if Exponent(bits) < 4 {
      SmallSumRounds(bits);
      if Exponent(bits) == 3 { PowFour(); }
    } else {
      SumRounds(bits);
    }
  }

  lemma ScaledBounds(bits: nat)
    requires Supported(bits)
    ensures TWO_52 * Ulp(bits) <= Scaled(bits) < TWO_53 * Ulp(bits)
  {
    hide Pow2;
    SignificandScales(Significand(bits), Ulp(bits));
  }

  /** Below one hertz the sum lies between 1 and 2, and rounds to a multiple of 2^-52. */
  lemma SmallSumRounds(bits: nat)
    requires Supported(bits) && Exponent(bits) < 4
    ensures Scaled(bits) < HZ
    ensures -8 <= SumWithOne(bits) - (Scaled(bits) + HZ) <= 8
    ensures Scaled(bits) % 16 == 0 ==> SumWithOne(bits) == Scaled(bits) + HZ
  {
    hide Pow2, Round53, Grid, RoundTo, Scaled, Significand;
    ScaledBounds(bits);
    PowFour();
    Pow2Monotone(Exponent(bits), 3);
    var x := Scaled(bits) + HZ;
    RoundError(x, 4);
    if x % 16 == 0 { RoundExact(x, 4, x / 16); }
  }

  lemma SumRounds(bits: nat)
    requires Supported(bits) && 4 <= Exponent(bits)
    ensures Round53(Scaled(bits) + HZ) - (Scaled(bits) + HZ) <= Ulp(bits)
    ensures Scaled(bits) + HZ - Round53(Scaled(bits) + HZ) <= Ulp(bits)
    ensures SumExact(bits) ==> Round53(Scaled(bits) + HZ) == Scaled(bits) + HZ
  {
    hide Pow2, Round53, Grid, RoundTo, Significand, Scaled;
    SumForm(bits);
    RoundedSum(Exponent(bits), Significand(bits) + Pow2(56 - Exponent(bits)), Scaled(bits) + HZ);
  }

  /** `1.0 + freq` as a number of units in the last place. */
  lemma SumForm(bits: nat)
    requires Supported(bits) && 4 <= Exponent(bits)
    ensures var k := Exponent(bits);
      var x, n := Scaled(bits) + HZ, Significand(bits) + Pow2(56 - k);
      && x == Pow2(k) * n && x < TWO_53 * Pow2(k + 1) && n < 2 * TWO_53
      && (n % 2 == 0 ==> x == Pow2(k + 1) * (n / 2))
      && (bits % 2 == 0 ==> n % 2 == 0)
  {
    hide Pow2, Significand;
    var k, n := Exponent(bits), Significand(bits);
    Units(k);
    Pow2Scale(k);
    if bits % 2 == 0 {
      EvenSignificand(bits);
      EvenSum(n, Pow2(56 - k), Pow2(54 - k));
    }
    SumOfUnits(n, Pow2(k), Pow2(k + 1), Pow2(56 - k), Scaled(bits) + HZ);
  }

  lemma EvenSum(n: nat, V: nat, W: nat)
    requires n % 2 == 0 && V == 4 * W
    ensures (n + V) % 2 == 0
  {
  }

  lemma SignificandScales(n: nat, U: nat)
    requires TWO_52 <= n < TWO_53 && 1 <= U
    ensures TWO_52 * U <= n * U < TWO_53 * U
  {
  }

  lemma EvenSignificand(bits: nat)
    requires bits % 2 == 0
    ensures Significand(bits) % 2 == 0
  {
  }

  /** Rounding a sum of k units of 2^e. */
  lemma RoundedSum(e: nat, k: nat, x: nat)
    requires x == Pow2(e) * k && x < TWO_53 * Pow2(e + 1)
    requires k % 2 == 0 ==> x == Pow2(e + 1) * (k / 2)
    requires k < 2 * TWO_53
    ensures Round53(x) - x <= Pow2(e) && x - Round53(x) <= Pow2(e)
    ensures k < TWO_53 || k % 2 == 0 ==> Round53(x) == x
  {
    hide Pow2, Round53, Grid, RoundTo;
    Pow2Scale(e);
    RoundError(x, e + 1);
    if k < TWO_53 {
      RoundExact(x, e, k);
    } else if k % 2 == 0 {
      RoundExact(x, e + 1, k / 2);
    }
  }

  lemma SumBounds(bits: nat)
    requires Supported(bits)
    ensures var whole := Scaled(bits) / HZ * HZ;
      whole <= Scaled(bits) && whole + HZ <= SumWithOne(bits) <= whole + 2 * HZ
  {
    hide Pow2, Round53, Grid, RoundTo, Scaled;
    var k := Exponent(bits);
    ScaledBounds(bits);
    Pow2Scale(k);
    SumBelow(bits);
    WholeBounds(Scaled(bits) + HZ, if k < 4 then 4 else k + 1, Scaled(bits) / HZ);
  }

  lemma SumBelow(bits: nat)
    requires Supported(bits)
    ensures var k := Exponent(bits); Scaled(bits) + HZ < TWO_53 * Pow2(if k < 4 then 4 else k + 1)
  {
    hide Pow2, Round53, Grid, RoundTo, Scaled;
    var k := Exponent(bits);
    if k < 4 {
      SmallSumRounds(bits);
      PowFour();
    } else {
      ScaledBounds(bits);
      PowFour();
      Pow2Monotone(4, k);
      Pow2Scale(k);
    }
  }

  /** Rounding does not cross whole numbers of hertz. */
  lemma WholeBounds(x: nat, j: nat, f: nat)
    requires j <= 55 && x < TWO_53 * Pow2(j)
    requires HZ * (f + 1) <= x <= HZ * (f + 2)
    ensures HZ * (f + 1) <= Round53(x) <= HZ * (f + 2)
  {
    hide Pow2, Round53, Grid, RoundTo;
    var lo := WholeOnGrid(j, f + 1);
    var hi := WholeOnGrid(j, f + 2);
    RoundStaysAbove(x, j, lo);
    RoundStaysBelow(x, j, hi);
  }

  /** Every multiple of half a hertz lies on the grid of the sums. */
  lemma HalvesOnGrid(j: nat, g: nat) returns (n: nat)
    requires j <= 55
    ensures Pow2(j) * n == g * (HZ / 2)
  {
    hide Pow2;
    Pow2FiftySix();
    Pow2Adds(j, 55 - j);
    Associate(Pow2(j), Pow2(55 - j), g);
    n := Pow2(55 - j) * g;
  }

  lemma WholeOnGrid(j: nat, f: nat) returns (n: nat)
    requires j <= 55
    ensures Pow2(j) * n == HZ * f
  {
    hide Pow2;
    n := HalvesOnGrid(j, 2 * f);
  }

  lemma SumIsCoarse(bits: nat)
    requires Supported(bits)
    ensures SumWithOne(bits) % 16 == 0
  {
    hide Pow2, Grid, Scaled;
    var x := Scaled(bits) + HZ;
    PowFour();
    var c := GridIsCoarse(x, 4);
    var q := SumWithOne(bits) / Grid(x);
    RoundedMultiple(x, Grid(x), c);
  }

  lemma RoundedMultiple(x: nat, g: nat, c: nat)
    requires 1 <= g && g == c * 16
    ensures RoundTo(x, g) % 16 == 0
  {
    var q := Quotient(x, g);
    assert g * q == 16 * (c * q) by { Associate(16, c, q); }
    MultipleOf(16, c * q);
    MultipleOf(16, c * q + c);
  }

  lemma FractionFacts(bits: nat)
    requires Supported(bits)
    ensures var v := SumWithOne(bits) - Scaled(bits) / HZ * HZ;
      HZ <= v <= 2 * HZ && v % 16 == 0 && Round53(v) == v
  {
    hide Round53, Scaled, SumWithOne;
    SumBounds(bits);
    SumIsCoarse(bits);
    SixteenDivides(SumWithOne(bits), Scaled(bits) / HZ);
    FractionIsExact(SumWithOne(bits) - Scaled(bits) / HZ * HZ);
  }

  lemma MultipleOf(m: nat, k: nat)
    requires 1 <= m
    ensures m * k % m == 0
  {
    QuotRem(m * k, m, k, 0);
  }

  lemma SixteenDivides(x: int, f: int)
    requires x % 16 == 0
    ensures (x - f * HZ) % 16 == 0
  {
  }

  lemma FractionIsExact(v: nat)
    requires HZ <= v <= 2 * HZ && v % 16 == 0
    ensures Round53(v) == v
  {
    hide Pow2, Round53;
    PowFour();
    Pow2Step(5);
    if v < 2 * HZ {
      RoundExact(v, 4, v / 16);
    } else {
      RoundExact(v, 5, TWO_52);
    }
  }

  lemma FractionWord(bits: nat, u: nat)
    requires Supported(bits) && u == BitAnd(WordOf(FreqFrac(bits)), TWO_52 - 1)
    ensures 16 * u == RateOf(bits).Seen() % HZ
  {
    hide Pow2, Round53, Grid, RoundTo, Scaled, BitAnd, WordOf;
    var v, f := FreqFrac(bits), Scaled(bits) / HZ;
    LowWord(WordOf(v));
    SixteenTimes(v / 16);
    assert RateOf(bits).Seen() == v + f * HZ - HZ;
    QuotRem(v + f * HZ - HZ, HZ, f - 1 + v / HZ, v % HZ);
  }

  lemma LowWord(w: nat)
    ensures BitAnd(w, TWO_52 - 1) == w % TWO_52
  {
    Pow2Constants();
    assert Pow2(0) == 1;
    MaskedField(w, 52, 0);
  }

  // ----- the recovered rate

  /** The two roundings of `freq * i + 0.5` move it by at most 48 units in the last place. */
  lemma TwoRoundings(x: nat, i: nat, k: nat) returns (z: nat)
    requires x < TWO_53 * Pow2(k) && 1 <= i <= 31 && k <= 30
    ensures WholeHz(x, i) == z / HZ
    ensures z - (x * i + HZ / 2) <= 48 * Pow2(k)
    ensures x * i + HZ / 2 - z <= 48 * Pow2(k)
    ensures x * i <= 31 * (TWO_53 * Pow2(k))
  {
    hide Pow2, Grid, RoundTo, Round53;
    SmallTimes(i, x, TWO_53 * Pow2(k));
    assert i * x == x * i;
    Pow2Scale(k);
    RoundError(x * i, 5 + k);
    var y := Round53(x * i) + HZ / 2;
    RoundError(y, 6 + k);
    z := Round53(y);
  }

  /** When i times the rate is close to P hertz, rounding twice and truncating yields P. */
  lemma WholeHzIs(rate: Rate, i: nat, P: int)
    requires rate.Bounded() && IsUlp(rate) && 1 <= i <= 31
    requires i * rate.x - P * HZ <= 280 * rate.ulp
    requires P * HZ - i * rate.x <= 280 * rate.ulp
    ensures WholeHz(rate.x, i) == P
  {
    hide Pow2, WholeHz;
    var z := TwoRoundings(rate.x, i, rate.k);
    TruncateNear(z, P, z - P * HZ - HZ / 2, HZ, rate.ulp);
  }

  /** The result fits 32 bits, so the cast in the source loses nothing. */
  lemma NoTruncation(rate: Rate, i: nat)
    requires rate.Bounded() && IsUlp(rate) && 1 <= i <= 31
    ensures WholeHz(rate.x, i) < TWO_32
  {
    hide Pow2, WholeHz;
    var z := TwoRoundings(rate.x, i, rate.k);
  }

  // ----- which multipliers pass

  /** The multiples of p/d before the d-th are at least 1/d away from every whole number. */
  lemma EarlierMiss(Y: int, p: nat, d: nat, i: nat, U: nat)
    requires Gcd(p, d) == 1 && 1 <= i < d <= 31 && 1 <= U <= 0x4000_0000
    requires -264 * U <= d * Y - p * HZ <= 264 * U
    ensures !Near(i * Y, 16 * U)
  {
    hide Gcd;
    var ip := i * p;
    var q, t, rho := ip / d, ip % d, d * Y - p * HZ;
    var w := i * Y - q * HZ;
    NotWholeEarlier(p, d, i, q);
    GapIdentity(Y, p, d, i, q, t, rho, HZ);
    GapBounds(w, d, t, i, rho, HZ, U);
    QuotRem(i * Y, HZ, q, w);
  }

  /** The distance of d times the seen rate from p hertz. */
  lemma DistanceBound(rate: Rate, p: nat, d: nat)
    requires rate.Bounded() && 1 <= d <= 31 && NearestTo(rate, p, d)
    ensures -264 * rate.ulp <= d * rate.Seen() - p * HZ <= 264 * rate.ulp
    ensures -16 * rate.ulp <= d * rate.x - p * HZ <= 16 * rate.ulp
    ensures rate.drift == 0 || (d <= 10 && 3 <= rate.k) ==> -16 * rate.ulp <= d * rate.Seen() - p * HZ < 16 * rate.ulp
  {
    DriftedDistance(d, rate.x, rate.drift, p * HZ, rate.ulp);
  }

  /**
   * A fraction in lowest terms is recovered exactly when the rounding of `1.0 + freq` leaves its d-th
   * multiple inside the guard bits; no earlier multiple can stop the loop.
   */
  lemma RecoveryCondition(rate: Rate, p: nat, d: nat, divider: nat)
    requires rate.Bounded() && IsUlp(rate)
    requires 1 <= d <= 31 && Gcd(p, d) == 1 && NearestTo(rate, p, d)
    requires IsDivider(rate, divider)
    ensures divider == d && WholeHz(rate.x, divider) == p
       <==> -16 * rate.ulp <= d * (rate.x + rate.drift) - p * HZ < 16 * rate.ulp
  {
    DistanceBound(rate, p, d);
    PassesAtDenominator(rate, p, d);
    EarlierMisses(rate, p, d);
    WholeHzIs(rate, d, p);
  }

  lemma PassesAtDenominator(rate: Rate, p: nat, d: nat)
    requires rate.Bounded() && 1 <= d <= 31 && NearestTo(rate, p, d)
    ensures Passes(rate, d) <==> -16 * rate.ulp <= d * rate.Seen() - p * HZ < 16 * rate.ulp
    ensures d == 1 ==> Passes(rate, 1)
  {
    hide Rate.Seen;
    var y := d * rate.Seen();
    DistanceBound(rate, p, d);
    CloseToWhole(y, p, y - p * HZ, HZ, rate.ulp);
    if d == 1 { SmallDrift(rate, p); }
  }

  lemma SmallDrift(rate: Rate, p: nat)
    requires rate.Bounded() && NearestTo(rate, p, 1)
    ensures -16 * rate.ulp <= 1 * rate.Seen() - p * HZ < 16 * rate.ulp
  {
  }

  lemma EarlierMisses(rate: Rate, p: nat, d: nat)
    requires rate.Bounded() && 1 <= d <= 31 && Gcd(p, d) == 1 && NearestTo(rate, p, d)
    ensures forall i | 1 <= i < d :: !Passes(rate, i)
  {
    DistanceBound(rate, p, d);
    forall i | 1 <= i < d ensures !Passes(rate, i) {
      EarlierMiss(rate.Seen(), p, d, i, rate.ulp);
    }
  }

  lemma ExactRecovery(rate: Rate, p: nat, d: nat, divider: nat)
    requires rate.Bounded() && IsUlp(rate)
    requires Recoverable(rate, p, d) && IsDivider(rate, divider)
    ensures divider == d && WholeHz(rate.x, divider) == p
  {
    DistanceBound(rate, p, d);
    RecoveryCondition(rate, p, d, divider);
  }

  /**
   * Within one hertz of the next power of two recovery can fail: the binary64 number nearest to
   * 260046818/31 Hz is not sent to the device as that fraction.
   */
  lemma RecoveryFailsNearPowerOfTwo(divider: nat)
    requires IsDivider(RateOf(4710765209190433825), divider)
    ensures NearestTo(RateOf(4710765209190433825), 260046818, 31) && Gcd(260046818, 31) == 1
    ensures !(divider == 31 && WholeHz(RateOf(4710765209190433825).x, divider) == 260046818)
  {
    var rate := RateOf(4710765209190433825);
    assert rate == Rate(26, 604462840074159064612864, 0x400_0000, -0x400_0000) by { ExampleRate(); }
    assert Gcd(260046818, 31) == 1;
    hide Gcd, Pow2, Round53;
    RecoveryCondition(rate, 260046818, 31, divider);
  }

  lemma ExampleRate()
    ensures RateOf(4710765209190433825) == Rate(26, 604462840074159064612864, 0x400_0000, -0x400_0000)
  {
    var bits := 4710765209190433825;
    assert Exponent(bits) == 26 && Significand(bits) == 9007198215636001;
    Pow2Constants();
    assert Scaled(bits) == 604462840074159064612864;
    var sum := 604462912131753102540800;
    Pow2Step(27);
    GridAt(sum, 27, 0x800_0000);
    assert RoundTo(sum, 0x800_0000) == sum - 0x400_0000;
  }

  /** The grid of a number with exactly 53 significant bits above it. */
  lemma {:induction false} GridAt(x: nat, j: nat, g: nat)
    requires g == Pow2(j) && TWO_52 * g <= x < TWO_53 * g
    ensures Grid(x) == g
  {
    if j > 0 { GridAt(x / 2, j - 1, g / 2); }
  }

  // ----- soundness for every rate

  /** The rate sent to the device, times i, is within err of i times the requested rate. */
  predicate Within(rate: Rate, i: nat, err: int) {
    -err <= WholeHz(rate.x, i) * HZ - i * rate.x <= err
  }

  /** The guard bits, which are worth 2^(e-48) Hz, and i times the rounding error of `1.0 + freq`. */
  function Slack(rate: Rate, i: nat): nat {
    16 * rate.ulp + i * (if rate.drift < 0 then -rate.drift else rate.drift)
  }

  /**
   * Whatever the rate: the chosen pair is within the guard bits of the rate when some multiplier passes,
   * and within half a hertz otherwise; a whole number of hertz keeps divider 1.
   */
  lemma DividerSound(bits: nat, divider: nat)
    requires Supported(bits) && IsDivider(RateOf(bits), divider)
    ensures Passes(RateOf(bits), divider) ==> Within(RateOf(bits), divider, Slack(RateOf(bits), divider))
    ensures !Passes(RateOf(bits), divider) ==> divider == 1 && Within(RateOf(bits), 1, HZ / 2)
    ensures Scaled(bits) % HZ == 0 ==> divider == 1 && WholeHz(Scaled(bits), 1) == Scaled(bits) / HZ
  {
    hide Pow2, Round53, Grid, RoundTo, Within, Slack, WholeHz, Scaled, SumExact;
    if Passes(RateOf(bits), divider) {
      PassingIsClose(RateOf(bits), divider);
    } else {
      assert !Passes(RateOf(bits), 2);
      HalfHertz(bits);
    }
    if Scaled(bits) % HZ == 0 { WholeRate(RateOf(bits)); }
  }

  lemma PassingIsClose(rate: Rate, i: nat)
    requires rate.Bounded() && IsUlp(rate) && 1 <= i <= 31 && Passes(rate, i)
    ensures Within(rate, i, Slack(rate, i))
  {
    hide Pow2, WholeHz, Near;
    var y, size := i * rate.Seen(), if rate.drift < 0 then -rate.drift else rate.drift;
    var P := NearestWhole(y, 16 * rate.ulp);
    DriftTimes(i, rate.x, rate.drift, rate.ulp);
    SizeOfProduct(i, rate.drift);
    SlackAdds(y, P, i * rate.x, i * rate.drift, i * size, rate.ulp);
    WholeHzIs(rate, i, P);
    SlackIs(rate, i, P, i * rate.x, i * size);
  }

  lemma SlackAdds(y: int, P: int, ix: int, ir: int, size: int, U: nat)
    requires y == ix + ir && -16 * U <= y - P * HZ <= 16 * U
    requires -248 * U <= ir <= 248 * U && size == if ir < 0 then -ir else ir
    ensures -(16 * U + size) <= P * HZ - ix <= 16 * U + size
    ensures ix - P * HZ <= 280 * U && P * HZ - ix <= 280 * U
  {
  }

  lemma SlackIs(rate: Rate, i: nat, P: int, ix: int, size: int)
    requires WholeHz(rate.x, i) == P && ix == i * rate.x
    requires size == i * (if rate.drift < 0 then -rate.drift else rate.drift)
    requires -(16 * rate.ulp + size) <= P * HZ - ix <= 16 * rate.ulp + size
    ensures Within(rate, i, Slack(rate, i))
  {
    hide WholeHz;
  }

  lemma SizeOfProduct(i: nat, r: int)
    ensures i * (if r < 0 then -r else r) == if i * r < 0 then -(i * r) else i * r
  {
  }

  lemma NearestWhole(y: int, guard: int) returns (P: int)
    requires Near(y, guard)
    ensures -guard <= y - P * HZ <= guard
  {
    P := if y % HZ < guard then y / HZ else y / HZ + 1;
  }

  /** Without a multiplier that passes, adding half a hertz and truncating is rounding to whole hertz. */
  lemma HalfHertz(bits: nat)
    requires Supported(bits) && !Passes(RateOf(bits), 2)
    ensures Within(RateOf(bits), 1, HZ / 2)
  {
    hide Pow2, Round53, Grid, RoundTo, Scaled, SumExact, Passes;
    var k, x := Exponent(bits), Scaled(bits);
    RateIsExact(bits);
    ScaledBounds(bits);
    if k < 4 {
      SmallSumRounds(bits);
      if x < HZ / 2 { NotNearHalf(bits); }
      SmallHalfUp(x + HZ / 2, k);
    } else {
      Units(k);
      HalveProduct(Pow2(k), Pow2(54 - k));
      BelowHalfUp(bits);
      HalfUp(x + HZ / 2, k, Significand(bits), Pow2(k), Pow2(54 - k));
    }
    WithinHalf(x, Round53(x + HZ / 2));
  }

  lemma RateIsExact(bits: nat)
    requires Supported(bits)
    ensures Round53(Scaled(bits) * 1) == Scaled(bits)
  {
    hide Pow2, Round53;
    RoundExact(Scaled(bits), Exponent(bits), Significand(bits));
  }

  lemma WithinHalf(x: nat, z: nat)
    requires z / HZ == (x + HZ / 2) / HZ
    ensures -(HZ / 2) <= z / HZ * HZ - x <= HZ / 2
  {
  }

  lemma BelowHalfUp(bits: nat)
    requires Supported(bits) && 4 <= Exponent(bits)
    ensures Scaled(bits) + HZ / 2 < TWO_53 * Pow2(Exponent(bits) + 1)
    ensures Scaled(bits) + HZ / 2 == Significand(bits) * Pow2(Exponent(bits)) + HZ / 2
    ensures Pow2(54 - Exponent(bits)) < TWO_52
  {
    SumBelow(bits);
    Pow2Monotone(54 - Exponent(bits), 50);
    Pow2Constants();
    Pow2Adds(50, 2);
  }

  /** Just below half a hertz the rounding of `1.0 + freq` makes the second multiple whole. */
  lemma NotNearHalf(bits: nat)
    requires Supported(bits) && Exponent(bits) < 4 && Scaled(bits) < HZ / 2 && !Passes(RateOf(bits), 2)
    ensures Scaled(bits) < HZ / 2 - 4
  {
    hide Pow2, Round53, Grid, RoundTo, Scaled, SumExact, RateOf;
    SmallSumRounds(bits);
    SumIsCoarse(bits);
    if HZ / 2 - 4 <= Scaled(bits) {
      assert SumWithOne(bits) == HZ + HZ / 2;
      SeenIs(bits);
    }
  }

  lemma SeenIs(bits: nat)
    requires Supported(bits)
    ensures RateOf(bits).Seen() == SumWithOne(bits) - HZ && RateOf(bits).ulp == Ulp(bits)
  {
  }

  lemma SmallHalfUp(y: nat, k: nat)
    requires HZ / 2 <= y < HZ - 4 || HZ <= y < HZ + HZ / 2
    ensures Round53(y) / HZ == y / HZ
  {
    hide Pow2, Round53, Grid, RoundTo;
    PowFour();
    if y < HZ {
      RoundError(y, 3);
    } else {
      LowerHalf(y, 4, 1);
    }
    QuotRem(Round53(y), HZ, y / HZ, Round53(y) - HZ * (y / HZ));
  }

  /** Adding half a hertz and rounding does not change the whole number of hertz. */
  lemma HalfUp(y: nat, k: nat, n: nat, U: nat, h: nat)
    requires U == Pow2(k) && U * (2 * h) == HZ / 2 && y == n * U + HZ / 2
    requires n < TWO_53 && h < TWO_52 && y < TWO_53 * Pow2(k + 1) && 3 <= k <= 30
    ensures Round53(y) / HZ == y / HZ
  {
    hide Pow2, Round53, Grid, RoundTo;
    var f := y / HZ;
    if y <= HZ * f + HZ / 2 {
      LowerHalf(y, k + 1, f);
    } else {
      UpperHalfIsExact(y, k, n, U, h, f);
    }
    QuotRem(Round53(y), HZ, f, Round53(y) - HZ * f);
  }

  lemma LowerHalf(y: nat, j: nat, f: nat)
    requires HZ * f <= y <= HZ * f + HZ / 2 && y < TWO_53 * Pow2(j) && j <= 55
    ensures HZ * f <= Round53(y) <= HZ * f + HZ / 2
  {
    hide Pow2, Round53, Grid, RoundTo;
    var lo := WholeOnGrid(j, f);
    var hi := HalvesOnGrid(j, 2 * f + 1);
    RoundStaysAbove(y, j, lo);
    RoundStaysBelow(y, j, hi);
  }

  lemma UpperHalfIsExact(y: nat, k: nat, n: nat, U: nat, h: nat, f: nat)
    requires U == Pow2(k) && U * (2 * h) == HZ / 2 && y == n * U + HZ / 2
    requires n < TWO_53 && h < TWO_52 && 3 <= k
    requires f == y / HZ && HZ * f + HZ / 2 < y
    ensures Round53(y) == y
  {
    hide Pow2, Round53;
    Distribute(U, n, 2 * h, 2 * TWO_53);
    if n + 2 * h >= TWO_53 {
      EightUnits(k);
      BeyondBinade(y, U, n, h, f);
    }
    RoundExact(y, k, n + 2 * h);
  }

  lemma EightUnits(k: nat)
    requires 3 <= k
    ensures Pow2(k) % 8 == 0
  {
    hide Pow2;
    PowFour();
    Pow2Adds(3, k - 3);
    MultipleOf(8, Pow2(k - 3));
  }

  lemma HalveProduct(U: int, h: int)
    requires U * (4 * h) == HZ
    ensures U * (2 * h) == HZ / 2
  {
  }

  /** A sum that leaves the binade of the rate is less than half a hertz above a whole number. */
  lemma BeyondBinade(y: nat, U: nat, n: nat, h: nat, f: nat)
    requires y == U * (n + 2 * h) && f == y / HZ && U * (2 * h) == HZ / 2 && 1 <= U && U % 8 == 0
    requires n < TWO_53 <= n + 2 * h
    ensures y < HZ * f + HZ / 2
  {
    var over := n + 2 * h - TWO_53;
    assert U * (n + 2 * h) == U * TWO_53 + U * over;
    assert U * over < U * (2 * h) by { MulAtLeast(U, 2 * h - over); }
    QuotRem(y, HZ, U / 8, U * over);
  }

  lemma WholeRate(rate: Rate)
    requires rate.Bounded() && IsUlp(rate) && rate.x % HZ == 0
    ensures Passes(rate, 1) && WholeHz(rate.x, 1) == rate.x / HZ
  {
    hide Pow2, WholeHz;
    var P := rate.x / HZ;
    CloseToWhole(rate.Seen(), P, rate.drift, HZ, rate.ulp);
    WholeHzIs(rate, 1, P);
  }
}
