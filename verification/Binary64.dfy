/** Positive binary64 numbers (section 3.4 of IEEE 754-2008) as integers, counted in small enough units. */
module Binary64 {
  import opened Words

  /** The word holds a positive normal number v with 2^-4 <= v < 2^27. */
  predicate Supported(bits: nat) {
    1019 <= bits / TWO_52 <= 1049
  }

  /** The exponent, counted from -4. */
  function Exponent(bits: nat): (k: nat)
    requires Supported(bits)
    ensures k <= 30
  {
    bits / TWO_52 - 1019
  }

  function Significand(bits: nat): (s: nat)
    ensures TWO_52 <= s < TWO_53
  {
    TWO_52 + bits % TWO_52
  }

  /** The unit in the last place of the number, counted in units of 2^-56. */
  function Ulp(bits: nat): (u: nat)
    requires Supported(bits)
    ensures 1 <= u
  {
    Pow2(Exponent(bits))
  }

  /** The number itself, counted in units of 2^-56. */
  function Scaled(bits: nat): nat
    requires Supported(bits)
  {
    Significand(bits) * Ulp(bits)
  }

  /** The least power of two g such that x needs at most 53 bits once counted in units of g. */
  function Grid(x: nat): (g: nat)
    ensures 1 <= g && x < TWO_53 * g
  {
    if x < TWO_53 then 1 else 2 * Grid(x / 2)
  }

  /** The multiple of g nearest to x; a tie goes to the even multiple. */
  function RoundTo(x: nat, g: nat): (y: nat)
    requires 1 <= g
    ensures 2 * (y - x) <= g && 2 * (x - y) <= g
  {
    var q, r := Quotient(x, g), x % g;
    assert x == g * q + r;
    if 2 * r < g || (2 * r == g && q % 2 == 0) then g * q else g * q + g
  }

  /** A number and its nearest multiple t of g; of two equally near, t is the even one. */
  predicate IsNearest(x: nat, g: nat, t: nat) {
    && 2 * (g * t - x) <= g && 2 * (x - g * t) <= g
    && (2 * (g * t - x) == g || 2 * (x - g * t) == g ==> t % 2 == 0)
  }

  lemma RoundsToNearest(x: nat, g: nat) returns (t: nat)
    requires 1 <= g
    ensures RoundTo(x, g) == g * t && IsNearest(x, g, t)
  {
    var q, r := Quotient(x, g), x % g;
    assert x == g * q + r;
    t := if 2 * r < g || (2 * r == g && q % 2 == 0) then q else q + 1;
    assert g * (q + 1) == g * q + g;
  }

  /** Round half to even, the result of every binary64 operation. */
  function Round53(x: nat): nat {
    RoundTo(x, Grid(x))
  }

  /** Any power-of-two grid fine enough for x is a multiple of the grid of x. */
  lemma {:induction false} GridDivides(x: nat, j: nat) returns (c: nat)
    requires x < TWO_53 * Pow2(j)
    ensures 1 <= c && Pow2(j) == c * Grid(x)
  {
    if x < TWO_53 {
      c := Pow2(j);
    } else {
      c := GridDivides(x / 2, j - 1);
    }
  }

  lemma RoundError(x: nat, j: nat)
    requires x < TWO_53 * Pow2(j)
    ensures 2 * (Round53(x) - x) <= Pow2(j)
    ensures 2 * (x - Round53(x)) <= Pow2(j)
  {
    hide Grid, Pow2, RoundTo;
    var c := GridDivides(x, j);
    MulAtLeast(Grid(x), c);
  }

  /** The grid of a large number is a multiple of a power of two. */
  lemma {:induction false} GridIsCoarse(x: nat, j: nat) returns (c: nat)
    requires j == 0 || TWO_53 * Pow2(j - 1) <= x
    ensures Grid(x) == c * Pow2(j)
  {
    if j == 0 {
      c := Grid(x);
    } else {
      c := GridIsCoarse(x / 2, j - 1);
    }
  }

  /** A number with at most 53 significant bits is not changed by rounding. */
  lemma RoundExact(x: nat, j: nat, k: nat)
    requires x == Pow2(j) * k && k < TWO_53
    ensures Round53(x) == x
  {
    Pow2Scales(k, j);
    var c := GridDivides(x, j);
    RoundToMultiple(x, Grid(x), c, k);
  }

  lemma Pow2Scales(k: nat, j: nat)
    requires k < TWO_53
    ensures Pow2(j) * k < TWO_53 * Pow2(j)
  {
  }

  lemma RoundToMultiple(x: nat, g: nat, c: nat, k: nat)
    requires 1 <= g && x == c * g * k
    ensures RoundTo(x, g) == x
  {
    GridTerms(c, g, k);
    QuotRem(x, g, c * k, 0);
  }

  /** Rounding never crosses a number that lies on a fine enough grid. */
  lemma RoundStaysBelow(x: nat, j: nat, k: nat)
    requires x < TWO_53 * Pow2(j) && x <= Pow2(j) * k
    ensures Round53(x) <= Pow2(j) * k
  {
    var c := GridDivides(x, j);
    RoundToStaysBelow(x, Grid(x), c, k);
  }

  lemma RoundToStaysBelow(x: nat, g: nat, c: nat, k: nat)
    requires 1 <= g && x <= c * g * k
    ensures RoundTo(x, g) <= c * g * k
  {
    var q, r, t := Quotient(x, g), x % g, c * k;
    assert x == g * q + r;
    assert c * g * k == g * t by { GridTerms(c, g, k); }
    NotAbove(q, r, g, t);
  }

  lemma GridTerms(c: nat, g: nat, k: nat)
    ensures c * g * k == g * (c * k)
  {
  }

  lemma NotAbove(q: nat, r: nat, g: nat, t: nat)
    requires r < g && g * q + r <= g * t
    ensures if q < t then g * q + g <= g * t else q == t && r == 0
  {
    if q < t {
      MulAtLeast(g, t - q);
    } else if q > t {
      MulAtLeast(g, q - t);
    }
  }

  lemma NotBelow(q: nat, r: nat, g: nat, t: nat)
    requires r < g && g * t <= g * q + r
    ensures t <= q && g * t <= g * q
  {
    if q < t {
      MulAtLeast(g, t - q);
    } else if q > t {
      MulAtLeast(g, q - t);
    }
  }

  lemma RoundStaysAbove(x: nat, j: nat, k: nat)
    requires x < TWO_53 * Pow2(j) && Pow2(j) * k <= x
    ensures Pow2(j) * k <= Round53(x)
  {
    var c := GridDivides(x, j);
    RoundToStaysAbove(x, Grid(x), c, k);
  }

  lemma RoundToStaysAbove(x: nat, g: nat, c: nat, k: nat)
    requires 1 <= g && c * g * k <= x
    ensures c * g * k <= RoundTo(x, g)
  {
    var q, r, t := Quotient(x, g), x % g, c * k;
    assert x == g * q + r;
    assert c * g * k == g * t by { GridTerms(c, g, k); }
    NotBelow(q, r, g, t);
  }

  // ----- quotients

  /** The multiple of g nearest to num/den; a tie goes to the even multiple. */
  function RoundRatio(num: nat, den: nat, g: nat): nat
    requires 1 <= den && 1 <= g && 1 <= den * g
  {
    var q, r := Quotient(num, den * g), num % (den * g);
    if 2 * r < den * g || (2 * r == den * g && q % 2 == 0) then g * q else g * q + g
  }

  /** num/den rounded to 53 bits: the binary64 quotient, in units small enough that it is 0 or at least 2^52. */
  function Quotient53(num: nat, den: nat): nat
    requires 1 <= den
  {
    var g := Grid(num / den);
    MulAtLeast(den, g);
    RoundRatio(num, den, g)
  }

  /** The same of a quotient, in units of 1/den. */
  lemma RatioIsNearest(num: nat, den: nat, g: nat) returns (t: nat)
    requires 1 <= den && 1 <= g && 1 <= den * g
    ensures RoundRatio(num, den, g) == g * t && IsNearest(num, den * g, t)
  {
    var q, r := Quotient(num, den * g), num % (den * g);
    assert num == den * g * q + r;
    t := if 2 * r < den * g || (2 * r == den * g && q % 2 == 0) then q else q + 1;
    assert g * (q + 1) == g * q + g;
    assert den * g * (q + 1) == den * g * q + den * g;
  }

  lemma {:induction false} GridLow(x: nat)
    requires TWO_52 <= x
    ensures TWO_52 * Grid(x) <= x
  {
    if TWO_53 <= x { GridLow(x / 2); }
  }

  lemma RoundRatioError(num: nat, den: nat, g: nat)
    requires 1 <= den && 1 <= g && 1 <= den * g
    ensures var m := RoundRatio(num, den, g);
      2 * (m * den - num) <= den * g && 2 * (num - m * den) <= den * g
  {
    var q, r := Quotient(num, den * g), num % (den * g);
    assert num == den * g * q + r;
    assert g * q * den == den * g * q && (g * q + g) * den == den * g * q + den * g;
  }

  /** The relative error of a quotient is at most 2^-53. */
  lemma QuotientError(num: nat, den: nat)
    requires 1 <= den && TWO_52 * den <= num
    ensures var m := Quotient53(num, den);
      TWO_53 * (m * den - num) <= num && TWO_53 * (num - m * den) <= num
  {
    hide Grid, RoundRatio;
    var x := Quotient(num, den);
    assert x == num / den && TWO_52 <= x && den * x <= num by { DivisionFloor(num, den, TWO_52); }
    var g := Grid(x);
    GridLow(x);
    MulAtLeast(den, g);
    RoundRatioError(num, den, g);
    assert TWO_52 * (den * g) <= num by { GridTimes(den, g, x); }
  }

  lemma DivisionFloor(num: nat, den: nat, k: nat)
    requires 1 <= den && k * den <= num
    ensures k <= num / den && den * (num / den) <= num
  {
    var q := num / den;
    assert num == den * q + num % den;
    if q < k { MulAtLeast(den, k - q); }
  }

  lemma GridTimes(den: nat, g: nat, x: nat)
    requires TWO_52 * g <= x
    ensures TWO_52 * (den * g) <= den * x
  {
    assert den * x == den * (TWO_52 * g) + den * (x - TWO_52 * g);
    assert 0 <= den * (x - TWO_52 * g);
    assert den * (TWO_52 * g) == TWO_52 * (den * g);
  }

  /** A quotient that needs at most 53 bits is exact. */
  lemma QuotientExact(x: nat, den: nat, j: nat, k: nat)
    requires 1 <= den && x == Pow2(j) * k && k < TWO_53
    ensures Quotient53(den * x, den) == x
  {
    hide Grid, RoundRatio, Pow2;
    QuotRem(den * x, den, x, 0);
    Pow2Scales(k, j);
    var c := GridDivides(x, j);
    var g := Grid(x);
    assert x == g * (c * k) by { assert c * g * k == g * (c * k); }
    MulAtLeast(den, g);
    ExactRatio(x, den, g, c * k);
  }

  lemma ExactRatio(x: nat, den: nat, g: nat, t: nat)
    requires 1 <= den && 1 <= g && 1 <= den * g && x == g * t
    ensures RoundRatio(den * x, den, g) == x
  {
    Associate(den, g, t);
    QuotRem(den * x, den * g, t, 0);
  }

  /** Truncating the rounded quotient of two integers gives the floor of the exact one. */
  lemma TruncatedQuotient(num: nat, den: nat)
    requires 1 <= den < 4 * TWO_32 && num < TWO_53
    ensures Quotient53(num * TWO_96, den) / TWO_96 == num / den
  {
    hide Quotient53, Pow2;
    var q, r := Quotient(num, den), num % den;
    assert num == den * q + r;
    if r == 0 {
      WholeQuotient(num, den, q);
    } else {
      QuotientError(num * TWO_96, den);
      BetweenMultiples(num, den, q, r, Quotient53(num * TWO_96, den));
    }
  }

  lemma TimesMonotone(d: nat, a: nat, b: nat)
    ensures a <= b ==> d * a <= d * b
  {
  }

  lemma WholeQuotient(num: nat, den: nat, q: nat)
    requires 1 <= den && num == den * q && num < TWO_53
    ensures Quotient53(num * TWO_96, den) / TWO_96 == q
  {
    hide Quotient53, Pow2;
    MulAtLeast(q, den);
    Pow2NinetySix();
    QuotientExact(q * TWO_96, den, 96, q);
    Associate(den, q, TWO_96);
    QuotRem(q * TWO_96, TWO_96, q, 0);
  }

  /** A quotient whose error is less than one part in den stays between two whole numbers. */
  lemma BetweenMultiples(num: nat, den: nat, q: nat, r: nat, m: nat)
    requires num == den * q + r && 1 <= r < den && num < TWO_53
    requires TWO_53 * (m * den - num * TWO_96) <= num * TWO_96
    requires TWO_53 * (num * TWO_96 - m * den) <= num * TWO_96
    ensures m / TWO_96 == q
  {
    var low := q * TWO_96;
    assert den * low == den * q * TWO_96;
    assert den * (low + TWO_96) == den * low + den * TWO_96;
    TimesMonotone(den, m, low);
    TimesMonotone(den, low + TWO_96, m);
    QuotRem(m, TWO_96, q, m - low);
  }
}
