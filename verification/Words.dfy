/** Fixed-width integer arithmetic: powers of two, bitwise `and`, bytes and little-endian words. */
module Words {
  const TWO_8 := 0x100
  const TWO_16 := 0x1_0000
  const TWO_32 := 0x1_0000_0000
  const TWO_52 := 0x10_0000_0000_0000
  const TWO_53 := 0x20_0000_0000_0000
  const TWO_56 := 0x100_0000_0000_0000
  const TWO_64 := 0x1_0000_0000_0000_0000
  const TWO_96 := 0x1_0000_0000_0000_0000_0000_0000

  type Byte = b: int | 0 <= b < 0x100

  function Pow2(n: nat): (r: nat)
    ensures 1 <= r
  {
    if n == 0 then 1 else 2 * Pow2(n - 1)
  }

  /** Bitwise `and` of two unsigned integers. */
  function BitAnd(x: nat, y: nat): nat {
    if x == 0 || y == 0 then 0
    else (if x % 2 == 1 && y % 2 == 1 then 1 else 0) + 2 * BitAnd(x / 2, y / 2)
  }

  /** Bitwise complement of a 64-bit word. */
  function Not64(x: nat): nat
    requires x < TWO_64
  {
    TWO_64 - 1 - x
  }

  lemma {:induction false} Pow2Adds(a: nat, b: nat)
    ensures Pow2(a + b) == Pow2(a) * Pow2(b)
  {
    if a > 0 {
      Pow2Adds(a - 1, b);
      Associate(2, Pow2(a - 1), Pow2(b));
    }
  }

  lemma Associate(a: int, b: int, c: int)
    ensures a * (b * c) == (a * b) * c
  {
  }

  lemma Pow2Small()
    ensures Pow2(0) == 1 && Pow2(1) == 2 && Pow2(4) == 16 && Pow2(12) == 0x1000 && Pow2(13) == 0x2000
  {
  }

  lemma Pow2Constants()
    ensures Pow2(52) == TWO_52 && Pow2(53) == TWO_53 && Pow2(64) == TWO_64
    ensures Pow2(26) == 0x400_0000 && Pow2(4) == 16
  {
    hide Pow2;
    Pow2Small();
    Pow2Adds(13, 13);
    Pow2Adds(26, 26);
    Pow2Adds(52, 1);
    Pow2Adds(52, 12);
  }

  lemma Pow2FiftySix()
    ensures Pow2(56) == TWO_56 && Pow2(55) == TWO_56 / 2 && Pow2(30) == 0x4000_0000
  {
    hide Pow2;
    Pow2Constants();
    Pow2Adds(52, 4);
    Pow2Adds(26, 4);
    Pow2Step(56);
  }

  lemma Pow2NinetySix()
    ensures Pow2(96) == TWO_96
  {
    hide Pow2;
    Pow2Small();
    Pow2Adds(12, 12);
    Pow2Adds(24, 24);
    Pow2Adds(48, 48);
  }

  /** One step of `BitAnd`, also where an operand is zero. */
  lemma BitAndStep(x: nat, y: nat)
    ensures BitAnd(x, y) == (if x % 2 == 1 && y % 2 == 1 then 1 else 0) + 2 * BitAnd(x / 2, y / 2)
  {
  }

  lemma BitAndZero(x: nat)
    ensures BitAnd(x, 0) == 0
  {
  }

  lemma Pow2Step(n: nat)
    requires n > 0
    ensures Pow2(n) == 2 * Pow2(n - 1)
  {
  }

  lemma {:induction false} Pow2Monotone(k: nat, w: nat)
    requires k <= w
    ensures Pow2(k) <= Pow2(w)
    decreases w
  {
    if k < w { Pow2Monotone(k, w - 1); }
  }

  /** The low w bits of a word. */
  function Low(x: nat, w: nat): nat {
    if w == 0 then 0 else x % 2 + 2 * Low(x / 2, w - 1)
  }

  lemma {:induction false} LowIsMod(x: nat, w: nat)
    ensures Low(x, w) == x % Pow2(w)
  {
    if w > 0 {
      LowIsMod(x / 2, w - 1);
      HalfMod(x, w);
    }
  }

  /** A mask of the bits `k..w` keeps what distinguishes the low w bits from the low k bits. */
  lemma {:induction false} MaskedLow(x: nat, w: nat, k: nat)
    requires k <= w
    ensures Pow2(k) <= Pow2(w)
    ensures BitAnd(x, Pow2(w) - Pow2(k)) == Low(x, w) - Low(x, k)
    decreases w
  {
    hide BitAnd, Pow2;
    Pow2Monotone(k, w);
    if w == 0 {
      BitAndZero(x);
    } else {
      var mask := Pow2(w) - Pow2(k);
      BitAndStep(x, mask);
      Pow2Step(w);
      if k > 0 {
        Pow2Step(k);
        MaskedLow(x / 2, w - 1, k - 1);
        HalfOf(mask, Pow2(w - 1) - Pow2(k - 1), 0);
      } else {
        Pow2Small();
        MaskedLow(x / 2, w - 1, 0);
        HalfOf(mask, Pow2(w - 1) - 1, 1);
      }
    }
  }

  lemma MaskedField(x: nat, w: nat, k: nat)
    requires k <= w
    ensures Pow2(k) <= Pow2(w)
    ensures BitAnd(x, Pow2(w) - Pow2(k)) == x % Pow2(w) - x % Pow2(k)
  {
    MaskedLow(x, w, k);
    LowIsMod(x, w);
    LowIsMod(x, k);
  }

  lemma HalfOf(x: int, h: int, b: int)
    requires x == 2 * h + b && 0 <= b < 2
    ensures x / 2 == h && x % 2 == b
  {
  }

  lemma HalfMod(x: nat, w: nat)
    requires w > 0
    ensures x % Pow2(w) == 2 * (x / 2 % Pow2(w - 1)) + x % 2
  {
    var p := Pow2(w - 1);
    var q, r := x / 2 / p, x / 2 % p;
    assert x == (2 * p) * q + (2 * r + x % 2) by {
      assert x / 2 == p * q + r;
    }
    QuotRem(x, 2 * p, q, 2 * r + x % 2);
  }

  /** Division under a name, for proofs that need not see it. */
  function Quotient(a: nat, b: nat): nat
    requires 0 < b
  {
    a / b
  }

  /** Division is determined by its defining equation. */
  lemma QuotRem(x: int, m: int, q: int, r: int)
    requires 0 <= r < m && x == m * q + r
    ensures x / m == q && x % m == r
  {
    var q', r' := x / m, x % m;
    assert x == m * q' + r';
    assert m * (q - q') == r' - r;
    if q > q' { MulAtLeast(m, q - q'); }
    if q < q' { MulAtLeast(m, q' - q); }
  }

  lemma MulAtLeast(m: int, k: int)
    requires 0 <= m && 1 <= k
    ensures m <= m * k
  {
  }

  /** The masked field of `MaskedField` is empty exactly when the word is small modulo 2^w. */
  lemma MaskedFieldEmpty(x: nat, w: nat, k: nat)
    requires k <= w
    ensures Pow2(k) <= Pow2(w)
    ensures BitAnd(x, Pow2(w) - Pow2(k)) == 0 <==> x % Pow2(w) < Pow2(k)
  {
    MaskedField(x, w, k);
    Pow2Adds(k, w - k);
    SmallResidue(x, Pow2(k), Pow2(w - k));
  }

  /** Reducing modulo a multiple of `k` agrees with reducing modulo `k` exactly on small residues. */
  lemma SmallResidue(x: nat, k: nat, c: nat)
    requires 0 < k && 0 < c && 0 < k * c
    ensures x % (k * c) < k <==> x % (k * c) == x % k
  {
    var q, r := x / (k * c), x % (k * c);
    assert x == k * (c * q) + r by {
      assert x == k * c * q + r;
      assert k * c * q == k * (c * q);
    }
    if r < k { QuotRem(x, k, c * q, r); }
  }

  /** Little-endian bytes of an n-byte word. */
  function LittleEndian(x: nat, n: nat): (s: seq<Byte>)
    ensures |s| == n
  {
    if n == 0 then [] else [x % TWO_8] + LittleEndian(x / TWO_8, n - 1)
  }

  function FromLittleEndian(s: seq<Byte>): nat {
    if s == [] then 0 else s[0] + TWO_8 * FromLittleEndian(s[1..])
  }

  lemma {:induction false} LittleEndianRoundTrip(x: nat, n: nat)
    requires x < Pow2(8 * n)
    ensures FromLittleEndian(LittleEndian(x, n)) == x
  {
    if n > 0 {
      Pow2Adds(8, 8 * (n - 1));
      assert Pow2(8) == TWO_8;
      LittleEndianRoundTrip(x / TWO_8, n - 1);
      assert LittleEndian(x, n)[1..] == LittleEndian(x / TWO_8, n - 1);
    }
  }

  lemma {:induction false} LittleEndianOfBytes(s: seq<Byte>)
    ensures LittleEndian(FromLittleEndian(s), |s|) == s
  {
    if s != [] {
      LittleEndianOfBytes(s[1..]);
      QuotRem(FromLittleEndian(s), TWO_8, FromLittleEndian(s[1..]), s[0]);
    }
  }

  lemma {:induction false} FromLittleEndianBound(s: seq<Byte>)
    ensures FromLittleEndian(s) < Pow2(8 * |s|)
  {
    if s != [] {
      FromLittleEndianBound(s[1..]);
      Pow2Adds(8, 8 * (|s| - 1));
      assert Pow2(8) == TWO_8;
    }
  }

  /** Bitwise `or` of two unsigned integers. */
  function BitOr(x: nat, y: nat): nat
    decreases x + y
  {
    if x == 0 then y
    else if y == 0 then x
    else (if x % 2 == 1 || y % 2 == 1 then 1 else 0) + 2 * BitOr(x / 2, y / 2)
  }

  /** Words without a bit in common are added by `or`. */
  lemma {:induction false} OrIsSum(hi: nat, lo: nat, k: nat)
    requires lo < Pow2(k)
    ensures BitOr(Pow2(k) * hi, lo) == Pow2(k) * hi + lo
    decreases k
  {
    if k > 0 && hi > 0 && lo > 0 {
      OrIsSum(hi, lo / 2, k - 1);
      Associate(2, Pow2(k - 1), hi);
    }
  }

  /** The bytes from k on, shifted to their places and or-ed together, the most significant first. */
  function OrBytes(s: seq<Byte>, k: nat): nat
    requires k <= |s|
    decreases |s| - k
  {
    if k == |s| then 0 else BitOr(OrBytes(s, k + 1), s[k] * Pow2(8 * k))
  }

  lemma {:induction false} OrBytesIsLittleEndian(s: seq<Byte>, k: nat)
    requires k <= |s|
    ensures OrBytes(s, k) == Pow2(8 * k) * FromLittleEndian(s[k..])
    decreases |s| - k
  {
    hide BitOr, Pow2, FromLittleEndian;
    if k == |s| {
      NoBytes(s[k..]);
    } else {
      OrBytesIsLittleEndian(s, k + 1);
      var p, f := Pow2(8 * k), FromLittleEndian(s[k + 1..]);
      FirstByte(s, k);
      Pow2Adds(8 * k, 8);
      Pow2Eight();
      ByteTimes(s[k], p, f);
      OrIsSum(f, s[k] * p, 8 * k + 8);
    }
  }

  lemma NoBytes(s: seq<Byte>)
    requires s == []
    ensures FromLittleEndian(s) == 0
  {
  }

  lemma FirstByte(s: seq<Byte>, k: nat)
    requires k < |s|
    ensures FromLittleEndian(s[k..]) == s[k] + TWO_8 * FromLittleEndian(s[k + 1..])
  {
  }

  lemma ByteTimes(b: int, p: nat, f: nat)
    requires 0 <= b < 256 && 1 <= p
    ensures b * p < p * 256
    ensures p * 256 * f + b * p == p * (b + 256 * f)
  {
  }

  lemma Pow2Eight()
    ensures Pow2(8) == 256
  {
  }
}
