/** Lowest terms: Euclid's greatest common divisor and what it says about multiples. */
module Fractions {
  function Gcd(a: nat, b: nat): nat
    decreases b
  {
    if b == 0 then a else Gcd(b, a % b)
  }

  lemma {:induction false} Bezout(a: nat, b: nat) returns (s: int, t: int)
    ensures s * a + t * b == Gcd(a, b)
    decreases b
  {
    if b == 0 {
      s, t := 1, 0;
    } else {
      var s', t' := Bezout(b, a % b);
      var q, r := a / b, a % b;
      assert a == b * q + r;
      s, t := t', s' - t' * q;
      BackSubstitution(s', t', b, q, r);
    }
  }

  lemma BackSubstitution(s: int, t: int, b: int, q: int, r: int)
    ensures t * (b * q + r) + (s - t * q) * b == s * b + t * r
  {
    assert t * (b * q + r) == t * (b * q) + t * r;
    assert (s - t * q) * b == s * b - t * q * b;
    assert t * (b * q) == t * q * b;
  }

  /** No smaller multiple of a fraction in lowest terms is a whole number. */
  lemma NotWholeEarlier(p: nat, d: nat, i: nat, k: int)
    requires Gcd(p, d) == 1 && 1 <= i < d
    ensures i * p != d * k
  {
    var s, t := Bezout(p, d);
    if i * p == d * k {
      Combination(p, d, i, k, s, t);
      NoSmallMultiple(i, d, s * k + t * i);
      assert false;
    }
  }

  lemma Combination(p: nat, d: nat, i: nat, k: int, s: int, t: int)
    requires s * p + t * d == 1 && i * p == d * k
    ensures i == d * (s * k + t * i)
  {
  }

  lemma NoSmallMultiple(i: nat, d: nat, c: int)
    requires 1 <= i < d
    ensures i != d * c
  {
  }
}
