/** Facts about products and quotients of variables. */
module Arithmetic {

  /** A positive multiple of d is at least d. */
  lemma MulAtLeast(k: int, d: int)
    requires 1 <= k && 0 <= d
    ensures k * d >= d
  {
    assert k * d == (k - 1) * d + d;
  }

  /** The quotient and remainder are the only ones. */
  lemma DivModUnique(x: int, d: int, q: int, r: int)
    requires 0 <= r < d && x == q * d + r
    ensures x / d == q && x % d == r
  {
    var q', r' := x / d, x % d;
    var k := q - q';
    assert x == q' * d + r';
    assert k * d == q * d - q' * d == r' - r;
    if k > 0 {
      MulAtLeast(k, d);
    } else if k < 0 {
      assert (-k) * d == r - r';
      MulAtLeast(-k, d);
    }
  }

  lemma QuotientSmaller(v: nat, base: nat)
    requires 0 < v && 2 <= base
    ensures 0 <= v / base < v
  {
    var q := v / base;
    assert v == q * base + v % base == (base - 1) * q + q + v % base;
    MulAtLeast(base - 1, q);
  }

  lemma QuotientPositive(v: nat, p: nat)
    requires 0 < p
    ensures 0 <= v / p && (v / p > 0 <==> v >= p)
  {
    var q := v / p;
    assert v == q * p + v % p;
    if q < 0 {
      MulAtLeast(-q, p);
    } else if q > 0 {
      MulAtLeast(q, p);
    }
  }

  /** Taking off the lowest digit. */
  lemma LowestDigit(v: nat, base: nat) returns (q: nat, d: nat)
    requires 2 <= base <= v
    ensures v == q * base + d && d < base && 0 < q < v
  {
    QuotientSmaller(v, base);
    QuotientPositive(v, base);
    q, d := v / base, v % base;
  }
}
