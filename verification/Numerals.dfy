/** Numerals in a base from 2 to 16: what a digit string means, and why there is only one without
    leading zeros for each number. */
module Numerals {
  import opened Arithmetic

  function Pow(base: nat, n: nat): nat {
    if n == 0 then 1 else base * Pow(base, n - 1)
  }

  function Digit(d: nat, upper: bool): char
    requires d < 16
  {
    if d <= 9 then '0' + d as char
    else (if upper then 'A' else 'a') + (d - 10) as char
  }

  function DigitValue(c: char): nat {
    if '0' <= c <= '9' then (c - '0') as nat
    else if 'a' <= c <= 'f' then (c - 'a') as nat + 10
    else if 'A' <= c <= 'F' then (c - 'A') as nat + 10
    else 0
  }

  /** The number a digit string stands for. */
  function Value(s: string, base: nat): nat {
    if s == [] then 0 else Value(s[..|s| - 1], base) * base + DigitValue(s[|s| - 1])
  }

  ghost predicate IsDigit(c: char, base: nat, upper: bool) {
    DigitValue(c) < base <= 16 && c == Digit(DigitValue(c), upper)
  }

  /** The string is a numeral for v: only digits of the base, and no leading zero. */
  ghost predicate IsNumeral(s: string, v: nat, base: nat, upper: bool) {
    && s != [] && (|s| > 1 ==> s[0] != '0')
    && (forall i :: 0 <= i < |s| ==> IsDigit(s[i], base, upper))
    && Value(s, base) == v
  }

  lemma DigitRoundTrip(d: nat, upper: bool)
    requires d < 16
    ensures DigitValue(Digit(d, upper)) == d
    ensures Digit(d, upper) == '0' <==> d == 0
  {
  }

  /** The characters of the digits. */
  lemma DigitTable(d: nat)
    requires d < 16
    ensures Digit(d, false) == "0123456789abcdef"[d] && Digit(d, true) == "0123456789ABCDEF"[d]
  {
  }

  /** A digit string that does not begin with zero stands for a positive number. */
  lemma {:induction false} Positive(s: string, base: nat, upper: bool)
    requires s != [] && s[0] != '0' && 2 <= base
    requires forall i :: 0 <= i < |s| ==> IsDigit(s[i], base, upper)
    ensures Value(s, base) > 0
  {
    if |s| == 1 {
      assert s[..0] == [];
      DigitRoundTrip(DigitValue(s[0]), upper);
    } else {
      Positive(s[..|s| - 1], base, upper);
      MulAtLeast(Value(s[..|s| - 1], base), base);
    }
  }

  /** Two numerals for the same number are the same string. */
  lemma {:induction false} NumeralUnique(s: string, t: string, v: nat, base: nat, upper: bool)
    requires 2 <= base && IsNumeral(s, v, base, upper) && IsNumeral(t, v, base, upper)
    ensures s == t
    decreases |s|
  {
    var s', t' := s[..|s| - 1], t[..|t| - 1];
    DivModUnique(v, base, Value(s', base), DigitValue(s[|s| - 1]));
    DivModUnique(v, base, Value(t', base), DigitValue(t[|t| - 1]));
    assert s[|s| - 1] == t[|t| - 1];
    if s' != [] {
      Positive(s', base, upper);
    }
    if t' != [] {
      Positive(t', base, upper);
    }
    if s' != [] {
      NumeralUnique(s', t', Value(s', base), base, upper);
    }
    assert s == s' + [s[|s| - 1]] && t == t' + [t[|t| - 1]];
  }

  lemma ValueSnoc(s: string, c: char, base: nat)
    ensures Value(s + [c], base) == Value(s, base) * base + DigitValue(c)
  {
    assert (s + [c])[..|s|] == s;
  }

  lemma DigitNumeral(d: nat, base: nat, upper: bool)
    requires d < base <= 16
    ensures IsNumeral([Digit(d, upper)], d, base, upper)
  {
    DigitRoundTrip(d, upper);
    assert [Digit(d, upper)][..0] == [];
  }

  /** A digit appended to the numeral of a positive number. */
  lemma NumeralSnoc(s: string, q: nat, d: nat, v: nat, base: nat, upper: bool)
    requires IsNumeral(s, q, base, upper) && 0 < q && d < base <= 16 && v == q * base + d
    ensures IsNumeral(s + [Digit(d, upper)], v, base, upper)
  {
    DigitRoundTrip(d, upper);
    ValueSnoc(s, Digit(d, upper), base);
    assert |s| == 1 ==> s[..0] == [];
  }

  /** Every number has a numeral. */
  lemma {:induction false} NumeralExists(v: nat, base: nat, upper: bool) returns (s: string)
    requires 2 <= base <= 16
    ensures IsNumeral(s, v, base, upper)
    decreases v
  {
    if v < base {
      s := [Digit(v, upper)];
      DigitNumeral(v, base, upper);
    } else {
      var q, d := LowestDigit(v, base);
      s := NumeralExists(q, base, upper);
      NumeralSnoc(s, q, d, v, base, upper);
      s := s + [Digit(d, upper)];
    }
  }

  lemma SomeNumeral(v: nat, base: nat, upper: bool)
    requires 2 <= base <= 16
    ensures exists s :: IsNumeral(s, v, base, upper)
  {
    var s := NumeralExists(v, base, upper);
  }

  /** The numeral of a number. */
  ghost function NumeralOf(v: nat, base: nat, upper: bool): (s: string)
    requires 2 <= base <= 16
    ensures IsNumeral(s, v, base, upper)
  {
    SomeNumeral(v, base, upper);
    var s :| IsNumeral(s, v, base, upper);
    s
  }

  /** Whatever way a numeral is made, it is the one. */
  lemma TheNumeral(s: string, v: nat, base: nat, upper: bool)
    requires 2 <= base <= 16 && IsNumeral(s, v, base, upper)
    ensures s == NumeralOf(v, base, upper)
  {
    NumeralUnique(s, NumeralOf(v, base, upper), v, base, upper);
  }

  function Repeat(c: char, n: int): string
    ensures |Repeat(c, n)| == if n > 0 then n else 0
    ensures forall i :: 0 <= i < |Repeat(c, n)| ==> Repeat(c, n)[i] == c
  {
    if n <= 0 then [] else [c] + Repeat(c, n - 1)
  }

  /** Leading zeros do not change the value. */
  lemma {:induction false} ZerosDoNotCount(n: int, s: string, base: nat)
    ensures Value(Repeat('0', n) + s, base) == Value(s, base)
    decreases |s|, n
  {
    var z := Repeat('0', n);
    if s != [] {
      assert (z + s)[..|z + s| - 1] == z + s[..|s| - 1];
      ZerosDoNotCount(n, s[..|s| - 1], base);
    } else if n > 0 {
      assert z + s == z && z[..|z| - 1] == Repeat('0', n - 1) + [] by {
        assert |z[..|z| - 1]| == |Repeat('0', n - 1)|;
      }
      ZerosDoNotCount(n - 1, [], base);
    } else {
      assert z + s == [];
    }
  }
}
