/** The two integer printers: the logging printer, which divides by place values, and the small
    printer, which shifts.  What they would send to the device is returned as a string. */
module IntPrint {
  import opened Arithmetic
  import opened Common
  import opened Numerals

  const SIGN: nat := 0x8000_0000

  /** Is the argument printed with a minus sign? */
  predicate Negative(arg: u32, signed: bool) {
    signed && arg >= SIGN
  }

  /** The number the 32 bits stand for. */
  function Meaning(arg: u32, signed: bool): int {
    if Negative(arg, signed) then arg - M else arg
  }

  function Magnitude(arg: u32, signed: bool): nat {
    if Negative(arg, signed) then M - arg else arg
  }

  /** What precedes a numeral: its sign, and padding to a width; zeros go after the sign, spaces
      before. */
  function Prefix(digitCount: nat, negative: bool, zeroFill: bool, width: int): string {
    var sign := if negative then "-" else "";
    var pad := width - digitCount - |sign|;
    if zeroFill then sign + Repeat('0', pad) else Repeat(' ', pad) + sign
  }

  function Layout(numeral: string, negative: bool, zeroFill: bool, width: int): string {
    Prefix(|numeral|, negative, zeroFill, width) + numeral
  }

  /** Reads a printed integer back: spaces, perhaps a minus sign, digits. */
  function Parse(s: string, base: nat): int {
    if s != [] && s[0] == ' ' then Parse(s[1..], base)
    else if s != [] && s[0] == '-' then 0 - Value(s[1..], base)
    else Value(s, base)
  }

  lemma {:induction false} SpacesDoNotCount(n: int, s: string, base: nat)
    ensures Parse(Repeat(' ', n) + s, base) == Parse(s, base)
    decreases n
  {
    var padded := Repeat(' ', n) + s;
    if n > 0 {
      assert padded[1..] == Repeat(' ', n - 1) + s;
      SpacesDoNotCount(n - 1, s, base);
    } else {
      assert padded == s;
    }
  }

  lemma SignReadsBack(digits: string, base: nat, negative: bool)
    requires digits != [] && digits[0] != ' ' && digits[0] != '-'
    ensures Parse((if negative then "-" else "") + digits, base)
            == if negative then 0 - Value(digits, base) else Value(digits, base)
  {
    if negative {
      assert ("-" + digits)[1..] == digits;
    } else {
      assert "" + digits == digits;
    }
  }

  lemma ZerosReadBack(numeral: string, base: nat, negative: bool, width: int)
    requires numeral != [] && numeral[0] != ' ' && numeral[0] != '-'
    ensures Parse(Layout(numeral, negative, true, width), base)
            == if negative then 0 - Value(numeral, base) else Value(numeral, base)
  {
    var sign := if negative then "-" else "";
    var zeros := Repeat('0', width - |numeral| - |sign|);
    ZerosDoNotCount(width - |numeral| - |sign|, numeral, base);
    SignReadsBack(zeros + numeral, base, negative);
    Associative(sign, zeros, numeral);
  }

  lemma SpacesReadBack(numeral: string, base: nat, negative: bool, width: int)
    requires numeral != [] && numeral[0] != ' ' && numeral[0] != '-'
    ensures Parse(Layout(numeral, negative, false, width), base)
            == if negative then 0 - Value(numeral, base) else Value(numeral, base)
  {
    var sign := if negative then "-" else "";
    var spaces := Repeat(' ', width - |numeral| - |sign|);
    SignReadsBack(numeral, base, negative);
    SpacesDoNotCount(width - |numeral| - |sign|, sign + numeral, base);
    Associative(spaces, sign, numeral);
  }

  /** What an integer argument is printed as. */
  ghost function Printed(arg: u32, base: nat, signed: bool, zeroFill: bool, width: int, upper: bool): string
    requires 2 <= base <= 16
  {
    Layout(NumeralOf(Magnitude(arg, signed), base, upper), Negative(arg, signed), zeroFill, width)
  }

  /** Integer printing round-trips: what is printed reads back as the number the 32 bits stand for, and
      is as long as the wider of the requested width and the numeral with its sign. */
  lemma PrintedReadsBack(arg: u32, base: nat, signed: bool, zeroFill: bool, width: int, upper: bool)
    requires 2 <= base <= 16
    ensures var out := Printed(arg, base, signed, zeroFill, width, upper);
            var needed := |NumeralOf(Magnitude(arg, signed), base, upper)| + (if Negative(arg, signed) then 1 else 0);
            && Parse(out, base) == Meaning(arg, signed)
            && |out| == if width > needed then width else needed
  {
    var numeral := NumeralOf(Magnitude(arg, signed), base, upper);
    assert IsDigit(numeral[0], base, upper);
    if zeroFill {
      ZerosReadBack(numeral, base, Negative(arg, signed), width);
    } else {
      SpacesReadBack(numeral, base, Negative(arg, signed), width);
    }
  }

  lemma NumeralChars(v: nat, base: nat, upper: bool)
    requires 2 <= base <= 16
    ensures var numeral := NumeralOf(v, base, upper);
            forall i :: 0 <= i < |numeral| ==> numeral[i] != ' ' && numeral[i] != '-'
  {
    var numeral := NumeralOf(v, base, upper);
    forall i | 0 <= i < |numeral|
      ensures numeral[i] != ' ' && numeral[i] != '-'
    {
      assert IsDigit(numeral[i], base, upper);
    }
  }

  /** Zero fill: the sign, then zeros, then the numeral; there is no space anywhere. */
  ghost predicate ZeroFilled(out: string, numeral: string, negative: bool) {
    var sign := if negative then 1 else 0;
    var pad := |out| - |numeral|;
    && pad >= sign && out[pad..] == numeral && (negative ==> out[0] == '-')
    && (forall i :: sign <= i < pad ==> out[i] == '0')
    && (forall i :: 0 <= i < |out| ==> out[i] != ' ')
  }

  /** Otherwise spaces, then the sign, then the numeral, in which there is no space. */
  ghost predicate SpaceFilled(out: string, numeral: string, negative: bool) {
    var pad := |out| - |numeral| - (if negative then 1 else 0);
    && pad >= 0 && out[|out| - |numeral|..] == numeral && (negative ==> out[pad] == '-')
    && (forall i :: 0 <= i < pad ==> out[i] == ' ')
    && (forall i :: pad <= i < |out| ==> out[i] != ' ')
  }

  lemma LayoutZeros(numeral: string, negative: bool, width: int)
    requires forall i :: 0 <= i < |numeral| ==> numeral[i] != ' '
    ensures ZeroFilled(Layout(numeral, negative, true, width), numeral, negative)
  {
    var prefix := Prefix(|numeral|, negative, true, width);
    var out := prefix + numeral;
    assert forall i :: 0 <= i < |out| ==> out[i] == if i < |prefix| then prefix[i] else numeral[i - |prefix|];
  }

  lemma LayoutSpaces(numeral: string, negative: bool, width: int)
    requires forall i :: 0 <= i < |numeral| ==> numeral[i] != ' '
    ensures SpaceFilled(Layout(numeral, negative, false, width), numeral, negative)
  {
    var prefix := Prefix(|numeral|, negative, false, width);
    var out := prefix + numeral;
    assert forall i :: 0 <= i < |out| ==> out[i] == if i < |prefix| then prefix[i] else numeral[i - |prefix|];
  }

  /** What fills the width: zeros after the sign, or spaces before it. */
  lemma PrintedFill(arg: u32, base: nat, signed: bool, zeroFill: bool, width: int, upper: bool)
    requires 2 <= base <= 16
    ensures var out, numeral := Printed(arg, base, signed, zeroFill, width, upper), NumeralOf(Magnitude(arg, signed), base, upper);
            if zeroFill then ZeroFilled(out, numeral, Negative(arg, signed))
            else SpaceFilled(out, numeral, Negative(arg, signed))
  {
    NumeralChars(Magnitude(arg, signed), base, upper);
    var numeral := NumeralOf(Magnitude(arg, signed), base, upper);
    if zeroFill {
      LayoutZeros(numeral, Negative(arg, signed), width);
    } else {
      LayoutSpaces(numeral, Negative(arg, signed), width);
    }
  }

  lemma Regroup(hi: int, lo: int, base: int, p: int, r: int)
    requires 0 <= lo < base && 0 <= r < p
    ensures (hi * base + lo) * p + r == hi * (base * p) + (lo * p + r)
    ensures 0 <= lo * p + r < base * p
  {
    assert (hi * base + lo) * p == (hi * base) * p + lo * p;
    assert (hi * base) * p == hi * (base * p);
    MulAtLeast(base - lo, p);
    assert (base - lo) * p == base * p - lo * p;
    if lo > 0 {
      MulAtLeast(lo, p);
    }
  }

  /** Splitting v at two neighbouring place values, p and base * p. */
  lemma SplitDigit(v: nat, p: nat, base: nat)
    requires 0 < p && 0 < base && 0 < base * p
    ensures v / (base * p) == v / p / base
    ensures v / (base * p) * base + v % (base * p) / p == v / p
    ensures v % (base * p) / p == v / p % base
    ensures 0 <= v % (base * p) / p < base
    ensures v % (base * p) % p == v % p
  {
    var q, r := v / p, v % p;
    var hi, lo := q / base, q % base;
    Regroup(hi, lo, base, p, r);
    DivModUnique(v, base * p, hi, lo * p + r);
    DivModUnique(lo * p + r, p, lo, r);
  }

  /** Counts the digits of v and finds its largest place value.  The 32-bit product never wraps. */
  method CountDigits(v: u32, base: nat) returns (p: u32, digitCount: nat)
    requires 2 <= base <= 16
    ensures digitCount >= 1 && p == Pow(base, digitCount - 1)
    ensures v < Pow(base, digitCount) && (digitCount > 1 ==> p <= v)
  {
    var vShrink: nat := v;
    p, digitCount := 1, 1;
    vShrink := vShrink / base;
    assert Pow(base, 0) == 1 && Pow(base, 1) == base;
    while vShrink > 0
      invariant digitCount >= 1 && p == Pow(base, digitCount - 1)
      invariant Pow(base, digitCount) > 0 && vShrink == v / Pow(base, digitCount)
      invariant digitCount > 1 ==> p <= v
      decreases vShrink
    {
      ghost var next := Pow(base, digitCount);
      QuotientPositive(v, next);
      QuotientSmaller(vShrink, base);
      PowPositive(base, digitCount + 1);
      SplitDigit(v, next, base);
      assert p * base == next;
      digitCount := digitCount + 1;
      p := (p * base) % M;
      vShrink := vShrink / base;
    }
    QuotientPositive(v, Pow(base, digitCount));
  }

  lemma PowPositive(base: nat, n: nat)
    requires 0 < base
    ensures Pow(base, n) > 0
  {
    if n > 0 {
      PowPositive(base, n - 1);
      MulAtLeast(base, Pow(base, n - 1));
    }
  }

  lemma PowStepDown(base: nat, n: nat)
    requires 2 <= base
    ensures n > 0 ==> Pow(base, n) / base == Pow(base, n - 1)
    ensures n == 0 ==> Pow(base, n) / base == 0
  {
    if n > 0 {
      DivModUnique(Pow(base, n), base, Pow(base, n - 1), 0);
    }
  }

  /** One turn of the digit loop, with k digits to go: `out` stands for v without its k lowest digits,
      and what is left to print is those k digits. */
  lemma EmitStep(v: nat, out: string, k: nat, base: nat, upper: bool)
    requires 2 <= base <= 16 && 1 <= k && Pow(base, k) > 0 && Value(out, base) == v / Pow(base, k)
    ensures var p, rest := Pow(base, k - 1), v % Pow(base, k);
            && p > 0 && 0 <= rest / p < base && rest % p == v % p
            && IsDigit(Digit(rest / p, upper), base, upper)
            && Value(out + [Digit(rest / p, upper)], base) == v / p
            && p / base == if k > 1 then Pow(base, k - 2) else 0
  {
    var p := Pow(base, k - 1);
    PowPositive(base, k - 1);
    SplitDigit(v, p, base);
    var d := v % Pow(base, k) / p;
    DigitRoundTrip(d, upper);
    ValueSnoc(out, Digit(d, upper), base);
    PowStepDown(base, k - 1);
  }

  /** The digit loop with k of n digits to go: `out` stands for v without its k lowest digits, and `rest`
      for those; p is the place value of the next. */
  ghost predicate Emitting(v: nat, out: string, rest: nat, p: nat, k: nat, n: nat, base: nat, upper: bool) {
    && 2 <= base <= 16 && |out| + k == n && Pow(base, k) > 0
    && p == (if k > 0 then Pow(base, k - 1) else 0) && (k > 0 ==> p > 0)
    && Value(out, base) == v / Pow(base, k) && rest == v % Pow(base, k)
    && (forall i :: 0 <= i < |out| ==> IsDigit(out[i], base, upper))
    && (out == [] && n > 1 ==> 0 < p <= rest)
    && (out != [] && n > 1 ==> out[0] != '0')
  }

  lemma EmitFirst(v: nat, place: nat, n: nat, base: nat, upper: bool)
    requires 2 <= base <= 16 && n >= 1 && place == Pow(base, n - 1)
    requires v < Pow(base, n) && (n > 1 ==> place <= v)
    ensures Emitting(v, [], v, place, n, n, base, upper)
  {
    PowPositive(base, n);
    PowPositive(base, n - 1);
    DivModUnique(v, Pow(base, n), 0, v);
  }

  lemma EmitNext(v: nat, out: string, rest: nat, p: nat, k: nat, n: nat, base: nat, upper: bool)
    requires Emitting(v, out, rest, p, k, n, base, upper) && k > 0
    ensures 0 <= rest / p < base && 0 <= rest % p && 0 <= p / base
    ensures Emitting(v, out + [Digit(rest / p, upper)], rest % p, p / base, k - 1, n, base, upper)
  {
    var d := rest / p;
    EmitStep(v, out, k, base, upper);
    PowPositive(base, k - 1);
    if k > 1 {
      PowPositive(base, k - 2);
    }
    QuotientPositive(rest, p);
    DigitRoundTrip(d, upper);
    var next := out + [Digit(d, upper)];
    assert forall i :: 0 <= i < |next| ==> next[i] == if i < |out| then out[i] else Digit(d, upper);
  }

  lemma EmitLast(v: nat, out: string, rest: nat, p: nat, n: nat, base: nat, upper: bool)
    requires Emitting(v, out, rest, p, 0, n, base, upper) && n >= 1
    ensures |out| == n && out == NumeralOf(v, base, upper)
  {
    assert Pow(base, 0) == 1;
    DivModUnique(v, 1, v, 0);
    TheNumeral(out, v, base, upper);
  }

  /** The digits of v, most significant first, dividing by falling place values. */
  method EmitDigits(v: u32, place: u32, digitCount: nat, base: nat, upper: bool) returns (out: string)
    requires 2 <= base <= 16 && digitCount >= 1 && place == Pow(base, digitCount - 1)
    requires v < Pow(base, digitCount) && (digitCount > 1 ==> place <= v)
    ensures |out| == digitCount && out == NumeralOf(v, base, upper)
  {
    out := [];
    var rest: nat, p: nat := v, place;
    ghost var k: nat := digitCount;
    EmitFirst(v, place, digitCount, base, upper);
    while p > 0
      invariant Emitting(v, out, rest, p, k, digitCount, base, upper)
      decreases k
    {
      EmitNext(v, out, rest, p, k, digitCount, base, upper);
      out := out + [Digit(rest / p, upper)];
      rest := rest % p;
      p := p / base;
      k := k - 1;
    }
    EmitLast(v, out, rest, p, digitCount, base, upper);
  }

  /** `alt_log_repchar`. */
  method RepChar(c: char, n: int) returns (out: string)
    ensures out == Repeat(c, n)
  {
    out := [];
    var r := n;
    while r > 0
      invariant r <= n || (out == [] && r == n)
      invariant |out| + (if r > 0 then r else 0) == |Repeat(c, n)|
      invariant forall i :: 0 <= i < |out| ==> out[i] == c
    {
      r := r - 1;
      out := out + [c];
    }
  }

  /** Prints what precedes the digits. */
  method Lead(digitCount: nat, negative: bool, zeroFill: bool, width: int) returns (out: string)
    ensures out == Prefix(digitCount, negative, zeroFill, width)
  {
    out := [];
    var before := width - digitCount;
    if zeroFill {
      if negative {
        out := "-";
        before := before - 1;
      }
      var pad := RepChar('0', before);
      out := out + pad;
    } else {
      if negative {
        before := before - 1;
      }
      var pad := RepChar(' ', before);
      out := pad;
      if negative {
        out := out + "-";
      }
    }
  }

  /** Prints a magnitude with its sign: counts the digits, then prints what precedes them, then them. */
  method PrintMagnitude(v: u32, negative: bool, base: nat, zeroFill: bool, width: int, upper: bool)
    returns (out: string)
    requires 2 <= base <= 16
    ensures out == Layout(NumeralOf(v, base, upper), negative, zeroFill, width)
  {
    var p, digitCount := CountDigits(v, base);
    var lead := Lead(digitCount, negative, zeroFill, width);
    var digits := EmitDigits(v, p, digitCount, base, upper);
    return lead + digits;
  }

  /** The logging printer's integer conversion.  `width` is -1 when the format gives none. */
  method PrintInteger(arg: u32, base: nat, signed: bool, zeroFill: bool, width: int, upper: bool)
    returns (out: string)
    requires 2 <= base <= 16
    ensures out == Printed(arg, base, signed, zeroFill, width, upper)
  {
    var v: u32, negative := arg, false;
    if signed && arg >= SIGN {
      v, negative := (M - 1 - arg + 1) % M, true;
    }
    out := PrintMagnitude(v, negative, base, zeroFill, width, upper);
  }

  /** The hexadecimal digit at a bit position: masking four bits and shifting them down. */
  function Nibble(v: u32, shift: nat): nat
    requires Pow(2, shift) > 0
  {
    v / Pow(2, shift) % 16
  }

  /** Sixteen to the k as a power of two. */
  lemma {:induction false} NibblePlace(k: nat)
    ensures Pow(2, 4 * k) == Pow(16, k) > 0
  {
    if k > 0 {
      NibblePlace(k - 1);
      var n := 4 * k;
      assert Pow(2, n) == 2 * Pow(2, n - 1) && Pow(2, n - 1) == 2 * Pow(2, n - 2);
      assert Pow(2, n - 2) == 2 * Pow(2, n - 3) && Pow(2, n - 3) == 2 * Pow(2, n - 4);
    }
  }

  lemma EightNibbles()
    ensures Pow(16, 8) == M
  {
    assert Pow(16, 2) == 256 && Pow(16, 4) == 256 * 256 && Pow(16, 6) == 256 * 256 * 256;
  }

  /** The highest digit of a number below 16^(k+1): zero exactly if the number is below 16^k. */
  lemma TopNibble(v: u32, k: nat)
    requires v < Pow(16, k + 1) && Pow(2, 4 * k) > 0
    ensures Nibble(v, 4 * k) == 0 <==> v < Pow(16, k)
  {
    NibblePlace(k);
    SplitDigit(v, Pow(16, k), 16);
    DivModUnique(v, Pow(16, k + 1), 0, v);
    QuotientPositive(v, Pow(16, k));
  }

  /** The position of the first non-zero digit, looked for from the top. */
  method FirstDigit(v: u32) returns (digitShift: nat)
    requires v != 0
    ensures digitShift % 4 == 0 && Pow(16, digitShift / 4) <= v < Pow(16, digitShift / 4 + 1)
  {
    digitShift := 28;
    ghost var k: nat := 7;
    EightNibbles();
    NibblePlace(7);
    TopNibble(v, 7);
    while Nibble(v, digitShift) == 0
      invariant digitShift == 4 * k && Pow(2, digitShift) > 0 && v < Pow(16, k + 1)
      invariant Nibble(v, digitShift) == 0 <==> v < Pow(16, k)
      decreases digitShift
    {
      assert Pow(16, 0) == 1;
      digitShift := digitShift - 4;
      k := k - 1;
      NibblePlace(k);
      TopNibble(v, k);
    }
  }

  /** One turn of the small printer's digit loop: the digit it masks out is the next one. */
  lemma NibbleStep(v: u32, out: string, k: nat)
    requires Pow(16, k + 1) > 0 && Value(out, 16) == v / Pow(16, k + 1)
    ensures Pow(2, 4 * k) > 0 && Pow(16, k) > 0
    ensures var d := Nibble(v, 4 * k);
            IsDigit(Digit(d, false), 16, false) && Value(out + [Digit(d, false)], 16) == v / Pow(16, k)
  {
    NibblePlace(k);
    SplitDigit(v, Pow(16, k), 16);
    EmitStep(v, out, k + 1, 16, false);
  }

  lemma ZeroNumeral()
    ensures IsNumeral("0", 0, 16, false)
  {
    assert "0"[..0] == [];
  }

  /** The small printer's digit loop, from the first non-zero digit down. */
  method EmitNibbles(v: u32, top: nat) returns (out: string)
    requires top % 4 == 0 && Pow(16, top / 4) <= v < Pow(16, top / 4 + 1)
    ensures IsNumeral(out, v, 16, false)
  {
    out := [];
    var digitShift: int := top;
    ghost var k: int := top / 4;
    NibblePlace(k);
    TopNibble(v, k);
    DivModUnique(v, Pow(16, k + 1), 0, v);
    while digitShift >= 0
      invariant k >= -1 && digitShift == 4 * k && Pow(16, k + 1) > 0
      invariant Value(out, 16) == v / Pow(16, k + 1)
      invariant forall i :: 0 <= i < |out| ==> IsDigit(out[i], 16, false)
      invariant out == [] ==> k >= 0 && Pow(2, digitShift) > 0 && Nibble(v, digitShift) != 0
      invariant out != [] ==> out[0] != '0'
      decreases digitShift
    {
      NibbleStep(v, out, k);
      var digit := Nibble(v, digitShift);
      DigitRoundTrip(digit, false);
      out := out + [Digit(digit, false)];
      digitShift := digitShift - 4;
      k := k - 1;
    }
    DivModUnique(v, Pow(16, 0), v, 0);
  }

  /** The small printer's hexadecimal conversion. */
  method PrintHex(v: u32) returns (out: string)
    ensures IsNumeral(out, v, 16, false)
  {
    if v == 0 {
      ZeroNumeral();
      return "0";
    }
    var digitShift := FirstDigit(v);
    out := EmitNibbles(v, digitShift);
  }

  /** Without a width, the two hexadecimal printers print the same string for every 32-bit value. */
  method HexPrintersAgree(v: u32, zeroFill: bool) returns (small: string, logged: string)
    ensures small == logged
  {
    small := PrintHex(v);
    logged := PrintInteger(v, 16, false, zeroFill, -1, false);
    TheNumeral(small, v, 16, false);
  }
}
