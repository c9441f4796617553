/** The wall clock: `settimeofday` stores the time at which the tick counter was zero, and
    `gettimeofday` adds the elapsed ticks to it. */
module Clock {
  import opened Arithmetic
  import opened Common

  const US: int := 1_000_000    // microseconds in a second

  datatype Time = Time(sec: int, usec: int)

  /** Storing a value in a signed 32-bit field. */
  function S32(x: int): int {
    (x + 0x8000_0000) % M - 0x8000_0000
  }

  function Micros(t: Time): int {
    t.sec * US + t.usec
  }

  /** The normalised time of a number of microseconds. */
  function FromMicros(x: int): Time {
    Time(x / US, x % US)
  }

  /** The seconds and microseconds that `settimeofday` stores.  Its tick product is a 32-bit one. */
  function Reset(t: Time, counter: u32, rate: u32): Time
    requires rate > 0
  {
    Time(S32(t.sec - counter / rate), S32(t.usec - (counter * (US / rate)) % M % US))
  }

  /** Borrowing and carrying seconds until the microseconds are in range; a time before zero becomes
      zero. */
  function Normalised(sec: int, usec: int): Time {
    if usec < 0 && sec * US + usec < 0 then Time(0, 0) else FromMicros(sec * US + usec)
  }

  /** What `gettimeofday` answers.  Its tick product is a 64-bit one. */
  function Get(reset: Time, counter: u32, rate: u32): Time
    requires rate > 0
  {
    Normalised(S32(reset.sec + counter / rate), S32(reset.usec + counter * (US / rate) % US))
  }

  datatype Zone = Zone(minutesWest: int, dst: int)

  /** The error codes of the two calls when there is no system clock. */
  datatype Status = Ok | ENOSYS | ENOTSUP

  class WallClock {
    var resetTime: Time
    var zone: Zone

    constructor ()
      ensures resetTime == Time(0, 0) && zone == Zone(0, 0)
    {
      resetTime, zone := Time(0, 0), Zone(0, 0);
    }

    method SetTimeOfDay(t: Time, tz: Zone, counter: u32, rate: u32) returns (status: Status)
      modifies this
      ensures rate == 0 ==> status == ENOSYS && unchanged(this)
      ensures rate != 0 ==> status == Ok && resetTime == Reset(t, counter, rate) && zone == tz
    {
      if rate != 0 {
        var sec := S32(t.sec - counter / rate);
        var usec := S32(t.usec - (counter * (US / rate)) % M % US);
        resetTime, zone := Time(sec, usec), tz;
        return Ok;
      }
      return ENOSYS;
    }

    method GetTimeOfDay(counter: u32, rate: u32) returns (status: Status, t: Time, tz: Zone)
      ensures rate == 0 ==> status == ENOTSUP
      ensures rate != 0 ==> status == Ok && t == Get(resetTime, counter, rate) && tz == zone
    {
      t, tz := Time(0, 0), Zone(0, 0);
      if rate == 0 {
        return ENOTSUP, t, tz;
      }
      t := Normalise(S32(resetTime.sec + counter / rate), S32(resetTime.usec + counter * (US / rate) % US));
      return Ok, t, zone;
    }
  }

  /** The two loops of `gettimeofday`: borrow while the microseconds are negative, giving up at zero,
      then carry while they are a second or more. */
  method Normalise(sec0: int, usec0: int) returns (t: Time)
    ensures t == Normalised(sec0, usec0)
  {
    var sec, usec := sec0, usec0;
    ghost var all := sec * US + usec;
    while usec < 0
      invariant sec * US + usec == all || (usec0 < 0 && all < 0 && sec == 0 && usec == 0)
      invariant usec0 < 0 ==> usec < US && (usec >= 0 && sec * US + usec == all ==> sec >= 0)
      invariant usec0 >= 0 ==> sec == sec0 && usec == usec0
      decreases -usec
    {
      if sec <= 0 {
        sec, usec := 0, 0;
        break;
      } else {
        sec := sec - 1;
        usec := usec + US;
      }
    }
    while usec >= US
      invariant usec >= 0 && (usec0 < 0 ==> usec < US && sec >= 0)
      invariant sec * US + usec == all || (usec0 < 0 && all < 0 && sec == 0 && usec == 0)
      decreases usec
    {
      sec := sec + 1;
      usec := usec - US;
    }
    return Time(sec, usec);
  }

  // ---- The promise: a set time comes back, plus the ticks elapsed ----

  /** Reducing a tick product to 32 bits before taking it modulo a second is harmless exactly if its
      high part is a multiple of 5^6. */
  lemma ReducedProductIff(x: nat)
    ensures x % M % US == x % US <==> x / M % 15625 == 0
  {
    var q, w := x / M, x % M;
    var k := w / US;
    if q % 15625 == 0 {
      var j := q / 15625;
      DivModUnique(x, US, j * 67108864 + k, w % US);
    }
    if w % US == x % US {
      var j := x / US - k;
      assert q * 67108864 == j * 15625;
      assert q == 15625 * (j * 12659 - q * 54369991);
    }
  }

  lemma Distribute(q: int, rate: int, r: int, u: int)
    ensures (q * rate + r) * u == q * (rate * u) + r * u
  {
    assert (q * rate + r) * u == (q * rate) * u + r * u;
    assert (q * rate) * u == q * (rate * u);
  }

  lemma BelowSecond(r: int, rate: int, u: int)
    requires 0 <= r < rate && rate * u == US && 0 <= u
    ensures 0 <= r * u < US
  {
    assert u != 0;
    assert (rate - r) * u == rate * u - r * u;
    MulAtLeast(rate - r, u);
    ProductNonNegative(r, u);
  }

  lemma ProductNonNegative(a: int, b: int)
    requires 0 <= a && 0 <= b
    ensures 0 <= a * b
  {
  }

  /** Ticks in microseconds, when the rate divides a second. */
  lemma TicksInMicros(n: u32, rate: u32)
    requires rate > 0 && US % rate == 0
    ensures var x := n * (US / rate);
            x >= 0 && n / rate * US + x % US == x
  {
    var u := US / rate;
    var q, r := n / rate, n % rate;
    Distribute(q, rate, r, u);
    BelowSecond(r, rate, u);
    ProductNonNegative(n, u);
    DivModUnique(n * u, US, q, r * u);
  }

  /** May the time be set, and is it still representable `elapsed` seconds later? */
  predicate Settable(t: Time, elapsed: int) {
    0 <= t.sec && 0 <= t.usec < US && t.sec + elapsed + 1 < 0x8000_0000
  }

  /** Wrapping may be postponed to the end of a sum. */
  lemma S32Sum(a: int, b: int)
    requires -0x8000_0000 <= a + b < 0x8000_0000
    ensures S32(S32(a) + b) == a + b
  {
  }

  /** What a get answers after a set, in terms of the 32-bit product the set used. */
  lemma GetAfterSet(t: Time, n0: u32, n1: u32, rate: u32)
    requires rate > 0 && n0 / rate <= n1 / rate && Settable(t, n1 / rate - n0 / rate)
    ensures Get(Reset(t, n0, rate), n1, rate)
            == Normalised(t.sec + (n1 / rate - n0 / rate),
                          t.usec - n0 * (US / rate) % M % US + n1 * (US / rate) % US)
  {
    var q0, q1, x0, x1 := n0 / rate, n1 / rate, n0 * (US / rate), n1 * (US / rate);
    S32Sum(t.sec - q0, q1);
    S32Sum(t.usec - x0 % M % US, x1 % US);
  }

  lemma QuotientMonotone(n0: int, n1: int, rate: int)
    requires 0 < rate && n0 <= n1
    ensures n0 / rate <= n1 / rate
  {
    var q0, q1 := n0 / rate, n1 / rate;
    assert n0 == q0 * rate + n0 % rate && n1 == q1 * rate + n1 % rate;
    assert (q0 - q1) * rate == q0 * rate - q1 * rate;
    if q0 > q1 {
      MulAtLeast(q0 - q1, rate);
    }
  }

  /** The raw sum of a get, before normalisation, is the promised time but for the error in the set's
      product. */
  lemma RawSum(t: Time, n0: u32, n1: u32, rate: u32)
    requires rate > 0 && US % rate == 0
    ensures var (x0, x1) := (n0 * (US / rate), n1 * (US / rate));
            (t.sec + (n1 / rate - n0 / rate)) * US + (t.usec - x0 % M % US + x1 % US)
            == Micros(t) + (n1 - n0) * (US / rate) + (x0 % US - x0 % M % US)
  {
    TicksInMicros(n0, rate);
    TicksInMicros(n1, rate);
    var u := US / rate;
    assert (n1 - n0) * u == n1 * u - n0 * u;
  }

  /** A raw sum that is off by less than a second normalises to the promised time only if it is not
      off at all, or if the time promised is zero and the clamp to zero hides the error. */
  lemma NormalisedIff(sec: int, usec: int, promised: int, error: int)
    requires sec * US + usec == promised + error && -US < error < US
    requires 0 <= promised && (error < 0 ==> usec < 0 || 0 <= sec)
    ensures Normalised(sec, usec) == FromMicros(promised) <==> error == 0 || (promised == 0 && error < 0)
  {
  }

  /** Does a get answer what is promised, after a set whose tick product was x?  It does if the high part
      of the product is a multiple of 5^6; and otherwise only if the time zero is promised and the
      error negative. */
  predicate Kept(promised: int, x: int) {
    x / M % 15625 == 0 || (promised == 0 && x % US < x % M % US)
  }

  /** Setting the clock and reading it at the same tick gives back the time set, at any rate, if and
      only if the high part of the tick product is a multiple of 5^6, which it is (zero) for products
      below 2^32, or the time is zero and the error hidden. */
  lemma ImmediateIff(t: Time, n: u32, rate: u32)
    requires rate > 0 && Settable(t, 0)
    ensures Get(Reset(t, n, rate), n, rate) == t <==> Kept(Micros(t), n * (US / rate))
  {
    var u := US / rate;
    ProductNonNegative(n, u);
    GetAfterSet(t, n, n, rate);
    ReducedProductIff(n * u);
    NormalisedIff(t.sec, t.usec - n * u % M % US + n * u % US, Micros(t), n * u % US - n * u % M % US);
    assert FromMicros(Micros(t)) == t;
  }

  /** An input that fails: at 1000 ticks a second, about 72 minutes after reset. */
  lemma ImmediateFails(n: u32, rate: u32)
    requires n == 4294968 && rate == 1000
    ensures Get(Reset(Time(1, 0), n, rate), n, rate) != Time(1, 0)
  {
    ImmediateIff(Time(1, 0), n, rate);
    DivModUnique(n * 1000, M, 1, n * 1000 - M);
  }

  /** The clock's promise at later ticks, for rates that divide a second: the time set plus the ticks
      elapsed.  It is kept if and only if the high part of the tick product at the set is a multiple
      of 5^6, or nothing at all is promised and the error hidden. */
  lemma ElapsedIff(t: Time, n0: u32, n1: u32, rate: u32)
    requires rate > 0 && US % rate == 0 && n0 <= n1 && Settable(t, n1 / rate - n0 / rate)
    ensures var promised := Micros(t) + (n1 - n0) * (US / rate);
            Get(Reset(t, n0, rate), n1, rate) == FromMicros(promised) <==> Kept(promised, n0 * (US / rate))
  {
    QuotientMonotone(n0, n1, rate);
    GetAfterSet(t, n0, n1, rate);
    RawSum(t, n0, n1, rate);
    var u := US / rate;
    ProductNonNegative(n0, u);
    ProductNonNegative(n1 - n0, u);
    ReducedProductIff(n0 * u);
    NormalisedIff(t.sec + (n1 / rate - n0 / rate), t.usec - n0 * u % M % US + n1 * u % US,
                  Micros(t) + (n1 - n0) * u, n0 * u % US - n0 * u % M % US);
  }

  /** In particular it is kept if the product fits 32 bits.  The sum that a get forms is then the promised
      time already, before any borrowing or carrying, and not below zero: the branch that clamps to
      zero is not taken. */
  lemma ElapsedExact(t: Time, n0: u32, n1: u32, rate: u32)
    requires rate > 0 && US % rate == 0 && n0 <= n1 && Settable(t, n1 / rate - n0 / rate)
    requires n0 * (US / rate) < M
    ensures Get(Reset(t, n0, rate), n1, rate) == FromMicros(Micros(t) + (n1 - n0) * (US / rate))
    ensures var reset := Reset(t, n0, rate);
            Micros(t) + (n1 - n0) * (US / rate)
            == S32(reset.sec + n1 / rate) * US + S32(reset.usec + n1 * (US / rate) % US) >= 0
  {
    var u := US / rate;
    ProductNonNegative(n0, u);
    ProductNonNegative(n1 - n0, u);
    DivModUnique(n0 * u, M, 0, n0 * u);
    ElapsedIff(t, n0, n1, rate);
    QuotientMonotone(n0, n1, rate);
    RawSum(t, n0, n1, rate);
    S32Sum(t.sec - n0 / rate, n1 / rate);
    S32Sum(t.usec - n0 * u % M % US, n1 * u % US);
  }

  /** Between two gets the clock then advances by exactly the ticks between them: it never goes back. */
  lemma ElapsedDifference(t: Time, n0: u32, n1: u32, n2: u32, rate: u32)
    requires rate > 0 && US % rate == 0 && n0 <= n1 <= n2 && Settable(t, n2 / rate - n0 / rate)
    requires n0 * (US / rate) < M
    ensures var reset := Reset(t, n0, rate);
            Micros(Get(reset, n2, rate)) - Micros(Get(reset, n1, rate)) == (n2 - n1) * (US / rate) >= 0
  {
    QuotientMonotone(n1, n2, rate);
    ElapsedExact(t, n0, n1, rate);
    ElapsedExact(t, n0, n2, rate);
    var u := US / rate;
    assert (n2 - n0) * u - (n1 - n0) * u == (n2 - n1) * u;
    ProductNonNegative(n2 - n1, u);
  }
}
