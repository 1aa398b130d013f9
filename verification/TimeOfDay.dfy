/** Time of day over the tick counter: when setting and getting the time are inverse, and when the time
    advances exactly with the ticks. */
module TimeOfDay {
  import opened Words

  const ALT_US := 1_000_000
  const ENOSYS := 88
  const ENOTSUP := 134

  datatype TimeVal = TimeVal(sec: int, usec: int)
  datatype TimeZone = TimeZone(minutesWest: int, dstTime: int)

  /** The time as one number of microseconds. */
  function Micros(t: TimeVal): int {
    t.sec * ALT_US + t.usec
  }

  predicate Normal(t: TimeVal) {
    0 <= t.usec < ALT_US
  }

  // ---------------------------------------------------------------- the services on values

  /** Microseconds per tick, as the code computes it. */
  function PerTick(rate: u32): nat
    requires rate > 0
  {
    ALT_US / rate
  }

  /** The sub-second part alt_gettod adds: a 64-bit product. */
  function TickMicros(n: u32, rate: u32): nat
    requires rate > 0
  {
    n * PerTick(rate) % ALT_US
  }

  /** The sub-second part alt_settod subtracts: a 32-bit product. */
  function WrappedTickMicros(n: u32, rate: u32): nat
    requires rate > 0
  {
    n * PerTick(rate) % W32 % ALT_US
  }

  /** The two normalising loops of alt_gettod: borrow seconds, but not below zero, then carry. */
  function Borrow(t: TimeVal): TimeVal
    decreases if t.usec < 0 then -t.usec else 0
  {
    if t.usec >= 0 then t
    else if t.sec <= 0 then TimeVal(0, 0)
    else Borrow(TimeVal(t.sec - 1, t.usec + ALT_US))
  }

  function Carry(t: TimeVal): TimeVal
    decreases if t.usec > 0 then t.usec else 0
  {
    if t.usec < ALT_US then t else Carry(TimeVal(t.sec + 1, t.usec - ALT_US))
  }

  function GetSpec(reset: TimeVal, n: u32, rate: u32): TimeVal
    requires rate > 0
  {
    Carry(Borrow(TimeVal(reset.sec + n / rate, reset.usec + TickMicros(n, rate))))
  }

  function SetSpec(t: TimeVal, n: u32, rate: u32): TimeVal
    requires rate > 0
  {
    TimeVal(t.sec - n / rate, t.usec - WrappedTickMicros(n, rate))
  }

  class Clock {
    var nticks: u32           // _alt_nticks
    var rate: u32             // _alt_tick_rate
    var resetTime: TimeVal    // alt_resettime
    var zone: TimeZone        // alt_timezone
    var errno: int

    constructor (rate: u32)
      ensures nticks == 0 && this.rate == rate && resetTime == TimeVal(0, 0) && zone == TimeZone(0, 0)
    {
      nticks, this.rate, errno := 0, rate, 0;
      resetTime, zone := TimeVal(0, 0), TimeZone(0, 0);
    }

    /** ALT_GETTIMEOFDAY; the outcome is None when there is no system clock and nothing is stored. */
    method GetTimeOfDay() returns (rc: int, now: Option<(TimeVal, TimeZone)>)
      ensures rate == 0 ==> rc == -ENOTSUP && now == None
      ensures rate != 0 ==> rc == 0 && now == Some((GetSpec(resetTime, nticks, rate), zone))
    {
      if rate == 0 {
        return -ENOTSUP, None;
      }
      var sec := resetTime.sec + nticks / rate;
      var usec := resetTime.usec + nticks * (ALT_US / rate) % ALT_US;
      ghost var start := TimeVal(sec, usec);
      while usec < 0
        invariant Borrow(start) == Borrow(TimeVal(sec, usec))
        decreases if usec < 0 then -usec else 0
      {
        if sec <= 0 {
          sec, usec := 0, 0;
          break;
        } else {
          sec, usec := sec - 1, usec + ALT_US;
        }
      }
      ghost var borrowed := TimeVal(sec, usec);
      assert Borrow(start) == borrowed;
      while usec >= ALT_US
        invariant Carry(borrowed) == Carry(TimeVal(sec, usec))
      {
        sec, usec := sec + 1, usec - ALT_US;
      }
      return 0, Some((TimeVal(sec, usec), zone));
    }

    /** ALT_SETTIMEOFDAY. */
    method SetTimeOfDay(t: TimeVal, tz: TimeZone) returns (rc: int)
      modifies this`resetTime, this`zone, this`errno
      ensures rate == 0 ==> rc == -1 && errno == ENOSYS && resetTime == old(resetTime) && zone == old(zone)
      ensures rate != 0 ==> rc == 0 && errno == old(errno) && resetTime == SetSpec(t, nticks, rate) && zone == tz
    {
      if rate != 0 {
        resetTime := TimeVal(t.sec - nticks / rate, t.usec - nticks * (ALT_US / rate) % W32 % ALT_US);
        zone := tz;
        return 0;
      }
      errno := ENOSYS;
      return -1;
    }
  }

  // ---------------------------------------------------------------- normalisation

  lemma {:induction false} BorrowKeeps(t: TimeVal)
    ensures Micros(t) >= 0 ==> Micros(Borrow(t)) == Micros(t) && Borrow(t).usec >= 0
    ensures t.usec < 0 && Micros(t) < 0 ==> Borrow(t) == TimeVal(0, 0)
    decreases if t.usec < 0 then -t.usec else 0
  {
    if t.usec < 0 && t.sec > 0 {
      BorrowKeeps(TimeVal(t.sec - 1, t.usec + ALT_US));
    }
  }

  lemma {:induction false} CarryKeeps(t: TimeVal)
    requires t.usec >= 0
    ensures Micros(Carry(t)) == Micros(t) && Normal(Carry(t))
    decreases t.usec
  {
    if t.usec >= ALT_US {
      CarryKeeps(TimeVal(t.sec + 1, t.usec - ALT_US));
    }
  }

  /** Normal times are told apart by their microseconds. */
  lemma NormalUnique(a: TimeVal, b: TimeVal)
    requires Normal(a) && Normal(b) && Micros(a) == Micros(b)
    ensures a == b
  {
  }

  /** What is shown, for every stored time: the time computed, in normal form, unless both it and its
      microsecond part are below zero; then zero is shown. So a time before the epoch is shown as it is when
      no second has to be borrowed for it. */
  lemma GetShows(reset: TimeVal, n: u32, rate: u32)
    requires rate > 0
    ensures var raw := Micros(reset) + Elapsed(n, rate);
            var shown := GetSpec(reset, n, rate);
            if raw >= 0 || reset.usec + TickMicros(n, rate) >= 0 then Micros(shown) == raw && Normal(shown)
            else shown == TimeVal(0, 0)
  {
    var t := TimeVal(reset.sec + n / rate, reset.usec + TickMicros(n, rate));
    assert Micros(t) == Micros(reset) + Elapsed(n, rate);
    BorrowKeeps(t);
    if Micros(t) >= 0 || t.usec >= 0 {
      CarryKeeps(Borrow(t));
    }
  }

  // ---------------------------------------------------------------- exact advance

  /** The microseconds that "n" ticks count for. */
  function Elapsed(n: u32, rate: u32): nat
    requires rate > 0
  {
    n / rate * ALT_US + TickMicros(n, rate)
  }

  /** Ticks count exactly, each for the same number of microseconds, if and only if the tick rate divides a
      million: at any other rate the seconds and the microseconds drift apart after one second's ticks. */
  lemma ElapsedExactIff(rate: u32)
    requires rate > 0
    ensures (forall n: u32 :: Elapsed(n, rate) == n * PerTick(rate)) <==> ALT_US % rate == 0
  {
    var q := PerTick(rate);
    assert ALT_US == q * rate + ALT_US % rate;
    if ALT_US % rate == 0 {
      forall n: u32
        ensures Elapsed(n, rate) == n * q
      {
        ElapsedExact(n, rate, q);
      }
    } else {
      DivUnique(rate, rate, 1, 0);
      assert rate * q < ALT_US;
      assert Elapsed(rate, rate) == ALT_US + rate * q;
    }
  }

  lemma ElapsedExact(n: u32, rate: u32, q: nat)
    requires rate > 0 && q * rate == ALT_US && q == PerTick(rate)
    ensures Elapsed(n, rate) == n * q
  {
    var a, b := n / rate, n % rate;
    assert n == a * rate + b;
    assert n * q == a * ALT_US + b * q by {
      assert (a * rate) * q == a * (q * rate);
    }
    MulLe(b + 1, rate, q);
    DivUnique(n * q, ALT_US, a, b * q);
  }

  // ---------------------------------------------------------------- the 32-bit product of alt_settod

  /** The product of alt_settod loses nothing that matters. */
  predicate SetExact(n: u32, rate: u32)
    requires rate > 0
  {
    WrappedTickMicros(n, rate) == TickMicros(n, rate)
  }

  /** Dropping the multiples of 2^32 changes the sub-second part unless their number is a multiple of 15625:
      2^32 and 10^6 share the factor 2^6 only. */
  lemma WrapKeepsIff(x: nat)
    ensures x % W32 % ALT_US == x % ALT_US <==> x / W32 % 15625 == 0
  {
    var k, r := x / W32, x % W32;
    assert x == k * W32 + r;
    var j, c := k / 15625, k % 15625;
    assert k == 15625 * j + c;
    assert k * W32 == (j * 67108864) * ALT_US + c * W32;
    SumMod(j * 67108864, c * W32 + r);
    if c != 0 {
      MultipleOf(c);
      ResidueMoves(c * W32, r);
    }
  }

  lemma SumMod(m: nat, y: nat)
    ensures (m * ALT_US + y) % ALT_US == y % ALT_US
  {
    DivUnique(m * ALT_US + y, ALT_US, m + y / ALT_US, y % ALT_US);
  }

  lemma ResidueMoves(a: nat, r: nat)
    requires a % ALT_US != 0
    ensures (a + r) % ALT_US != r % ALT_US
  {
  }

  /** 2^26 has an inverse modulo 15625: 67108864 * 12659 == 15625 * 54369991 + 1. */
  lemma MultipleOf(c: nat)
    ensures c * W32 % ALT_US == 0 ==> c % 15625 == 0
  {
    if c * W32 % ALT_US == 0 {
      var m := c * W32 / ALT_US;
      var z: int := m * 12659 - c * 54369991;
      assert c * 67108864 == m * 15625;
      assert c == 15625 * z;
    }
  }

  lemma SmallQuotient(n: u32, rate: u32)
    requires rate >= 64
    ensures n * PerTick(rate) / W32 < 15625
  {
    var q := PerTick(rate);
    assert q <= 15625 by {
      assert q * rate <= ALT_US;
      MulLe(64, rate, q);
    }
    hide PerTick;
    MulLe(q, 15625, n);
    assert n * q < 15625 * W32;
  }

  lemma QuotientZero(x: nat)
    requires x / W32 < 15625
    ensures x / W32 % 15625 == 0 <==> x < W32
  {
  }

  /** From 64 ticks a second on, the setting is exact if and only if the product fits 32 bits. */
  lemma SetExactIff(n: u32, rate: u32)
    requires rate > 0
    ensures SetExact(n, rate) <==> n * PerTick(rate) / W32 % 15625 == 0
    ensures rate >= 64 ==> (SetExact(n, rate) <==> n * PerTick(rate) < W32)
  {
    hide PerTick;
    WrapKeepsIff(n * PerTick(rate));
    if rate >= 64 {
      SmallQuotient(n, rate);
      QuotientZero(n * PerTick(rate));
    }
  }

  // ---------------------------------------------------------------- set, then get

  /** What a get at tick "m" shows after a set to "t" at tick "n": the set time plus the ticks' worth, off by
      the error of the setting's product. */
  lemma GetAfterSet(t: TimeVal, n: u32, m: u32, rate: u32)
    requires rate > 0 && n <= m && ALT_US % rate == 0
    ensures var shown := GetSpec(SetSpec(t, n, rate), m, rate);
            var raw := Micros(t) + (m - n) * PerTick(rate) + TickMicros(n, rate) - WrappedTickMicros(n, rate);
            if raw >= 0 || t.usec - WrappedTickMicros(n, rate) + TickMicros(m, rate) >= 0
            then Micros(shown) == raw && Normal(shown)
            else shown == TimeVal(0, 0)
  {
    ElapsedExactIff(rate);
    var q := PerTick(rate);
    assert Elapsed(n, rate) == n * q && Elapsed(m, rate) == m * q;
    MulLe(n, m, q);
    assert (m - n) * q == m * q - n * q;
    var reset := SetSpec(t, n, rate);
    assert Micros(reset) + Elapsed(m, rate)
        == Micros(t) + (m - n) * q + TickMicros(n, rate) - WrappedTickMicros(n, rate);
    GetShows(reset, m, rate);
  }

  lemma GetAfterExactSet(t: TimeVal, n: u32, m: u32, rate: u32)
    requires rate > 0 && ALT_US % rate == 0 && Normal(t) && t.sec >= 0 && n <= m && SetExact(n, rate)
    ensures var shown := GetSpec(SetSpec(t, n, rate), m, rate);
            Normal(shown) && Micros(shown) == Micros(t) + (m - n) * PerTick(rate)
  {
    hide GetSpec, SetSpec, PerTick, TickMicros, WrappedTickMicros;
    GetAfterSet(t, n, m, rate);
    MulLe(0, m - n, PerTick(rate));
  }

  lemma InexactSetShows(n: u32, rate: u32)
    requires rate > 0 && ALT_US % rate == 0 && !SetExact(n, rate)
    ensures Micros(GetSpec(SetSpec(TimeVal(1, 0), n, rate), n, rate)) != Micros(TimeVal(1, 0))
  {
    GetAfterSet(TimeVal(1, 0), n, n, rate);
  }

  /** Set and get are inverse, and the time then advances by exactly one tick's worth each tick, for every
      time from the epoch on and until the counter wraps, if and only if the setting's product is exact. */
  lemma SetGetExactIff(n: u32, rate: u32)
    requires rate > 0 && ALT_US % rate == 0
    ensures (forall t: TimeVal, m: u32 :: Normal(t) && t.sec >= 0 && n <= m ==>
               var shown := GetSpec(SetSpec(t, n, rate), m, rate);
               Normal(shown) && Micros(shown) == Micros(t) + (m - n) * PerTick(rate))
            <==> SetExact(n, rate)
  {
    hide GetSpec, SetSpec, PerTick, SetExact;
    if SetExact(n, rate) {
      forall t: TimeVal, m: u32 | Normal(t) && t.sec >= 0 && n <= m
        ensures var shown := GetSpec(SetSpec(t, n, rate), m, rate);
                Normal(shown) && Micros(shown) == Micros(t) + (m - n) * PerTick(rate)
      {
        GetAfterExactSet(t, n, m, rate);
      }
    } else {
      InexactSetShows(n, rate);
    }
  }

  /** The round trip itself: a get at the tick of an exact set returns the very time. */
  lemma RoundTrip(t: TimeVal, n: u32, rate: u32)
    requires rate > 0 && Normal(t) && t.sec >= 0 && SetExact(n, rate)
    ensures GetSpec(SetSpec(t, n, rate), n, rate) == t
  {
    var reset := SetSpec(t, n, rate);
    assert Micros(reset) + Elapsed(n, rate) == Micros(t);
    GetShows(reset, n, rate);
    NormalUnique(GetSpec(reset, n, rate), t);
  }

  /** A setting that is not exact: after 72 minutes at 1000 ticks a second the 32-bit product has wrapped once,
      and a get at the very tick of the set is off by 0.967296 seconds. */
  lemma SetIsOff(t: TimeVal)
    requires Normal(t) && t.sec >= 1
    ensures var n, rate := 4_294_968, 1000;
            && !SetExact(n, rate)
            && Micros(GetSpec(SetSpec(t, n, rate), n, rate)) == Micros(t) + 967_296
  {
    var n, rate := 4_294_968, 1000;
    assert TickMicros(n, rate) == 968_000 && WrappedTickMicros(n, rate) == 704;
    GetAfterSet(t, n, n, rate);
  }
}
