/** settimeofday and gettimeofday on the tick counter. */
module TimeOfDay {
  import opened Words
  import opened Errno
  import opened Numerals

  const US := 1000000

  datatype TimeVal = TimeVal(sec: int, usec: int)
  {
    predicate Normalised() { 0 <= usec < US }

    // The time in microseconds.
    function Instant(): int { sec * US + usec }
  }

  datatype Zone = Zone(minuteswest: int, dsttime: int)

  // ---------------------------------------------------------------- what the two calls compute

  // The reset time that settimeofday stores: the ticks so far are taken off, multiplied in 32 bits.
  function ResetTime(t: TimeVal, nticks: Word, rate: Word): TimeVal
    requires rate > 0
  {
    TimeVal(Signed32(t.sec - nticks / rate), Signed32(t.usec - nticks * (US / rate) % WRAP % US))
  }

  // What gettimeofday adds up: the ticks so far are put on, multiplied in 64 bits.
  function Sum(reset: TimeVal, nticks: Word, rate: Word): TimeVal
    requires rate > 0
  {
    TimeVal(Signed32(reset.sec + nticks / rate), Signed32(reset.usec + nticks * (US / rate) % US))
  }

  predicate IsSigned(x: int) { -SIGN_BIT <= x < SIGN_BIT }

  // The same instant with microseconds below a second, the seconds cut to a signed word; or zero for microseconds that would
  // take it below zero.
  function Normal(t: TimeVal): (n: TimeVal)
    ensures n.Normalised() && IsSigned(n.sec)
    ensures (t.usec >= 0 || t.Instant() >= 0) && IsSigned(t.Instant() / US) ==> n.Instant() == t.Instant()
  {
    if t.usec >= 0 || t.Instant() >= 0 then TimeVal(Signed32(t.Instant() / US), t.Instant() % US) else TimeVal(0, 0)
  }

  function TimeAt(reset: TimeVal, nticks: Word, rate: Word): TimeVal
    requires rate > 0
  {
    Normal(Sum(reset, nticks, rate))
  }

  // Carrying all of t's microseconds gives n.
  ghost predicate Carries(t: TimeVal, n: TimeVal) {
    Signed32(t.sec + t.usec / US) == n.sec && t.usec % US == n.usec
  }

  lemma CarryOne(t: TimeVal, n: TimeVal)
    requires Carries(t, n) && US <= t.usec
    ensures Carries(TimeVal(Signed32(t.sec + 1), t.usec - US), n)
  {
    var u := t.usec - US;
    assert u / US == t.usec / US - 1 && u % US == t.usec % US;
    Signed32Adds(t.sec + 1, u / US);
  }

  lemma Signed32Adds(x: int, c: int)
    ensures Signed32(Signed32(x) + c) == Signed32(x + c)
  {
    var k := (x + SIGN_BIT) / WRAP;
    assert Signed32(x) == x - k * WRAP;
    SameSigned(x + c, k);
  }

  lemma SameSigned(y: int, k: int)
    ensures Signed32(y - k * WRAP) == Signed32(y)
  {
    assert (y + SIGN_BIT - k * WRAP) % WRAP == (y + SIGN_BIT) % WRAP;
  }

  // What the first loop leaves.
  lemma Carried(t: TimeVal, sum: TimeVal)
    requires t.usec >= 0
    requires (t.Instant() == sum.Instant() && (sum.usec >= 0 || sum.Instant() >= 0)) || (t == Normal(sum) && t == TimeVal(0, 0))
    ensures Carries(t, Normal(sum))
  {
    assert t.Instant() / US == t.sec + t.usec / US && t.Instant() % US == t.usec % US;
  }

  lemma NormalUnique(a: TimeVal, b: TimeVal)
    requires a.Normalised() && b.Normalised() && a.Instant() == b.Instant()
    ensures a == b
  {
  }

  // ---------------------------------------------------------------- the calls

  class Clock {
    var nticks: Word         // _alt_nticks
    var rate: Word           // _alt_tick_rate; 0 while there is no system clock
    var resetTime: TimeVal   // alt_resettime
    var zone: Zone           // alt_timezone

    constructor (rate0: Word)
      ensures nticks == 0 && rate == rate0 && resetTime == TimeVal(0, 0) && zone == Zone(0, 0)
    {
      nticks, rate, resetTime, zone := 0, rate0, TimeVal(0, 0), Zone(0, 0);
    }

    method SetTimeOfDay(t: TimeVal, tz: Zone) returns (rc: int, errno: int)
      modifies this`resetTime, this`zone
      ensures rate == 0 ==> rc == -1 && errno == ENOSYS && resetTime == old(resetTime) && zone == old(zone)
      ensures rate > 0 ==> rc == 0 && resetTime == ResetTime(t, nticks, rate) && zone == tz
    {
      errno := 0;
      if rate > 0 {
        resetTime := TimeVal(Signed32(t.sec - nticks / rate), Signed32(t.usec - nticks * (US / rate) % WRAP % US));
        zone := tz;
        return 0, errno;
      }
      return -1, ENOSYS;
    }

    // Carries microseconds into seconds, which wrap like any signed word; or below zero takes the time to be zero.
    method Normalise(sum: TimeVal) returns (t: TimeVal)
      requires IsSigned(sum.sec)
      ensures t == Normal(sum) && 0 <= t.usec < US
      ensures sum.usec < 0 && sum.Instant() < 0 ==> t == TimeVal(0, 0)
    {
      t := sum;
      while t.usec < 0
        invariant t.Instant() == sum.Instant() && (t == sum || (t.usec < US && t.sec >= 0 && sum.usec < 0))
        invariant IsSigned(t.sec)
        decreases -t.usec
      {
        if t.sec <= 0 {
          t := TimeVal(0, 0);
          break;
        }
        t := TimeVal(t.sec - 1, t.usec + US);
      }
      Carried(t, sum);
      while t.usec >= US
        invariant 0 <= t.usec && IsSigned(t.sec) && Carries(t, Normal(sum))
        decreases t.usec
      {
        CarryOne(t, Normal(sum));
        t := TimeVal(Signed32(t.sec + 1), t.usec - US);
      }
      SignedFits(t.sec);
    }

    method GetTimeOfDay(wantZone: bool) returns (rc: int, t: TimeVal, tz: Zone)
      ensures rate == 0 ==> rc == -ENOTSUP
      ensures rate > 0 ==> rc == 0 && t == TimeAt(resetTime, nticks, rate) && (wantZone ==> tz == zone)
    {
      t, tz := TimeVal(0, 0), Zone(0, 0);
      if rate > 0 {
        var sum := TimeVal(Signed32(resetTime.sec + nticks / rate), Signed32(resetTime.usec + nticks * (US / rate) % US));
        t := Normalise(sum);
        if wantZone {
          tz := zone;
        }
        return 0, t, tz;
      }
      return -ENOTSUP, t, tz;
    }
  }

  // ---------------------------------------------------------------- the round trip

  // The microseconds that n ticks add, in whole seconds and a rest below a second.
  function Elapsed(n: Word, rate: Word): nat
    requires rate > 0
  {
    Seconds(n, rate) * US + Rest(n, rate)
  }

  function Seconds(n: Word, rate: Word): (q: Word)
    requires rate > 0
    ensures q == n / rate
  {
    DivAtMost(n, rate);
    n / rate
  }

  lemma DivAtMost(n: nat, d: nat)
    requires 0 < d
    ensures 0 <= n / d <= n
  {
    assert n == n / d * d + n % d;
    MulSigns(n / d, d - 1);
    MulSigns(n / d, d);
    Distribute(d, 1, n / d);
    MulAssoc(n / d, d - 1, 1);
    MulAssoc(n / d, d, 1);
  }

  function Rest(n: Word, rate: Word): (r: nat)
    requires rate > 0
    ensures r < US
  {
    MulSigns(n, US / rate);
    n * (US / rate) % US
  }

  // The rest as settimeofday computes it: the product is cut to 32 bits.
  function CutRest(n: Word, rate: Word): (r: nat)
    requires rate > 0
    ensures r < US
  {
    n * (US / rate) % WRAP % US
  }

  // How often the 32-bit product has wrapped.
  function Wraps(n: Word, rate: Word): nat
    requires rate > 0
  {
    MulSigns(n, US / rate);
    n * (US / rate) / WRAP
  }

  // The cut changes the rest unless the product wrapped a multiple of 15625 times.
  lemma CutRestIff(n: Word, rate: Word)
    requires rate > 0
    ensures CutRest(n, rate) == Rest(n, rate) <==> Wraps(n, rate) % 15625 == 0
  {
    var x := n * (US / rate);
    MulSigns(n, US / rate);
    var w, c := x / WRAP, x % WRAP;
    assert x == w * WRAP + c;
    CutModulo(w, c);
  }

  // 2^32 is 64 * 67108864 and 10^6 is 64 * 15625; the multiplier below inverts 67108864 modulo 15625.
  lemma CutModulo(w: nat, c: nat)
    ensures (w * WRAP + c) % US == c % US <==> w % 15625 == 0
  {
    var x := w * WRAP + c;
    var k := x / US - c / US;
    if x % US == c % US {
      assert w * 67108864 == 15625 * k;
      Multiple(w, 12659 * k - 54369991 * w, 15625);
    }
    if w % 15625 == 0 {
      var m := w / 15625;
      assert x == c + US * (67108864 * m);
      SameRest(c, 67108864 * m);
    }
  }

  lemma Multiple(w: nat, k: int, d: nat)
    requires d == 15625 && w == d * k
    ensures w % d == 0
  {
  }

  lemma SameRest(c: nat, k: nat)
    ensures (c + US * k) % US == c % US
  {
  }

  lemma SignedFits(x: int)
    requires -SIGN_BIT <= x < SIGN_BIT
    ensures Signed32(x) == x
  {
  }

  lemma SignedAdd(a: int, b: int, c: int)
    ensures Signed32(Signed32(a - b) + c) == Signed32(a - b + c)
  {
    Signed32Adds(a - b, c);
  }

  // What gettimeofday adds up n1 ticks after reset, when the time was set to t after n0: only the cut can spoil it.
  lemma SumAfterSet(t: TimeVal, n0: Word, n1: Word, rate: Word)
    requires rate > 0 && t.Normalised() && 0 <= t.sec
    ensures Sum(ResetTime(t, n0, rate), n1, rate)
         == TimeVal(Signed32(t.sec + Seconds(n1, rate) - Seconds(n0, rate)),
                    t.usec + Rest(n1, rate) - CutRest(n0, rate))
  {
    var c0, r1, q0, q1 := CutRest(n0, rate), Rest(n1, rate), Seconds(n0, rate), Seconds(n1, rate);
    SignedAdd(t.sec, q0, q1);
    SignedAdd(t.usec, c0, r1);
    SignedFits(t.usec - c0 + r1);
  }

  /** A clock set to t after n0 ticks shows, n1 ticks after reset, t and what elapsed in between, if and only if the 32-bit
      product wrapped a multiple of 15625 times (above all, did not wrap), and the seconds of the time shown, and those added
      up before the carry, fit a signed word. */
  lemma GetAfterSetIff(t: TimeVal, n0: Word, n1: Word, rate: Word)
    requires rate > 0 && t.Normalised() && 0 <= t.sec < SIGN_BIT
    requires t.Instant() + Elapsed(n1, rate) - Elapsed(n0, rate) > 0
    ensures var due := t.Instant() + Elapsed(n1, rate) - Elapsed(n0, rate);
      TimeAt(ResetTime(t, n0, rate), n1, rate).Instant() == due
      <==> Wraps(n0, rate) % 15625 == 0 && due < SIGN_BIT * US
           && t.sec + Seconds(n1, rate) - Seconds(n0, rate) < SIGN_BIT
  {
    hide Seconds, Rest, CutRest, Wraps, Sum, ResetTime, Normal, Signed32;
    SumAfterSet(t, n0, n1, rate);
    CutRestIff(n0, rate);
    var c0, r0, r1 := CutRest(n0, rate), Rest(n0, rate), Rest(n1, rate);
    SumShows(t.sec + Seconds(n1, rate) - Seconds(n0, rate), t.usec + r1 - c0, r0 as int - c0);
  }

  // Seconds and microseconds added up, off by d, that should make due.
  lemma SumShows(sec: int, usec: int, d: int)
    requires -US < d < US && -US < usec < 2 * US && -US < usec - d < 2 * US && sec < SIGN_BIT + WRAP
    requires var due := sec * US + usec - d; due > 0
    ensures var due := sec * US + usec - d;
      Normal(TimeVal(Signed32(sec), usec)).Instant() == due <==> d == 0 && due < SIGN_BIT * US && sec < SIGN_BIT
  {
    var due := sec * US + usec - d;
    assert -2 <= sec;
    if sec < SIGN_BIT { SignedFits(sec); } else { SignedHigh(sec); }
  }

  lemma SignedHigh(x: int)
    requires SIGN_BIT <= x < SIGN_BIT + WRAP
    ensures Signed32(x) == x - WRAP
  {
  }

  /** About 72 minutes after reset at 1000 ticks a second the product has wrapped once, and settimeofday is off. */
  lemma SetIsOff()
    ensures Wraps(4294968, 1000) == 1
    ensures TimeAt(ResetTime(TimeVal(5000, 0), 4294968, 1000), 4294968, 1000).Instant() != TimeVal(5000, 0).Instant()
  {
    assert Wraps(4294968, 1000) == 1;
    GetAfterSetIff(TimeVal(5000, 0), 4294968, 4294968, 1000);
  }

  /** Setting the time and asking at once gives back what was set. */
  lemma SetThenGet(t: TimeVal, n: Word, rate: Word)
    requires rate > 0 && t.Normalised() && 0 <= t.sec < SIGN_BIT && Wraps(n, rate) == 0
    ensures TimeAt(ResetTime(t, n, rate), n, rate) == t
  {
    SumAfterSet(t, n, n, rate);
    CutRestIff(n, rate);
    SignedFits(t.sec);
    hide Seconds, Rest, CutRest, Wraps, Sum, ResetTime;
    NormalUnique(Normal(t), t);
  }

  // ---------------------------------------------------------------- what elapses

  // With a rate that divides the microseconds of a second, what elapses is exact.
  lemma ElapsedExact(n: Word, rate: Word)
    requires rate > 0 && US % rate == 0
    ensures Elapsed(n, rate) == n * (US / rate)
  {
    var us := US / rate;
    var q, r := Seconds(n, rate), n % rate;
    assert us * rate == US;
    MulSigns(us, rate);
    assert n == q * rate + r;
    Distribute(q * rate, r, us);
    MulAssoc(q, rate, us);
    assert n * us == q * US + r * us;
    Distribute(rate, r, us);
    MulSigns(rate - r, us);
    MulSigns(r, us);
    DivUnique(n * us, US, q, r * us);
  }

  lemma SecondsBetween(n: nat, k: nat, d: nat)
    requires 0 < d
    ensures n / d <= (n + k) / d <= n / d + k / d + 1
  {
    var a, r, b, s := n / d, n % d, k / d, k % d;
    DivAtMost(n, d);
    DivAtMost(k, d);
    assert n == a * d + r;
    assert k == b * d + s;
    SumDivides(a, r, b, s, d);
  }

  lemma SumDivides(a: nat, r: nat, b: nat, s: nat, d: nat)
    requires r < d && s < d
    ensures a <= (a * d + r + (b * d + s)) / d <= a + b + 1
  {
    Distribute(a, b, d);
    Distribute(a + b, 1, d);
    MulSigns(a + b, d);
    MulSigns(a + b + 1, d);
    var x := a * d + r + (b * d + s);
    if r + s < d { DivUnique(x, d, a + b, r + s); } else { DivUnique(x, d, a + b + 1, r + s - d); }
  }

  /** k ticks after the time was set to t, the clock shows exactly t and k/rate seconds, as long as neither the counter nor
      the product wraps. */
  lemma RoundTrip(t: TimeVal, n: Word, k: nat, rate: Word)
    requires rate > 0 && US % rate == 0 && n + k < WRAP && Wraps(n, rate) == 0
    requires t.Normalised() && 0 <= t.sec && t.sec + k / rate + 1 < SIGN_BIT
    ensures TimeAt(ResetTime(t, n, rate), n + k, rate).Instant() == t.Instant() + k * (US / rate)
  {
    var us := US / rate;
    SecondsBetween(n, k, rate);
    ElapsedExact(n, rate);
    ElapsedExact(n + k, rate);
    Distribute(n, k, us);
    MulSigns(k, us);
    TicksWithin(k, rate);
    hide Elapsed, Seconds, TimeAt, ResetTime, Wraps;
    if k == 0 { SetThenGet(t, n, rate); } else { AddedAfterSet(t, n, n + k, rate); }
  }

  // k ticks take at most a second more than the whole seconds they count.
  lemma TicksWithin(k: nat, rate: Word)
    requires rate > 0 && US % rate == 0
    ensures k * (US / rate) <= (k / rate + 1) * US && 1 <= US / rate && 0 <= k / rate
  {
    var us, q, r := US / rate, k / rate, k % rate;
    assert us * rate == US;
    MulSigns(us, rate);
    assert k == q * rate + r;
    DivAtMost(k, rate);
    Distribute(q * rate, r, us);
    MulAssoc(q, rate, us);
    Distribute(rate, r, us);
    MulSigns(rate - r, us);
    Distribute(q, 1, US);
  }

  // With no wrap of the product and the time due in range, the clock shows it.
  lemma AddedAfterSet(t: TimeVal, n0: Word, n1: Word, rate: Word)
    requires rate > 0 && t.Normalised() && 0 <= t.sec < SIGN_BIT && Wraps(n0, rate) == 0
    requires t.sec + Seconds(n1, rate) - Seconds(n0, rate) < SIGN_BIT
    requires 0 < t.Instant() + Elapsed(n1, rate) - Elapsed(n0, rate) < SIGN_BIT * US
    ensures TimeAt(ResetTime(t, n0, rate), n1, rate).Instant() == t.Instant() + Elapsed(n1, rate) - Elapsed(n0, rate)
  {
    hide Elapsed, Seconds, TimeAt, ResetTime, Wraps;
    GetAfterSetIff(t, n0, n1, rate);
  }

  // What gettimeofday shows n ticks after reset, in microseconds, if the time is never set.
  function Shown(n: Word, rate: Word): int
    requires rate > 0
  {
    TimeAt(TimeVal(0, 0), n, rate).Instant()
  }

  // It is what elapsed, as long as the seconds fit a signed word; it is negative after that.
  lemma ShownIsElapsed(n: Word, rate: Word)
    requires rate > 0
    ensures Seconds(n, rate) < SIGN_BIT ==> Shown(n, rate) == Elapsed(n, rate)
    ensures Seconds(n, rate) >= SIGN_BIT ==> Shown(n, rate) < 0
  {
    SignedFits(Rest(n, rate));
    if Seconds(n, rate) < SIGN_BIT { SignedFits(Seconds(n, rate)); }
    hide Rest;
  }

  // Above a million ticks a second only whole seconds are shown.
  lemma ElapsedFast(m: Word, n: Word, rate: Word)
    requires US < rate && m <= n
    ensures Elapsed(m, rate) <= Elapsed(n, rate)
  {
    DivUnique(US, rate, 0, US);
    assert Rest(m, rate) == 0 && Rest(n, rate) == 0;
    SecondsBetween(m, n - m, rate);
  }

  lemma ElapsedGrows(m: Word, n: Word, rate: Word)
    requires 0 < rate && m <= n && (US % rate == 0 || rate > US)
    ensures Elapsed(m, rate) <= Elapsed(n, rate)
  {
    if rate > US {
      ElapsedFast(m, n, rate);
    } else {
      ElapsedExact(m, rate);
      ElapsedExact(n, rate);
      Distribute(n, m, US / rate);
      MulSigns(n - m, US / rate);
    }
  }

  ghost predicate NeverBack(rate: Word, seconds: nat)
    requires rate > 0
  {
    forall m: Word, n: Word :: m <= n && Seconds(n, rate) < seconds ==> Shown(m, rate) <= Shown(n, rate)
  }

  /** For the first 2^31 seconds, the time shown never runs backwards if and only if the rate divides the microseconds of a
      second or is above them. */
  lemma MonotoneIff(rate: Word)
    requires rate > 0
    ensures NeverBack(rate, SIGN_BIT) <==> US % rate == 0 || rate > US
  {
    if US % rate == 0 || rate > US {
      forall m: Word, n: Word | m <= n && Seconds(n, rate) < SIGN_BIT ensures Shown(m, rate) <= Shown(n, rate) {
        ElapsedGrows(m, n, rate);
        SecondsBetween(m, n - m, rate);
        ShownIsElapsed(m, rate);
        ShownIsElapsed(n, rate);
      }
    } else {
      RunsBack(rate);
      ShownIsElapsed(rate, rate);
      ShownIsElapsed(2 * rate - 1, rate);
      hide Shown, Elapsed, Seconds;
      assert !NeverBack(rate, SIGN_BIT);
    }
  }

  /** Over all the ticks the counter can hold, it never runs backwards if and only if, besides, the rate is not 1: at one tick
      a second the seconds leave the signed word. */
  lemma AlwaysMonotoneIff(rate: Word)
    requires rate > 0
    ensures NeverBack(rate, WRAP) <==> rate != 1 && (US % rate == 0 || rate > US)
  {
    MonotoneIff(rate);
    if rate == 1 {
      ShownIsElapsed(SIGN_BIT - 1, 1);
      ShownIsElapsed(SIGN_BIT, 1);
      assert Shown(SIGN_BIT, 1) < 0 <= Shown(SIGN_BIT - 1, 1);
    } else {
      forall n: Word ensures Seconds(n, rate) < SIGN_BIT { SecondsHalved(n, rate); }
      hide Shown, Seconds;
    }
  }

  lemma SecondsHalved(n: Word, rate: Word)
    requires 2 <= rate
    ensures Seconds(n, rate) < SIGN_BIT
  {
    var q := n / rate;
    assert n == q * rate + n % rate;
    MulSigns(q, rate - 2);
    Distribute(rate - 2, 2, q);
    MulAssoc(q, rate, 1);
    MulAssoc(q, rate - 2, 1);
  }

  // In the second second, the last tick shows less than the first.
  lemma RunsBack(rate: Word)
    requires 0 < rate <= US && US % rate != 0
    ensures 2 * rate - 1 < WRAP && Elapsed(2 * rate - 1, rate) < Elapsed(rate, rate)
    ensures Seconds(rate, rate) == Seconds(2 * rate - 1, rate) == 1
  {
    var us, r := US / rate, US % rate;
    Products(rate, us, r);
    DivUnique(rate, rate, 1, 0);
    DivUnique(2 * rate - 1, rate, 1, rate - 1);
    DivUnique(rate * us, US, 0, US - r);
    DivUnique((2 * rate - 1) * us, US, 1, US - 2 * r - us);
  }

  lemma Products(rate: nat, us: nat, r: nat)
    requires 0 < rate <= US && us == US / rate && r == US % rate && 0 < r
    ensures rate * us == US - r
    ensures (2 * rate - 1) * us == US + (US - 2 * r - us) && 0 <= US - 2 * r - us && 1 <= us
  {
    assert US == us * rate + r && r < rate;
    assert 1 <= us by { MulSigns(us, rate); }
    ProductsOf(rate, us, r);
  }

  lemma ProductsOf(rate: nat, us: nat, r: nat)
    requires 1 <= us && r < rate && US == us * rate + r
    ensures rate * us == US - r
    ensures (2 * rate - 1) * us == US + (US - 2 * r - us) && 0 <= US - 2 * r - us
  {
    MulAssoc(us, rate, 1);
    Distribute(2 * rate, 1, us);
    Distribute(rate, rate, us);
    Distribute(us, 1, rate - 1);
    MulSigns(us - 1, rate - 1);
    Distribute(rate, 1, us);
    MulAssoc(us, rate - 1, 1);
  }
}
