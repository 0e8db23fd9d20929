/**
  PWM timers (libraries/HAL_Drivers/drv_pwm.c): a period and a pulse in nanoseconds become a
  prescaler, a reload and a compare value, and are computed back from these registers.
 */
module PwmTimer {
  import opened Words
  import DivMod

  function Low16(x: nat): nat {
    x % 0x10000
  }

  // ----- The scaling -----

  /** Nanoseconds as clock ticks, kept in 32 bits. `mhz` is the timer clock. */
  function Ticks(ns: nat, mhz: nat): word {
    ns * mhz / 1000 % TWO_TO_32
  }

  function Divider(ticks: nat): nat {
    ticks / 65535 + 1
  }

  /** The period in counts of the divided clock, at least 3. */
  function Counts(ticks: nat): nat {
    var counts := ticks / Divider(ticks);
    if counts < 3 then 3 else counts
  }

  function PulseCounts(ns: nat, mhz: nat, divider: nat): word
    requires divider > 0
  {
    ns * mhz / divider / 1000 % TWO_TO_32
  }

  /** The compare value: at least 1, and as long as the period when the pulse is not shorter. */
  function Compare(pulse: nat, period: nat): nat {
    if pulse < 2 then 1 else if pulse >= period then period else pulse - 1
  }

  /** Counts of the divided clock as nanoseconds, the product kept in 32 bits. */
  function Nanoseconds(counts: nat, divider: nat, mhz: nat): nat
    requires mhz > 0
  {
    counts * divider % TWO_TO_32 * 1000 % TWO_TO_32 / mhz
  }

  /** The clock in MHz as `Get` sees it, divided. */
  function DividedMhz(hz: nat, clockDivision: nat): nat {
    (if clockDivision == 2 then hz / 2 else if clockDivision == 4 then hz / 4 else hz) / 1000000
  }

  lemma DividedMhzIs(hz: nat, clockDivision: nat)
    ensures DividedMhz(hz, clockDivision) ==
      if clockDivision == 2 then hz / 2000000 else if clockDivision == 4 then hz / 4000000 else hz / 1000000
  {}

  // ----- The registers -----

  class Timer {
    const hz: nat
    const clockDivision: nat
    var prescaler: nat
    var reload: nat
    var compare: nat

    constructor (hz: nat, clockDivision: nat)
      requires clockDivision in {1, 2, 4}
      ensures this.hz == hz && this.clockDivision == clockDivision
    {
      this.hz, this.clockDivision := hz, clockDivision;
      prescaler, reload, compare := 0, 0, 0;
    }

    /** Registers hold 16 bits. */
    method Set(periodNs: word, pulseNs: word)
      modifies this
      ensures var ticks := Ticks(periodNs, hz / 1000000);
              && prescaler == Low16(Divider(ticks) - 1)
              && reload == Counts(ticks) - 1
              && compare == Compare(PulseCounts(pulseNs, hz / 1000000, Divider(ticks)), Counts(ticks))
      ensures reload < 0x10000 && compare <= reload + 1
    {
      var mhz := hz / 1000000;
      var ticks := Ticks(periodNs, mhz);
      var psc := Divider(ticks);
      CountsFit(ticks);
      var period := ticks / psc;
      prescaler := Low16(psc - 1);
      if period < 3 {
        period := 3;
      }
      FullWord(period - 1);
      reload := Low16(period - 1);
      var pulse := PulseCounts(pulseNs, mhz, psc);
      if pulse < 2 {
        pulse := 2;
      } else if pulse >= period {
        pulse := period + 1;
      }
      FullWord(pulse - 1);
      compare := Low16(pulse - 1);
    }

    method Get() returns (periodNs: nat, pulseNs: nat)
      requires DividedMhz(hz, clockDivision) > 0
      ensures periodNs == Nanoseconds(reload + 1, prescaler + 1, DividedMhz(hz, clockDivision))
      ensures pulseNs == Nanoseconds(compare + 1, prescaler + 1, DividedMhz(hz, clockDivision))
    {
      var clock := hz;
      if clockDivision == 2 {
        clock := clock / 2;
      } else if clockDivision == 4 {
        clock := clock / 4;
      }
      clock := clock / 1000000;
      periodNs := Nanoseconds(reload + 1, prescaler + 1, clock);
      pulseNs := Nanoseconds(compare + 1, prescaler + 1, clock);
    }
  }

  // ----- What the registers mean -----

  /** The reload value fits 16 bits, with room for a compare value one above it. */
  lemma CountsFit(ticks: word)
    ensures 3 <= Counts(ticks) <= 65534 && ticks / Divider(ticks) <= 65534
  {
    DivMod.AtLeast(ticks, 65535, Divider(ticks));
  }

  lemma FullWord(x: nat)
    requires x < 0x10000
    ensures Low16(x) == x
  {}

  /** Below 1 GHz, and only there, every period is scaled without truncation and its prescaler fits 16 bits. */
  lemma FastestClock(mhz: nat)
    ensures mhz <= 999 <==> forall ns: word :: Ticks(ns, mhz) == ns * mhz / 1000 && Divider(Ticks(ns, mhz)) <= 0x10000
  {
    if mhz <= 999 {
      forall ns: word ensures Ticks(ns, mhz) == ns * mhz / 1000 && Divider(Ticks(ns, mhz)) <= 0x10000 {
        NoTruncation(ns, mhz, 1);
      }
    } else {
      var ns: word := TWO_TO_32 - 1;
      DivMod.MulMonotone(1000, mhz, ns);
      assert ns * mhz / 1000 >= ns;
      assert Ticks(ns, mhz) != ns * mhz / 1000 || Divider(Ticks(ns, mhz)) > 0x10000;
    }
  }

  lemma TicksExact(ns: word, mhz: nat)
    requires mhz <= 999
    ensures Ticks(ns, mhz) == ns * mhz / 1000 && Divider(Ticks(ns, mhz)) <= 0x10000
  {
    DivMod.MulMonotone(mhz, 999, ns);
    assert ns * 999 / 1000 <= 4290672327;
  }

  lemma NoTruncation(ns: word, mhz: nat, divider: nat)
    requires mhz <= 999 && divider > 0
    ensures Ticks(ns, mhz) == ns * mhz / 1000 && Divider(Ticks(ns, mhz)) <= 0x10000
    ensures PulseCounts(ns, mhz, divider) == ns * mhz / divider / 1000 == ns * mhz / 1000 / divider
  {
    TicksExact(ns, mhz);
    DivMod.Nested(ns * mhz, divider, 1000);
    DivMod.Nested(ns * mhz, 1000, divider);
    var t := ns * mhz / 1000;
    DivMod.Euclid(t, divider);
    DivMod.MulMonotone(1, divider, t / divider);
  }

  /** The minimum of 3 counts applies exactly to periods under 3 ticks. */
  lemma ClampedExactly(ticks: word)
    ensures ticks / Divider(ticks) < 3 <==> ticks < 3
  {
    DivMod.AtLeast(ticks, 3, Divider(ticks));
  }

  /**
    A pulse that is not shorter than its period fills the whole period exactly when it lasts three
    clock ticks. Shorter ones meet the minimum period, which they no longer fill.
   */
  lemma FullDutyExactly(periodNs: word, pulseNs: word, mhz: nat)
    requires mhz <= 999 && periodNs <= pulseNs
    ensures var t := Ticks(periodNs, mhz);
            Compare(PulseCounts(pulseNs, mhz, Divider(t)), Counts(t)) == Counts(t) <==> pulseNs * mhz >= 3000
  {
    var t := Ticks(periodNs, mhz);
    var d := Divider(t);
    NoTruncation(periodNs, mhz, d);
    NoTruncation(pulseNs, mhz, d);
    ClampedExactly(t);
    DivMod.MulMonotone(periodNs, pulseNs, mhz);
    var u := pulseNs * mhz / 1000;
    DivMod.AtLeast(t, t / d, d);
    DivMod.AtLeast(u, t / d, d);
    assert t <= u && u / d >= t / d;
    if t < 3 {
      assert d == 1;
    }
  }

  /** Two ticks requested for both give a pulse of one count in a period of three. */
  lemma FullDutyMissed()
    ensures var t := Ticks(20, 100); Counts(t) == 3 && Compare(PulseCounts(20, 100, Divider(t)), Counts(t)) == 1
  {}

  // ----- Reading back -----

  /** Truncating a factor first does not change a product in 32 bits. */
  lemma WrappedProduct(x: nat)
    ensures x % TWO_TO_32 * 1000 % TWO_TO_32 == x * 1000 % TWO_TO_32
  {
    var k := x / TWO_TO_32;
    assert x * 1000 == x % TWO_TO_32 * 1000 + 1000 * k * TWO_TO_32;
    DivMod.AddMultiple(x % TWO_TO_32 * 1000, 1000 * k, TWO_TO_32);
  }

  /** A time read back is at most the requested one, and short of it by less than one count and one nanosecond. */
  predicate Close(back: int, ns: int, divider: int, mhz: int) {
    back <= ns && mhz * (ns - back) < 1000 * divider + mhz
  }

  /** A product near `y`, kept in 32 bits and divided: close to `y` exactly when it was not cut. */
  lemma CloseQuotient(x: nat, y: nat, w: nat, ns: nat, mhz: nat, divider: nat)
    requires 0 < mhz <= 999 && 0 < divider <= 0x10000
    requires y == ns * mhz && x <= y < x + 1000 * divider
    requires w == x % TWO_TO_32
    ensures Close(w / mhz, ns, divider, mhz) <==> x < TWO_TO_32
  {
    var back := w / mhz;
    DivMod.Euclid(w, mhz);
    assert mhz * (ns - back) == y - back * mhz;
    if x < TWO_TO_32 {
      if back > ns {
        DivMod.MulMonotone(ns + 1, back, mhz);
      }
    } else {
      assert back * mhz <= w <= x - TWO_TO_32;
    }
  }

  /** A time of some counts is read back closely exactly when the 32-bit product does not overflow. */
  lemma CloseExactly(ns: word, mhz: nat, divider: nat, counts: nat)
    requires 0 < mhz <= 999 && 0 < divider <= 0x10000 && counts == ns * mhz / 1000 / divider
    ensures Close(Nanoseconds(counts, divider, mhz), ns, divider, mhz) <==> counts * divider * 1000 < TWO_TO_32
  {
    var y := ns * mhz;
    WrappedProduct(counts * divider);
    DivMod.Euclid(y / 1000, divider);
    var p := counts * divider;
    CloseQuotient(p * 1000, y, p * 1000 % TWO_TO_32, ns, mhz, divider);
  }

  /** The 32-bit product of a period does not overflow exactly up to a number of ticks. */
  lemma LongestPeriod(ticks: word)
    ensures ticks / Divider(ticks) * Divider(ticks) * 1000 < TWO_TO_32 <==> ticks <= 4295015
  {
    var d := Divider(ticks);
    DivMod.Euclid(ticks, d);
    if d == 66 {
      assert ticks / d * d == ticks / 66 * 66;
    }
  }

  /** Some counts read back without overflow. */
  lemma NanosecondsIs(counts: nat, divider: nat, mhz: nat)
    requires mhz > 0 && counts * divider * 1000 < TWO_TO_32
    ensures Nanoseconds(counts, divider, mhz) == counts * divider * 1000 / mhz
  {
    WrappedProduct(counts * divider);
  }

  /** A time that was raised to some minimum is read back closely exactly when it is read back as itself. */
  lemma RaisedCloseExactly(counts: nat, divider: nat, ns: nat, mhz: nat)
    requires mhz > 0 && counts * divider * 1000 < TWO_TO_32 && ns * mhz < counts * divider * 1000
    ensures Close(Nanoseconds(counts, divider, mhz), ns, divider, mhz) <==> counts * divider * 1000 < (ns + 1) * mhz
  {
    var x := counts * divider * 1000;
    NanosecondsIs(counts, divider, mhz);
    DivMod.AtLeast(x, ns, mhz);
    DivMod.AtLeast(x, ns + 1, mhz);
  }

  /**
    Any period is read back closely exactly when it is shorter than 4295016 ticks and its next
    nanosecond is beyond the minimum of three ticks.
   */
  lemma PeriodCloseExactly(ns: word, mhz: nat)
    requires 0 < mhz <= 999
    ensures var t := Ticks(ns, mhz);
            Close(Nanoseconds(Counts(t), Divider(t), mhz), ns, Divider(t), mhz) <==>
              3000 < (ns + 1) * mhz && ns * mhz < 4295016000
  {
    var t := Ticks(ns, mhz);
    NoTruncation(ns, mhz, Divider(t));
    ClampedExactly(t);
    assert (ns + 1) * mhz == ns * mhz + mhz;
    if ns * mhz < 3000 {
      RaisedCloseExactly(3, 1, ns, mhz);
    } else {
      CloseExactly(ns, mhz, Divider(t), Counts(t));
      LongestPeriod(t);
    }
  }

  /** A period of 20 ns at 100 MHz, two ticks, is read back as one of three. */
  lemma ShortPeriodExample()
    ensures Ticks(20, 100) == 2 && Divider(2) == 1 && Counts(2) == 3 && Nanoseconds(3, 1, 100) == 30
  {}

  /** A period of 50 ms at 100 MHz is read back as one of 7 ms. */
  lemma LongPeriodExample()
    ensures Ticks(50000000, 100) == 5000000 && Divider(5000000) == 77 && Counts(5000000) == 64935
    ensures Nanoseconds(64935, 77, 100) == 7050277
  {}

  lemma DoubledFits(n: nat, divided: nat, mhz: nat, x: nat)
    requires 2 * divided <= mhz && n * mhz <= 2 * x
    ensures n * divided <= x
  {
    DivMod.MulMonotone(2 * divided, mhz, n);
    assert n * (2 * divided) == 2 * (n * divided);
  }

  /** A time counted with one clock and read back with one at most half as fast is more than it was. */
  lemma DividedTime(counts: nat, divider: nat, ns: nat, mhz: nat, divided: nat)
    requires counts >= 2 && divider > 0 && counts * divider * 1000 < TWO_TO_32 && 0 < 2 * divided <= mhz <= 999
    requires ns * mhz < counts * divider * 1000 + 1000 * divider
    ensures Nanoseconds(counts, divider, divided) > ns
  {
    var x, cd := counts * divider * 1000, counts * divider;
    DivMod.MulMonotone(2, counts, divider);
    assert cd >= 2 * divider && x == cd * 1000;
    assert (ns + 1) * mhz == ns * mhz + mhz;
    NanosecondsIs(counts, divider, divided);
    DoubledFits(ns + 1, divided, mhz, x);
    DivMod.AtLeast(x, ns + 1, divided);
  }

  /** A clock that is divided for reading only: what is read back is more than what was set. */
  lemma DividedReading(ns: word, mhz: nat, divided: nat)
    requires mhz <= 999 && 0 < 2 * divided <= mhz && ns * mhz < 4295016000
    ensures var t := Ticks(ns, mhz); Nanoseconds(Counts(t), Divider(t), divided) > ns
  {
    var t := Ticks(ns, mhz);
    NoTruncation(ns, mhz, Divider(t));
    ClampedExactly(t);
    LongestPeriod(t);
    if t < 3 {
      DividedTime(3, 1, ns, mhz, divided);
    } else {
      DivMod.Euclid(t, Divider(t));
      DividedTime(Counts(t), Divider(t), ns, mhz, divided);
    }
  }

  // ----- The pulse -----

  /** The counts that a pulse is read back from. */
  function PulseBack(pulse: nat, period: nat): nat {
    Compare(pulse, period) + 1
  }

  /** A pulse shorter than its period, in request and divider. */
  lemma PulseCloseExactly(ns: word, mhz: nat, divider: nat, period: nat)
    requires 0 < mhz <= 999 && 0 < divider <= 0x10000 && 3 <= period
    ensures var counts := PulseCounts(ns, mhz, divider);
            counts < period ==>
              (Close(Nanoseconds(PulseBack(counts, period), divider, mhz), ns, divider, mhz) <==>
                 if counts < 2 then 2000 * divider < (ns + 1) * mhz else counts * divider * 1000 < TWO_TO_32)
  {
    var counts := PulseCounts(ns, mhz, divider);
    NoTruncation(ns, mhz, divider);
    if counts < 2 {
      PulseBelow(ns, mhz, divider, counts);
      RaisedCloseExactly(2, divider, ns, mhz);
    } else {
      CloseExactly(ns, mhz, divider, counts);
    }
  }

  /** The time that a number of counts stands for. */
  lemma PulseBelow(ns: word, mhz: nat, divider: nat, counts: nat)
    requires mhz <= 999 && divider > 0 && counts == PulseCounts(ns, mhz, divider)
    ensures ns * mhz < counts * divider * 1000 + 1000 * divider
    ensures counts < 2 ==> ns * mhz < 2000 * divider
  {
    NoTruncation(ns, mhz, divider);
    DivMod.Euclid(ns * mhz / 1000, divider);
    assert counts <= 1 ==> counts * divider <= divider;
  }

  /** A pulse that fills its period is read back as longer than the period. */
  lemma FullPulseLonger(period: nat, divider: nat, mhz: nat)
    requires 0 < mhz <= 999 && divider > 0 && (period + 1) * divider * 1000 < TWO_TO_32
    ensures Nanoseconds(period + 1, divider, mhz) > Nanoseconds(period, divider, mhz)
  {
    var x, y := period * divider * 1000, (period + 1) * divider * 1000;
    assert (period + 1) * divider == period * divider + divider;
    NanosecondsIs(period, divider, mhz);
    NanosecondsIs(period + 1, divider, mhz);
    QuotientGrows(x, y, mhz);
  }

  lemma QuotientGrows(x: nat, y: nat, n: nat)
    requires n > 0 && x + n <= y
    ensures x / n < y / n
  {
    DivMod.Euclid(x, n);
    assert (x / n + 1) * n == x / n * n + n;
    DivMod.AtLeast(y, x / n + 1, n);
  }

  /** A pulse shorter than its period, read with a divided clock, is more than it was. */
  lemma DividedPulse(ns: word, mhz: nat, divider: nat, period: nat, divided: nat)
    requires mhz <= 999 && 0 < 2 * divided <= mhz && 0 < divider && 3 <= period
    requires PulseCounts(ns, mhz, divider) < period
    requires PulseBack(PulseCounts(ns, mhz, divider), period) * divider * 1000 < TWO_TO_32
    ensures Nanoseconds(PulseBack(PulseCounts(ns, mhz, divider), period), divider, divided) > ns
  {
    PulseBelow(ns, mhz, divider, PulseCounts(ns, mhz, divider));
    DividedTime(PulseBack(PulseCounts(ns, mhz, divider), period), divider, ns, mhz, divided);
  }

  // ----- Through the registers -----

  /** What an undivided clock reads back of a request. */
  predicate ReadsBack(periodNs: word, pulseNs: word, mhz: nat, period: nat, pulse: nat) {
    var t := Ticks(periodNs, mhz);
    var counts, n, d := PulseCounts(pulseNs, mhz, Divider(t)), Counts(t), Divider(t);
    && (Close(period, periodNs, d, mhz) <==> 3000 < (periodNs + 1) * mhz && periodNs * mhz < 4295016000)
    && (counts < n ==>
          (Close(pulse, pulseNs, d, mhz) <==>
             if counts < 2 then 2000 * d < (pulseNs + 1) * mhz else counts * d * 1000 < TWO_TO_32))
    && (counts >= n && (n + 1) * d * 1000 < TWO_TO_32 ==> pulse > period)
  }

  /** What a clock reads back that is divided for reading only. */
  predicate ReadsMore(periodNs: word, pulseNs: word, mhz: nat, period: nat, pulse: nat) {
    var t := Ticks(periodNs, mhz);
    var counts, n, d := PulseCounts(pulseNs, mhz, Divider(t)), Counts(t), Divider(t);
    && (periodNs * mhz < 4295016000 ==> period > periodNs)
    && (counts < n && PulseBack(counts, n) * d * 1000 < TWO_TO_32 ==> pulse > pulseNs)
  }

  lemma UndividedReadsBack(periodNs: word, pulseNs: word, mhz: nat)
    requires 0 < mhz <= 999
    ensures var t := Ticks(periodNs, mhz);
            var back := PulseBack(PulseCounts(pulseNs, mhz, Divider(t)), Counts(t));
            ReadsBack(periodNs, pulseNs, mhz,
                      Nanoseconds(Counts(t), Divider(t), mhz), Nanoseconds(back, Divider(t), mhz))
  {
    var t := Ticks(periodNs, mhz);
    TicksExact(periodNs, mhz);
    PeriodCloseExactly(periodNs, mhz);
    CountsFit(t);
    PulseCloseExactly(pulseNs, mhz, Divider(t), Counts(t));
    if (Counts(t) + 1) * Divider(t) * 1000 < TWO_TO_32 {
      FullPulseLonger(Counts(t), Divider(t), mhz);
    }
  }

  lemma DividedReadsMore(periodNs: word, pulseNs: word, mhz: nat, divided: nat)
    requires mhz <= 999 && 0 < 2 * divided <= mhz
    ensures var t := Ticks(periodNs, mhz);
            var back := PulseBack(PulseCounts(pulseNs, mhz, Divider(t)), Counts(t));
            ReadsMore(periodNs, pulseNs, mhz,
                      Nanoseconds(Counts(t), Divider(t), divided), Nanoseconds(back, Divider(t), divided))
  {
    var t := Ticks(periodNs, mhz);
    var counts, n, d := PulseCounts(pulseNs, mhz, Divider(t)), Counts(t), Divider(t);
    if periodNs * mhz < 4295016000 {
      DividedReading(periodNs, mhz, divided);
    }
    CountsFit(t);
    if counts < n && PulseBack(counts, n) * d * 1000 < TWO_TO_32 {
      DividedPulse(pulseNs, mhz, d, n, divided);
    }
  }

  /** Below 1 GHz nothing is lost in the registers. */
  method SetCounts(timer: Timer, periodNs: word, pulseNs: word, ghost mhz: nat)
    returns (ghost n: nat, ghost d: nat, ghost back: nat)
    requires mhz == timer.hz / 1000000 <= 999
    modifies timer
    ensures n == Counts(Ticks(periodNs, mhz)) && d == Divider(Ticks(periodNs, mhz)) > 0
    ensures back == PulseBack(PulseCounts(pulseNs, mhz, d), n)
    ensures timer.reload + 1 == n && timer.prescaler + 1 == d && timer.compare + 1 == back
  {
    timer.Set(periodNs, pulseNs);
    TicksExact(periodNs, mhz);
    n, d, back := timer.reload + 1, timer.prescaler + 1, timer.compare + 1;
  }

  /** Set and then get, with the clock undivided or divided. */
  method SetThenGet(timer: Timer, periodNs: word, pulseNs: word) returns (period: nat, pulse: nat)
    requires 0 < DividedMhz(timer.hz, timer.clockDivision) && timer.hz / 1000000 <= 999
    modifies timer
    ensures timer.clockDivision !in {2, 4} ==> ReadsBack(periodNs, pulseNs, timer.hz / 1000000, period, pulse)
    ensures timer.clockDivision in {2, 4} ==> ReadsMore(periodNs, pulseNs, timer.hz / 1000000, period, pulse)
  {
    ghost var mhz, divided := timer.hz / 1000000, DividedMhz(timer.hz, timer.clockDivision);
    ghost var n, d, back := SetCounts(timer, periodNs, pulseNs, mhz);
    period, pulse := timer.Get();
    assert period == Nanoseconds(n, d, divided) && pulse == Nanoseconds(back, d, divided);
    if timer.clockDivision in {2, 4} {
      DividedReadsMore(periodNs, pulseNs, mhz, divided);
    } else {
      UndividedReadsBack(periodNs, pulseNs, mhz);
    }
  }
}
