/**
  The busy wait on the SysTick counter (libraries/HAL_Drivers/drv_common.c). The counter runs down
  from its reload value to 0 and starts again; the loop sees it only at the moments it reads it.
 */
module UsDelay {
  import opened Words
  import DivMod

  // ----- What the loop counts -----

  /** What one reading adds to the total, which is kept in 32 bits. */
  function Added(told: word, tnow: word, reload: word): int {
    if tnow == told then 0 else if tnow < told then told - tnow else reload - tnow + told
  }

  function Plus(total: word, told: word, tnow: word, reload: word): word {
    (total + Added(told, tnow, reload)) % TWO_TO_32
  }

  /** The total after a number of readings. */
  function Total(vals: seq<word>, n: nat, reload: word): word
    requires 0 < n <= |vals|
  {
    if n == 1 then 0 else Plus(Total(vals, n - 1, reload), vals[n - 2], vals[n - 1], reload)
  }

  /** How many of these readings found the counter started again. */
  function Wraps(vals: seq<word>, n: nat): nat
    requires 0 < n <= |vals|
  {
    if n == 1 then 0 else Wraps(vals, n - 1) + if vals[n - 1] > vals[n - 2] then 1 else 0
  }

  function Ticks(us: word, reload: word, tickRate: word): word
    requires 0 < tickRate <= 1000000
  {
    us * (reload / (1000000 / tickRate)) % TWO_TO_32
  }

  /** The loop's exit, tested only when the counter has moved. */
  predicate Ends(vals: seq<word>, n: nat, reload: word, ticks: word)
    requires 1 < n <= |vals|
  {
    vals[n - 1] != vals[n - 2] && Total(vals, n, reload) >= ticks
  }

  /** The loop's branches for a counter that has moved. */
  method Accumulate(total: word, told: word, tnow: word, reload: word) returns (tcnt: word)
    requires tnow != told && told <= reload && tnow <= reload
    ensures tcnt == Plus(total, told, tnow, reload)
  {
    if tnow < told {
      tcnt := (total + (told - tnow)) % TWO_TO_32;
    } else {
      tcnt := (total + (reload - tnow + told)) % TWO_TO_32;
    }
  }

  /** The loop: the first reading that ends it, or -1. */
  method Poll(ticks: word, reload: word, vals: seq<word>) returns (used: int)
    requires vals != [] && forall i :: 0 <= i < |vals| ==> vals[i] <= reload
    ensures used == -1 || (1 < used <= |vals| && Ends(vals, used, reload, ticks))
    ensures forall n :: 1 < n <= |vals| && (used == -1 || n < used) ==> !Ends(vals, n, reload, ticks)
  {
    var told := vals[0];
    var tcnt: word := 0;
    for i := 1 to |vals|
      invariant told == vals[i - 1]
      invariant tcnt == Total(vals, i, reload)
      invariant forall n :: 1 < n <= i ==> !Ends(vals, n, reload, ticks)
    {
      var tnow := vals[i];
      if tnow != told {
        tcnt := Accumulate(tcnt, told, tnow, reload);
        told := tnow;
        if tcnt >= ticks {
          return i + 1;
        }
      }
    }
    return -1;
  }

  // ----- Time -----

  /** The counter `t` decrements after it was 0: from 0 it starts again. Moments are counted in decrements. */
  function Counter(t: nat, reload: word): (c: word)
    ensures c <= reload
  {
    if t == 0 then 0
    else
      var before := Counter(t - 1, reload);
      if before == 0 then reload else before - 1
  }

  lemma {:induction false} CounterIs(t: nat, reload: word)
    ensures Counter(t, reload) == reload - (t + reload) % (reload + 1)
  {
    var n := reload + 1;
    if t == 0 {
      DivMod.Unique(reload, 0, reload, n);
    } else {
      CounterIs(t - 1, reload);
      var a := t - 1 + reload;
      var q, r := a / n, a % n;
      DivMod.Euclid(a, n);
      if r == reload {
        assert (q + 1) * n == q * n + n;
        DivMod.Unique(a + 1, q + 1, 0, n);
      } else {
        DivMod.Unique(a + 1, q, r + 1, n);
      }
    }
  }

  /** The moments of the readings, in order. */
  predicate Ordered(times: seq<nat>) {
    forall i :: 0 < i < |times| ==> times[i - 1] <= times[i]
  }

  function Readings(times: seq<nat>, reload: word): seq<word> {
    seq(|times|, i requires 0 <= i < |times| => Counter(times[i], reload))
  }

  /** The time from the first reading to the n-th. */
  function Elapsed(times: seq<nat>, n: nat): int
    requires 0 < n <= |times|
  {
    var last: int, first: int := times[n - 1], times[0];
    last - first
  }

  /** Numbers that grow as the counter runs down: as many more as counted, and one more for a restart. */
  lemma CountedRemainders(a: nat, b: nat, reload: word)
    requires a <= b
    ensures var n := reload + 1;
            var told, tnow := reload - a % n, reload - b % n;
            && 0 <= Added(told, tnow, reload) <= b - a
            && (b - a <= reload ==> b - a == Added(told, tnow, reload) + if tnow > told then 1 else 0)
  {
    var n := reload + 1;
    DivMod.Euclid(a, n);
    DivMod.Euclid(b, n);
    var k, p := b / n - a / n, (b / n - a / n) * n;
    assert p == b / n * n - a / n * n;
    if k < 0 {
      DivMod.MulMonotone(k, -1, n);
    } else if k > 0 {
      DivMod.MulMonotone(1, k, n);
      if k > 1 {
        DivMod.MulMonotone(2, k, n);
      }
    }
  }

  /** Between two readings at least the counted ticks pass; less than a period apart, one more for a restart. */
  lemma CountedStep(s: nat, t: nat, reload: word)
    requires s <= t
    ensures var told, tnow := Counter(s, reload), Counter(t, reload);
            && 0 <= Added(told, tnow, reload) <= t - s
            && (t - s <= reload ==> t - s == Added(told, tnow, reload) + if tnow > told then 1 else 0)
  {
    CounterIs(s, reload);
    CounterIs(t, reload);
    CountedRemainders(s + reload, t + reload, reload);
  }

  lemma PlusUpTo(total: word, told: word, tnow: word, reload: word, most: nat)
    requires 0 <= Added(told, tnow, reload) <= most
    ensures Plus(total, told, tnow, reload) <= total + most
    ensures total + most < TWO_TO_32 ==> Plus(total, told, tnow, reload) == total + Added(told, tnow, reload)
  {}

  lemma PlusBound(total: word, s: nat, t: nat, reload: word)
    requires s <= t
    ensures var told, tnow := Counter(s, reload), Counter(t, reload);
            && Plus(total, told, tnow, reload) <= total + (t - s)
            && (t - s <= reload && total + (t - s) < TWO_TO_32 ==>
                  total + (t - s) == Plus(total, told, tnow, reload) + if tnow > told then 1 else 0)
  {
    CountedStep(s, t, reload);
    PlusUpTo(total, Counter(s, reload), Counter(t, reload), reload, t - s);
  }

  /** The count never exceeds the time that really passed, however late the readings and wherever it overflows. */
  lemma {:induction false} NeverAhead(times: seq<nat>, n: nat, reload: word)
    requires 0 < n <= |times| && Ordered(times)
    ensures Total(Readings(times, reload), n, reload) <= Elapsed(times, n)
  {
    if n > 1 {
      NeverAhead(times, n - 1, reload);
      PlusBound(Total(Readings(times, reload), n - 1, reload), times[n - 2], times[n - 1], reload);
    }
  }

  /** Readings less than one period apart under-count each restart by exactly one. */
  lemma {:induction false} CountedExactly(times: seq<nat>, n: nat, reload: word)
    requires 0 < n <= |times| && Ordered(times) && Elapsed(times, n) < TWO_TO_32
    requires forall i :: 0 < i < |times| ==> times[i] - times[i - 1] <= reload
    ensures Elapsed(times, n) == Total(Readings(times, reload), n, reload) + Wraps(Readings(times, reload), n)
  {
    if n > 1 {
      NeverAhead(times, n - 1, reload);
      CountedExactly(times, n - 1, reload);
      PlusBound(Total(Readings(times, reload), n - 1, reload), times[n - 2], times[n - 1], reload);
    }
  }

  /**
    With the reload value of a clock of `mhz` cycles a microsecond, the target is one decrement short
    for every microsecond exactly when it fits 32 bits; otherwise it is shorter still. Only an empty
    wait has the target that was asked for.
   */
  lemma TargetExactly(us: word, mhz: nat, tickRate: word)
    requires 0 < tickRate <= 1000000 && 0 < mhz && mhz * (1000000 / tickRate) <= TWO_TO_32
    ensures var ticks := Ticks(us, mhz * (1000000 / tickRate) - 1, tickRate);
            && (ticks == us * mhz - us <==> us * (mhz - 1) < TWO_TO_32)
            && (ticks >= us * mhz <==> us == 0)
  {
    var n := 1000000 / tickRate;
    assert mhz * n - 1 == (mhz - 1) * n + (n - 1);
    DivMod.Unique(mhz * n - 1, mhz - 1, n - 1, n);
    var p := us * (mhz - 1);
    assert p == us * mhz - us;
  }

  /**
    The wait, when the counter is read at the given moments, the first before the loop: the result is
    the number of readings after which it returns, or -1 when none of them ends it. It returns at the
    first reading whose total suffices, and never before its ticks have passed.
   */
  method Delay(us: word, reload: word, tickRate: word, times: seq<nat>) returns (used: int)
    requires 0 < tickRate <= 1000000 && times != [] && Ordered(times)
    ensures used == -1 || (1 < used <= |times| && Elapsed(times, used) >= Ticks(us, reload, tickRate))
    ensures used == -1 || Ends(Readings(times, reload), used, reload, Ticks(us, reload, tickRate))
    ensures forall n :: 1 < n <= |times| && (used == -1 || n < used) ==>
      !Ends(Readings(times, reload), n, reload, Ticks(us, reload, tickRate))
  {
    var ticks := Ticks(us, reload, tickRate);
    var vals := Readings(times, reload);
    used := Poll(ticks, reload, vals);
    if used != -1 {
      NeverAhead(times, used, reload);
    }
  }

  // ----- Every wait can return early -----

  lemma {:induction false} TotalPrefix(vals: seq<word>, more: seq<word>, n: nat, reload: word)
    requires 0 < n <= |vals| && vals <= more
    ensures Total(more, n, reload) == Total(vals, n, reload)
  {
    if n > 1 { TotalPrefix(vals, more, n - 1, reload); }
  }

  /** Readings that count `total` and end with `told`. */
  predicate Counts(vals: seq<word>, total: word, told: word, reload: word) {
    vals != [] && Total(vals, |vals|, reload) == total && vals[|vals| - 1] == told
  }

  /** One more reading. */
  lemma CountsNext(vals: seq<word>, total: word, told: word, reload: word, tnow: word)
    requires Counts(vals, total, told, reload)
    ensures Counts(vals + [tnow], Plus(total, told, tnow, reload), tnow, reload)
  {
    TotalPrefix(vals, vals + [tnow], |vals|, reload);
  }

  /** A counter that has run down adds the difference; one that stood at 0 and restarted adds nothing. */
  lemma PlusExamples(total: word, told: word, tnow: word, reload: word)
    ensures tnow <= told && total + told - tnow < TWO_TO_32 ==> Plus(total, told, tnow, reload) == total + told - tnow
    ensures reload > 0 ==> Plus(total, 0, reload, reload) == total
  {}

  /** The moment at which the counter restarts from its reload value, `k` periods after it first did. */
  function LapTime(k: nat, reload: word): nat {
    if k == 0 then 1 else LapTime(k - 1, reload) + reload + 1
  }

  lemma {:induction false} LapTimeIs(k: nat, reload: word)
    ensures LapTime(k, reload) == k * reload + k + 1
  {
    if k > 0 { LapTimeIs(k - 1, reload); }
  }

  lemma {:induction false} CounterInLap(k: nat, r: nat, reload: word)
    requires r <= reload
    ensures Counter(LapTime(k, reload) + r, reload) == reload - r
    decreases k, r
  {
    if r > 0 {
      CounterInLap(k, r - 1, reload);
    } else if k > 0 {
      CounterInLap(k - 1, reload, reload);
    }
  }

  /** Readings at 0 and at the reload value in each of `k` periods: their moments, and what they show. */
  function Laps(k: nat, reload: word): (times: seq<nat>)
    ensures |times| == 2 * k + 1
  {
    if k == 0 then [1]
    else Laps(k - 1, reload) + [LapTime(k - 1, reload) + reload] + [LapTime(k, reload)]
  }

  function LapVals(k: nat, reload: word): (vals: seq<word>)
    ensures |vals| == 2 * k + 1
  {
    if k == 0 then [reload] else LapVals(k - 1, reload) + [0] + [reload]
  }

  lemma ReadingsSnoc(times: seq<nat>, t: nat, reload: word)
    ensures Readings(times + [t], reload) == Readings(times, reload) + [Counter(t, reload)]
  {}

  lemma OrderedSnoc(times: seq<nat>, t: nat)
    requires Ordered(times) && (times != [] ==> times[|times| - 1] <= t)
    ensures Ordered(times + [t])
  {}

  lemma {:induction false} LapsOrdered(k: nat, reload: word)
    ensures Ordered(Laps(k, reload)) && Laps(k, reload)[0] == 1 && Laps(k, reload)[2 * k] == LapTime(k, reload)
  {
    if k > 0 {
      LapsOrdered(k - 1, reload);
      OrderedSnoc(Laps(k - 1, reload), LapTime(k - 1, reload) + reload);
      OrderedSnoc(Laps(k - 1, reload) + [LapTime(k - 1, reload) + reload], LapTime(k, reload));
    }
  }

  lemma {:induction false} LapsShow(k: nat, reload: word)
    ensures Readings(Laps(k, reload), reload) == LapVals(k, reload)
  {
    CounterInLap(k, 0, reload);
    if k > 0 {
      var before, at := Laps(k - 1, reload), LapTime(k - 1, reload) + reload;
      LapsShow(k - 1, reload);
      CounterInLap(k - 1, reload, reload);
      ReadingsSnoc(before, at, reload);
      ReadingsSnoc(before + [at], LapTime(k, reload), reload);
    }
  }

  /** Each period counts the reload value, and is one decrement longer. */
  lemma {:induction false} LapsCount(k: nat, reload: word)
    requires reload > 0 && k * reload < TWO_TO_32
    ensures Counts(LapVals(k, reload), k * reload, reload, reload)
  {
    if k > 0 {
      var total := (k - 1) * reload;
      assert k * reload == total + reload && total >= 0;
      LapsCount(k - 1, reload);
      LapCounts(LapVals(k - 1, reload), total, reload);
    }
  }

  lemma LapCounts(before: seq<word>, total: word, reload: word)
    requires reload > 0 && total + reload < TWO_TO_32 && Counts(before, total, reload, reload)
    ensures Counts(before + [0] + [reload], total + reload, reload, reload)
  {
    PlusExamples(total, reload, 0, reload);
    PlusExamples(total + reload, 0, reload, reload);
    CountsNext(before, total, reload, reload, 0);
    CountsNext(before + [0], total + reload, 0, reload, reload);
  }

  /** `r` more decrements after `k` periods. */
  lemma LapsEnd(k: nat, r: nat, ticks: word, reload: word) returns (times: seq<nat>)
    requires 0 < r <= reload && ticks == k * reload + r
    ensures |times| > 1 && Ordered(times) && Ends(Readings(times, reload), |times|, reload, ticks)
    ensures Elapsed(times, |times|) == ticks + k
  {
    var total: nat, at := k * reload, LapTime(k, reload) + r;
    var before, vals := Laps(k, reload), LapVals(k, reload);
    LapsOrdered(k, reload);
    LapsShow(k, reload);
    LapsCount(k, reload);
    LapTimeIs(k, reload);
    CounterInLap(k, r, reload);
    PlusExamples(total, reload, reload - r, reload);
    CountsNext(vals, total, reload, reload, reload - r);
    ReadingsSnoc(before, at, reload);
    OrderedSnoc(before, at);
    times := before + [at];
  }

  /** A target is reached with one more decrement than counted for each restart. */
  lemma SlowestCount(ticks: word, reload: word) returns (times: seq<nat>)
    requires ticks > 0 && reload > 0
    ensures |times| > 1 && Ordered(times) && Ends(Readings(times, reload), |times|, reload, ticks)
    ensures Elapsed(times, |times|) == ticks + (ticks - 1) / reload
  {
    DivMod.Euclid(ticks - 1, reload);
    times := LapsEnd((ticks - 1) / reload, (ticks - 1) % reload + 1, ticks, reload);
  }

  /** The reload value of a clock of `mhz` cycles a microsecond. The counter stands still when it is 0. */
  function ReloadOf(mhz: nat, tickRate: word): word
    requires 0 < tickRate <= 1000000 && 0 < mhz && mhz * (1000000 / tickRate) <= TWO_TO_32
  {
    mhz * (1000000 / tickRate) - 1
  }

  /** Readings with which a wait returns before its microseconds have passed. */
  ghost predicate ReturnsBefore(times: seq<nat>, us: word, mhz: nat, tickRate: word)
    requires 0 < tickRate <= 1000000 && 0 < mhz && mhz * (1000000 / tickRate) <= TWO_TO_32
  {
    var reload := ReloadOf(mhz, tickRate);
    && |times| > 1 && Ordered(times) && Ends(Readings(times, reload), |times|, reload, Ticks(us, reload, tickRate))
    && Elapsed(times, |times|) < us * mhz
  }

  lemma EarlyWitness(us: word, mhz: nat, tickRate: word) returns (times: seq<nat>)
    requires 0 < tickRate <= 1000000 && 0 < mhz && mhz * (1000000 / tickRate) <= TWO_TO_32
    requires ReloadOf(mhz, tickRate) > 0 && us * mhz > 1
    ensures ReturnsBefore(times, us, mhz, tickRate)
  {
    var reload, n := ReloadOf(mhz, tickRate), 1000000 / tickRate;
    var ticks := Ticks(us, reload, tickRate);
    TargetExactly(us, mhz, tickRate);
    if ticks == 0 {
      times := [1, 2];
      CounterInLap(0, 0, reload);
      CounterInLap(0, 1, reload);
      assert LapTime(0, reload) == 1;
    } else {
      times := SlowestCount(ticks, reload);
      FewRestarts(us, mhz, n, ticks);
    }
  }

  /** Fewer restarts than microseconds. */
  lemma FewRestarts(us: nat, mhz: nat, n: nat, ticks: nat)
    requires 0 < mhz && 0 < n && mhz * n > 1 && 0 < ticks <= us * mhz - us
    ensures ticks + (ticks - 1) / (mhz * n - 1) < us * mhz
  {
    var reload := mhz * n - 1;
    DivMod.MulMonotone(1, n, mhz);
    DivMod.MulMonotone(mhz - 1, reload, us);
    assert (mhz - 1) * us == us * mhz - us;
    DivMod.AtLeast(ticks - 1, us, reload);
    assert us * reload == reload * us;
  }

  /** Returning takes at least one decrement. */
  lemma EarlyNeeds(times: seq<nat>, us: word, mhz: nat, tickRate: word)
    requires 0 < tickRate <= 1000000 && 0 < mhz && mhz * (1000000 / tickRate) <= TWO_TO_32
    requires ReturnsBefore(times, us, mhz, tickRate)
    ensures ReloadOf(mhz, tickRate) > 0 && us * mhz > 1
  {
    var n, reload := |times|, ReloadOf(mhz, tickRate);
    var vals := Readings(times, reload);
    assert vals[n - 1] != vals[n - 2] && vals[n - 1] <= reload && vals[n - 2] <= reload;
    FirstIsLeast(times[..n - 1]);
    assert times[0] <= times[n - 2] < times[n - 1];
  }

  /**
    A wait can return early if and only if the counter runs and the wait is longer than a single
    decrement, whatever its length and the clock.
   */
  lemma EarlyExactly(us: word, mhz: nat, tickRate: word)
    requires 0 < tickRate <= 1000000 && 0 < mhz && mhz * (1000000 / tickRate) <= TWO_TO_32
    ensures (exists times :: ReturnsBefore(times, us, mhz, tickRate)) <==> ReloadOf(mhz, tickRate) > 0 && us * mhz > 1
  {
    if ReloadOf(mhz, tickRate) > 0 && us * mhz > 1 {
      var times := EarlyWitness(us, mhz, tickRate);
    }
    forall times | ReturnsBefore(times, us, mhz, tickRate)
      ensures ReloadOf(mhz, tickRate) > 0 && us * mhz > 1
    {
      EarlyNeeds(times, us, mhz, tickRate);
    }
  }

  lemma {:induction false} FirstIsLeast(times: seq<nat>)
    requires times != [] && Ordered(times)
    ensures times[0] <= times[|times| - 1]
  {
    if |times| > 1 {
      FirstIsLeast(times[..|times| - 1]);
    }
  }

  /** The wait itself, read at such moments. */
  method EarlyWait(us: word, mhz: nat, tickRate: word, times: seq<nat>) returns (used: int)
    requires 0 < tickRate <= 1000000 && 0 < mhz && mhz * (1000000 / tickRate) <= TWO_TO_32
    requires ReturnsBefore(times, us, mhz, tickRate)
    ensures 1 < used <= |times| && Elapsed(times, used) < us * mhz
  {
    used := Delay(us, ReloadOf(mhz, tickRate), tickRate, times);
    LaterIsLonger(times, used, |times|);
  }

  lemma {:induction false} LaterIsLonger(times: seq<nat>, m: nat, n: nat)
    requires 0 < m <= n <= |times| && Ordered(times)
    ensures Elapsed(times, m) <= Elapsed(times, n)
    decreases n - m
  {
    if m < n { LaterIsLonger(times, m + 1, n); }
  }

  lemma EarlyReadings()
    ensures Readings([1, 2, 3, 4], 3999) == [3999, 3998, 3997, 3996] && Ticks(1, 3999, 1000) == 3
  {
    assert 1000000 / 1000 == 1000 && 3999 / 1000 == 3;
  }

  lemma EarlyEnd(vals: seq<word>)
    requires vals == [3999, 3998, 3997, 3996]
    ensures !Ends(vals, 2, 3999, 3) && !Ends(vals, 3, 3999, 3) && Ends(vals, 4, 3999, 3)
  {
    assert Total(vals, 1, 3999) == 0;
    assert Total(vals, 2, 3999) == 1;
    assert Total(vals, 3, 3999) == 2;
    assert Total(vals, 4, 3999) == 3;
  }

  /** One microsecond at 4 MHz with a tick of 1 ms: the wait returns after 3 of the 4 decrements. */
  method ReturnsEarly() returns (used: int)
    ensures used == 4 && Elapsed([1, 2, 3, 4], used) == 3 < 1 * 4
  {
    EarlyReadings();
    EarlyEnd(Readings([1, 2, 3, 4], 3999));
    used := Delay(1, 3999, 1000, [1, 2, 3, 4]);
  }

  /** Eighteen seconds at 240 MHz: the product overflows, and the target is what passes in 30 ms. */
  lemma LongTargetWraps()
    ensures Ticks(18000000, 239999, 1000) == 7032704 < 30000 * 240
  {
    assert 1000000 / 1000 == 1000 && 239999 / 1000 == 239;
  }
}
