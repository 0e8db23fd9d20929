/**
  Tick conversion of the low-power timer (libraries/HAL_Drivers/drv_pm.c): what is left over by one
  conversion is carried into the next.
 */
module PmTick {
  import opened Words
  import DivMod

  /** One conversion: the ticks reported and the remainder carried on, with products and sums in 32 bits. */
  function Converted(tick: word, hz: word, remain: word, freq: word): word
    requires freq > 0
  {
    (tick * hz % TWO_TO_32 + remain) % TWO_TO_32 / freq
  }

  function Carried(tick: word, hz: word, remain: word, freq: word): word
    requires freq > 0
  {
    (remain + tick * hz % TWO_TO_32) % TWO_TO_32 % freq
  }

  /** The other direction, which carries nothing. */
  function PmTicks(tick: word, hz: word, freq: word): word
    requires hz > 0
  {
    freq * tick % TWO_TO_32 / hz
  }

  class PmClock {
    const hz: word
    const freq: word
    var remain: word

    constructor (hz: word, freq: word)
      requires hz > 0 && freq > 0
      ensures this.hz == hz && this.freq == freq && remain == 0
    {
      this.hz, this.freq, remain := hz, freq, 0;
    }

    /** Nothing is lost between the report and the remainder exactly when the sum fits 32 bits. */
    method OsTickFromPmTick(tick: word) returns (r: word)
      requires freq > 0
      modifies this
      ensures r == Converted(tick, hz, old(remain), freq)
      ensures remain == Carried(tick, hz, old(remain), freq) < freq
      ensures r * freq + remain == tick * hz + old(remain) <==> tick * hz + old(remain) < TWO_TO_32
    {
      ghost var lost := OneStep(tick, hz, remain, freq);
      r := (tick * hz % TWO_TO_32 + remain) % TWO_TO_32 / freq;
      remain := (remain + tick * hz % TWO_TO_32) % TWO_TO_32;
      remain := remain % freq;
    }
  }

  // ----- Runs of conversions -----

  function Sum(ticks: seq<word>): nat {
    if ticks == [] then 0 else ticks[0] + Sum(ticks[1..])
  }

  /** All that a run of conversions reports. */
  function Reported(ticks: seq<word>, hz: word, remain: word, freq: word): nat
    requires freq > 0
  {
    if ticks == [] then 0
    else Converted(ticks[0], hz, remain, freq) + Reported(ticks[1..], hz, Carried(ticks[0], hz, remain, freq), freq)
  }

  /** What it carries on at its end. */
  function Left(ticks: seq<word>, hz: word, remain: word, freq: word): word
    requires freq > 0
  {
    if ticks == [] then remain else Left(ticks[1..], hz, Carried(ticks[0], hz, remain, freq), freq)
  }

  /** No conversion of the run leaves 32 bits. */
  predicate AllFit(ticks: seq<word>, hz: word, remain: word, freq: word)
    requires freq > 0
  {
    ticks == [] ||
    (ticks[0] * hz + remain < TWO_TO_32 && AllFit(ticks[1..], hz, Carried(ticks[0], hz, remain, freq), freq))
  }

  /** Each conversion accounts for everything but whole overflows, and for all exactly when it fits. */
  lemma OneStep(tick: word, hz: word, remain: word, freq: word) returns (lost: nat)
    requires freq > 0
    ensures Converted(tick, hz, remain, freq) * freq + Carried(tick, hz, remain, freq) + lost * TWO_TO_32
      == tick * hz + remain
    ensures lost == 0 <==> tick * hz + remain < TWO_TO_32
  {
    var p := tick * hz;
    DivMod.ReduceSummand(p, remain, TWO_TO_32);
    DivMod.Euclid((p + remain) % TWO_TO_32, freq);
    lost := (p + remain) / TWO_TO_32;
  }

  /** Reported ticks, the remainder and whole overflows make up the ticks converted. */
  lemma {:induction false} Balance(ticks: seq<word>, hz: word, remain: word, freq: word) returns (lost: nat)
    requires 0 <= remain < freq
    ensures Left(ticks, hz, remain, freq) < freq
    ensures Reported(ticks, hz, remain, freq) * freq + Left(ticks, hz, remain, freq) + lost * TWO_TO_32
      == Sum(ticks) * hz + remain
    ensures lost == 0 <==> AllFit(ticks, hz, remain, freq)
  {
    lost := 0;
    if ticks != [] {
      var next := Carried(ticks[0], hz, remain, freq);
      var here := OneStep(ticks[0], hz, remain, freq);
      var later := Balance(ticks[1..], hz, next, freq);
      Distribute(ticks[0], Sum(ticks[1..]), hz);
      Distribute(Converted(ticks[0], hz, remain, freq), Reported(ticks[1..], hz, next, freq), freq);
      lost := here + later;
    }
  }

  lemma Distribute(a: nat, b: nat, n: nat)
    ensures (a + b) * n == a * n + b * n
  {}

  /** A loss of 32-bit overflows shows in the quotient. */
  lemma QuotientUnless(total: nat, r: nat, left: nat, lost: nat, freq: word)
    requires r * freq + left + lost * TWO_TO_32 == total && left < freq
    ensures r == total / freq <==> lost == 0
  {
    if lost == 0 {
      DivMod.Unique(total, r, left, freq);
    } else {
      DivMod.AtLeast(total, r + 1, freq);
      assert (r + 1) * freq == r * freq + freq;
    }
  }

  /** There is no drift: all reports together are the exact quotient, if and only if every step fits 32 bits. */
  lemma NoDriftExactly(ticks: seq<word>, hz: word, freq: word)
    requires freq > 0
    ensures Reported(ticks, hz, 0, freq) == Sum(ticks) * hz / freq <==> AllFit(ticks, hz, 0, freq)
  {
    var lost := Balance(ticks, hz, 0, freq);
    QuotientUnless(Sum(ticks) * hz, Reported(ticks, hz, 0, freq), Left(ticks, hz, 0, freq), lost, freq);
  }

  /** A sleep of 4294968 PM ticks, 72 minutes at 1 kHz, is reported as none at all. */
  lemma DriftExample()
    ensures Reported([4294968], 1000, 0, 1000) == 0 && Sum([4294968]) * 1000 / 1000 == 4294968
    ensures !AllFit([4294968], 1000, 0, 1000)
  {
    assert 4294968 * 1000 % TWO_TO_32 == 704;
    assert Converted(4294968, 1000, 0, 1000) == 0;
  }

  lemma AtMost(back: nat, tick: nat, freq: nat)
    requires back * freq < tick * freq + freq
    ensures back <= tick
  {
    assert (tick + 1) * freq == tick * freq + freq;
    if back > tick {
      DivMod.MulMonotone(tick + 1, back, freq);
    }
  }

  /** What a conversion to PM ticks keeps of a product: less than one PM tick is lost, unless it overflows. */
  lemma PmShare(tick: word, hz: word, freq: word)
    requires hz > 0
    ensures var p, pm := freq * tick, PmTicks(tick, hz, freq);
            pm * hz <= p % TWO_TO_32 < pm * hz + hz && pm * hz <= p && (p < TWO_TO_32 ==> p - pm * hz < hz)
  {
    DivMod.Euclid(freq * tick % TWO_TO_32, hz);
  }

  /** There and back, whatever is carried: never more than what went in. */
  lemma RoundTripNeverMore(tick: word, hz: word, remain: word, freq: word)
    requires hz > 0 && 0 <= remain < freq
    ensures Converted(PmTicks(tick, hz, freq), hz, remain, freq) <= tick
  {
    var pm := PmTicks(tick, hz, freq);
    PmShare(tick, hz, freq);
    var lost := OneStep(pm, hz, remain, freq);
    AtMost(Converted(pm, hz, remain, freq), tick, freq);
  }

  lemma LossInTicks(back: nat, tick: nat, freq: nat, hz: nat)
    requires freq * tick - back * freq < hz + freq
    ensures freq * (tick - back) < hz + freq
  {}

  /** Without overflow it loses less than one tick and the share of one PM tick. */
  lemma RoundTripLoss(tick: word, hz: word, remain: word, freq: word)
    requires hz > 0 && 0 <= remain < freq && freq * tick + remain < TWO_TO_32
    ensures var back := Converted(PmTicks(tick, hz, freq), hz, remain, freq);
            freq * (tick - back) < hz + freq
  {
    var pm := PmTicks(tick, hz, freq);
    PmShare(tick, hz, freq);
    var lost := OneStep(pm, hz, remain, freq);
    LossInTicks(Converted(pm, hz, remain, freq), tick, freq, hz);
  }
}
