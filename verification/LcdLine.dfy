/** Line drawing on the SPI display (board/port/drv_spi_ili9488.c). */
module LcdLine {
  import DivMod

  /** A 16-bit screen coordinate. */
  type coord = x: int | 0 <= x < 0x10000

  datatype Point = Point(x: int, y: int)

  function Abs(d: int): (a: nat) {
    if d < 0 then -d else d
  }

  function Sign(d: int): int {
    if d > 0 then 1 else if d == 0 then 0 else -1
  }

  /** `n` pixels in the direction of `d`. */
  function Toward(d: int, n: int): int {
    if d > 0 then n else if d == 0 then 0 else -n
  }

  /** The length of the longer side. */
  function Distance(x1: coord, y1: coord, x2: coord, y2: coord): nat {
    if Abs(x2 - x1) > Abs(y2 - y1) then Abs(x2 - x1) else Abs(y2 - y1)
  }

  /** How far a side of length `delta` has advanced when point `t` is drawn. */
  function Advance(t: nat, delta: nat, distance: nat): nat
    requires distance > 0
  {
    if t == 0 || delta == 0 then 0 else (t * delta - 1) / distance
  }

  /** Point `t` of the line. */
  function LinePoint(x1: coord, y1: coord, x2: coord, y2: coord, t: nat): Point
    requires y1 != y2
  {
    var distance := Distance(x1, y1, x2, y2);
    Point(x1 + Toward(x2 - x1, Advance(t, Abs(x2 - x1), distance)),
          y1 + Toward(y2 - y1, Advance(t, Abs(y2 - y1), distance)))
  }

  /** The error accumulator of one side: `t` additions of `delta`, `steps` subtractions of `distance`. */
  predicate Accumulated(t: nat, delta: nat, distance: nat, err: int, steps: nat) {
    && t * delta == distance * steps + err
    && (if t == 0 || delta == 0 then err == 0 && steps == 0 else 1 <= err <= distance)
  }

  lemma AccumulatedSteps(t: nat, delta: nat, distance: nat, err: int, steps: nat)
    requires distance > 0 && Accumulated(t, delta, distance, err, steps)
    ensures steps == Advance(t, delta, distance)
  {
    if t > 0 && delta > 0 {
      DivMod.Unique(t * delta - 1, steps, err - 1, distance);
    }
  }

  /** One more addition, and a subtraction when the sum exceeds the distance. */
  lemma Accumulate(t: nat, delta: nat, distance: nat, err: int, steps: nat)
    requires 0 < distance && delta <= distance && Accumulated(t, delta, distance, err, steps)
    ensures var over := err + delta > distance;
            var err', steps' := err + delta - (if over then distance else 0), steps + (if over then 1 else 0);
            Accumulated(t + 1, delta, distance, err', steps') && steps' == Advance(t + 1, delta, distance)
  {
    assert (t + 1) * delta == t * delta + delta;
    assert distance * (steps + 1) == distance * steps + distance;
    var over := err + delta > distance;
    var err' := err + delta - if over then distance else 0;
    AccumulatedSteps(t + 1, delta, distance, err', steps + if over then 1 else 0);
  }

  /** One side of the loop: its accumulator after `t` rounds. */
  function Err(t: nat, delta: nat, distance: nat): int {
    if t == 0 then 0
    else
      var sum := Err(t - 1, delta, distance) + delta;
      if sum > distance then sum - distance else sum
  }

  /** And its coordinate. */
  function At(t: nat, start: int, inc: int, delta: nat, distance: nat): int {
    if t == 0 then start
    else At(t - 1, start, inc, delta, distance) + (if Err(t - 1, delta, distance) + delta > distance then inc else 0)
  }

  lemma {:induction false} SideAdvance(t: nat, start: int, e: int, distance: nat)
    requires 0 < distance && Abs(e) <= distance
    ensures Accumulated(t, Abs(e), distance, Err(t, Abs(e), distance), Advance(t, Abs(e), distance))
    ensures At(t, start, Sign(e), Abs(e), distance) == start + Toward(e, Advance(t, Abs(e), distance))
  {
    if t == 0 {
      assert t * Abs(e) == 0;
    } else {
      SideAdvance(t - 1, start, e, distance);
      Accumulate(t - 1, Abs(e), distance, Err(t - 1, Abs(e), distance), Advance(t - 1, Abs(e), distance));
    }
  }

  /** The loop test. */
  predicate LoopGoesOn(t: int, distance: nat) {
    t <= distance + 1
  }

  /** The counter has 16 bits, so the loop never ends for distances from 65534 on. */
  lemma CounterStopsExactly(distance: nat)
    ensures (exists t: coord :: !LoopGoesOn(t, distance)) <==> distance <= 65533
  {
    if distance <= 65533 {
      assert !LoopGoesOn(65535, distance);
    }
  }

  /** The points of the first `n` rounds. */
  function Trace(n: nat, x1: int, y1: int, incx: int, incy: int, deltaX: nat, deltaY: nat, distance: nat)
    : (points: seq<Point>)
    ensures |points| == n
    ensures forall k :: 0 <= k < n ==>
      points[k] == Point(At(k, x1, incx, deltaX, distance), At(k, y1, incy, deltaY, distance))
  {
    if n == 0 then []
    else
      Trace(n - 1, x1, y1, incx, incy, deltaX, deltaY, distance)
      + [Point(At(n - 1, x1, incx, deltaX, distance), At(n - 1, y1, incy, deltaY, distance))]
  }

  /** The loop: the points drawn, in order. */
  method Rasterise(x1: int, y1: int, incx: int, incy: int, deltaX: nat, deltaY: nat, distance: nat)
    returns (points: seq<Point>)
    ensures points == Trace(distance + 2, x1, y1, incx, incy, deltaX, deltaY, distance)
  {
    points := [];
    var xerr, yerr, row, col := 0, 0, x1, y1;
    var t := 0;
    while LoopGoesOn(t, distance)
      invariant 0 <= t <= distance + 2 && |points| == t
      invariant xerr == Err(t, deltaX, distance) && row == At(t, x1, incx, deltaX, distance)
      invariant yerr == Err(t, deltaY, distance) && col == At(t, y1, incy, deltaY, distance)
      invariant points == Trace(t, x1, y1, incx, incy, deltaX, deltaY, distance)
      decreases distance + 2 - t
    {
      points := points + [Point(row, col)];
      xerr, yerr := xerr + deltaX, yerr + deltaY;
      if xerr > distance {
        xerr, row := xerr - distance, row + incx;
      }
      if yerr > distance {
        yerr, col := yerr - distance, col + incy;
      }
      t := t + 1;
    }
  }

  /** The general path. */
  method DrawSlanted(x1: coord, y1: coord, x2: coord, y2: coord) returns (points: seq<Point>)
    requires y1 != y2 && Distance(x1, y1, x2, y2) <= 65533
    ensures IsLine(x1, y1, x2, y2, points)
  {
    var distance := Distance(x1, y1, x2, y2);
    points := Rasterise(x1, y1, Sign(x2 - x1), Sign(y2 - y1), Abs(x2 - x1), Abs(y2 - y1), distance);
    forall k | 0 <= k < |points|
      ensures points[k] == LinePoint(x1, y1, x2, y2, k)
    {
      SideAdvance(k, x1, x2 - x1, distance);
      SideAdvance(k, y1, y2 - y1, distance);
    }
  }

  /**
    The points drawn, in order. A horizontal line takes the fast path: `x2 - x1` pixels are sent
    into the window from (x1, y1) to (x2, y2), so its last pixel is never drawn. The fast path's
    buffer takes 320 pixels, and the 16-bit loop counter lets the other path end only for
    distances up to 65533.
   */
  method DrawLine(x1: coord, y1: coord, x2: coord, y2: coord) returns (points: seq<Point>)
    requires y1 == y2 ==> x1 <= x2 <= x1 + 320
    requires Distance(x1, y1, x2, y2) <= 65533
    ensures IsLine(x1, y1, x2, y2, points)
    ensures Point(x2, y2) in points <==> y1 != y2
    ensures y1 == y2 ==> |points| == x2 - x1 && forall i :: 0 <= i < x2 - x1 ==> points[i] == Point(x1 + i, y1)
    ensures y1 != y2 ==>
      && |points| == Distance(x1, y1, x2, y2) + 2
      && points[0] == Point(x1, y1) && points[|points| - 1] == Point(x2, y2)
  {
    if y1 == y2 {
      points := [];
      for i := 0 to x2 - x1
        invariant points == seq(i, k => Point(x1 + k, y1))
      {
        points := points + [Point(x1 + i, y1)];
      }
    } else {
      points := DrawSlanted(x1, y1, x2, y2);
    }
    EndDrawnExactly(x1, y1, x2, y2, points);
    if y1 != y2 { LineShape(x1, y1, x2, y2, 0); }
  }

  /** The pixels of a line, in the order in which they are drawn. */
  predicate IsLine(x1: coord, y1: coord, x2: coord, y2: coord, points: seq<Point>) {
    if y1 == y2 then x1 <= x2 && points == seq(x2 - x1, i => Point(x1 + i, y1))
    else
      && |points| == Distance(x1, y1, x2, y2) + 2
      && forall t :: 0 <= t < |points| ==> points[t] == LinePoint(x1, y1, x2, y2, t)
  }

  // ----- What the points are -----

  /** The accumulator that goes with `Advance`. */
  lemma AdvanceAccumulated(t: nat, delta: nat, distance: nat) returns (err: int)
    requires distance > 0
    ensures Accumulated(t, delta, distance, err, Advance(t, delta, distance))
  {
    if t == 0 || delta == 0 {
      err := 0;
      assert t * delta == 0;
    } else {
      assert t * delta >= 1 by { assert (t - 1) * delta >= 0; assert t * delta == (t - 1) * delta + delta; }
      DivMod.Euclid(t * delta - 1, distance);
      err := (t * delta - 1) % distance + 1;
    }
  }

  lemma AdvanceStep(t: nat, delta: nat, distance: nat)
    requires 0 < distance && delta <= distance
    ensures Advance(t, delta, distance) <= Advance(t + 1, delta, distance) <= Advance(t, delta, distance) + 1
  {
    var err := AdvanceAccumulated(t, delta, distance);
    Accumulate(t, delta, distance, err, Advance(t, delta, distance));
    if err + delta > distance {
      AccumulatedSteps(t + 1, delta, distance, err + delta - distance, Advance(t, delta, distance) + 1);
    } else {
      AccumulatedSteps(t + 1, delta, distance, err + delta, Advance(t, delta, distance));
    }
  }

  /** The longer side advances by one at each point but the first. */
  lemma AdvanceMajor(t: nat, distance: nat)
    requires 0 < distance
    ensures Advance(t, distance, distance) == if t == 0 then 0 else t - 1
  {
    if t > 0 {
      assert t * distance == (t - 1) * distance + distance;
      DivMod.Unique(t * distance - 1, t - 1, distance - 1, distance);
    }
  }

  /** A side starts at 0, and has come exactly its length when the last point is drawn. */
  lemma AdvanceEnds(delta: nat, distance: nat)
    requires 0 < distance && delta <= distance
    ensures Advance(0, delta, distance) == 0 && Advance(distance + 1, delta, distance) == delta
  {
    if delta > 0 {
      assert (distance + 1) * delta == delta * distance + delta;
      DivMod.Unique((distance + 1) * delta - 1, delta, delta - 1, distance);
    }
  }

  lemma {:induction false} AdvanceMonotone(t: nat, u: nat, delta: nat, distance: nat)
    requires t <= u && 0 < distance && delta <= distance
    ensures Advance(t, delta, distance) <= Advance(u, delta, distance)
    decreases u - t
  {
    if t < u {
      AdvanceStep(t, delta, distance);
      AdvanceMonotone(t + 1, u, delta, distance);
    }
  }

  lemma AdvanceInside(t: nat, delta: nat, distance: nat)
    requires 0 < distance && delta <= distance && t <= distance + 1
    ensures 0 <= Advance(t, delta, distance) <= delta
  {
    AdvanceMonotone(t, distance + 1, delta, distance);
    AdvanceEnds(delta, distance);
  }

  /**
    Against the ideal line: where the longer side has come `m` of `distance`, the ideal shorter
    side has come m * delta / distance. The point is strictly less than one pixel away from it.
   */
  lemma AdvanceNearIdeal(t: nat, delta: nat, distance: int)
    requires 0 < distance && delta <= distance
    ensures -distance < distance * Advance(t, delta, distance) - Advance(t, distance, distance) * delta < distance
  {
    AdvanceMajor(t, distance);
    if t > 0 {
      var err := AdvanceAccumulated(t, delta, distance);
      assert (t - 1) * delta == t * delta - delta;
    }
  }

  function Between(a: int, lo: int, hi: int): bool {
    if lo <= hi then lo <= a <= hi else hi <= a <= lo
  }

  /** A line that is not horizontal starts at its first end, ends at its second, and never jumps or strays. */
  lemma LineShape(x1: coord, y1: coord, x2: coord, y2: coord, t: nat)
    requires y1 != y2 && t <= Distance(x1, y1, x2, y2) + 1
    ensures LinePoint(x1, y1, x2, y2, 0) == Point(x1, y1)
    ensures LinePoint(x1, y1, x2, y2, Distance(x1, y1, x2, y2) + 1) == Point(x2, y2)
    ensures var p := LinePoint(x1, y1, x2, y2, t);
            Between(p.x, x1, x2) && Between(p.y, y1, y2)
    ensures var p, q := LinePoint(x1, y1, x2, y2, t), LinePoint(x1, y1, x2, y2, t + 1);
            Abs(q.x - p.x) <= 1 && Abs(q.y - p.y) <= 1
  {
    var d, dx, dy := Distance(x1, y1, x2, y2), Abs(x2 - x1), Abs(y2 - y1);
    AdvanceEnds(dx, d);
    AdvanceEnds(dy, d);
    AdvanceInside(t, dx, d);
    AdvanceInside(t, dy, d);
    AdvanceStep(t, dx, d);
    AdvanceStep(t, dy, d);
  }

  /**
    Every point is strictly less than one pixel from the ideal line, measured along the shorter
    side: |(p.y - y1)(x2 - x1) - (p.x - x1)(y2 - y1)| < distance.
   */
  lemma LineNearIdeal(x1: coord, y1: coord, x2: coord, y2: coord, t: nat)
    requires y1 != y2
    ensures var p := LinePoint(x1, y1, x2, y2, t);
            Abs((p.y - y1) * (x2 - x1) - (p.x - x1) * (y2 - y1)) < Distance(x1, y1, x2, y2)
  {
    var dx, dy := Abs(x2 - x1), Abs(y2 - y1);
    CrossNearIdeal(t, dx, dy);
    SignedCross(x2 - x1, y2 - y1, Advance(t, dx, Max(dx, dy)), Advance(t, dy, Max(dx, dy)));
  }

  function Max(a: nat, b: nat): nat {
    if a > b then a else b
  }

  /** The same for sides without a direction. */
  lemma CrossNearIdeal(t: nat, dx: nat, dy: nat)
    requires dx > 0 || dy > 0
    ensures var d := Max(dx, dy);
            Abs(Advance(t, dy, d) * dx - Advance(t, dx, d) * dy) < d
  {
    var d := Max(dx, dy);
    var ax, ay := Advance(t, dx, d), Advance(t, dy, d);
    if dx > dy {
      AdvanceNearIdeal(t, dy, dx);
      assert dx * ay == ay * dx;
    } else {
      AdvanceNearIdeal(t, dx, dy);
      assert dy * ax == ax * dy;
    }
  }

  /** Flipping the direction of a side flips the sign of the cross product at most. */
  lemma SignedCross(ex: int, ey: int, ax: nat, ay: nat)
    ensures Abs(Toward(ey, ay) * ex - Toward(ex, ax) * ey) <= Abs(ay * Abs(ex) - ax * Abs(ey))
  {
    if ex >= 0 && ey >= 0 {
    } else if ex >= 0 {
      assert Toward(ey, ay) * ex == -(ay * Abs(ex));
    } else if ey >= 0 {
      assert Toward(ex, ax) * ey == -(ax * Abs(ey));
    } else {
      assert Toward(ey, ay) * ex == ay * Abs(ex);
    }
  }

  /** The end point is drawn exactly when the line is not horizontal. */
  lemma EndDrawnExactly(x1: coord, y1: coord, x2: coord, y2: coord, points: seq<Point>)
    requires IsLine(x1, y1, x2, y2, points)
    ensures Point(x2, y2) in points <==> y1 != y2
  {
    if y1 != y2 {
      LineShape(x1, y1, x2, y2, 0);
      assert points[|points| - 1] == Point(x2, y2);
    }
  }
}
