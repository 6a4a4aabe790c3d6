/** The virtual-clock arithmetic of the speed hack, as values.

    A clock state is the affine anchor the manager keeps: the real tick `base` at which the
    current speed took effect, the virtual tick `offset` shown at that moment, and the speed
    factor. The source computes in `f64` and casts back with `as i64`; here the factor is a
    `real`, ticks are unbounded `int`s, and the cast is truncation toward zero (`Trunc`).
    IEEE-754 rounding of the conversion and of the multiply, and the saturation of the cast
    at the ends of the `i64` range, are abstracted away. */
module Clock {

  /** Truncation toward zero: Rust's `x as i64` on a value in range. It is NOT `x.Floor`,
      which rounds a negative non-integer down instead of up. */
  function Trunc(x: real): (r: int)
    ensures 0.0 <= x ==> r as real <= x < r as real + 1.0
    ensures x < 0.0 ==> r as real - 1.0 < x <= r as real
  {
    if x >= 0.0 then x.Floor else -((-x).Floor)
  }

  /** Truncation toward zero never moves a value past zero: its magnitude never grows. */
  lemma TruncTowardZero(x: real)
    ensures 0.0 <= x ==> 0 <= Trunc(x) && Trunc(x) as real <= x
    ensures x <= 0.0 ==> Trunc(x) <= 0 && x <= Trunc(x) as real
  {
  }

  /** Truncation is order-preserving, so a non-decreasing scaled delta gives a non-decreasing
      truncated delta. */
  lemma TruncMonotone(x: real, y: real)
    requires x <= y
    ensures Trunc(x) <= Trunc(y)
  {
    if 0.0 <= x {
      assert Trunc(x) as real <= x <= y < Trunc(y) as real + 1.0;
    } else if 0.0 <= y {
      assert Trunc(x) <= 0 <= Trunc(y);
    } else {
      assert Trunc(x) as real - 1.0 < x <= y <= Trunc(y) as real;
    }
  }

  /** An integral value survives the cast unchanged. */
  lemma TruncOfInt(n: int)
    ensures Trunc(n as real) == n
  {
  }

  /** The three fields of `SpeedHackManager`: `speed`, `qpc_basetime`, `qpc_offset_time`. */
  datatype ClockState = ClockState(speed: real, base: int, offset: int)

  /** The state `new` builds from its first real tick `t0`: real-time speed, both anchors at
      `t0`. */
  function Initial(t0: int): ClockState
  {
    ClockState(1.0, t0, t0)
  }

  /** The exact virtual delta: `elapsed` real ticks at factor `speed`, before the cast. With a
      non-negative speed it grows with the elapsed time and is never negative for a
      non-negative elapsed time. */
  function Scale(elapsed: int, speed: real): (x: real)
    ensures 0 <= elapsed && 0.0 <= speed ==> 0.0 <= x
  {
    assert 0 <= elapsed && 0.0 <= speed ==> 0.0 <= elapsed as real * speed by {
      if 0 <= elapsed && 0.0 <= speed {
        NonNegativeProduct(elapsed as real, speed);
      }
    }
    elapsed as real * speed
  }

  lemma NonNegativeProduct(a: real, b: real)
    requires 0.0 <= a && 0.0 <= b
    ensures 0.0 <= a * b
  {
  }

  lemma {:induction false} ScaleMonotone(e1: int, e2: int, speed: real)
    requires e1 <= e2 && 0.0 <= speed
    ensures Scale(e1, speed) <= Scale(e2, speed)
  {
    var a, b := e1 as real, e2 as real;
    NonNegativeProduct(b - a, speed);
    assert b * speed - a * speed == (b - a) * speed;
  }

  /** The virtual tick shown at real tick `now`: the offset plus the real ticks elapsed since
      the base, scaled by the speed and truncated toward zero. */
  function Virtual(st: ClockState, now: int): int
  {
    st.offset + Trunc(Scale(now - st.base, st.speed))
  }

  /** For a non-negative speed and elapsed time, a read is at least the offset, and its delta
      from the offset is the exact scaled delta rounded down: never above it and less than one
      tick below it. */
  lemma VirtualBounds(st: ClockState, now: int)
    requires st.speed >= 0.0 && now >= st.base
    ensures st.offset <= Virtual(st, now)
    ensures (Virtual(st, now) - st.offset) as real <= Scale(now - st.base, st.speed)
    ensures Scale(now - st.base, st.speed) < (Virtual(st, now) - st.offset + 1) as real
  {
  }

  /** The re-anchoring `set_speed` performs: the new offset is the virtual tick at the first
      real read `now1`, computed with the OLD speed; the new base is the second real read
      `now2`; only then does the speed change. Hence the new curve starts at real tick `now2`
      exactly where the old one stood at `now1`. */
  function Reanchor(st: ClockState, speed: real, now1: int, now2: int): ClockState
  {
    ClockState(speed, now2, Virtual(st, now1))
  }

  /** Identity at real-time speed: with speed 1.0 and the offset equal to the base, every read
      returns the real tick itself. In particular a freshly built manager is transparent. */
  lemma IdentityAtUnitSpeed(st: ClockState, now: int)
    requires st.speed == 1.0 && st.offset == st.base
    ensures Virtual(st, now) == now
  {
    IntegralSpeed(st, now, 1);
  }

  lemma InitialIsTransparent(t0: int, now: int)
    ensures Initial(t0).speed == 1.0
    ensures Virtual(Initial(t0), now) == now
  {
    IdentityAtUnitSpeed(Initial(t0), now);
  }

  /** Scaling: for a non-negative speed and a non-negative elapsed time, the virtual delta since
      the anchor is the floor of the exact scaled delta. */
  lemma ScaledDelta(st: ClockState, now: int)
    requires st.speed >= 0.0 && now >= st.base
    ensures Virtual(st, now) - st.offset == ((now - st.base) as real * st.speed).Floor
  {
  }

  /** At a whole-number speed `n` the cast loses nothing: every elapsed real tick adds exactly
      `n` virtual ticks. */
  lemma IntegralSpeed(st: ClockState, now: int, n: int)
    requires st.speed == n as real
    ensures Virtual(st, now) == st.offset + (now - st.base) * n
  {
    var e := now - st.base;
    assert Scale(e, st.speed) == (e * n) as real;
    TruncOfInt(e * n);
  }

  /** Under one fixed state, a non-negative speed makes reading non-decreasing in the real
      tick. */
  lemma VirtualMonotone(st: ClockState, t1: int, t2: int)
    requires st.speed >= 0.0 && t1 <= t2
    ensures Virtual(st, t1) <= Virtual(st, t2)
  {
    ScaleMonotone(t1 - st.base, t2 - st.base, st.speed);
    TruncMonotone(Scale(t1 - st.base, st.speed), Scale(t2 - st.base, st.speed));
  }

  /** Continuity: read at the new base, the re-anchored clock shows exactly what the old clock
      showed at the first real read. In particular, when no real time passes between the two
      reads of `set_speed`, a read at that tick is the same after the speed change as before. */
  lemma Continuity(st: ClockState, speed: real, now1: int, now2: int)
    ensures Virtual(Reanchor(st, speed, now1, now2), now2) == Virtual(st, now1)
    ensures now1 == now2 ==> Virtual(Reanchor(st, speed, now1, now2), now1) == Virtual(st, now1)
  {
    TruncOfInt(0);
  }

  /** No negative time warp across a speed change: with a non-negative new speed, every read at
      or after the second real read `now2` is at least the virtual value at the first read
      `now1`, which with a non-negative old speed is at least every read taken before `now1`. */
  lemma NoBackwardWarpAcrossSetSpeed(st: ClockState, speed: real, before: int, now1: int, now2: int, after: int)
    requires st.speed >= 0.0 && speed >= 0.0
    requires before <= now1 <= now2 <= after
    ensures Virtual(st, before) <= Virtual(Reanchor(st, speed, now1, now2), after)
  {
    VirtualMonotone(st, before, now1);
    Continuity(st, speed, now1, now2);
    VirtualMonotone(Reanchor(st, speed, now1, now2), now2, after);
  }

  /** Why the order matters: had `set_speed` overwritten the speed before taking the new offset,
      slowing a clock that has run at real-time speed from tick 0 to tick 100 down to half speed
      would move it back from 100 to 50. */
  lemma SpeedFirstWouldWarpBack()
    ensures Virtual(ClockState(1.0, 0, 0), 100) == 100
    ensures Virtual(ClockState(0.5, 0, 0), 100) == 50
  {
    TruncOfInt(100);
    assert 100.0 * 0.5 == 50 as real;
    TruncOfInt(50);
  }

  /** A worked run: a clock built at real tick 1000 reads 1100 at real tick 1100 (see
      `InitialIsTransparent`). `set_speed(2.0)` with both real reads at 1100 leaves both anchors
      at 1100, and at real tick 1150 the clock then reads 1100 + 50 * 2 = 1200. */
  lemma DoubleSpeedScenario()
    ensures Reanchor(Initial(1000), 2.0, 1100, 1100) == ClockState(2.0, 1100, 1100)
    ensures Virtual(ClockState(2.0, 1100, 1100), 1150) == 1200
  {
    assert Scale(100, 1.0) == 100 as real && Scale(50, 2.0) == 100 as real;
    TruncOfInt(100);
  }
}
