# speedhack-rs virtual clock, in Dafny

This project models the clock arithmetic of `SpeedHackManager` in speedhack-rs. The program
detours the process's `QueryPerformanceCounter` through the manager. Each detoured call then
returns a virtual tick instead of the real one. The manager keeps three fields:

- `speed`, the factor applied to elapsed real ticks;
- `qpc_basetime`, the real tick at which that speed took effect;
- `qpc_offset_time`, the virtual tick shown at that moment.

A read at real tick `now` returns `offset + trunc((now - base) * speed)`. `set_speed` re-anchors
the clock. It first stores the current virtual tick (under the old speed) as the new offset. It
then stores a fresh real tick as the new base. Only after that does it overwrite the speed. This
order is what keeps the clock from warping backwards.

Files:

- `clock.dfy`, module `Clock`: the arithmetic as values. It holds truncation toward zero, the
  clock state, the read formula and the re-anchoring. The lemmas cover identity at speed 1.0,
  scaling, monotonicity, continuity and the absence of a backward warp across one speed change.
  It also holds the worked run "start at 1000, double speed at 1100, read 1200 at 1150".
- `timeline.dfy`, module `Timeline`: runs made of reads and speed changes in any interleaving.
  It proves that a run never goes back in virtual time. It also proves that the speed reported
  is the one last set, or 1.0.
- `speedhack.dfy`, module `SpeedHack`: the class `SpeedHackManager`. Its constructor and its
  `SetSpeed` method update the three fields in place, in the source's order. `Speed` and
  `GetPerformanceCounter` are functions that read the fields.

Every real-counter read is an explicit parameter:

- `t0` is the read in `new`;
- `now` is the read in `get_performance_counter`;
- `now1` and `now2` are the two reads in `set_speed`.

`now1` is the read inside the nested `get_performance_counter` call. `now2` is the read that
becomes the new base. The `f64` speed is a Dafny `real`. Ticks are unbounded `int`s. The
`as i64` cast is truncation toward zero (`Clock.Trunc`), not `Floor`.

`set_speed` accepts any speed, including zero and negative ones, as the code does. Non-negative
speeds and a real counter that never goes back are hypotheses of the monotonicity lemmas only.
A negative speed makes the clock run backwards, and the model allows that just as the code does.

## Model

| member | source | states |
|---|---|---|
| Clock.Trunc | speedhack_rs/src/speedhack.rs:68 | the `as i64` cast truncates toward zero: for x ≥ 0 the result r satisfies r ≤ x < r + 1, and for x < 0 it satisfies r − 1 < x ≤ r |
| Clock.TruncTowardZero | speedhack_rs/src/speedhack.rs:68 | the cast never raises a magnitude: a non-negative value maps to an integer between 0 and itself, and a non-positive value to one between itself and 0 |
| Clock.TruncMonotone | speedhack_rs/src/speedhack.rs:68 | the cast preserves order: x ≤ y implies Trunc(x) ≤ Trunc(y) |
| Clock.TruncOfInt | speedhack_rs/src/speedhack.rs:68 | an integral product survives the cast unchanged |
| Clock.Scale | speedhack_rs/src/speedhack.rs:68 | the exact scaled delta `(now - base) * speed` before the cast is never negative when the elapsed time and the speed are both non-negative |
| Clock.ScaleMonotone | speedhack_rs/src/speedhack.rs:68 | with speed ≥ 0, a longer elapsed time never gives a smaller scaled delta |
| Clock.VirtualBounds | speedhack_rs/src/speedhack.rs:63-69 | for speed ≥ 0 and now ≥ base, the read is at least the offset, and its delta from the offset is at most the exact scaled delta and less than one tick below it |
| Clock.IntegralSpeed | speedhack_rs/src/speedhack.rs:68 | at a whole-number speed n the cast loses nothing: a read is exactly offset + (now − base) × n |
| Clock.IdentityAtUnitSpeed | speedhack_rs/src/speedhack.rs:68 | at speed 1.0 with offset = base, a read at real tick `now` returns exactly `now` |
| Clock.InitialIsTransparent | speedhack_rs/src/speedhack.rs:33-37 | the state `new` builds has speed 1.0, and every read from it returns the real tick unchanged |
| Clock.ScaledDelta | speedhack_rs/src/speedhack.rs:68 | for speed ≥ 0 and elapsed time ≥ 0, the virtual delta since the anchor is the floor of elapsed × speed |
| Clock.VirtualMonotone | speedhack_rs/src/speedhack.rs:68 | with speed ≥ 0, reads under one state never decrease as the real tick grows, even before the base |
| Clock.Continuity | speedhack_rs/src/speedhack.rs:49-57 | after `set_speed` with real reads `now1` then `now2`, a read at `now2` equals the old clock's read at `now1`; so when both reads give the same tick, a read at that tick is the same after the call as before it |
| Clock.NoBackwardWarpAcrossSetSpeed | speedhack_rs/src/speedhack.rs:49-57 | with both speeds ≥ 0 and before ≤ now1 ≤ now2 ≤ after, a read at `after` under the new state is at least a read at `before` under the old state |
| Clock.SpeedFirstWouldWarpBack | speedhack_rs/src/speedhack.rs:50-56 | a clock at speed 1.0 reads 100 at real tick 100, but the same anchor at speed 0.5 reads 50; storing the new speed before the offset would therefore jump back |
| Clock.DoubleSpeedScenario | speedhack_rs/src/speedhack.rs:49-69 | a clock built at 1000 that changes to speed 2.0 with both real reads at 1100 has both anchors at 1100 and then reads 1200 at real tick 1150 |
| Timeline.FinalSpeed | speedhack_rs/src/speedhack.rs:49-61 | after any run, the speed is the one passed to the run's last speed change, or the starting speed if there was none |
| Timeline.SpeedOfFreshManager | speedhack_rs/src/speedhack.rs:33-61 | for a manager built by `new`, `speed()` is the last speed set, or 1.0 if none was set |
| Timeline.ReadsNotBelow | speedhack_rs/src/speedhack.rs:49-69 | from a state with speed ≥ 0, with every speed set ≥ 0 and real ticks non-decreasing from `last` on, every read is at least the virtual value at `last`, and the reads are non-decreasing |
| Timeline.NoNegativeTimeWarp | speedhack_rs/src/speedhack.rs:49-69 | for a fresh manager built at `t0`, any interleaving of reads and non-negative speed changes over non-decreasing real ticks gives non-decreasing reads, none below `t0` |
| SpeedHack.SpeedHackManager.constructor | speedhack_rs/src/speedhack.rs:22-37 | a new manager has speed 1.0 and both anchors at the first real tick, so every read returns the real tick unchanged |
| SpeedHack.SpeedHackManager.Speed | speedhack_rs/src/speedhack.rs:59-61 | `speed()` returns the speed of the clock state; Timeline.SpeedOfFreshManager shows that this is the last speed set, or 1.0 |
| SpeedHack.SpeedHackManager.GetPerformanceCounter | speedhack_rs/src/speedhack.rs:63-69 | a read at real tick `now` is the clock model's virtual value for the current fields; as a function it changes no field |
| SpeedHack.SpeedHackManager.SetSpeed | speedhack_rs/src/speedhack.rs:49-57 | the offset becomes the old-speed read at `now1`, the base becomes `now2` and the speed becomes `s`, in that order; a read at `now2` afterwards equals the read at `now1` before |

## Left out

- The detour machinery (`static_detour!`, `initialize`, `enable`, `call`, `detach`, lines
  17-19, 26-31 and 40-47) is binary code patching done by an external crate. The error paths
  of `initialize` and `enable` in `new` are left out with it.
- The real `QueryPerformanceCounter` calls (lines 24, 53 and 67) are operating-system calls.
  Each one becomes a tick parameter. The failure of the read in `new` is left out. So is the
  ignored result of the read at line 53: the model sets the base to the supplied `now2`. If
  that read failed in the code, the offset and the speed would still be overwritten while the
  base stayed as it was, so the speed change would not be dropped as a whole.
- The global `MANAGER` (`Lazy<RwLock<…>>`, line 8) and the lock taken in the hook (line 75)
  are concurrency and lazy initialisation. The model treats events as happening one at a
  time, which is what the lock provides.
- `real_query_performance_counter` (lines 73-79) is the foreign-function glue that writes the
  read through a raw pointer and returns `TRUE`.
- `Drop` and the error log (lines 81-87) are finalisation and I/O.
- Floating point: the IEEE-754 rounding of the `i64 → f64` conversion and of the `f64` multiply
  is not modelled. Neither is the saturating `f64 → i64` cast, nor `i64` overflow in
  `temp - qpc_basetime` or in the final addition (line 68). The model uses exact reals,
  truncation toward zero and unbounded integers.
