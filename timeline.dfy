/** Runs of the virtual clock: a sequence of reads and speed changes applied to one manager.

    Each real-counter read the source makes becomes an explicit tick in an event: a read of the
    virtual counter at real tick `now`, or a speed change whose two real reads (the one inside
    `get_performance_counter` and the one that becomes the new base) happened at `now1` and then
    `now2`. The reader/writer lock around the manager makes these events happen one at a time,
    which is what a sequence expresses. */
module Timeline {
  import opened Clock

  datatype Event =
    | Read(now: int)
    | SetSpeed(speed: real, now1: int, now2: int)

  /** The state after one event: reads leave every field alone. */
  function Step(st: ClockState, e: Event): ClockState
  {
    match e
    case Read(_) => st
    case SetSpeed(s, now1, now2) => Reanchor(st, s, now1, now2)
  }

  /** The state after a whole run. */
  function Final(st: ClockState, evs: seq<Event>): ClockState
    decreases |evs|
  {
    if evs == [] then st else Final(Step(st, evs[0]), evs[1..])
  }

  /** The virtual values returned by the reads of a run, in order. */
  function Reads(st: ClockState, evs: seq<Event>): seq<int>
    decreases |evs|
  {
    if evs == [] then []
    else
      match evs[0]
      case Read(now) => [Virtual(st, now)] + Reads(st, evs[1..])
      case SetSpeed(_, _, _) => Reads(Step(st, evs[0]), evs[1..])
  }

  /** Every real tick the run observes, in the order the real counter was read. */
  function Ticks(evs: seq<Event>): seq<int>
    decreases |evs|
  {
    if evs == [] then []
    else
      match evs[0]
      case Read(now) => [now] + Ticks(evs[1..])
      case SetSpeed(_, now1, now2) => [now1, now2] + Ticks(evs[1..])
  }

  predicate NonDecreasing(s: seq<int>)
  {
    forall i, j :: 0 <= i < j < |s| ==> s[i] <= s[j]
  }

  predicate SpeedsNonNegative(evs: seq<Event>)
  {
    forall i :: 0 <= i < |evs| && evs[i].SetSpeed? ==> evs[i].speed >= 0.0
  }

  /** The speed passed to the most recent speed change of the run, or `initial` if there is
      none; defined from the end of the run. */
  function LastSpeed(evs: seq<Event>, initial: real): real
    decreases |evs|
  {
    if evs == [] then initial
    else if evs[|evs| - 1].SetSpeed? then evs[|evs| - 1].speed
    else LastSpeed(evs[..|evs| - 1], initial)
  }

  lemma {:induction false} FinalAppend(st: ClockState, evs: seq<Event>, e: Event)
    ensures Final(st, evs + [e]) == Step(Final(st, evs), e)
    decreases |evs|
  {
    if evs == [] {
      assert [e][1..] == [];
    } else {
      assert (evs + [e])[1..] == evs[1..] + [e];
      FinalAppend(Step(st, evs[0]), evs[1..], e);
    }
  }

  /** `speed()` reports the speed of the most recent `set_speed`, or the speed the run started
      with; for a fresh manager that is 1.0. */
  lemma {:induction false} FinalSpeed(st: ClockState, evs: seq<Event>)
    ensures Final(st, evs).speed == LastSpeed(evs, st.speed)
    decreases |evs|
  {
    if evs != [] {
      var init, e := evs[..|evs| - 1], evs[|evs| - 1];
      assert evs == init + [e];
      FinalAppend(st, init, e);
      FinalSpeed(st, init);
    }
  }

  lemma SpeedOfFreshManager(t0: int, evs: seq<Event>)
    ensures Final(Initial(t0), evs).speed == LastSpeed(evs, 1.0)
  {
    FinalSpeed(Initial(t0), evs);
  }

  /** The heart of "no negative time warps": from a state with non-negative speed, if every
      speed change in the run is non-negative and the real counter never goes back from tick
      `last` on, then every read of the run is at least the virtual value at `last`, and the
      reads are non-decreasing. */
  lemma {:induction false} ReadsNotBelow(st: ClockState, evs: seq<Event>, last: int)
    requires st.speed >= 0.0
    requires SpeedsNonNegative(evs)
    requires NonDecreasing([last] + Ticks(evs))
    ensures forall k :: 0 <= k < |Reads(st, evs)| ==> Virtual(st, last) <= Reads(st, evs)[k]
    ensures NonDecreasing(Reads(st, evs))
    decreases |evs|
  {
    if evs != [] {
      var rest := evs[1..];
      var ts := [last] + Ticks(evs);
      assert SpeedsNonNegative(rest) by {
        forall i | 0 <= i < |rest| && rest[i].SetSpeed?
          ensures rest[i].speed >= 0.0
        {
          assert rest[i] == evs[i + 1];
        }
      }
      match evs[0]
      case Read(now) =>
        assert ts == [last, now] + Ticks(rest);
        assert [now] + Ticks(rest) == ts[1..];
        assert last <= now by { assert ts[0] == last && ts[1] == now; }
        ReadsNotBelow(st, rest, now);
        VirtualMonotone(st, last, now);
        var out := Reads(st, evs);
        assert out == [Virtual(st, now)] + Reads(st, rest);
        forall i, j | 0 <= i < j < |out| ensures out[i] <= out[j] {
          if i > 0 {
            assert out[i] == Reads(st, rest)[i - 1] && out[j] == Reads(st, rest)[j - 1];
          } else {
            assert out[j] == Reads(st, rest)[j - 1];
          }
        }
      case SetSpeed(s, now1, now2) =>
        var next := Reanchor(st, s, now1, now2);
        assert s >= 0.0 by { assert evs[0].SetSpeed?; }
        assert ts == [last, now1, now2] + Ticks(rest);
        assert [now2] + Ticks(rest) == ts[2..];
        assert last <= now1 <= now2 by { assert ts[0] == last && ts[1] == now1 && ts[2] == now2; }
        ReadsNotBelow(next, rest, now2);
        VirtualMonotone(st, last, now1);
        Continuity(st, s, now1, now2);
        assert Reads(st, evs) == Reads(next, rest);
    }
  }

  /** No negative time warp, for a whole run of a fresh manager built at real tick `t0`: when
      every speed set is non-negative and the real counter never goes back, the reads never go
      back either and never fall below `t0`. */
  lemma NoNegativeTimeWarp(t0: int, evs: seq<Event>)
    requires SpeedsNonNegative(evs)
    requires NonDecreasing([t0] + Ticks(evs))
    ensures NonDecreasing(Reads(Initial(t0), evs))
    ensures forall k :: 0 <= k < |Reads(Initial(t0), evs)| ==> t0 <= Reads(Initial(t0), evs)[k]
  {
    ReadsNotBelow(Initial(t0), evs, t0);
    InitialIsTransparent(t0, t0);
  }
}
