/** `SpeedHackManager`: the object that owns the virtual clock and whose `set_speed` updates its
    three fields in place. Every read of the real performance counter is a tick parameter; the
    detour that routes the process's counter reads here, and the global lock around the single
    instance, are outside this model. */
module SpeedHack {
  import opened Clock

  class SpeedHackManager {
    var speed: real
    var qpcBasetime: int
    var qpcOffsetTime: int

    /** The fields as a value of the clock model. */
    function State(): ClockState
      reads this
    {
      ClockState(speed, qpcBasetime, qpcOffsetTime)
    }

    /** `new`, after its one real read `t0`: real-time speed and both anchors at `t0`, so the
        manager starts out transparent. */
    constructor (t0: int)
      ensures speed == 1.0 && qpcBasetime == t0 && qpcOffsetTime == t0
      ensures State() == Initial(t0)
      ensures forall now :: GetPerformanceCounter(now) == now
    {
      speed := 1.0;
      qpcBasetime := t0;
      qpcOffsetTime := t0;
      new;
      forall now ensures GetPerformanceCounter(now) == now {
        IdentityAtUnitSpeed(State(), now);
      }
    }

    /** `speed()`: the current speed factor. */
    function Speed(): (r: real)
      reads this
      ensures r == State().speed
    {
      speed
    }

    /** `get_performance_counter`, given the real tick `now` the counter returned: the offset
        plus the elapsed real ticks scaled by the speed, truncated toward zero. It reads the
        fields and changes none of them. */
    function GetPerformanceCounter(now: int): (v: int)
      reads this
      ensures v == Virtual(State(), now)
    {
      qpcOffsetTime + Trunc(Scale(now - qpcBasetime, speed))
    }

    /** `set_speed(s)`, whose two real reads happened at `now1` and then `now2`: first the offset
        becomes the virtual tick at `now1` under the old speed, then the base becomes `now2`,
        and only then is the speed overwritten. */
    method SetSpeed(s: real, now1: int, now2: int)
      modifies this
      ensures qpcOffsetTime == old(GetPerformanceCounter(now1))
      ensures qpcBasetime == now2
      ensures speed == s
      ensures State() == Reanchor(old(State()), s, now1, now2)
      ensures GetPerformanceCounter(now2) == old(GetPerformanceCounter(now1))
      ensures Speed() == s
    {
      qpcOffsetTime := GetPerformanceCounter(now1);
      qpcBasetime := now2;
      speed := s;
    }
  }
}
