/** An injectable fake clock, standing in for the clock capability that the
    observed-state cache reads. Instants are natural numbers; 0 is the zero
    instant, the value an unset timestamp holds, no later than every reading. */
module Clock {

  /** A clock reading. */
  type Time = nat

  /** A signed difference between two readings. */
  type Duration = int

  /** A controllable clock: tests move it forward by hand instead of sleeping. */
  class FakeClock {
    var now: Time

    constructor (start: Time)
      ensures now == start
    {
      now := start;
    }

    /** The current reading. */
    function Now(): Time
      reads this
    {
      now
    }

    /** The time elapsed from `t` to the current reading. */
    function Since(t: Time): Duration
      reads this
    {
      now - t
    }

    /** Moves the clock forward by `d`; a fake clock never moves backwards. */
    method Advance(d: nat)
      modifies this
      ensures now == old(now) + d
    {
      now := now + d;
    }
  }
}
