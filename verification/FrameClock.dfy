/** `FrameClock`: one wall clock for all tracks, from the camera's wrapping millisecond counter. */
module FrameClock {
  import opened U32

  /** `(int32_t)` of an unsigned 32-bit difference. */
  function Signed32(n: int): int {
    if n >= TWO31 then n - TWO32 else n
  }

  /** Division and remainder as C has them: toward zero. */
  function Quotient(a: int, b: int): int
    requires b > 0
  {
    if a >= 0 then a / b else -((-a) / b)
  }

  function Remainder(a: int, b: int): int
    requires b > 0
  {
    a - b * Quotient(a, b)
  }

  datatype Timeval = Timeval(sec: int, usec: int) {
    function Total(): int { sec * 1000000 + usec }
  }

  /** The one pair of seconds and microseconds for a total, negative totals included. */
  function Split(total: int): (t: Timeval)
    ensures 0 <= t.usec < 1000000 && t.Total() == total
  {
    Timeval(total / 1000000, total % 1000000)
  }

  class FrameClock {
    var initialized: bool
    var frameTime: int
    var wallUsec: int

    constructor ()
      ensures !initialized
    {
      initialized, frameTime, wallUsec := false, 0, 0;
    }

    /** `map`; `wall` is what `gettimeofday` says, and only matters on the first call. */
    method Map(time: int, wall: Timeval) returns (t: Timeval)
      requires 0 <= time < TWO32
      modifies this
      ensures initialized && frameTime == time
      ensures wallUsec == if old(initialized) then old(wallUsec) + Signed32(Wrap(time - old(frameTime))) * 1000 else wall.Total()
      ensures t == Split(wallUsec)
    {
      if !initialized {
        wallUsec := wall.sec * 1000000 + wall.usec;
        initialized := true;
      } else {
        wallUsec := wallUsec + Signed32(Wrap(time - frameTime)) * 1000;
      }
      frameTime := time;
      var sec, usec := Quotient(wallUsec, 1000000), Remainder(wallUsec, 1000000);
      if usec < 0 {
        sec, usec := sec - 1, usec + 1000000;
      }
      t := Timeval(sec, usec);
    }

    /** The frames of all tracks in the order they are captured, `times` being the camera's true, unwrapped clock. */
    method MapAll(times: seq<int>, wall: Timeval) returns (stamps: seq<Timeval>)
      requires !initialized
      requires forall k :: 1 <= k < |times| ==> -TWO31 <= times[k] - times[k - 1] < TWO31
      modifies this
      ensures |stamps| == |times|
      ensures forall k :: 0 <= k < |times| ==>
                && stamps[k].Total() == wall.Total() + 1000 * (times[k] - times[0])
                && 0 <= stamps[k].usec < 1000000
    {
      stamps := [];
      var n := 0;
      while n < |times|
        invariant 0 <= n <= |times| && |stamps| == n
        invariant initialized == (n > 0)
        invariant n > 0 ==> frameTime == Wrap(times[n - 1]) && wallUsec == wall.Total() + 1000 * (times[n - 1] - times[0])
        invariant forall k :: 0 <= k < n ==>
                    && stamps[k].Total() == wall.Total() + 1000 * (times[k] - times[0])
                    && 0 <= stamps[k].usec < 1000000
      {
        if n > 0 {
          WrapDifference(times[n], times[n - 1]);
          StepIsRecovered(times[n] - times[n - 1]);
        }
        var t := Map(Wrap(times[n]), wall);
        stamps := stamps + [t];
        n := n + 1;
      }
    }
  }

  /** The wrapped difference of two wrapped clocks is the wrapped true difference. */
  lemma WrapDifference(a: int, b: int)
    ensures Wrap(Wrap(a) - Wrap(b)) == Wrap(a - b)
  {
    assert a == TWO32 * (a / TWO32) + Wrap(a);
    assert b == TWO32 * (b / TWO32) + Wrap(b);
    var k := a / TWO32 - b / TWO32;
    assert a - b == TWO32 * k + (Wrap(a) - Wrap(b));
  }

  /** A step between two frames is recovered exactly when it is less than half the counter's range. */
  lemma StepIsRecovered(d: int)
    ensures Signed32(Wrap(d)) == d <==> -TWO31 <= d < TWO31
  {
    assert d == TWO32 * (d / TWO32) + Wrap(d);
  }
}
