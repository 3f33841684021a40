/** The bounded history of raw readings that the detector shares: `motion_levels_start` and `motion_levels_tick`. */
module MotionLevels {
  import opened RecentRing

  /** One reading; the floating-point ratio is carried as its bit pattern. */
  datatype Sample = Sample(unixMs: int, ratioBits: int, scene: int, move: int, level: int, threshold: int)

  datatype Levels = Levels(ring: Ring<Sample>, startedMs: int, discardedMs: int, observedUntilMs: int) {
    ghost predicate Valid() { ring.Valid() }

    /** A reading added at the end; the oldest gives way when the buffer is full. */
    function Keep(x: Sample): Levels
      requires Valid()
    {
      if ring.count == CAPACITY then this.(ring := ring.Push(x), discardedMs := ring.At(0).unixMs)
      else this.(ring := ring.Push(x))
    }

    /** The body of a tick, once the clock step and the reading have been judged. */
    function Tick(stepped: bool, keep: bool, x: Sample): Levels
      requires Valid()
    {
      var h := (if stepped then Reset(x.unixMs) else this).(observedUntilMs := x.unixMs);
      if keep then h.Keep(x) else h
    }
  }

  /** `reset_levels`. */
  function Reset(now: int): Levels {
    Levels(Ring(0, 0, seq(CAPACITY, _ => Sample(0, 0, 0, 0, 0, 0))), now, -1, now)
  }

  /** The buffer is the bounded view of everything kept from the start of the coverage to its last tick. */
  ghost predicate Covers(h: Levels, started: int, until: int, log: seq<Sample>) {
    && h.Valid()
    && h.ring.Window() == Recent(log)
    && h.startedMs == started
    && h.observedUntilMs == until
    && h.discardedMs == if |log| <= CAPACITY then -1 else log[|log| - CAPACITY - 1].unixMs
  }

  lemma ResetCovers(now: int)
    ensures Covers(Reset(now), now, now, [])
  {
  }

  /** A tick extends the coverage to its own time and by the kept reading; a clock step starts it afresh. */
  lemma TickCovers(h: Levels, started: int, until: int, log: seq<Sample>, stepped: bool, keep: bool, x: Sample)
    requires Covers(h, started, until, log)
    ensures Covers(h.Tick(stepped, keep, x), if stepped then x.unixMs else started, x.unixMs,
                   (if stepped then [] else log) + (if keep then [x] else []))
  {
    var g := (if stepped then Reset(x.unixMs) else h).(observedUntilMs := x.unixMs);
    var base := if stepped then [] else log;
    ResetCovers(x.unixMs);
    assert Covers(g, if stepped then x.unixMs else started, x.unixMs, base);
    if keep {
      g.ring.PushWindow(x);
      RecentOfRecent(base, x);
      if g.ring.count == CAPACITY { assert g.ring.At(0) == g.ring.Window()[0]; }
    } else {
      assert base + [] == base;
    }
  }

  /** Whether the wall clock moved against the monotonic one by more than two seconds, or back. */
  predicate ClockStepped(lastWall: int, lastMono: int, wall: int, mono: int) {
    lastMono != 0 && (wall < lastWall || (wall - lastWall) - (mono - lastMono) > 2000
                      || (mono - lastMono) - (wall - lastWall) > 2000)
  }

  /** The offset of the wall clock from the monotonic one. */
  function Offset(wall: int, mono: int): int { wall - mono }

  /** Coverage goes on while the wall clock does not go back and its offset moves by at most two seconds from tick to tick. */
  lemma CoverageGoesOnExactlyWhen(lastWall: int, lastMono: int, wall: int, mono: int)
    ensures !ClockStepped(lastWall, lastMono, wall, mono) <==>
            lastMono == 0 || (lastWall <= wall && Offset(lastWall, lastMono) - 2000 <= Offset(wall, mono)
                              && Offset(wall, mono) <= Offset(lastWall, lastMono) + 2000)
  {
  }

  class SharedLevels {
    var first: nat
    var count: nat
    var startedMs: int
    var discardedMs: int
    var observedUntilMs: int
    var lastWall: int
    var lastMono: int
    const samples: array<Sample>

    ghost predicate Valid()
      reads this, samples
    {
      first < CAPACITY && count <= CAPACITY && samples.Length == CAPACITY
    }

    ghost function Value(): Levels
      reads this, samples
    {
      Levels(Ring(first, count, samples[..]), startedMs, discardedMs, observedUntilMs)
    }

    method ResetLevels(now: int)
      requires Valid()
      modifies this`first, this`count, this`startedMs, this`discardedMs, this`observedUntilMs, samples
      ensures Valid() && Value() == Reset(now)
    {
      forall i | 0 <= i < samples.Length { samples[i] := Sample(0, 0, 0, 0, 0, 0); }
      first, count := 0, 0;
      startedMs, discardedMs, observedUntilMs := now, -1, now;
      assert samples[..] == seq(CAPACITY, _ => Sample(0, 0, 0, 0, 0, 0));
    }

    method Keep(x: Sample)
      requires Valid()
      modifies this`first, this`count, this`discardedMs, samples
      ensures Valid() && Value() == old(Value()).Keep(x)
    {
      hide Ring.Push;
      ghost var ring := Value().ring;
      if count == CAPACITY {
        discardedMs := samples[first].unixMs;
        first := (first + 1) % CAPACITY;
        count := count - 1;
      }
      ring.PushIs(x, first, count);
      ghost var before := samples[..];
      samples[(first + count) % CAPACITY] := x;
      assert samples[..] == before[(first + count) % CAPACITY := x];
      count := count + 1;
    }

    method Tick(keep: bool, x: Sample, mono: int)
      requires Valid()
      modifies this, samples
      ensures Valid()
      ensures Value() == old(Value()).Tick(old(ClockStepped(lastWall, lastMono, x.unixMs, mono)), keep, x)
      ensures lastWall == x.unixMs && lastMono == mono
    {
      if lastMono != 0 && (x.unixMs < lastWall || (x.unixMs - lastWall) - (mono - lastMono) > 2000
                           || (mono - lastMono) - (x.unixMs - lastWall) > 2000)
      {
        ResetLevels(x.unixMs);
      }
      lastWall := x.unixMs;
      lastMono := mono;
      observedUntilMs := x.unixMs;
      if keep { Keep(x); }
    }
  }
}
