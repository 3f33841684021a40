/**
 * The bounded motion history: `motion_history_add`, and the initial state and
 * the transitions that `build_json` reads back from it for one clip.
 */
module MotionHistory {
  import opened RecentRing

  datatype Event = Event(ms: int, state: int)

  /** The shared record, as a value. */
  datatype History = History(ring: Ring<Event>, baseline: Event, baselineIsSample: bool, lastState: int) {
    ghost predicate Valid() { ring.Valid() }

    /** `motion_history_add`. */
    function Add(state: int, ms: int): History
      requires Valid()
    {
      if state == lastState then this
      else if ring.count == CAPACITY then
        History(ring.Push(Event(ms, state)), ring.At(0), false, state)
      else
        History(ring.Push(Event(ms, state)), baseline, baselineIsSample, state)
    }
  }

  // ----- the unbounded log -----

  /** The state after everything in the log; the startup sample counts before it. */
  function StateAfter(startup: Event, log: seq<Event>): int {
    if log == [] then startup.state else log[|log| - 1].state
  }

  /** What a recorder without a bound would keep of the observations. */
  function FullLog(startup: Event, observations: seq<Event>): seq<Event> {
    if observations == [] then []
    else
      var log := FullLog(startup, observations[..|observations| - 1]);
      var x := observations[|observations| - 1];
      if x.state == StateAfter(startup, log) then log else log + [x]
  }

  ghost predicate Alternates(startup: Event, log: seq<Event>) {
    forall i :: 0 <= i < |log| ==> log[i].state != StateAfter(startup, log[..i])
  }

  /** The history is the bounded view of the log. */
  ghost predicate Tracks(h: History, startup: Event, log: seq<Event>) {
    && h.Valid()
    && h.ring.Window() == Recent(log)
    && h.baseline == (if |log| <= CAPACITY then startup else log[|log| - CAPACITY - 1])
    && h.baselineIsSample == (|log| <= CAPACITY)
    && h.lastState == StateAfter(startup, log)
    && Alternates(startup, log)
  }

  function Fresh(startup: Event): History {
    History(Ring(0, 0, seq(CAPACITY, _ => Event(0, 0))), startup, true, startup.state)
  }

  lemma FreshTracks(startup: Event)
    ensures Tracks(Fresh(startup), startup, [])
  {
  }

  function Extend(startup: Event, log: seq<Event>, x: Event): seq<Event> {
    if x.state == StateAfter(startup, log) then log else log + [x]
  }

  /** One observation keeps the history the bounded view of the extended log. */
  lemma AddTracks(h: History, startup: Event, log: seq<Event>, state: int, ms: int)
    requires Tracks(h, startup, log)
    ensures Tracks(h.Add(state, ms), startup, Extend(startup, log, Event(ms, state)))
  {
    var x := Event(ms, state);
    if state != h.lastState {
      h.ring.PushWindow(x);
      RecentOfRecent(log, x);
      forall i | 0 <= i < |log + [x]| ensures (log + [x])[i].state != StateAfter(startup, (log + [x])[..i]) {
        assert (log + [x])[..i] == log[..i];
        if i == |log| { assert log[..i] == log; }
      }
      if h.ring.count == CAPACITY {
        assert h.ring.At(0) == h.ring.Window()[0];
      }
    }
  }

  function AddAll(h: History, observations: seq<Event>): History
    requires h.Valid()
    ensures AddAll(h, observations).Valid()
  {
    if observations == [] then h
    else
      var g := AddAll(h, observations[..|observations| - 1]);
      var x := observations[|observations| - 1];
      assert g.ring.Push(x).Valid();
      g.Add(x.state, x.ms)
  }

  /** After any number of observations, the ring and baseline are the bounded view of the full log. */
  lemma {:induction false} HistoryTracksTheFullLog(startup: Event, observations: seq<Event>)
    ensures Tracks(AddAll(Fresh(startup), observations), startup, FullLog(startup, observations))
  {
    if observations == [] {
      FreshTracks(startup);
    } else {
      var n := |observations| - 1;
      HistoryTracksTheFullLog(startup, observations[..n]);
      AddTracks(AddAll(Fresh(startup), observations[..n]), startup, FullLog(startup, observations[..n]),
                observations[n].state, observations[n].ms);
    }
  }

  // ----- what a clip reads back -----

  /** The state at time `t`: that of the last entry, in recording order, not after `t`; -1 if there is none. */
  function StateAt(entries: seq<Event>, t: int): int {
    if entries == [] then -1
    else if entries[|entries| - 1].ms <= t then entries[|entries| - 1].state
    else StateAt(entries[..|entries| - 1], t)
  }

  predicate Truncated(h: History, start: int) {
    h.baseline.ms > start
  }

  lemma {:induction false} StateAtAppend(a: seq<Event>, b: seq<Event>, t: int)
    ensures StateAt(a + b, t) ==
            if exists i :: 0 <= i < |b| && b[i].ms <= t then StateAt(b, t) else StateAt(a, t)
  {
    if b == [] {
      assert a + b == a;
    } else {
      var n := |b| - 1;
      assert (a + b)[..|a + b| - 1] == a + b[..n];
      StateAtAppend(a, b[..n], t);
      if b[n].ms > t {
        if i :| 0 <= i < |b| && b[i].ms <= t { assert b[..n][i].ms <= t; }
        if i :| 0 <= i < n && b[..n][i].ms <= t { assert b[i].ms <= t; }
      }
    }
  }

  ghost predicate NonDecreasing(entries: seq<Event>) {
    forall i, j :: 0 <= i <= j < |entries| ==> entries[i].ms <= entries[j].ms
  }

  /** The entries strictly after `start` and not after `end`. */
  function Inside(entries: seq<Event>, start: int, end: int): seq<Event> {
    if entries == [] then []
    else
      var x := entries[|entries| - 1];
      Inside(entries[..|entries| - 1], start, end) + if start < x.ms <= end then [x] else []
  }

  lemma {:induction false} InsideAppend(a: seq<Event>, b: seq<Event>, start: int, end: int)
    ensures Inside(a + b, start, end) == Inside(a, start, end) + Inside(b, start, end)
  {
    if b == [] {
      assert a + b == a;
    } else {
      assert (a + b)[..|a + b| - 1] == a + b[..|b| - 1];
      InsideAppend(a, b[..|b| - 1], start, end);
    }
  }

  lemma {:induction false} InsideEmpty(a: seq<Event>, start: int, end: int)
    requires forall i :: 0 <= i < |a| ==> a[i].ms <= start
    ensures Inside(a, start, end) == []
  {
    if a != [] {
      InsideEmpty(a[..|a| - 1], start, end);
    }
  }

  /** The log splits into what the ring gave up and what it still holds. */
  lemma Split(h: History, startup: Event, log: seq<Event>) returns (lost: seq<Event>)
    requires Tracks(h, startup, log)
    ensures [startup] + log == (lost + [h.baseline]) + h.ring.Window()
    ensures lost + [h.baseline] <= [startup] + log
  {
    var k := |log| - |Recent(log)|;
    lost := ([startup] + log)[..k];
    assert [startup] + log == (lost + [h.baseline]) + log[k..];
  }

  /**
   * What `build_json` computes as the initial state, seen from the full log.
   * Not truncated: it is the log's state at the clip's start, in whatever order
   * the clock ran.  Truncated: it is -1 exactly when no kept entry claims to be
   * at or before the start.
   */
  lemma InitialStateAgrees(h: History, startup: Event, log: seq<Event>, start: int)
    requires Tracks(h, startup, log)
    requires startup.state >= -1 && forall i :: 0 <= i < |log| ==> log[i].state >= 0
    ensures !Truncated(h, start) ==> StateAt([h.baseline] + h.ring.Window(), start) == StateAt([startup] + log, start)
    ensures Truncated(h, start) ==>
              (StateAt(h.ring.Window(), start) == -1 <==>
               forall i :: 0 <= i < h.ring.count ==> h.ring.At(i).ms > start)
  {
    hide StateAt, Alternates, StateAfter, Ring.Window, Recent;
    var lost := Split(h, startup, log);
    var w := h.ring.Window();
    if !Truncated(h, start) {
      NothingBeforeMatters(lost, h.baseline, w, start);
    } else {
      KeptStatesAreKnown(h, startup, log);
      StateAtUnknown(w, start);
      forall i: nat | i < h.ring.count ensures h.ring.At(i) == w[i] { WindowAt(h.ring, i); }
    }
  }

  /** From an entry at or before `t` on, earlier ones do not matter. */
  lemma NothingBeforeMatters(lost: seq<Event>, x: Event, w: seq<Event>, t: int)
    requires x.ms <= t
    ensures StateAt([x] + w, t) == StateAt((lost + [x]) + w, t)
  {
    hide StateAt;
    StateAtAppend([x], w, t);
    StateAtAppend(lost + [x], w, t);
    StateAtLast([], x, t);
    StateAtLast(lost, x, t);
    assert [] + [x] == [x];
  }

  lemma StateAtLast(entries: seq<Event>, x: Event, t: int)
    requires x.ms <= t
    ensures StateAt(entries + [x], t) == x.state
  {
  }

  lemma KeptStatesAreKnown(h: History, startup: Event, log: seq<Event>)
    requires Tracks(h, startup, log) && forall i :: 0 <= i < |log| ==> log[i].state >= 0
    ensures forall i :: 0 <= i < h.ring.count ==> h.ring.Window()[i].state >= 0
  {
    hide Ring.Window, Alternates, StateAfter;
    var w := h.ring.Window();
    forall i | 0 <= i < |w| ensures w[i].state >= 0 { assert w[i] == Recent(log)[i]; }
  }

  lemma WindowAt(r: Ring<Event>, i: nat)
    requires r.Valid() && i < r.count
    ensures r.Window()[i] == r.At(i) == r.slots[(r.first + i) % CAPACITY]
  {
  }

  lemma {:induction false} StateAtUnknown(w: seq<Event>, t: int)
    requires forall i :: 0 <= i < |w| ==> w[i].state >= 0
    ensures StateAt(w, t) == -1 <==> forall i :: 0 <= i < |w| ==> w[i].ms > t
  {
    if w != [] {
      var v := w[..|w| - 1];
      StateAtUnknown(v, t);
      if w[|w| - 1].ms > t {
        if forall i :: 0 <= i < |v| ==> v[i].ms > t {
          forall i | 0 <= i < |w| ensures w[i].ms > t { if i < |v| { assert v[i].ms > t; } }
        } else {
          var i :| 0 <= i < |v| && v[i].ms <= t;
          assert w[i].ms <= t;
        }
      }
    }
  }

  /** With a clock that never steps back, a truncated history always says -1. */
  lemma TruncatedMeansUnknown(h: History, startup: Event, log: seq<Event>, start: int)
    requires Tracks(h, startup, log) && Truncated(h, start) && NonDecreasing([startup] + log)
    ensures StateAt(h.ring.Window(), start) == -1
  {
    var lost := Split(h, startup, log);
    var w := h.ring.Window();
    var all := [startup] + log;
    forall i | 0 <= i < |w| ensures w[i].ms > start {
      assert all[|lost|] == h.baseline;
      assert all[|lost| + 1 + i] == w[i];
    }
    NothingBefore(w, start);
  }

  lemma {:induction false} NothingBefore(w: seq<Event>, t: int)
    requires forall i :: 0 <= i < |w| ==> w[i].ms > t
    ensures StateAt(w, t) == -1
  {
    if w != [] {
      NothingBefore(w[..|w| - 1], t);
    }
  }

  /** A clock step back can make a truncated history claim a state after all. */
  lemma TruncatedCanClaimAState()
    ensures var h := AddAll(Fresh(Event(1000, 0)), [Event(10, 1)]);
            Truncated(h, 20) && StateAt(h.ring.Window(), 20) == 1
  {
    var startup, x := Event(1000, 0), Event(10, 1);
    assert [x][..0] == [];
    assert AddAll(Fresh(startup), []) == Fresh(startup);
    var h := AddAll(Fresh(startup), [x]);
    Fresh(startup).ring.PushWindow(x);
    assert h == Fresh(startup).Add(1, 10);
    assert h.ring.Window() == [x];
  }

  lemma InsideOfTail(kept: seq<Event>, tail: seq<Event>, start: int, end: int)
    requires |kept| > 0 && kept[|kept| - 1].ms <= start && NonDecreasing(kept + tail)
    ensures Inside(kept + tail, start, end) == Inside(tail, start, end)
  {
    forall i | 0 <= i < |kept| ensures kept[i].ms <= start {
      assert (kept + tail)[i] == kept[i] && (kept + tail)[|kept| - 1] == kept[|kept| - 1];
    }
    InsideEmpty(kept, start, end);
    InsideAppend(kept, tail, start, end);
  }

  /** Without truncation and clock steps the ring still holds every transition inside the clip. */
  lemma NoTransitionInsideTheClipIsLost(h: History, startup: Event, log: seq<Event>, start: int, end: int)
    requires Tracks(h, startup, log) && !Truncated(h, start) && NonDecreasing([startup] + log)
    ensures Inside(h.ring.Window(), start, end) == Inside(log, start, end)
  {
    var lost := Split(h, startup, log);
    InsideOfTail(lost + [h.baseline], h.ring.Window(), start, end);
    assert startup.ms <= start by {
      var all := [startup] + log;
      assert all[0] == startup && all[|lost|] == h.baseline;
    }
    InsideOfTail([startup], log, start, end);
  }

  /**
   * Of those stamped exactly at the clip's start, which the list includes, none
   * is lost unless the last one given up carries that very time.
   */
  lemma TransitionsAtTheStartAreKeptUnlessGivenUp(h: History, startup: Event, log: seq<Event>, start: int, end: int)
    requires Tracks(h, startup, log) && !Truncated(h, start) && NonDecreasing([startup] + log) && start <= end
    ensures Inside(h.ring.Window(), start - 1, end) == Inside(log, start - 1, end)
       <==> h.baselineIsSample || h.baseline.ms < start
  {
    hide Inside, Ring.Window, Alternates, StateAfter;
    if !h.baselineIsSample {
      var k := |log| - CAPACITY;
      var gone, w := log[..k], h.ring.Window();
      assert log == gone + w && gone[k - 1] == h.baseline;
      InsideAppend(gone, w, start - 1, end);
      if h.baseline.ms < start {
        NonDecreasingTail(startup, log);
        forall i | 0 <= i < k ensures gone[i].ms <= start - 1 { assert log[i].ms <= log[k - 1].ms; }
        InsideEmpty(gone, start - 1, end);
      } else {
        InsideLast(gone, start - 1, end);
      }
    }
  }

  lemma NonDecreasingTail(x: Event, log: seq<Event>)
    requires NonDecreasing([x] + log)
    ensures forall i, j :: 0 <= i <= j < |log| ==> log[i].ms <= log[j].ms
  {
    var all := [x] + log;
    forall i, j | 0 <= i <= j < |log| ensures log[i].ms <= log[j].ms {
      assert all[i + 1] == log[i] && all[j + 1] == log[j];
    }
  }

  lemma InsideLast(a: seq<Event>, start: int, end: int)
    requires a != [] && start < a[|a| - 1].ms <= end
    ensures |Inside(a, start, end)| > 0
  {
  }

  // ----- the code that works in place -----

  /** `struct motion_history`, updated in place under the sequence lock. */
  class SharedHistory {
    var first: nat
    var count: nat
    var baselineMs: int
    var baselineState: int
    var baselineIsSample: bool
    var lastState: int
    const events: array<Event>

    ghost predicate Valid()
      reads this, events
    {
      first < CAPACITY && count <= CAPACITY && events.Length == CAPACITY
    }

    ghost function Value(): History
      reads this, events
    {
      History(Ring(first, count, events[..]), Event(baselineMs, baselineState), baselineIsSample, lastState)
    }

    /** The state `motion_history_start` leaves behind. */
    constructor (now: int, state: int)
      ensures Valid() && fresh(events)
      ensures Value() == Fresh(Event(now, state))
    {
      first, count := 0, 0;
      baselineMs, baselineState, baselineIsSample, lastState := now, state, true, state;
      events := new Event[CAPACITY](_ => Event(0, 0));
      new;
      assert events[..] == seq(CAPACITY, _ => Event(0, 0));
    }

    method Add(state: int, ms: int)
      requires Valid()
      modifies this, events
      ensures Valid() && Value() == old(Value()).Add(state, ms)
    {
      hide Ring.Push;
      if state == lastState { return; }
      ghost var ring := Value().ring;
      if count == CAPACITY {
        baselineMs := events[first].ms;
        baselineState := events[first].state;
        baselineIsSample := false;
        first := (first + 1) % CAPACITY;
        count := count - 1;
      }
      ring.PushIs(Event(ms, state), first, count);
      var index := (first + count) % CAPACITY;
      count := count + 1;
      events[index] := Event(ms, state);
      lastState := state;
      assert events[..] == old(events[..])[index := Event(ms, state)];
    }
  }

  lemma StateAtNothing(t: int)
    ensures StateAt([], t) == -1
  {
  }

  lemma StateAtNext(before: seq<Event>, w: seq<Event>, i: nat, t: int)
    requires i < |w|
    ensures StateAt(before + w[..i + 1], t) == if w[i].ms <= t then w[i].state else StateAt(before + w[..i], t)
  {
    assert (before + w[..i + 1])[..|before| + i] == before + w[..i];
  }

  lemma InsideNext(w: seq<Event>, i: nat, start: int, end: int)
    requires i < |w|
    ensures Inside(w[..i + 1], start, end) == Inside(w[..i], start, end) + if start < w[i].ms <= end then [w[i]] else []
  {
    assert w[..i + 1][..i] == w[..i];
  }

  /** The initial state `build_json` reports for a clip. */
  method InitialState(h: History, start: int) returns (truncated: bool, initial: int)
    requires h.Valid()
    ensures truncated == Truncated(h, start)
    ensures initial == StateAt((if truncated then [] else [h.baseline]) + h.ring.Window(), start)
  {
    hide StateAt, Ring.Window;
    truncated := h.baseline.ms > start;
    ghost var w := h.ring.Window();
    ghost var before := if truncated then [] else [h.baseline];
    initial := -1;
    if !truncated { initial := h.baseline.state; }
    StateAtNothing(start);
    if !truncated { StateAtLast([], h.baseline, start); assert [] + [h.baseline] == [h.baseline]; }
    assert before + w[..0] == before;
    var i := 0;
    while i < h.ring.count
      invariant 0 <= i <= h.ring.count == |w|
      invariant initial == StateAt(before + w[..i], start)
    {
      var event := h.ring.slots[(h.ring.first + i) % CAPACITY];
      WindowAt(h.ring, i);
      StateAtNext(before, w, i, start);
      if event.ms <= start { initial := event.state; }
      i := i + 1;
    }
    assert w[..i] == w;
  }

  /** The transitions `build_json` lists for a clip. */
  method ClipTransitions(h: History, start: int, end: int) returns (transitions: seq<Event>)
    requires h.Valid()
    ensures transitions == Inside(h.ring.Window(), start - 1, end)
  {
    ghost var w := h.ring.Window();
    transitions := [];
    var i := 0;
    while i < h.ring.count
      invariant 0 <= i <= h.ring.count == |w|
      invariant transitions == Inside(w[..i], start - 1, end)
    {
      var event := h.ring.slots[(h.ring.first + i) % CAPACITY];
      InsideNext(w, i, start - 1, end);
      if !(event.ms < start || event.ms > end) { transitions := transitions + [event]; }
      i := i + 1;
    }
    assert w[..i] == w;
  }
}
