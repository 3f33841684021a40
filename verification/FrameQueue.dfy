/**
 * The queue between `capture` and one viewer: pushes that trim the oldest
 * frames, and `VideoFramedMemorySource` resuming only where a decoder can.
 *
 * Each critical section of the queue's mutex is one event, so a run is any
 * interleaving of the capture thread with the viewer's turns and restarts.
 */
module FrameQueue {
  import opened Bytes

  const MAX_QUEUE_SIZE := 20
  const STARTUP_SIZE := 5
  const NALU_HEADER: seq<byte> := [0, 0, 0, 1]

  datatype Codec = H264 | H265 | Other

  datatype Frame = Frame(counter: nat, data: seq<byte>)

  /** `isSyncFrame`: a decoder can start at an IDR or IRAP slice or at a parameter set. */
  predicate IsSync(codec: Codec, data: seq<byte>) {
    if |data| < 5 then false
    else
      match codec
      case H264 => var nut := data[4] % 32; nut == 5 || nut == 7 || nut == 8
      case H265 => var nut := data[4] / 2 % 64; 16 <= nut <= 23 || 32 <= nut <= 34
      case Other => true
  }

  /** The viewer's fields. */
  datatype Viewer = Viewer(started: bool, have: bool, last: nat)

  predicate WellFormed(f: Frame) {
    |f.data| >= 5 && f.data[..4] == NALU_HEADER
  }

  /** The counter that continues the stream. */
  function Successor(counter: nat): nat { (counter + 1) % 65536 }

  predicate Wanted(codec: Codec, v: Viewer, f: Frame) {
    WellFormed(f) && ((v.have && f.counter == Successor(v.last)) || IsSync(codec, f.data))
  }

  predicate Fits(f: Frame, room: nat) { |f.data| - 4 <= room }

  /** Everything pushed so far, how much of it has left the queue, and what was delivered, by position. */
  datatype State = State(queue: seq<Frame>, viewer: Viewer, captured: seq<Frame>, gone: nat, delivered: seq<nat>)

  const INITIAL := State([], Viewer(false, false, 0), [], 0, [])

  datatype Event =
    | Push(f: Frame)
    | Stop
    | Begin
    | Take(room: nat)

  /** The newest frames that stay after a push. */
  function Trimmed(q: seq<Frame>): (r: seq<Frame>)
    ensures |r| <= MAX_QUEUE_SIZE
  {
    if |q| > MAX_QUEUE_SIZE then q[|q| - MAX_QUEUE_SIZE..] else q
  }

  function Step(codec: Codec, s: State, e: Event): State {
    match e
    case Push(f) =>
      var q := Trimmed(s.queue + [f]);
      s.(queue := q, captured := s.captured + [f], gone := s.gone + |s.queue| + 1 - |q|)
    case Stop => s.(viewer := s.viewer.(started := false))
    case Begin =>
      if !s.viewer.started && |s.queue| >= STARTUP_SIZE
      then s.(viewer := s.viewer.(started := true, have := false)) else s
    case Take(room) =>
      if !s.viewer.started || s.queue == [] then s
      else
        var f := s.queue[0];
        var t := s.(queue := s.queue[1..], gone := s.gone + 1);
        if Wanted(codec, s.viewer, f) && Fits(f, room)
        then t.(viewer := s.viewer.(have := true, last := f.counter), delivered := s.delivered + [s.gone])
        else t
  }

  function Run(codec: Codec, s: State, events: seq<Event>): State
    decreases |events|
  {
    if events == [] then s else Run(codec, Step(codec, s, events[0]), events[1..])
  }

  /** Delivered frame `k` may follow the one before it. */
  ghost predicate Decodable(codec: Codec, captured: seq<Frame>, delivered: seq<nat>, k: nat)
    requires k < |delivered| && forall i :: 0 <= i < |delivered| ==> delivered[i] < |captured|
  {
    var f := captured[delivered[k]];
    IsSync(codec, f.data) || (k > 0 && f.counter == Successor(captured[delivered[k - 1]].counter))
  }

  /** Positions ascend below `gone`, and every delivered frame is well formed and decodable. */
  ghost predicate Chain(codec: Codec, captured: seq<Frame>, delivered: seq<nat>, gone: nat) {
    && gone <= |captured|
    && (forall i :: 0 <= i < |delivered| ==> delivered[i] < gone)
    && (forall i, j :: 0 <= i < j < |delivered| ==> delivered[i] < delivered[j])
    && (forall k :: 0 <= k < |delivered| ==> WellFormed(captured[delivered[k]]) && Decodable(codec, captured, delivered, k))
  }

  ghost predicate Inv(codec: Codec, s: State) {
    && s.gone <= |s.captured|
    && Chain(codec, s.captured, s.delivered, s.gone)
    && s.queue == s.captured[s.gone..]
    && |s.queue| <= MAX_QUEUE_SIZE
    && (s.viewer.have ==> s.delivered != [] && s.viewer.last == s.captured[s.delivered[|s.delivered| - 1]].counter)
  }

  lemma ChainKept(codec: Codec, captured: seq<Frame>, delivered: seq<nat>, gone: nat, more: seq<Frame>, gone': nat)
    requires Chain(codec, captured, delivered, gone) && gone <= gone' <= |captured| + |more|
    ensures Chain(codec, captured + more, delivered, gone')
  {
    hide IsSync, WellFormed;
    forall k | 0 <= k < |delivered|
      ensures WellFormed((captured + more)[delivered[k]]) && Decodable(codec, captured + more, delivered, k)
    {
      assert WellFormed(captured[delivered[k]]) && Decodable(codec, captured, delivered, k);
    }
  }

  lemma ChainExtended(codec: Codec, captured: seq<Frame>, delivered: seq<nat>, gone: nat)
    requires Chain(codec, captured, delivered, gone) && gone < |captured| && WellFormed(captured[gone])
    requires IsSync(codec, captured[gone].data)
             || (delivered != [] && captured[gone].counter == Successor(captured[delivered[|delivered| - 1]].counter))
    ensures Chain(codec, captured, delivered + [gone], gone + 1)
  {
    hide IsSync, WellFormed;
    forall k | 0 <= k < |delivered + [gone]|
      ensures WellFormed(captured[(delivered + [gone])[k]]) && Decodable(codec, captured, delivered + [gone], k)
    {
      if k < |delivered| { assert WellFormed(captured[delivered[k]]) && Decodable(codec, captured, delivered, k); }
    }
  }

  lemma PushKeepsInv(codec: Codec, s: State, f: Frame)
    requires Inv(codec, s)
    ensures Inv(codec, Step(codec, s, Push(f)))
  {
    var t := Step(codec, s, Push(f));
    assert s.queue + [f] == t.captured[s.gone..];
    ChainKept(codec, s.captured, s.delivered, s.gone, [f], t.gone);
  }

  lemma TakeKeepsInv(codec: Codec, s: State, room: nat)
    requires Inv(codec, s)
    ensures Inv(codec, Step(codec, s, Take(room)))
  {
    hide IsSync, Chain;
    var t := Step(codec, s, Take(room));
    if s.viewer.started && s.queue != [] {
      assert s.queue[0] == s.captured[s.gone] && s.queue[1..] == s.captured[s.gone + 1..];
      assert s.captured + [] == s.captured;
      if t.delivered != s.delivered {
        ChainExtended(codec, s.captured, s.delivered, s.gone);
      } else {
        ChainKept(codec, s.captured, s.delivered, s.gone, [], t.gone);
      }
    }
  }

  lemma StepKeepsInv(codec: Codec, s: State, e: Event)
    requires Inv(codec, s)
    ensures Inv(codec, Step(codec, s, e))
  {
    match e {
      case Push(f) => PushKeepsInv(codec, s, f);
      case Take(room) => TakeKeepsInv(codec, s, room);
      case Stop =>
      case Begin =>
    }
  }

  lemma {:induction false} RunKeepsInv(codec: Codec, s: State, events: seq<Event>)
    requires Inv(codec, s)
    ensures Inv(codec, Run(codec, s, events))
    decreases |events|
  {
    if events != [] {
      StepKeepsInv(codec, s, events[0]);
      RunKeepsInv(codec, Step(codec, s, events[0]), events[1..]);
    }
  }

  /** The queue is bounded, and what a viewer gets is a subsequence of what was captured. */
  lemma DeliveryIsABoundedSubsequence(codec: Codec, events: seq<Event>)
    ensures var s := Run(codec, INITIAL, events);
            && |s.queue| <= 20
            && (forall i :: 0 <= i < |s.delivered| ==> s.delivered[i] < |s.captured|)
            && (forall i, j :: 0 <= i < j < |s.delivered| ==> s.delivered[i] < s.delivered[j])
  {
    RunKeepsInv(codec, INITIAL, events);
  }

  /**
   * Every delivered frame is a decoder sync point or continues the frame
   * delivered before it, through trims, restarts and frames too large to fit.
   */
  lemma EveryDeliveredFrameIsDecodable(codec: Codec, events: seq<Event>, k: nat)
    requires k < |Run(codec, INITIAL, events).delivered|
    ensures var s := Run(codec, INITIAL, events);
            && (forall i :: 0 <= i < |s.delivered| ==> s.delivered[i] < |s.captured|)
            && WellFormed(s.captured[s.delivered[k]])
            && Decodable(codec, s.captured, s.delivered, k)
  {
    RunKeepsInv(codec, INITIAL, events);
  }

  /** Without a frame to continue, the viewer stays so until it is delivered a sync point. */
  lemma StillWaiting(codec: Codec, s: State, e: Event)
    requires !s.viewer.have
    ensures var t := Step(codec, s, e);
            && s.captured <= t.captured
            && (t.delivered == s.delivered ==> !t.viewer.have)
            && (t.delivered != s.delivered ==>
                  s.queue != [] && t.delivered == s.delivered + [s.gone] && IsSync(codec, s.queue[0].data))
  {
  }

  lemma StepOnlyAdds(codec: Codec, s: State, e: Event)
    ensures s.delivered <= Step(codec, s, e).delivered && s.captured <= Step(codec, s, e).captured
  {
  }

  lemma {:induction false} RunOnlyAdds(codec: Codec, s: State, events: seq<Event>)
    ensures s.delivered <= Run(codec, s, events).delivered && s.captured <= Run(codec, s, events).captured
    decreases |events|
  {
    hide Step;
    if events != [] {
      StepOnlyAdds(codec, s, events[0]);
      RunOnlyAdds(codec, Step(codec, s, events[0]), events[1..]);
    }
  }

  lemma {:induction false} FirstDeliveryIsSync(codec: Codec, s: State, events: seq<Event>)
    requires Inv(codec, s) && !s.viewer.have && |Run(codec, s, events).delivered| > |s.delivered|
    ensures var t := Run(codec, s, events);
            && t.delivered[|s.delivered|] < |t.captured|
            && IsSync(codec, t.captured[t.delivered[|s.delivered|]].data)
    decreases |events|
  {
    hide Step, IsSync;
    var t := Step(codec, s, events[0]);
    StillWaiting(codec, s, events[0]);
    StepKeepsInv(codec, s, events[0]);
    if t.delivered == s.delivered {
      FirstDeliveryIsSync(codec, t, events[1..]);
    } else {
      RunOnlyAdds(codec, t, events[1..]);
      assert s.queue[0] == s.captured[s.gone];
    }
  }

  /** After a (re)start the first frame delivered is a sync point, whatever is pushed, trimmed or skipped before it. */
  lemma RestartResumesAtASyncPoint(codec: Codec, before: seq<Event>, after: seq<Event>)
    requires var s := Run(codec, INITIAL, before);
             && !s.viewer.started && Step(codec, s, Begin).viewer.started
             && |Run(codec, Step(codec, s, Begin), after).delivered| > |s.delivered|
    ensures var s := Run(codec, INITIAL, before);
            var t := Run(codec, Step(codec, s, Begin), after);
            && s.delivered <= t.delivered && t.delivered[|s.delivered|] < |t.captured|
            && IsSync(codec, t.captured[t.delivered[|s.delivered|]].data)
  {
    RunKeepsInv(codec, INITIAL, before);
    var s := Run(codec, INITIAL, before);
    StepKeepsInv(codec, s, Begin);
    RunOnlyAdds(codec, Step(codec, s, Begin), after);
    FirstDeliveryIsSync(codec, Step(codec, s, Begin), after);
  }

  // ----- units of the two codecs -----

  /** A NAL unit by the fields of its first header byte: forbidden bit, what lies around the type, and the type. */
  datatype Unit = Unit(forbidden: nat, around: nat, kind: nat, rest: seq<byte>) {
    /** One bit, two bits of reference, five of type (section 7.3.1.1 of ITU-T H.264). */
    ghost predicate Valid264() { forbidden < 2 && around < 4 && kind < 32 }

    /** One bit, six of type, and the upper bit of the layer (section 7.3.1.2 of ITU-T H.265). */
    ghost predicate Valid265() { forbidden < 2 && around < 2 && kind < 64 }

    function Bytes264(): seq<byte>
      requires Valid264()
    {
      [0, 0, 0, 1, forbidden * 128 + around * 32 + kind] + rest
    }

    function Bytes265(): seq<byte>
      requires Valid265()
    {
      [0, 0, 0, 1, forbidden * 128 + kind * 2 + around] + rest
    }
  }

  /** A decoder can start at an IDR slice and at the two parameter sets. */
  lemma SyncOfH264(u: Unit)
    requires u.Valid264()
    ensures IsSync(H264, u.Bytes264()) <==> u.kind == 5 || u.kind == 7 || u.kind == 8
    ensures forall n: nat :: WellFormed(Frame(n, u.Bytes264()))
  {
    assert u.Bytes264()[..4] == [0, 0, 0, 1];
  }

  /** And with H.265 at the eight IRAP types and the three parameter sets. */
  lemma SyncOfH265(u: Unit)
    requires u.Valid265()
    ensures IsSync(H265, u.Bytes265()) <==> 16 <= u.kind <= 23 || u.kind == 32 || u.kind == 33 || u.kind == 34
    ensures forall n: nat :: WellFormed(Frame(n, u.Bytes265()))
  {
    assert u.Bytes265()[..4] == [0, 0, 0, 1];
    TypeOfH265(u.forbidden, u.kind, u.around);
  }

  lemma TypeOfH265(forbidden: nat, kind: nat, around: nat)
    requires forbidden < 2 && kind < 64 && around < 2
    ensures (forbidden * 128 + kind * 2 + around) / 2 % 64 == kind
  {
    assert (forbidden * 128 + kind * 2 + around) / 2 == forbidden * 64 + kind;
  }

  /**
   * Of a stream of H.264 units, every delivered one is an IDR slice or a
   * parameter set, or carries the counter after that of the one delivered before.
   */
  lemma DeliveredUnitsAreDecodable(events: seq<Event>, units: seq<Unit>, k: nat)
    requires k < |Run(H264, INITIAL, events).delivered|
    requires var s := Run(H264, INITIAL, events);
             |units| == |s.captured| && forall i :: 0 <= i < |units| ==>
               units[i].Valid264() && s.captured[i].data == units[i].Bytes264()
    ensures var s := Run(H264, INITIAL, events);
            && (forall i :: 0 <= i < |s.delivered| ==> s.delivered[i] < |units|)
            && var u := units[s.delivered[k]];
               || u.kind == 5 || u.kind == 7 || u.kind == 8
               || (k > 0 && s.captured[s.delivered[k]].counter == (s.captured[s.delivered[k - 1]].counter + 1) % 65536)
  {
    hide Run, IsSync;
    EveryDeliveredFrameIsDecodable(H264, events, k);
    SyncOfH264(units[Run(H264, INITIAL, events).delivered[k]]);
  }

  /** A viewer starts exactly when five frames wait for it, and then has no frame to continue. */
  lemma ViewerStartsExactlyWithFiveFrames(codec: Codec, s: State)
    requires !s.viewer.started
    ensures var t := Step(codec, s, Begin);
            if |s.queue| >= 5 then t.viewer.started && !t.viewer.have && t.queue == s.queue else t == s
  {
  }

  /**
   * The frame a started viewer takes is gone from the queue; it is delivered
   * exactly when it is a start code with a unit behind it that fits the room and
   * either continues the frame delivered before or is a sync point.
   */
  lemma ATakenFrameIsDeliveredExactlyWhen(codec: Codec, s: State, room: nat)
    requires s.viewer.started && s.queue != []
    ensures var f, t := s.queue[0], Step(codec, s, Take(room));
            && t.queue == s.queue[1..] && t.gone == s.gone + 1 && t.captured == s.captured
            && if |f.data| >= 5 && f.data[..4] == [0, 0, 0, 1] && |f.data[4..]| <= room
                  && ((s.viewer.have && f.counter == (s.viewer.last + 1) % 65536) || IsSync(codec, f.data))
               then t.delivered == s.delivered + [s.gone] && t.viewer == Viewer(true, true, f.counter)
               else t.delivered == s.delivered && t.viewer == s.viewer
  {
    hide IsSync;
  }

  // ----- a stretch without gaps -----

  /** Nothing is stopped or trimmed, and what is taken fits. */
  predicate Smooth(s: State, e: Event) {
    match e
    case Push(f) => |s.queue| < 20
    case Stop => false
    case Begin => true
    case Take(room) => s.queue != [] ==> Fits(s.queue[0], room)
  }

  predicate SmoothRun(codec: Codec, s: State, events: seq<Event>)
    decreases |events|
  {
    events == [] || (Smooth(s, events[0]) && SmoothRun(codec, Step(codec, s, events[0]), events[1..]))
  }

  /** From position `n` on, every captured frame is well formed and continues the one before it. */
  predicate GapFree(captured: seq<Frame>, n: nat) {
    forall i :: n <= i < |captured| && i > 0 ==>
      WellFormed(captured[i]) && captured[i].counter == Successor(captured[i - 1].counter)
  }

  /** The viewer is started and was delivered the frame that left the queue last. */
  predicate UpToDate(s: State) {
    s.viewer.started && s.viewer.have && s.delivered != [] && s.delivered[|s.delivered| - 1] == s.gone - 1
  }

  /** The positions from `a` up to `b`. */
  function Positions(a: nat, b: nat): seq<nat>
    requires a <= b
  {
    seq(b - a, i requires 0 <= i < b - a => a + i)
  }

  lemma SmoothStep(codec: Codec, s: State, e: Event, captured: seq<Frame>)
    requires Inv(codec, s) && UpToDate(s) && Smooth(s, e)
    requires s.captured <= captured && GapFree(captured, s.gone)
    ensures var t := Step(codec, s, e);
            UpToDate(t) && s.gone <= t.gone && t.delivered == s.delivered + Positions(s.gone, t.gone)
  {
    hide IsSync, Chain;
    var t := Step(codec, s, e);
    if e.Take? && s.queue != [] {
      assert s.queue[0] == s.captured[s.gone] == captured[s.gone];
      assert s.captured[s.gone - 1] == captured[s.gone - 1];
      assert Positions(s.gone, t.gone) == [s.gone];
    } else {
      assert Positions(s.gone, t.gone) == [];
    }
  }

  /**
   * In a stream without gaps nothing a viewer could use is lost: once it has been
   * delivered the frame that left the queue last, it is delivered every frame
   * that leaves the queue, in order, for as long as nothing is stopped or trimmed
   * and what it takes fits.
   */
  lemma {:induction false} NoGapNoLoss(codec: Codec, s: State, events: seq<Event>)
    requires Inv(codec, s) && UpToDate(s) && SmoothRun(codec, s, events)
    requires GapFree(Run(codec, s, events).captured, s.gone)
    ensures var t := Run(codec, s, events);
            UpToDate(t) && s.gone <= t.gone && t.delivered == s.delivered + Positions(s.gone, t.gone)
    decreases |events|
  {
    hide Step, Smooth, IsSync, Inv, UpToDate;
    if events == [] {
      assert Positions(s.gone, s.gone) == [];
    } else {
      var t := Step(codec, s, events[0]);
      var u := Run(codec, s, events);
      StepKeepsInv(codec, s, events[0]);
      StepOnlyAdds(codec, s, events[0]);
      RunOnlyAdds(codec, t, events[1..]);
      SmoothStep(codec, s, events[0], u.captured);
      NoGapNoLoss(codec, t, events[1..]);
      assert Positions(s.gone, t.gone) + Positions(t.gone, u.gone) == Positions(s.gone, u.gone);
    }
  }

  // ----- the code that works in place -----

  class OutputQueue {
    var frames: seq<Frame>

    /** The push of `capture`, under the lock. */
    method Push(f: Frame)
      modifies this
      ensures frames == Trimmed(old(frames) + [f])
    {
      frames := frames + [f];
      ghost var all := frames;
      while |frames| > MAX_QUEUE_SIZE
        invariant |frames| <= |all| && frames == all[|all| - |frames|..]
        invariant |frames| >= MAX_QUEUE_SIZE || frames == all
        decreases |frames|
      {
        frames := frames[1..];
      }
    }
  }

  class Source {
    const codec: Codec
    var started: bool
    var have: bool
    var last: nat

    ghost function Value(): Viewer
      reads this
    {
      Viewer(started, have, last)
    }

    /** One turn of the loop in `doGetNextFrame`: look at the front frame, pop it, and deliver it if it may be. */
    method Turn(q: OutputQueue, room: nat) returns (frame: seq<Frame>)
      requires started
      modifies this`have, this`last, q
      ensures var f := old(q.frames);
              var ok := f != [] && Wanted(codec, old(Value()), f[0]) && Fits(f[0], room);
              && q.frames == (if f == [] then [] else f[1..])
              && frame == (if ok then [f[0]] else [])
              && Value() == (if ok then Viewer(true, true, f[0].counter) else old(Value()))
    {
      frame := [];
      if q.frames == [] { return; }
      var f := q.frames[0];
      q.frames := q.frames[1..];
      if |f.data| < 5 || f.data[..4] != NALU_HEADER { return; }
      var discontinuity := !have || f.counter != (last + 1) % 65536;
      if discontinuity && !IsSync(codec, f.data) { return; }
      if |f.data| - 4 <= room {
        frame := [f];
        last, have := f.counter, true;
      }
    }
  }
}
