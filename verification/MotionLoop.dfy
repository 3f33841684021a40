/** The main loop of `motiond`: detector transitions become delivery requests, and every turn ticks the queue. */
module MotionLoop {
  import D = MotionDetector
  import Q = MotionDelivery
  import opened Options

  /** A turn: a new observation, unless the mask source repeated its frame, and what the queue meets. */
  datatype Turn = Turn(input: Option<D.Input>, now: int, e: Q.Surroundings)

  datatype Loop = Loop(detector: D.Detector, delivery: Q.Delivery)

  function Begin(recordEvents: bool): Loop {
    Loop(D.INITIAL, Q.Fresh(recordEvents))
  }

  function Step(c: D.Config, l: Loop, t: Turn): Loop {
    var (detector, transition) := if t.input.None? then (l.detector, D.Unchanged) else D.Update(c, l.detector, t.input.value);
    var told := if transition.Unchanged? then l.delivery else l.delivery.Want(detector.active);
    Loop(detector, told.Tick(t.now, t.e))
  }

  function Run(c: D.Config, l: Loop, turns: seq<Turn>): Loop {
    if turns == [] then l else Step(c, Run(c, l, turns[..|turns| - 1]), turns[|turns| - 1])
  }

  // ----- the loop is the detector and the delivery -----

  /** The observations of the turns. */
  function Inputs(turns: seq<Turn>): seq<D.Input> {
    if turns == [] then []
    else
      var n := |turns| - 1;
      Inputs(turns[..n]) + if turns[n].input.None? then [] else [turns[n].input.value]
  }

  /** What the delivery is asked for: START and STOP as the detector returns them on these observations, and every tick. */
  function Ops(c: D.Config, turns: seq<Turn>): seq<Q.Op> {
    if turns == [] then []
    else
      var n := |turns| - 1;
      var before := Inputs(turns[..n]);
      var x := if turns[n].input.None? then D.Unchanged else D.Update(c, D.After(c, before), turns[n].input.value).1;
      Ops(c, turns[..n])
      + (if x.Start? then [Q.Want(true)] else if x.Stop? then [Q.Want(false)] else [])
      + [Q.Tick(turns[n].now, turns[n].e)]
  }

  /** What a transition leaves the detector in. */
  lemma TransitionsSetTheState(c: D.Config, d: D.Detector, i: D.Input)
    ensures var (e, x) := D.Update(c, d, i);
            (x.Start? ==> e.active) && (x.Stop? ==> !e.active)
  {
  }

  lemma AfterOneMore(c: D.Config, trace: seq<D.Input>, i: D.Input)
    ensures D.After(c, trace + [i]) == D.Update(c, D.After(c, trace), i).0
  {
    assert (trace + [i])[..|trace|] == trace;
  }

  /** On every run the loop's detector is the detector on the observations, and its delivery the delivery on what it was asked. */
  lemma {:induction false} TheLoopRunsBoth(c: D.Config, recordEvents: bool, turns: seq<Turn>)
    ensures var l := Run(c, Begin(recordEvents), turns);
            && l.detector == D.After(c, Inputs(turns))
            && l.delivery == Q.Run(Q.Fresh(recordEvents), Ops(c, turns))
  {
    hide D.Update, D.After, Q.Run, Q.Delivery.Tick, Q.Delivery.Want;
    if turns == [] {
      assert D.After(c, []) == D.INITIAL && Q.Run(Q.Fresh(recordEvents), []) == Q.Fresh(recordEvents) by {
        NothingYet(c, recordEvents);
      }
    } else {
      var n := |turns| - 1;
      TheLoopRunsBoth(c, recordEvents, turns[..n]);
      var t, before, ops := turns[n], Inputs(turns[..n]), Ops(c, turns[..n]);
      var tick := Q.Tick(t.now, t.e);
      if t.input.None? {
        assert Inputs(turns) == before && Ops(c, turns) == ops + [tick];
        Q.RunOneMore(Q.Fresh(recordEvents), ops, tick);
      } else {
        var x := D.Update(c, D.After(c, before), t.input.value).1;
        TransitionsSetTheState(c, D.After(c, before), t.input.value);
        AfterOneMore(c, before, t.input.value);
        if x.Unchanged? {
          Q.RunOneMore(Q.Fresh(recordEvents), ops, tick);
          assert Ops(c, turns) == ops + [tick];
        } else {
          Q.RunTwoMore(Q.Fresh(recordEvents), ops, Q.Want(x.Start?), tick);
          assert Ops(c, turns) == ops + [Q.Want(x.Start?), tick];
        }
      }
    }
  }

  lemma NothingYet(c: D.Config, recordEvents: bool)
    ensures D.After(c, []) == D.INITIAL && Q.Run(Q.Fresh(recordEvents), []) == Q.Fresh(recordEvents)
  {
  }

  // ----- so what is told is the detector's state -----

  ghost predicate Inv(l: Loop) {
    l.delivery.enabled ==> l.delivery.wanted == l.detector.active
  }

  lemma TickKeepsWanted(d: Q.Delivery, now: int, e: Q.Surroundings)
    ensures d.Tick(now, e).wanted == d.wanted && d.Tick(now, e).enabled == d.enabled
  {
    hide Q.Delivery.Sent;
    var r := d.Ready(now, e);
    if r.queue.Some? { Q.SentGoesToTheQueue(r, now, e); }
  }

  lemma StepKeepsInv(c: D.Config, l: Loop, t: Turn)
    requires Inv(l)
    ensures Inv(Step(c, l, t))
  {
    hide Q.Delivery.Tick;
    var (detector, transition) := if t.input.None? then (l.detector, D.Unchanged) else D.Update(c, l.detector, t.input.value);
    var told := if transition.Unchanged? then l.delivery else l.delivery.Want(detector.active);
    TickKeepsWanted(told, t.now, t.e);
  }

  lemma {:induction false} RunKeepsInv(c: D.Config, l: Loop, turns: seq<Turn>)
    requires Inv(l)
    ensures Inv(Run(c, l, turns))
  {
    hide Step;
    if turns != [] {
      RunKeepsInv(c, l, turns[..|turns| - 1]);
      StepKeepsInv(c, Run(c, l, turns[..|turns| - 1]), turns[|turns| - 1]);
    }
  }

  /**
   * Whenever the delivery reports nothing pending, the recorder last heard the
   * state of the detector on all observations so far, on the queue found behind
   * the name less than a second before the last turn.
   */
  lemma RecorderAgreesWhenNothingIsPending(c: D.Config, turns: seq<Turn>)
    ensures var d := Run(c, Begin(true), turns).delivery;
            d.enabled && !d.Pending() ==>
              && d.queue.Some? && d.sends != []
              && d.sends[|d.sends| - 1] == Q.Message(d.queue.value, D.After(c, Inputs(turns)).active)
              && Q.BehindTheName(Ops(c, turns), d.queue.value)
  {
    hide Run, D.After, Q.Run, Q.BehindTheName;
    RunKeepsInv(c, Begin(true), turns);
    TheLoopRunsBoth(c, true, turns);
    Q.NotPendingMeansTold(true, Ops(c, turns));
  }

  /** A detected START the recorder has not heard survives every later turn until it is delivered. */
  lemma DetectedStartReachesTheRecorder(c: D.Config, turns: seq<Turn>, x: D.Input, now: int, e: Q.Surroundings, later: seq<Turn>)
    requires var l := Run(c, Begin(true), turns);
             D.Update(c, l.detector, x).1.Start? && !l.delivery.sent && l.delivery.enabled
    ensures var l := Run(c, Begin(true), turns);
            var m := Run(c, Begin(true), turns + [Turn(Some(x), now, e)] + later);
            m.delivery.startPending || Q.Starts(m.delivery.sends) > Q.Starts(l.delivery.sends)
  {
    hide D.Update, Q.Delivery.Tick;
    var l := Run(c, Begin(true), turns);
    var told := l.delivery.Want(true);
    TransitionsSetTheState(c, l.detector, x);
    Q.StepKeepsStart(told, Q.Tick(now, e));
    var t := Turn(Some(x), now, e);
    assert (turns + [t])[..|turns|] == turns;
    StartSurvives(c, Begin(true), turns + [t], later, Q.Starts(l.delivery.sends));
  }

  lemma StepKeepsStart(c: D.Config, l: Loop, t: Turn)
    ensures Q.KeepsStart(l.delivery, Step(c, l, t).delivery)
  {
    hide Q.Delivery.Tick;
    var (detector, transition) := if t.input.None? then (l.detector, D.Unchanged) else D.Update(c, l.detector, t.input.value);
    var told := if transition.Unchanged? then l.delivery else l.delivery.Want(detector.active);
    Q.StepKeepsStart(told, Q.Tick(t.now, t.e));
  }

  lemma {:induction false} StartSurvives(c: D.Config, l: Loop, turns: seq<Turn>, later: seq<Turn>, before: nat)
    requires var m := Run(c, l, turns).delivery;
             (m.startPending && Q.Starts(m.sends) >= before) || Q.Starts(m.sends) > before
    ensures var m := Run(c, l, turns + later).delivery;
            (m.startPending && Q.Starts(m.sends) >= before) || Q.Starts(m.sends) > before
    decreases |later|
  {
    hide Step;
    if later == [] {
      assert turns + later == turns;
    } else {
      var n := |later| - 1;
      StartSurvives(c, l, turns, later[..n], before);
      assert (turns + later)[..|turns| + n] == turns + later[..n];
      StepKeepsStart(c, Run(c, l, turns + later[..n]), later[n]);
    }
  }
}
