/**
 * The recovery of an odd generation at boot: `motion_ivactl --init` looks at the
 * generation, asks whether the filter lives, and stores zero.  When that is
 * safe, and what two overlapping recoveries can do.
 */
module BootRecovery {
  import opened U32
  import opened CasSeqlock
  import opened ControllerRuns

  // ----- an undisturbed recovery -----

  /** The owner of the lock dies right after taking it. */
  function DieLocked(c: nat, want: Record): seq<Event> {
    [Arrive(c, want), Load(c), Cas(c)] + [Die(c)]
  }

  lemma LockIsLeftBehind(s: State, c: nat, want: Record)
    requires s.kind.Iva? && 0 <= s.gen < TWO32 && s.gen % 2 == 0
    requires c !in s.controllers && Accepts(Iva, want)
    ensures Legal(s, DieLocked(c, want))
    ensures Run(s, DieLocked(c, want)) == s.(gen := s.gen + 1, asked := s.asked + {want})
  {
    hide Accepts, Run, Legal, Step;
    var a := [Arrive(c, want), Load(c), Cas(c)];
    ThreeSteps(s, a);
    LockedOut(s, c, want);
    OneStep(Run(s, a), Die(c));
    RunAppend(s, a, [Die(c)]);
  }

  lemma LockedOut(s: State, c: nat, want: Record)
    requires s.kind.Iva? && 0 <= s.gen < TWO32 && s.gen % 2 == 0
    requires c !in s.controllers && Accepts(Iva, want)
    ensures Step(Step(Step(Step(s, Arrive(c, want)), Load(c)), Cas(c)), Die(c))
         == s.(gen := s.gen + 1, asked := s.asked + {want})
  {
    hide Accepts;
    WrapSmall(s.gen + 1);
    var t := Step(Step(Step(s, Arrive(c, want)), Load(c)), Cas(c));
    assert t.controllers - {c} == s.controllers;
  }

  /** A boot controller up to where it knows that no filter lives. */
  function Suspect(c: nat, want: Record): seq<Event> {
    [Boot(c, want), Look(c), Probe(c)]
  }

  lemma SuspectRuns(s: State, c: nat, want: Record)
    requires s.kind.Iva? && s.gen % 2 == 1 && s.readers == map[] && c !in s.controllers && Accepts(Iva, want)
    ensures Legal(s, Suspect(c, want))
    ensures Run(s, Suspect(c, want))
         == s.(asked := s.asked + {want}, controllers := s.controllers[c := Controller(want, 0, Recovering)])
  {
    hide Accepts, Run, Legal, Step, Wrap;
    ThreeSteps(s, Suspect(c, want));
    BootStep(s, c, want);
    var t := Step(s, Boot(c, want));
    LookOddStep(t, c);
    ProbeAloneStep(Step(t, Look(c)), c);
    ThreeTimes(s.controllers, c, Controller(want, 0, Starting), Controller(want, 0, Suspecting),
               Controller(want, 0, Recovering));
  }

  lemma BootStep(s: State, c: nat, want: Record)
    requires s.kind.Iva? && c !in s.controllers && Accepts(Iva, want)
    ensures Step(s, Boot(c, want))
         == s.(controllers := s.controllers[c := Controller(want, 0, Starting)], asked := s.asked + {want})
  {
    hide Accepts, Wrap;
  }

  lemma LookOddStep(s: State, c: nat)
    requires s.gen % 2 == 1 && c in s.controllers && s.controllers[c].pc.Starting?
    ensures Step(s, Look(c)) == SetPc(s, c, Suspecting)
  {
    hide Accepts, Wrap;
  }

  lemma ProbeAloneStep(s: State, c: nat)
    requires s.readers == map[] && c in s.controllers && s.controllers[c].pc.Suspecting?
    ensures Step(s, Probe(c)) == SetPc(s, c, Recovering)
  {
    hide Accepts, Wrap;
  }

  /** Left alone, a recovery makes the generation zero and keeps the record. */
  lemma RecoveryResets(s: State, c: nat, want: Record)
    requires s.kind.Iva? && s.gen % 2 == 1 && s.readers == map[] && c !in s.controllers && Accepts(Iva, want)
    ensures NobodyInside(s) ==> Legal(s, Suspect(c, want) + [Reset(c)])
    ensures Run(s, Suspect(c, want) + [Reset(c)])
         == s.(gen := 0, published := [s.mem], epoch := s.epoch + 1, asked := s.asked + {want},
               controllers := s.controllers[c := Controller(want, 0, Ready)])
  {
    hide Accepts, Run, Legal, Suspect;
    SuspectRuns(s, c, want);
    var t := Run(s, Suspect(c, want));
    OneStep(t, Reset(c));
    assert NobodyInside(s) ==> NobodyInside(t) by {
      forall d | !s.Alive(d) ensures !t.Alive(d) {}
    }
    assert Step(t, Reset(c)).controllers == s.controllers[c := Controller(want, 0, Ready)];
    RunAppend(s, Suspect(c, want), [Reset(c)]);
  }

  // ----- exactly when the store is safe for the lock -----

  function Enter(d: nat): seq<Event> {
    [Arrive(d, Defaults(Iva)), Load(d), Cas(d)]
  }

  /**
   * Whatever happened since the look: after the store a newcomer can enter, and
   * it is alone inside exactly when nobody was inside at the store.
   */
  lemma ResetIsSafeExactlyWhenNobodyIsInside(s: State, c: nat, d: nat)
    requires s.kind.Iva? && c in s.controllers && s.controllers[c].pc.Recovering? && d !in s.controllers
    ensures Run(s, [Reset(c)] + Enter(d)).Alive(d)
    ensures AtMostOneInside(Run(s, [Reset(c)] + Enter(d))) <==> NobodyInside(s)
  {
    hide Run, Accepts, Step, Wrap, Defaults;
    var t := Step(s, Reset(c));
    OneStep(s, Reset(c));
    ResetStep(s, c);
    ThreeSteps(t, Enter(d));
    var t1 := Step(t, Arrive(d, Defaults(Iva)));
    ArriveStep(t, d, Defaults(Iva));
    LoadStep(t1, d);
    CasStep(Step(t1, Load(d)), d);
    RunAppend(s, [Reset(c)], Enter(d));
    var v := Run(s, [Reset(c)] + Enter(d));
    assert v.controllers == t.controllers[d := Controller(Defaults(Iva), 0, Writing(0, 0))];
    forall e | e != d ensures v.Alive(e) <==> s.Alive(e) {}
    assert v.Alive(d);
    if e :| s.Alive(e) { assert v.Alive(e) && e != d; }
  }

  // ----- two recoveries at once -----

  /** Both look, both find the filter dead; then one resets and enters, and so does the other. */
  function Overlap(c: nat, d: nat, v: Record, w: Record): seq<Event> {
    (Suspect(c, v) + Suspect(d, w)) + ([Reset(c), Load(c), Cas(c)] + [Reset(d), Load(d), Cas(d)])
  }

  lemma ResetAndEnter(s: State, c: nat)
    requires s.kind.Iva? && c in s.controllers && s.controllers[c].pc.Recovering?
    ensures var x := s.controllers[c];
            Run(s, [Reset(c), Load(c), Cas(c)])
            == s.(gen := 1, published := [s.mem], epoch := s.epoch + 1,
                  controllers := s.controllers[c := x.(pc := Writing(0, 0))])
  {
    hide Run, Accepts, Step, Wrap;
    var x := s.controllers[c];
    ThreeSteps(s, [Reset(c), Load(c), Cas(c)]);
    ResetStep(s, c);
    var t := Step(s, Reset(c));
    LoadStep(t, c);
    CasStep(Step(t, Load(c)), c);
    var y := x.(pc := Writing(0, 0));
    assert s.controllers[c := x.(pc := Ready)][c := x.(pc := Loaded(0))][c := y] == s.controllers[c := y];
  }

  /** Nobody is inside at either look, and in the end both recoveries are. */
  lemma OverlappingRecoveriesBothEnter(s: State, c: nat, d: nat, v: Record, w: Record)
    requires s.kind.Iva? && s.gen % 2 == 1 && s.readers == map[] && NobodyInside(s)
    requires c !in s.controllers && d !in s.controllers && c != d && Accepts(Iva, v) && Accepts(Iva, w)
    ensures NobodyInside(Run(s, Suspect(c, v) + Suspect(d, w)))
    ensures var t := Run(s, Overlap(c, d, v, w)); t.Alive(c) && t.Alive(d)
  {
    hide Run, Accepts, Suspect;
    SuspectRuns(s, c, v);
    var t := Run(s, Suspect(c, v));
    SuspectRuns(t, d, w);
    var u := Run(t, Suspect(d, w));
    RunAppend(s, Suspect(c, v), Suspect(d, w));
    forall e ensures !u.Alive(e) { assert !s.Alive(e); }
    ResetAndEnter(u, c);
    var x := Run(u, [Reset(c), Load(c), Cas(c)]);
    ResetAndEnter(x, d);
    RunAppend(u, [Reset(c), Load(c), Cas(c)], [Reset(d), Load(d), Cas(d)]);
    RunAppend(s, Suspect(c, v) + Suspect(d, w), [Reset(c), Load(c), Cas(c)] + [Reset(d), Load(d), Cas(d)]);
  }

  /** A dead owner and two boots are enough, from a fresh file. */
  lemma TwoInsideAreReachable(v: Record, w: Record)
    requires Accepts(Iva, v) && Accepts(Iva, w)
    ensures !AtMostOneInside(Run(Init(Iva), DieLocked(1, v) + Overlap(2, 3, v, w)))
  {
    hide Run, Accepts, DieLocked, Overlap;
    var s := Init(Iva);
    LockIsLeftBehind(s, 1, v);
    var t := Run(s, DieLocked(1, v));
    OverlappingRecoveriesBothEnter(t, 2, 3, v, w);
    RunAppend(s, DieLocked(1, v), Overlap(2, 3, v, w));
    assert Run(t, Overlap(2, 3, v, w)).Alive(2) && Run(t, Overlap(2, 3, v, w)).Alive(3);
  }

  // ----- a late store while a filter reads -----

  /** Boot 2 finds the filter dead; boot 3 resets and publishes in between. */
  function Before(v: Record, w: Record): seq<Event> {
    ((DieLocked(1, v) + Suspect(2, w)) + (Suspect(3, v) + [Reset(3)])) + Finish(3, v)
  }

  /** And filter 9 has copied `k` words. */
  function Early(v: Record, w: Record, k: nat): seq<Event> {
    Before(v, w) + ([Attach(9), Begin(9)] + Repeat(Copy(9), k))
  }

  /** Then boot 2 stores zero and publishes its own record under the same generation. */
  function Late(w: Record, k: nat): seq<Event>
    requires k <= 241
  {
    ([Reset(2)] + Finish(2, w)) + (Repeat(Copy(9), 241 - k) + [Check(9)])
  }

  lemma AttachAndBegin(s: State, r: nat)
    requires s.kind.Iva? && s.gen > 0 && s.gen % 2 == 0 && |s.published| > 0 && r !in s.readers
    ensures Run(s, [Attach(r), Begin(r)]) == SetReader(s, r, Reader(Defaults(Iva), 0, 0, Copying(s.gen, s.Last(), [])))
  {
    hide Run, Accepts, Step, Wrap, Defaults;
    TwoSteps(s, Attach(r), Begin(r));
    AttachStep(s, r);
    BeginStep(Step(s, Attach(r)), r);
    var y := Reader(Defaults(Iva), 0, 0, Copying(s.gen, s.Last(), []));
    assert Step(s, Attach(r)).readers[r := y] == s.readers[r := y];
  }

  lemma BeforeRuns(v: Record, w: Record)
    requires Accepts(Iva, v) && Accepts(Iva, w) && |v| == 241
    ensures Run(Init(Iva), Before(v, w)) ==
            State(Iva, 2, v, map[2 := Controller(w, 0, Recovering), 3 := Controller(v, 0, Finished(true))], map[], [],
                  [Init(Iva).mem, v], {v, w}, 1)
  {
    hide Run, Accepts, DieLocked, Suspect, Finish, Wrap, Step;
    WrapSmall(2);
    var s0 := Init(Iva);
    LockIsLeftBehind(s0, 1, v);
    var s1 := Run(s0, DieLocked(1, v));
    SuspectRuns(s1, 2, w);
    var s2 := Run(s1, Suspect(2, w));
    RecoveryResets(s2, 3, v);
    var s3 := Run(s2, Suspect(3, v) + [Reset(3)]);
    LoneControllerFinishes(s3, 3);
    var s4 := Run(s3, Finish(3, v));
    RunAppend(s0, DieLocked(1, v), Suspect(2, w));
    RunAppend(s0, DieLocked(1, v) + Suspect(2, w), Suspect(3, v) + [Reset(3)]);
    RunAppend(s0, (DieLocked(1, v) + Suspect(2, w)) + (Suspect(3, v) + [Reset(3)]), Finish(3, v));
    assert s4.controllers == map[2 := Controller(w, 0, Recovering), 3 := Controller(v, 0, Finished(true))];
    assert s4.asked == {v, w};
  }

  lemma EarlyRuns(v: Record, w: Record, k: nat)
    requires Accepts(Iva, v) && Accepts(Iva, w) && k <= 241
    ensures |v| == 241
    ensures var s := Run(Init(Iva), Early(v, w, k));
            && s.kind.Iva? && s.gen == 2 && s.mem == v && |s.published| > 0 && NobodyInside(s)
            && 2 in s.controllers && s.controllers[2] == Controller(w, 0, Recovering)
            && 9 in s.readers && s.readers[9] == Reader(Defaults(Iva), 0, 0, Copying(2, s.Last(), v[..k]))
  {
    hide Run, Accepts, Before, Repeat, Wrap, Step;
    SizeOf(Iva, v);
    BeforeRuns(v, w);
    var s := Run(Init(Iva), Before(v, w));
    AttachAndBegin(s, 9);
    var t := Run(s, [Attach(9), Begin(9)]);
    RunCopies(t, 9, k);
    assert [] + v[0..k] == v[..k];
    RunAppend(s, [Attach(9), Begin(9)], Repeat(Copy(9), k));
    RunAppend(Init(Iva), Before(v, w), [Attach(9), Begin(9)] + Repeat(Copy(9), k));
  }

  lemma MixIsAccepted(v: Record, w: Record, k: nat)
    requires Accepts(Iva, v) && Accepts(Iva, w) && k <= 241
    ensures |v| == 241 == |w| && Accepts(Iva, v[..k] + w[k..])
  {
  }

  lemma LateRuns(s: State, v: Record, w: Record, k: nat)
    requires Accepts(Iva, v) && Accepts(Iva, w) && k <= 241 && |v| == 241
    requires s.kind.Iva? && s.gen == 2 && |s.mem| == 241
    requires 2 in s.controllers && s.controllers[2] == Controller(w, 0, Recovering)
    requires 9 in s.readers && s.readers[9].pc.Copying? && s.readers[9].pc.first == 2 && s.readers[9].pc.copied == v[..k]
    ensures |w| == 241
    ensures var t := Run(s, Late(w, k)); 9 in t.readers && t.readers[9].active == v[..k] + w[k..]
  {
    hide Run, Accepts, Finish, Repeat, Wrap, Step;
    MixIsAccepted(v, w, k);
    WrapSmall(2);
    OneStep(s, Reset(2));
    ResetStep(s, 2);
    var s1 := Step(s, Reset(2));
    LoneControllerFinishes(s1, 2);
    var s2 := Run(s1, Finish(2, w));
    RunCopies(s2, 9, 241 - k);
    assert w[k..k + (241 - k)] == w[k..];
    var s3 := Run(s2, Repeat(Copy(9), 241 - k));
    OneStep(s3, Check(9));
    CheckStep(s3, 9);
    RunAppend(s, [Reset(2)], Finish(2, w));
    RunAppend(s2, Repeat(Copy(9), 241 - k), [Check(9)]);
    RunAppend(s, [Reset(2)] + Finish(2, w), Repeat(Copy(9), 241 - k) + [Check(9)]);
  }

  /**
   * Nobody is inside when the late store comes, so the lock is not in danger;
   * but the filter commits the first `k` words of one record and the rest of
   * another.
   */
  lemma ALateStoreMixesRecords(v: Record, w: Record, k: nat)
    requires Accepts(Iva, v) && Accepts(Iva, w) && k <= 241
    ensures |v| == 241 == |w|
    ensures NobodyInside(Run(Init(Iva), Early(v, w, k)))
    ensures var t := Run(Init(Iva), Early(v, w, k) + Late(w, k));
            9 in t.readers && t.readers[9].active == v[..k] + w[k..]
  {
    hide Run, Accepts, Early, Late;
    SizeOf(Iva, w);
    EarlyRuns(v, w, k);
    LateRuns(Run(Init(Iva), Early(v, w, k)), v, w, k);
    RunAppend(Init(Iva), Early(v, w, k), Late(w, k));
  }
}
