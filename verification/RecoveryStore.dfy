/**
 * What a recovery's store of zero does to the filters that are there: it is
 * harmless exactly when none of them has read, and a recovery whose window stays
 * clear finds none that has.
 */
module RecoveryStore {
  import opened U32
  import opened CasSeqlock
  import opened ControllerRuns
  import opened BootRecovery

  /**
   * A filter that skips the read, because it carries the generation of the
   * settings, and works under something else.  It has missed fewer than 2^31
   * publications.
   */
  predicate MisledReader(s: State, x: Reader) {
    x.activeGen == s.gen && x.active != s.mem && s.Last() - x.activeVersion < TWO31
  }

  ghost predicate Misled(s: State) {
    s.gen % 2 == 0 && s.gen != 0 && exists r :: r in s.readers && MisledReader(s, s.readers[r])
  }

  ghost predicate NoFilterHasRead(s: State) {
    forall r :: r in s.readers ==> Untouched(s.readers[r])
  }

  // ----- nobody is misled when no filter had read -----

  lemma NobodyIsMisled(s: State)
    requires Inv(s) && s.kind.Iva?
    ensures !Misled(s)
  {
    hide Wrap, Accepts, Defaults;
    if s.gen % 2 == 0 && s.gen != 0 {
      NewestIsClean(s);
      forall r | r in s.readers ensures !MisledReader(s, s.readers[r]) {
        ReaderIsOk(s, r);
        var x := s.readers[r];
        if x.activeGen == s.gen && s.Last() - x.activeVersion < TWO31 {
          GenerationNames(s);
          WrapInjective(2 * s.Last(), 2 * x.activeVersion);
        }
      }
    }
  }

  lemma ReaderIsOk(s: State, r: nat)
    requires Inv(s) && r in s.readers
    ensures ReaderOk(s.kind, s.mem, s.published, Quiet(s.gen, s.controllers), s.readers[r])
  {
    hide Wrap, Accepts, Defaults, LockInv;
  }

  lemma GenerationNames(s: State)
    requires Inv(s)
    ensures s.gen - s.gen % 2 == Wrap(2 * s.Last()) && s.Last() >= 0
  {
    hide Wrap, Accepts, Defaults;
  }

  /** Under the assumption at the store, whatever follows misleads nobody. */
  lemma HarmlessStore(s: State, c: nat, events: seq<Event>)
    requires Inv(s) && s.kind.Iva? && c in s.controllers && s.controllers[c].pc.Recovering?
    requires NobodyInside(s) && NoFilterHasRead(s)
    requires Legal(Step(s, Reset(c)), events)
    ensures !Misled(Run(Step(s, Reset(c)), events))
  {
    hide Inv, Step, Run, Misled;
    ResetKeepsInv(s, c);
    var t := Step(s, Reset(c));
    RunKeepsInv(t, events);
    RunKeepsKind(t, events);
    assert t.kind.Iva? by { ResetStep(s, c); }
    NobodyIsMisled(Run(t, events));
  }

  // ----- and somebody can be when one had -----

  /** The same record with the first word, whether the mask is on, turned over. */
  function Turned(w: Record): (r: Record)
    requires Accepts(Iva, w)
    ensures Accepts(Iva, r) && |r| == |w| == 241 && r[0] != w[0]
  {
    [1 - w[0]] + w[1..]
  }

  /** One later set of its own by controller `d`, which then goes away. */
  function SetOver(d: nat, w: Record): seq<Event> {
    (Comparison(d, w, 0) + (Repeat(Write(d), 241) + [Write(d)])) + [Die(d)]
  }

  /** `n` sets, one after another, the last of them `w`; the generation climbs from zero to 2n. */
  function Climb(d: nat, w: Record, n: nat): seq<Event>
    requires Accepts(Iva, w) && n > 0
    decreases n
  {
    if n == 1 then Publish(d, w) + [Die(d)] else Climb(d, Turned(w), n - 1) + SetOver(d, w)
  }

  lemma DieStep(s: State, d: nat, x: Controller, before: map<nat, Controller>)
    requires d !in before && s.controllers == before[d := x]
    ensures Step(s, Die(d)) == s.(controllers := before)
    ensures Assumed(s, Die(d))
  {
    hide Accepts, Wrap;
    assert before[d := x] - {d} == before;
  }

  lemma FirstClimb(s: State, d: nat, w: Record)
    requires s.kind.Iva? && s.gen == 0 && |s.mem| == 241 && d !in s.controllers && Accepts(Iva, w)
    ensures Legal(s, Publish(d, w) + [Die(d)])
    ensures Run(s, Publish(d, w) + [Die(d)])
         == s.(gen := 2, mem := w, published := s.published + [w], asked := s.asked + {w})
  {
    hide Accepts, Run, Legal, Publish, Step, Assumed, Wrap;
    WrapSmall(2);
    UncontendedSetPublishes(s, d, w);
    var t := Run(s, Publish(d, w));
    DieStep(t, d, Controller(w, 0, Finished(true)), s.controllers);
    OneStep(t, Die(d));
    RunAppend(s, Publish(d, w), [Die(d)]);
  }

  lemma NextClimb(s: State, d: nat, w: Record)
    requires s.kind.Iva? && 0 < s.gen < TWO32 - 2 && s.gen % 2 == 0 && |s.mem| == 241 && d !in s.controllers
    requires Accepts(Iva, w) && |w| == 241 && s.mem[0] != w[0]
    ensures Legal(s, SetOver(d, w))
    ensures Run(s, SetOver(d, w))
         == s.(gen := s.gen + 2, mem := w, published := s.published + [w], asked := s.asked + {w})
  {
    hide Accepts, Run, Legal, Comparison, Repeat, Step, Assumed, Wrap;
    WrapSmall(s.gen + 2);
    DifferentSetPublishes(s, d, w, 0);
    var events := Comparison(d, w, 0) + (Repeat(Write(d), 241) + [Write(d)]);
    var t := Run(s, events);
    DieStep(t, d, Controller(w, 0, Finished(true)), s.controllers);
    OneStep(t, Die(d));
    RunAppend(s, events, [Die(d)]);
  }

  /** Nothing but the record, its generation and the bookkeeping of both has changed. */
  ghost predicate Climbed(s: State, t: State, w: Record, n: nat) {
    && t == s.(gen := 2 * n, mem := w, published := t.published, asked := t.asked)
    && |t.published| == |s.published| + n
  }

  lemma {:induction false} ClimbRuns(s: State, d: nat, w: Record, n: nat)
    requires s.kind.Iva? && s.gen == 0 && |s.mem| == 241 && d !in s.controllers && Accepts(Iva, w) && 0 < n < TWO31
    ensures Legal(s, Climb(d, w, n)) && Climbed(s, Run(s, Climb(d, w, n)), w, n)
    decreases n
  {
    hide Accepts, Run, Legal, Publish, SetOver;
    if n == 1 {
      FirstClimb(s, d, w);
    } else {
      ClimbRuns(s, d, Turned(w), n - 1);
      var t := Run(s, Climb(d, Turned(w), n - 1));
      NextClimb(t, d, w);
      RunAppend(s, Climb(d, Turned(w), n - 1), SetOver(d, w));
    }
  }

  /** The state right after the store. */
  lemma StoreState(s: State, c: nat)
    requires Inv(s) && c in s.controllers && s.controllers[c].pc.Recovering?
    ensures var t := Step(s, Reset(c));
            && t.kind == s.kind && t.gen == 0 && t.mem == s.mem && |t.mem| == Words(s.kind)
            && t.readers == s.readers && t.controllers.Keys == s.controllers.Keys && t.Last() == 0
  {
    hide Accepts, Wrap, Defaults, LockInv, ReaderOk, SampleOk, ControllerOk, Step;
    ResetStep(s, c);
  }

  /** A filter that has committed a record: the generation climbs back to the one it carries, over another record. */
  lemma CommittedFilterIsMisled(s: State, c: nat, d: nat, r: nat) returns (events: seq<Event>)
    requires Inv(s) && s.kind.Iva? && c in s.controllers && s.controllers[c].pc.Recovering? && d !in s.controllers
    requires r in s.readers && s.readers[r].activeGen != 0
    ensures Legal(Step(s, Reset(c)), events) && Misled(Run(Step(s, Reset(c)), events))
  {
    hide Accepts, Run, Legal, Wrap, Defaults, Step, Inv;
    StoreState(s, c);
    ReaderIsOk(s, r);
    var x := s.readers[r];
    WrapParity(2 * x.activeVersion);
    WrapRange(2 * x.activeVersion);
    var n: nat := x.activeGen / 2;
    var w := if x.active == Defaults(Iva) then Turned(Defaults(Iva)) else Defaults(Iva);
    var t := Step(s, Reset(c));
    ClimbRuns(t, d, w, n);
    events := Climb(d, w, n);
    VersionAtLeast(x.activeVersion);
    assert MisledReader(Run(t, events), Run(t, events).readers[r]);
  }

  lemma WrapRange(n: int)
    ensures 0 <= Wrap(n) < TWO32
  {
  }

  /** The generation carried is no more than the publications it counts. */
  lemma VersionAtLeast(v: nat)
    ensures Wrap(2 * v) <= 2 * v
  {
  }

  /** `k` words of the record as it was, the rest of `w`. */
  function Mix(copied: Record, w: Record): Record
    requires |copied| <= |w|
  {
    copied + w[|copied|..]
  }

  lemma MixIsAcceptable(copied: Record, w: Record)
    requires Accepts(Iva, w) && |copied| <= 241 && Clean(copied)
    ensures |w| == 241 && Accepts(Iva, Mix(copied, w))
  {
  }

  /** A filter in mid-copy: it goes on after the climb and passes its check. */
  function Resumed(d: nat, r: nat, w: Record, n: nat, k: nat): seq<Event>
    requires Accepts(Iva, w) && n > 0 && k <= 241
  {
    Climb(d, w, n) + (Repeat(Copy(r), 241 - k) + [Check(r)])
  }

  lemma ResumedRuns(t: State, d: nat, r: nat, w: Record)
    requires t.kind.Iva? && t.gen == 0 && |t.mem| == 241 && d !in t.controllers && Accepts(Iva, w) && t.Last() == 0
    requires r in t.readers && t.readers[r].pc.Copying? && |t.readers[r].pc.copied| <= 241 && Clean(t.readers[r].pc.copied)
    requires var x := t.readers[r].pc; 0 < x.first < TWO32 && x.first % 2 == 0 && x.first <= 2 * x.version
    ensures |w| == 241
    ensures var x := t.readers[r].pc;
            var events := Resumed(d, r, w, x.first / 2, |x.copied|);
            var v := Run(t, events);
            && Legal(t, events)
            && v.gen == x.first && v.mem == w && r in v.readers
            && v.readers[r] == Reader(Mix(x.copied, w), x.first, x.version, Resting)
            && v.Last() - x.version < TWO31
  {
    hide Accepts, Run, Legal, Wrap, Defaults, Step, Climb, Repeat, Clean;
    var x := t.readers[r].pc;
    var n, k := x.first / 2, |x.copied|;
    MixIsAcceptable(x.copied, w);
    ClimbRuns(t, d, w, n);
    var u := Run(t, Climb(d, w, n));
    RunCopies(u, r, 241 - k);
    assert w[k..k + (241 - k)] == w[k..];
    var v := Run(u, Repeat(Copy(r), 241 - k));
    CheckStep(v, r);
    OneStep(v, Check(r));
    RunAppend(u, Repeat(Copy(r), 241 - k), [Check(r)]);
    RunAppend(t, Climb(d, w, n), Repeat(Copy(r), 241 - k) + [Check(r)]);
  }

  /**
   * Whatever record `w` comes to be published, a filter that was in mid-copy at
   * the store can be led to commit the words it had and the rest of `w`, and to
   * take that for the newest record.
   */
  lemma AFilterInMidCopyCommitsAMix(s: State, c: nat, d: nat, r: nat, w: Record)
    requires Inv(s) && s.kind.Iva? && c in s.controllers && s.controllers[c].pc.Recovering? && d !in s.controllers
    requires r in s.readers && s.readers[r].pc.Copying? && Accepts(Iva, w)
    ensures var x := s.readers[r].pc;
            |x.copied| <= |w| == 241
            && exists events ::
                 var t := Run(Step(s, Reset(c)), events);
                 && Legal(Step(s, Reset(c)), events)
                 && t.gen == x.first && t.mem == w && r in t.readers
                 && t.readers[r].active == Mix(x.copied, w) && t.readers[r].activeGen == t.gen
  {
    hide Accepts, Run, Legal, Wrap, Defaults, Step, Inv, Clean, Resumed;
    StoreState(s, c);
    CopyIsClean(s, r);
    var x := s.readers[r].pc;
    ResumedRuns(Step(s, Reset(c)), d, r, w);
  }

  lemma CopyIsClean(s: State, r: nat)
    requires Inv(s) && s.kind.Iva? && r in s.readers && s.readers[r].pc.Copying?
    ensures var x := s.readers[r].pc;
            && |s.mem| == 241 && |x.copied| <= 241 && Clean(s.mem) && Clean(x.copied)
            && 0 < x.first < TWO32 && x.first % 2 == 0 && x.first <= 2 * x.version
  {
    hide Accepts, Wrap, Defaults;
    ReaderIsOk(s, r);
    var x := s.readers[r].pc;
    WrapParity(2 * x.version);
    WrapRange(2 * x.version);
    VersionAtLeast(x.version);
  }

  /** A filter that had copied nothing yet copies one word before the climb. */
  lemma CopyingFilterIsMisled(s: State, c: nat, d: nat, r: nat) returns (events: seq<Event>)
    requires Inv(s) && s.kind.Iva? && c in s.controllers && s.controllers[c].pc.Recovering? && d !in s.controllers
    requires r in s.readers && s.readers[r].pc.Copying?
    ensures Legal(Step(s, Reset(c)), events) && Misled(Run(Step(s, Reset(c)), events))
  {
    hide Accepts, Run, Legal, Wrap, Defaults, Step, Inv, Clean, Resumed;
    StoreState(s, c);
    CopyIsClean(s, r);
    var t := Step(s, Reset(c));
    var x := s.readers[r].pc;
    if |x.copied| > 0 {
      var w := Against(x.copied);
      ResumedRuns(t, d, r, w);
      events := Resumed(d, r, w, x.first / 2, |x.copied|);
      assert MisledReader(Run(t, events), Run(t, events).readers[r]);
    } else {
      FirstWord(t, r);
      var u := Step(t, Copy(r));
      var w := Against(u.readers[r].pc.copied);
      ResumedRuns(u, d, r, w);
      var rest := Resumed(d, r, w, x.first / 2, 1);
      events := [Copy(r)] + rest;
      OneStep(t, Copy(r));
      RunAppend(t, [Copy(r)], rest);
      assert MisledReader(Run(t, events), Run(t, events).readers[r]);
    }
  }

  /** A record that differs from the copy in its first word. */
  function Against(copied: Record): (w: Record)
    requires |copied| > 0 && Clean(copied)
    ensures Accepts(Iva, w) && |w| == 241 && w[0] != copied[0]
  {
    [1 - copied[0]] + seq(240, _ => 48)
  }

  lemma FirstWord(t: State, r: nat)
    requires |t.mem| == 241 && Clean(t.mem)
    requires r in t.readers && t.readers[r].pc.Copying? && t.readers[r].pc.copied == []
    ensures var x := t.readers[r];
            var y := x.(pc := x.pc.(copied := [t.mem[0]]));
            && Step(t, Copy(r)) == SetReader(t, r, y) && Clean(y.pc.copied) && Assumed(t, Copy(r))
  {
    hide Accepts, Wrap;
    assert [] + [t.mem[0]] == [t.mem[0]];
  }

  /**
   * The exact condition at the store: every legal continuation keeps every
   * filter right about the settings if and only if no filter had read by then.
   */
  lemma StoreIsHarmlessExactlyWhenNoFilterHasRead(s: State, c: nat, d: nat)
    requires Inv(s) && s.kind.Iva? && c in s.controllers && s.controllers[c].pc.Recovering? && d !in s.controllers
    requires NobodyInside(s)
    ensures NoFilterHasRead(s) <==>
            forall events :: Legal(Step(s, Reset(c)), events) ==> !Misled(Run(Step(s, Reset(c)), events))
  {
    hide Inv, Run, Legal, Step, Misled, Defaults;
    if NoFilterHasRead(s) {
      forall events | Legal(Step(s, Reset(c)), events) ensures !Misled(Run(Step(s, Reset(c)), events)) {
        HarmlessStore(s, c, events);
      }
    } else {
      var r :| r in s.readers && !Untouched(s.readers[r]);
      if s.readers[r].pc.Copying? {
        var events := CopyingFilterIsMisled(s, c, d, r);
      } else {
        HasCommitted(s, r);
        var events := CommittedFilterIsMisled(s, c, d, r);
      }
    }
  }

  lemma HasCommitted(s: State, r: nat)
    requires Inv(s) && s.kind.Iva? && r in s.readers && !Untouched(s.readers[r]) && s.readers[r].pc.Resting?
    ensures s.readers[r].activeGen != 0
  {
    hide Wrap, Accepts, Defaults;
    ReaderIsOk(s, r);
  }

  // ----- a window that stays clear -----

  predicate SeesOdd(s: State, e: Event) {
    e.Look? && e.c in s.controllers && s.controllers[e.c].pc.Starting? && s.gen % 2 == 1
  }

  predicate Takes(s: State, e: Event) {
    e.Cas? && e.c in s.controllers && s.controllers[e.c].pc.Loaded?
    && s.controllers[e.c].pc.gen % 2 == 0 && s.gen == s.controllers[e.c].pc.gen
  }

  ghost predicate NobodySuspects(s: State) {
    forall c :: c in s.controllers ==> !s.controllers[c].pc.Suspicious()
  }

  /**
   * What a boot sequence can see to: the lock's owner is dead when a recovery
   * looks at the odd generation, and nobody takes the lock until it has stored.
   */
  ghost predicate ClearAt(s: State, e: Event) {
    (SeesOdd(s, e) ==> NobodyInside(s)) && (Takes(s, e) ==> NobodySuspects(s))
  }

  ghost predicate Clear(s: State, events: seq<Event>)
    decreases |events|
  {
    events == [] || (ClearAt(s, events[0]) && Clear(Step(s, events[0]), events[1..]))
  }

  /** No read lasts for 2^31 publications. */
  ghost predicate BriefReads(s: State, events: seq<Event>)
    decreases |events|
  {
    events == []
    || ((events[0].Check? && events[0].r in s.readers && s.readers[events[0].r].pc.Copying?
         ==> s.Last() - s.readers[events[0].r].pc.version < TWO31)
        && BriefReads(Step(s, events[0]), events[1..]))
  }

  /** While a recovery is under way the dead owner's generation stands, or zero already, and no filter has read. */
  ghost predicate Window(s: State) {
    && (forall c :: c in s.controllers && (s.controllers[c].pc.Starting? || s.controllers[c].pc.Suspicious()) ==> s.kind.Iva?)
    && (forall c :: c in s.controllers && s.controllers[c].pc.Suspicious() ==>
          && (s.gen % 2 == 1 || s.gen == 0)
          && forall d :: d in s.controllers ==> !s.controllers[d].pc.Inside())
    && (forall c :: c in s.controllers && s.controllers[c].pc.Recovering? ==> NoFilterHasRead(s))
  }

  lemma StepKeepsWindow(s: State, e: Event)
    requires Window(s) && ClearAt(s, e)
    ensures Window(Step(s, e))
  {
    hide Wrap, Accepts, Defaults, Step, Window, ClearAt;
    if ReaderEvent(e) {
      ReaderKeepsWindow(s, e);
    } else if e.Die? {
      DieKeepsWindow(s, e.c);
    } else if Step(s, e).controllers != s.controllers || Step(s, e).gen != s.gen {
      OneMoves(s, e);
      HowItMoves(s, e);
      MoverKeepsWindow(s, e, Step(s, e));
    } else {
      OnlyWords(s, e);
      WindowFrame(s, Step(s, e));
    }
  }

  /** The window does not look at the record or the bookkeeping. */
  lemma WindowFrame(s: State, t: State)
    requires Window(s)
    requires t.kind == s.kind && t.gen == s.gen && t.controllers == s.controllers && t.readers == s.readers
    ensures Window(t)
  {
    hide Untouched;
  }

  lemma OnlyWords(s: State, e: Event)
    requires ControllerEvent(e)
    ensures Step(s, e).kind == s.kind && Step(s, e).readers == s.readers
  {
    hide Wrap, Accepts;
  }

  lemma DieKeepsWindow(s: State, c: nat)
    requires Window(s)
    ensures Window(Step(s, Die(c)))
  {
    hide Untouched, Accepts, Wrap;
    var t := Step(s, Die(c));
    assert forall d :: d in t.controllers ==> d in s.controllers && s.controllers[d] == t.controllers[d];
  }

  /** A filter does not read under an odd generation, nor under zero. */
  lemma StaysUntouched(s: State, e: Event)
    requires ReaderEvent(e) && s.kind.Iva? && (s.gen % 2 == 1 || s.gen == 0) && NoFilterHasRead(s)
    ensures NoFilterHasRead(Step(s, e))
  {
    hide Wrap, Accepts, Defaults;
  }

  lemma ReaderKeepsWindow(s: State, e: Event)
    requires Window(s) && ReaderEvent(e)
    ensures Window(Step(s, e))
  {
    hide Step, NoFilterHasRead;
    ReadersMoveNoController(s, e);
    if c :| c in s.controllers && s.controllers[c].pc.Recovering? {
      StaysUntouched(s, e);
    }
  }

  /** Where the controller of the event can have come from. */
  ghost predicate Moved(s: State, e: Event, t: State)
    requires ControllerEvent(e) && e.c in t.controllers
  {
    var pc := t.controllers[e.c].pc;
    var inside := e.c in s.controllers && s.controllers[e.c].pc.Inside();
    && t.kind == s.kind && t.readers == s.readers
    && (pc.Starting? ==> s.kind.Iva?)
    && (pc.Suspecting? ==> SeesOdd(s, e) && t.gen == s.gen)
    && (pc.Recovering? ==>
        e.c in s.controllers && s.controllers[e.c].pc.Suspecting? && s.readers == map[] && t.gen == s.gen)
    && (pc.Inside() ==> Takes(s, e) || inside)
    && (t.gen != s.gen ==> t.gen == 0 || Takes(s, e) || inside)
  }

  lemma HowItMoves(s: State, e: Event)
    requires ControllerEvent(e) && e.c in Step(s, e).controllers
    requires Step(s, e).controllers != s.controllers || Step(s, e).gen != s.gen
    ensures Moved(s, e, Step(s, e))
  {
    hide Wrap, Accepts, Defaults, Step, Moved;
    if LockEvent(e) { HowTheLockMoves(s, e); } else { HowTheRestMoves(s, e); }
  }

  lemma HowTheLockMoves(s: State, e: Event)
    requires LockEvent(e) && e.c in Step(s, e).controllers
    requires Step(s, e).controllers != s.controllers || Step(s, e).gen != s.gen
    ensures Moved(s, e, Step(s, e))
  {
    hide Wrap, Accepts, Defaults;
  }

  lemma HowTheRestMoves(s: State, e: Event)
    requires ControllerEvent(e) && !LockEvent(e) && e.c in Step(s, e).controllers
    requires Step(s, e).controllers != s.controllers || Step(s, e).gen != s.gen
    ensures Moved(s, e, Step(s, e))
  {
    hide Wrap, Accepts, Defaults;
  }

  lemma MoverKeepsWindow(s: State, e: Event, t: State)
    requires Window(s) && ClearAt(s, e) && ControllerEvent(e) && t == Step(s, e)
    requires e.c in t.controllers && t.controllers == s.controllers[e.c := t.controllers[e.c]] && Moved(s, e, t)
    ensures Window(t)
  {
    hide Step, Untouched;
    if SeesOdd(s, e) {
      forall d | d in s.controllers ensures !s.controllers[d].pc.Inside() { NobodyIs(s, d); }
    }
  }

  lemma WindowIsLegal(s: State, e: Event)
    requires Window(s) && Resets(s, e)
    ensures NobodyInside(s) && NoFilterHasRead(s)
  {
    hide Accepts, Defaults;
  }

  /** The assumption at the store follows from a clear window. */
  lemma {:induction false} ClearWindowsMakeLegalRuns(s: State, events: seq<Event>)
    requires Window(s) && Clear(s, events) && BriefReads(s, events)
    ensures Legal(s, events)
    decreases |events|
  {
    hide Wrap, Accepts, Defaults, Window, Step, ClearAt;
    if events != [] {
      StepKeepsWindow(s, events[0]);
      if Resets(s, events[0]) { WindowIsLegal(s, events[0]); }
      ClearWindowsMakeLegalRuns(Step(s, events[0]), events[1..]);
    }
  }
}
