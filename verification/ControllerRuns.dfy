/**
 * Undisturbed stretches of the settings locks: what a lone controller and a lone
 * filter come to when nobody gets in their way.
 */
module ControllerRuns {
  import opened U32
  import opened CasSeqlock

  lemma {:induction false} RunAppend(s: State, a: seq<Event>, b: seq<Event>)
    ensures Run(s, a + b) == Run(Run(s, a), b)
    ensures Legal(s, a + b) <==> Legal(s, a) && Legal(Run(s, a), b)
    decreases |a|
  {
    if a == [] {
      assert a + b == b;
    } else {
      assert (a + b)[1..] == a[1..] + b;
      RunAppend(Step(s, a[0]), a[1..], b);
    }
  }

  function Repeat(e: Event, n: nat): seq<Event> {
    if n == 0 then [] else [e] + Repeat(e, n - 1)
  }

  /** The state after controller `c` has copied `n` more words of its record. */
  function Written(s: State, c: nat, n: nat): State
    requires c in s.controllers && s.controllers[c].pc.Writing?
    requires s.controllers[c].pc.at + n <= |s.mem| && |s.mem| == |s.controllers[c].want|
  {
    var x := s.controllers[c];
    SetPc(s.(mem := seq(|s.mem|, i requires 0 <= i < |s.mem| =>
                        if x.pc.at <= i < x.pc.at + n then x.want[i] else s.mem[i])),
          c, Writing(x.pc.gen, x.pc.at + n))
  }

  lemma WrittenStep(s: State, c: nat, n: nat)
    requires c in s.controllers && s.controllers[c].pc.Writing?
    requires s.controllers[c].pc.at + n + 1 <= |s.mem| && |s.mem| == |s.controllers[c].want|
    ensures Step(Written(s, c, n), Write(c)) == Written(s, c, n + 1)
    ensures Assumed(Written(s, c, n), Write(c))
  {
    var t, u := Step(Written(s, c, n), Write(c)), Written(s, c, n + 1);
    assert t.mem == u.mem;
    assert t.controllers == u.controllers;
  }

  lemma WrittenNone(s: State, c: nat)
    requires c in s.controllers && s.controllers[c].pc.Writing?
    requires s.controllers[c].pc.at <= |s.mem| && |s.mem| == |s.controllers[c].want|
    ensures Written(s, c, 0) == s
  {
    assert Written(s, c, 0).controllers == s.controllers;
    assert Written(s, c, 0).mem == s.mem;
  }

  lemma {:induction false} RunWrites(s: State, c: nat, n: nat)
    requires c in s.controllers && s.controllers[c].pc.Writing?
    requires s.controllers[c].pc.at + n <= |s.mem| && |s.mem| == |s.controllers[c].want|
    ensures Run(s, Repeat(Write(c), n)) == Written(s, c, n)
    ensures Legal(s, Repeat(Write(c), n))
  {
    hide Run, Legal, Repeat, Accepts, Step, Written, Assumed;
    if n == 0 {
      WrittenNone(s, c);
      NoEvents(s, Write(c));
    } else {
      RunWrites(s, c, n - 1);
      WrittenStep(s, c, n - 1);
      RepeatEnd(Write(c), n - 1);
      OneStep(Written(s, c, n - 1), Write(c));
      RunAppend(s, Repeat(Write(c), n - 1), [Write(c)]);
    }
  }

  lemma {:induction false} RepeatEnd(e: Event, n: nat)
    ensures Repeat(e, n + 1) == Repeat(e, n) + [e]
  {
    if n > 0 {
      RepeatEnd(e, n - 1);
    }
  }

  /** A lone controller outside: lock, write every word, publish. */
  function Finish(c: nat, want: Record): seq<Event> {
    [Load(c), Cas(c)] + (Repeat(Write(c), |want|) + [Write(c)])
  }

  function Publish(c: nat, want: Record): seq<Event> {
    [Arrive(c, want)] + Finish(c, want)
  }

  lemma LoadStep(s: State, c: nat)
    requires c in s.controllers && s.controllers[c].pc.Ready?
    ensures Step(s, Load(c)) == SetPc(s, c, Loaded(s.gen))
  {
    hide Accepts, Wrap;
  }

  lemma CasStep(s: State, c: nat)
    requires c in s.controllers && s.controllers[c].pc == Loaded(s.gen) && 0 <= s.gen < TWO32 && s.gen % 2 == 0
    ensures Step(s, Cas(c)) == SetPc(s.(gen := s.gen + 1), c,
                                     if s.kind.Iva? && s.gen != 0 then Comparing(s.gen, 0) else Writing(s.gen, 0))
  {
    hide Accepts;
    WrapSmall(s.gen + 1);
  }

  lemma ArriveStep(s: State, c: nat, want: Record)
    requires c !in s.controllers && Accepts(s.kind, want)
    ensures Step(s, Arrive(c, want))
         == s.(controllers := s.controllers[c := Controller(want, 0, Ready)], asked := s.asked + {want})
  {
    hide Accepts, Wrap;
  }

  /** The lock as a lone controller takes it, without a record to compare with. */
  lemma LockIsTaken(s: State, c: nat)
    requires 0 <= s.gen < TWO32 && s.gen % 2 == 0 && (s.kind.Iva? ==> s.gen == 0)
    requires c in s.controllers && s.controllers[c].pc.Ready?
    ensures var x := s.controllers[c];
            && Legal(s, [Load(c), Cas(c)])
            && Run(s, [Load(c), Cas(c)])
               == s.(gen := s.gen + 1, controllers := s.controllers[c := x.(pc := Writing(s.gen, 0))])
  {
    hide Accepts, Run, Legal, Step, Wrap;
    TwoSteps(s, Load(c), Cas(c));
    LoadStep(s, c);
    CasStep(Step(s, Load(c)), c);
    var y := s.controllers[c].(pc := Writing(s.gen, 0));
    assert Step(s, Load(c)).controllers[c := y] == s.controllers[c := y];
  }

  /** Without competition a controller that finds no record to compare with publishes its own whole. */
  lemma LoneControllerFinishes(s: State, c: nat)
    requires 0 <= s.gen < TWO32 && s.gen % 2 == 0 && (s.kind.Iva? ==> s.gen == 0)
    requires c in s.controllers && s.controllers[c].pc.Ready? && |s.mem| == |s.controllers[c].want|
    ensures var x := s.controllers[c];
            && Legal(s, Finish(c, x.want))
            && Run(s, Finish(c, x.want)) ==
               s.(gen := Wrap(s.gen + 2), mem := x.want, published := s.published + [x.want],
                  controllers := s.controllers[c := x.(pc := Finished(true))])
  {
    hide Accepts, Run, Legal, Step, Repeat, Wrap;
    var x := s.controllers[c];
    LockIsTaken(s, c);
    var t := Run(s, [Load(c), Cas(c)]);
    WritesPublish(t, c);
    RunAppend(s, [Load(c), Cas(c)], Repeat(Write(c), |x.want|) + [Write(c)]);
    assert t.controllers[c := x.(pc := Finished(true))] == s.controllers[c := x.(pc := Finished(true))];
  }

  /** Without competition a night-vision `--set`, or the first IVA one, publishes its whole record. */
  lemma UncontendedSetPublishes(s: State, c: nat, want: Record)
    requires 0 <= s.gen < TWO32 && s.gen % 2 == 0 && (s.kind.Iva? ==> s.gen == 0)
    requires c !in s.controllers && Accepts(s.kind, want) && |s.mem| == Words(s.kind)
    ensures Legal(s, Publish(c, want))
    ensures Run(s, Publish(c, want)) ==
            s.(gen := Wrap(s.gen + 2), mem := want, published := s.published + [want], asked := s.asked + {want},
               controllers := s.controllers[c := Controller(want, 0, Finished(true))])
  {
    hide Accepts, Run, Legal, Repeat, Wrap;
    SizeOf(s.kind, want);
    var t := Step(s, Arrive(c, want));
    OneStep(s, Arrive(c, want));
    LoneControllerFinishes(t, c);
    RunAppend(s, [Arrive(c, want)], Finish(c, want));
    assert t.controllers[c := Controller(want, 0, Finished(true))]
        == s.controllers[c := Controller(want, 0, Finished(true))];
  }

  // ----- a lock that stays taken, and a file nobody has set -----

  function Tries(c: nat, n: nat): seq<Event> {
    if n == 0 then [] else Tries(c, n - 1) + [Load(c), Cas(c)]
  }

  /** After so many failed tries. */
  function Tried(s: State, c: nat, n: nat): State
    requires c in s.controllers
  {
    s.(controllers := s.controllers[c := s.controllers[c].(attempt := n, pc := if n < 50 then Ready else Finished(false))])
  }

  lemma OneTry(s: State, c: nat, n: nat)
    requires c in s.controllers && s.gen % 2 == 1 && n < 50
    ensures Run(Tried(s, c, n), [Load(c), Cas(c)]) == Tried(s, c, n + 1)
  {
    hide Run;
    var t := Tried(s, c, n);
    var u := Step(t, Load(c));
    var v := Step(u, Cas(c));
    TwoSteps(t, Load(c), Cas(c));
    assert u.controllers[c].pc == Loaded(s.gen);
    assert v.controllers == Tried(s, c, n + 1).controllers;
  }

  /**
   * A controller that finds the lock taken each time tries fifty times and then
   * fails; it leaves everything as it was.
   */
  lemma {:induction false} ATakenLockIsGivenUpAfterFiftyTries(s: State, c: nat, n: nat)
    requires c in s.controllers && s.controllers[c].pc.Ready? && s.controllers[c].attempt == 0
    requires s.gen % 2 == 1 && n <= 50
    ensures Run(s, Tries(c, n)) ==
            s.(controllers := s.controllers[c := Controller(s.controllers[c].want, n, if n < 50 then Ready else Finished(false))])
  {
    hide Run, Step;
    if n == 0 {
      assert Tried(s, c, 0).controllers == s.controllers;
      Nothing(s);
    } else {
      ATakenLockIsGivenUpAfterFiftyTries(s, c, n - 1);
      RunAppend(s, Tries(c, n - 1), [Load(c), Cas(c)]);
      OneTry(s, c, n - 1);
    }
  }

  lemma Nothing(s: State)
    ensures Run(s, []) == s
  {
  }

  /** Before anybody has set anything, night vision is automatic at 50 percent. */
  lemma AFreshNightFileIsAutomatic(r: nat)
    ensures Run(Init(Night), [Attach(r), Begin(r), Copy(r), Copy(r), Check(r)]).readers == map[r := Reader([0, 50], 0, 0, Resting)]
  {
    hide Run, Step;
    var s := Init(Night);
    var t := Step(Step(s, Attach(r)), Begin(r));
    FreshNightRead(r);
    TwoSteps(s, Attach(r), Begin(r));
    TwoSteps(t, Copy(r), Copy(r));
    OneStep(Step(Step(t, Copy(r)), Copy(r)), Check(r));
    RunAppend(s, [Attach(r), Begin(r)], [Copy(r), Copy(r)]);
    RunAppend(s, [Attach(r), Begin(r)] + [Copy(r), Copy(r)], [Check(r)]);
    assert [Attach(r), Begin(r)] + [Copy(r), Copy(r)] + [Check(r)] == [Attach(r), Begin(r), Copy(r), Copy(r), Check(r)];
  }

  /** A fresh night-vision file with one reader. */
  function NightRead(r: nat, pc: ReaderPc): State {
    Init(Night).(readers := map[r := Reader([0, 50], 0, 0, pc)])
  }

  lemma NightCopy(r: nat, copied: Record, next: int)
    requires |copied| < 2 && next == [0, 50][|copied|]
    ensures Step(NightRead(r, Copying(0, 0, copied)), Copy(r)) == NightRead(r, Copying(0, 0, copied + [next]))
  {
    var t := Step(NightRead(r, Copying(0, 0, copied)), Copy(r));
    assert t.readers == map[r := Reader([0, 50], 0, 0, Copying(0, 0, copied + [next]))];
  }

  lemma FreshNightRead(r: nat)
    ensures var t := Step(Step(Init(Night), Attach(r)), Begin(r));
            Step(Step(Step(t, Copy(r)), Copy(r)), Check(r)).readers == map[r := Reader([0, 50], 0, 0, Resting)]
  {
    NightBegins(r);
    NightChecks(r);
    hide Step, NightRead;
    NightCopy(r, [], 0);
    NightCopy(r, [0], 50);
    assert [] + [0] == [0] && [0] + [50] == [0, 50];
  }

  lemma NightBegins(r: nat)
    ensures Step(Step(Init(Night), Attach(r)), Begin(r)) == NightRead(r, Copying(0, 0, []))
  {
    assert Step(Init(Night), Attach(r)).readers == map[r := Reader([0, 50], 0, 0, Resting)];
    assert Step(Step(Init(Night), Attach(r)), Begin(r)).readers == map[r := Reader([0, 50], 0, 0, Copying(0, 0, []))];
  }

  lemma NightChecks(r: nat)
    ensures Step(NightRead(r, Copying(0, 0, [0, 50])), Check(r)).readers == map[r := Reader([0, 50], 0, 0, Resting)]
  {
    assert Accepts(Night, [0, 50]);
  }

  /** And the filter's mask is off and clear, whatever is in the file: zeroes to begin with. */
  lemma AFreshFilterMasksNothing(r: nat)
    ensures Init(Iva).mem == seq(241, _ => 0)
    ensures Run(Init(Iva), [Attach(r), Begin(r)]).readers == map[r := Reader([0] + seq(240, _ => 48), 0, 0, Resting)]
  {
    hide Run;
    TwoSteps(Init(Iva), Attach(r), Begin(r));
  }

  lemma SizeOf(kind: Kind, want: Record)
    requires Accepts(kind, want)
    ensures |want| == Words(kind)
  {
  }

  /** From the first word on, the writes and the release publish the record. */
  lemma WritesPublish(s: State, c: nat)
    requires c in s.controllers && |s.mem| == |s.controllers[c].want|
    requires s.controllers[c].pc.Writing? && s.controllers[c].pc.at == 0
    ensures var x := s.controllers[c];
            var events := Repeat(Write(c), |s.mem|) + [Write(c)];
            && Legal(s, events)
            && Run(s, events) ==
               s.(gen := Wrap(x.pc.gen + 2), mem := x.want, published := s.published + [x.want],
                  controllers := s.controllers[c := x.(pc := Finished(true))])
  {
    hide Wrap, Run, Legal, Repeat, Accepts;
    var x := s.controllers[c];
    RunWrites(s, c, |s.mem|);
    var t := Run(s, Repeat(Write(c), |s.mem|));
    assert t.mem == x.want;
    OneStep(t, Write(c));
    RunAppend(s, Repeat(Write(c), |s.mem|), [Write(c)]);
    assert Step(t, Write(c)).controllers == s.controllers[c := x.(pc := Finished(true))];
  }

  /** Comparing `n` words that agree. */
  lemma {:induction false} RunCompares(s: State, c: nat, n: nat)
    requires c in s.controllers && s.controllers[c].pc.Comparing?
    requires var x := s.controllers[c];
             && x.pc.at + n <= |s.mem| && |s.mem| == |x.want|
             && forall i :: x.pc.at <= i < x.pc.at + n ==> s.mem[i] == x.want[i]
    ensures Run(s, Repeat(Compare(c), n)) == SetPc(s, c, Comparing(s.controllers[c].pc.gen, s.controllers[c].pc.at + n))
    ensures Legal(s, Repeat(Compare(c), n))
    decreases n
  {
    var x := s.controllers[c];
    if n == 0 {
      assert s.controllers == s.controllers[c := x];
    } else {
      var t := Step(s, Compare(c));
      assert t == SetPc(s, c, Comparing(x.pc.gen, x.pc.at + 1));
      assert Repeat(Compare(c), n)[1..] == Repeat(Compare(c), n - 1);
      RunCompares(t, c, n - 1);
      assert t.controllers[c := x.(pc := Comparing(x.pc.gen, x.pc.at + n))]
          == s.controllers[c := x.(pc := Comparing(x.pc.gen, x.pc.at + n))];
    }
  }

  /** A later IVA controller of its own: lock, compare `agree` words and one more. */
  function Comparison(c: nat, want: Record, agree: nat): seq<Event> {
    [Arrive(c, want), Load(c), Cas(c)] + (Repeat(Compare(c), agree) + [Compare(c)])
  }

  /** It has taken the lock and compares. */
  function Comparer(s: State, c: nat, want: Record, n: nat): State {
    s.(gen := s.gen + 1, asked := s.asked + {want},
       controllers := s.controllers[c := Controller(want, 0, Comparing(s.gen, n))])
  }

  lemma ComparisonBegins(s: State, c: nat, want: Record)
    requires s.kind.Iva? && 0 < s.gen < TWO32 && s.gen % 2 == 0
    requires c !in s.controllers && Accepts(Iva, want)
    ensures Legal(s, [Arrive(c, want), Load(c), Cas(c)])
    ensures Run(s, [Arrive(c, want), Load(c), Cas(c)]) == Comparer(s, c, want, 0)
  {
    hide Accepts, Run, Legal, Step, Wrap;
    var s1 := Step(s, Arrive(c, want));
    var s2 := Step(s1, Load(c));
    ThreeSteps(s, [Arrive(c, want), Load(c), Cas(c)]);
    ArriveStep(s, c, want);
    LoadStep(s1, c);
    CasStep(s2, c);
    ThreeTimes(s.controllers, c, Controller(want, 0, Ready), Controller(want, 0, Loaded(s.gen)),
               Controller(want, 0, Comparing(s.gen, 0)));
  }

  lemma ThreeTimes(m: map<nat, Controller>, c: nat, x: Controller, y: Controller, z: Controller)
    ensures m[c := x][c := y] == m[c := y] && m[c := x][c := y][c := z] == m[c := z]
  {
  }

  lemma ComparisonRuns(s: State, c: nat, want: Record, agree: nat)
    requires s.kind.Iva? && 0 < s.gen < TWO32 && s.gen % 2 == 0
    requires c !in s.controllers && Accepts(Iva, want) && |s.mem| == 241 && agree <= 241
    requires |want| == 241 && forall i :: 0 <= i < agree ==> s.mem[i] == want[i]
    ensures Legal(s, Comparison(c, want, agree))
    ensures Run(s, Comparison(c, want, agree)) == Step(Comparer(s, c, want, agree), Compare(c))
  {
    hide Accepts, Run, Legal, Repeat, Step, Wrap;
    var a := [Arrive(c, want), Load(c), Cas(c)];
    ComparisonBegins(s, c, want);
    var t := Comparer(s, c, want, 0);
    RunCompares(t, c, agree);
    var x := Controller(want, 0, Comparing(s.gen, 0));
    ThreeTimes(s.controllers, c, x, Controller(want, 0, Comparing(s.gen, agree)), x);
    var u := Comparer(s, c, want, agree);
    assert Run(t, Repeat(Compare(c), agree)) == u;
    OneStep(u, Compare(c));
    RunAppend(t, Repeat(Compare(c), agree), [Compare(c)]);
    RunAppend(s, a, Repeat(Compare(c), agree) + [Compare(c)]);
  }

  /** Setting what is already set takes the lock and gives it back: same generation, nothing published. */
  lemma IdenticalSetPublishesNothing(s: State, c: nat)
    requires s.kind.Iva? && 0 < s.gen < TWO32 && s.gen % 2 == 0
    requires c !in s.controllers && Accepts(Iva, s.mem) && |s.mem| == 241
    ensures Legal(s, Comparison(c, s.mem, 241))
    ensures Run(s, Comparison(c, s.mem, 241)) ==
            s.(asked := s.asked + {s.mem}, controllers := s.controllers[c := Controller(s.mem, 0, Finished(true))])
  {
    hide Accepts, Run, Legal, Repeat, Comparison;
    ComparisonRuns(s, c, s.mem, 241);
    assert s.controllers[c := Controller(s.mem, 0, Comparing(s.gen, 241))][c := Controller(s.mem, 0, Finished(true))]
        == s.controllers[c := Controller(s.mem, 0, Finished(true))];
  }

  /** Setting something else publishes it whole, under the next even generation. */
  lemma DifferentSetPublishes(s: State, c: nat, want: Record, agree: nat)
    requires s.kind.Iva? && 0 < s.gen < TWO32 && s.gen % 2 == 0
    requires c !in s.controllers && Accepts(Iva, want) && |s.mem| == 241 && agree < 241 && |want| == 241
    requires s.mem[agree] != want[agree] && forall i :: 0 <= i < agree ==> s.mem[i] == want[i]
    ensures var events := Comparison(c, want, agree) + (Repeat(Write(c), 241) + [Write(c)]);
            && Legal(s, events)
            && Run(s, events) ==
               s.(gen := Wrap(s.gen + 2), mem := want, published := s.published + [want], asked := s.asked + {want},
                  controllers := s.controllers[c := Controller(want, 0, Finished(true))])
  {
    hide Accepts, Wrap, Run, Legal, Repeat, Comparison;
    ComparisonRuns(s, c, want, agree);
    var t := Run(s, Comparison(c, want, agree));
    WritesPublish(t, c);
    RunAppend(s, Comparison(c, want, agree), Repeat(Write(c), 241) + [Write(c)]);
    assert Run(t, Repeat(Write(c), 241) + [Write(c)]).controllers
        == s.controllers[c := Controller(want, 0, Finished(true))];
  }

  lemma OneStep(s: State, e: Event)
    ensures Run(s, [e]) == Step(s, e)
    ensures Legal(s, [e]) <==> Assumed(s, e)
  {
    assert [e][1..] == [];
    assert Run(Step(s, e), []) == Step(s, e);
    assert Legal(Step(s, e), []);
  }

  lemma TwoSteps(s: State, e: Event, f: Event)
    ensures Run(s, [e, f]) == Step(Step(s, e), f)
    ensures Legal(s, [e, f]) <==> Assumed(s, e) && Assumed(Step(s, e), f)
  {
    assert [e, f][1..] == [f];
    OneStep(Step(s, e), f);
  }

  lemma ThreeSteps(s: State, a: seq<Event>)
    requires |a| == 3
    ensures Run(s, a) == Step(Step(Step(s, a[0]), a[1]), a[2])
    ensures Legal(s, a) <==> Assumed(s, a[0]) && Assumed(Step(s, a[0]), a[1]) && Assumed(Step(Step(s, a[0]), a[1]), a[2])
  {
    assert a[1..][1..] == [a[2]];
    OneStep(Step(Step(s, a[0]), a[1]), a[2]);
    assert Run(Step(s, a[0]), a[1..]) == Run(Step(Step(s, a[0]), a[1]), a[1..][1..]);
  }

  /** The state after reader `r` has copied `n` more words, of whatever the record is by now. */
  function Copied(s: State, r: nat, n: nat): State
    requires r in s.readers && s.readers[r].pc.Copying? && |s.readers[r].pc.copied| + n <= |s.mem|
  {
    var x := s.readers[r];
    var k := |x.pc.copied|;
    SetReader(s, r, x.(pc := x.pc.(copied := x.pc.copied + s.mem[k..k + n])))
  }

  lemma CopiedStep(s: State, r: nat, n: nat)
    requires r in s.readers && s.readers[r].pc.Copying? && |s.readers[r].pc.copied| + n + 1 <= |s.mem|
    ensures Step(Copied(s, r, n), Copy(r)) == Copied(s, r, n + 1)
    ensures Assumed(Copied(s, r, n), Copy(r))
  {
    hide Accepts;
    var t, u := Step(Copied(s, r, n), Copy(r)), Copied(s, r, n + 1);
    var x := s.readers[r];
    var k := |x.pc.copied|;
    assert (x.pc.copied + s.mem[k..k + n]) + [s.mem[k + n]] == x.pc.copied + s.mem[k..k + (n + 1)];
    assert t.readers == u.readers;
  }

  lemma CopiedNone(s: State, r: nat)
    requires r in s.readers && s.readers[r].pc.Copying? && |s.readers[r].pc.copied| <= |s.mem|
    ensures Copied(s, r, 0) == s
  {
    var x := s.readers[r];
    var k := |x.pc.copied|;
    assert x.pc.copied + s.mem[k..k] == x.pc.copied;
    assert s.readers[r := x] == s.readers;
  }

  lemma NoEvents(s: State, e: Event)
    ensures Run(s, Repeat(e, 0)) == s && Legal(s, Repeat(e, 0))
  {
  }

  lemma {:induction false} RunCopies(s: State, r: nat, n: nat)
    requires r in s.readers && s.readers[r].pc.Copying? && |s.readers[r].pc.copied| + n <= |s.mem|
    ensures Run(s, Repeat(Copy(r), n)) == Copied(s, r, n)
    ensures Legal(s, Repeat(Copy(r), n))
  {
    hide Run, Legal, Repeat, Accepts, Step, Copied, Assumed;
    if n == 0 {
      CopiedNone(s, r);
      NoEvents(s, Copy(r));
    } else {
      RunCopies(s, r, n - 1);
      CopiedStep(s, r, n - 1);
      RepeatEnd(Copy(r), n - 1);
      OneStep(Copied(s, r, n - 1), Copy(r));
      RunAppend(s, Repeat(Copy(r), n - 1), [Copy(r)]);
    }
  }

  lemma AttachStep(s: State, r: nat)
    requires r !in s.readers
    ensures Step(s, Attach(r)) == SetReader(s, r, Reader(Defaults(s.kind), 0, 0, Resting))
  {
    hide Accepts, Wrap, Defaults;
  }

  lemma BeginStep(s: State, r: nat)
    requires s.kind.Iva? && s.gen > 0 && s.gen % 2 == 0 && |s.published| > 0
    requires r in s.readers && s.readers[r].activeGen != s.gen
    ensures Step(s, Begin(r)) == SetReader(s, r, s.readers[r].(pc := Copying(s.gen, s.Last(), [])))
  {
    hide Accepts, Wrap, Defaults;
  }

  lemma CheckStep(s: State, r: nat)
    requires r in s.readers && s.readers[r].pc.Copying? && s.readers[r].pc.first == s.gen
    requires Accepts(s.kind, s.readers[r].pc.copied)
    ensures var x := s.readers[r];
            Step(s, Check(r)) == SetReader(s, r, Reader(x.pc.copied, x.pc.first, x.pc.version, Resting))
  {
    hide Accepts, Wrap, Defaults;
  }

  lemma ResetStep(s: State, c: nat)
    requires c in s.controllers && s.controllers[c].pc.Recovering?
    ensures Step(s, Reset(c)) == StepReset(s, c)
  {
    hide Accepts, Wrap, Defaults;
  }

  lemma EmitStep(s: State, r: nat)
    requires r in s.readers
    ensures var x := s.readers[r];
            Step(s, Emit(r)) == s.(samples := s.samples + [Sample(x.activeGen, x.activeVersion, x.active, s.epoch)])
  {
    hide Accepts, Wrap, Defaults;
  }

  lemma DetachStep(s: State, r: nat)
    ensures Step(s, Detach(r)) == s.(readers := s.readers - {r})
  {
    hide Accepts, Wrap, Defaults;
  }

  /** An attached filter reads the published record. */
  function ReadAll(r: nat): seq<Event> {
    ([Begin(r)] + Repeat(Copy(r), 241)) + [Check(r)]
  }

  /** Left alone, it works under the published record and knows its generation. */
  lemma FilterReads(s: State, r: nat)
    requires s.kind.Iva? && s.gen > 0 && s.gen % 2 == 0 && |s.published| > 0
    requires r in s.readers && s.readers[r].pc.Resting? && s.readers[r].activeGen != s.gen
    requires |s.mem| == 241 && Accepts(Iva, s.mem)
    ensures Legal(s, ReadAll(r))
    ensures Run(s, ReadAll(r)) == SetReader(s, r, Reader(s.mem, s.gen, s.Last(), Resting))
  {
    hide Accepts, Run, Legal, Repeat;
    OneStep(s, Begin(r));
    var x := s.readers[r];
    var t := Step(s, Begin(r));
    RunCopies(t, r, 241);
    assert [] + s.mem[0..241] == s.mem;
    var v := Run(t, Repeat(Copy(r), 241));
    assert v == SetReader(s, r, x.(pc := Copying(s.gen, s.Last(), s.mem))) by {
      assert v.readers == s.readers[r := x.(pc := Copying(s.gen, s.Last(), s.mem))];
    }
    OneStep(v, Check(r));
    assert Step(v, Check(r)).readers == s.readers[r := Reader(s.mem, s.gen, s.Last(), Resting)];
    RunAppend(s, [Begin(r)], Repeat(Copy(r), 241));
    RunAppend(s, [Begin(r)] + Repeat(Copy(r), 241), [Check(r)]);
  }

  function Commit(r: nat): seq<Event> {
    [Attach(r)] + ReadAll(r)
  }

  lemma FilterCommits(s: State, r: nat)
    requires s.kind.Iva? && s.gen > 0 && s.gen % 2 == 0 && |s.published| > 0 && r !in s.readers
    requires |s.mem| == 241 && Accepts(Iva, s.mem)
    ensures Legal(s, Commit(r))
    ensures Run(s, Commit(r)) == SetReader(s, r, Reader(s.mem, s.gen, s.Last(), Resting))
  {
    hide Accepts, Run, Legal, ReadAll;
    OneStep(s, Attach(r));
    var t := Step(s, Attach(r));
    FilterReads(t, r);
    RunAppend(s, [Attach(r)], ReadAll(r));
    assert t.readers[r := Reader(s.mem, s.gen, s.Last(), Resting)]
        == s.readers[r := Reader(s.mem, s.gen, s.Last(), Resting)];
  }

  /** It measures once and goes away. */
  function Measure(r: nat): seq<Event> {
    Commit(r) + [Emit(r), Detach(r)]
  }

  lemma FilterMeasures(s: State, r: nat)
    requires s.kind.Iva? && s.gen > 0 && s.gen % 2 == 0 && |s.published| > 0 && r !in s.readers
    requires |s.mem| == 241 && Accepts(Iva, s.mem)
    ensures Legal(s, Measure(r))
    ensures Run(s, Measure(r)) == s.(samples := s.samples + [Sample(s.gen, s.Last(), s.mem, s.epoch)])
  {
    hide Accepts, Run, Legal, Repeat, Commit, Step;
    FilterCommits(s, r);
    var t := Run(s, Commit(r));
    TwoSteps(t, Emit(r), Detach(r));
    EmitStep(t, r);
    DetachStep(Step(t, Emit(r)), r);
    assert t.readers - {r} == s.readers;
    RunAppend(s, Commit(r), [Emit(r), Detach(r)]);
  }
}
