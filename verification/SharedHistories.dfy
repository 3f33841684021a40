/**
 * The two histories under their sequence locks: the record is laid out as the
 * words that readers copy one by one, and what every accepted copy means.
 */
module SharedHistories {
  import opened RecentRing
  import H = MotionHistory
  import L = MotionLevels
  import W = WriterSeqlock

  type Words = W.Words

  // ----- the motion history -----

  const HISTORY_WORDS := 6 + 2 * CAPACITY

  function HistoryLayout(h: H.History): (w: Words)
    requires |h.ring.slots| == CAPACITY
    ensures |w| == HISTORY_WORDS
  {
    seq(HISTORY_WORDS, k requires 0 <= k < HISTORY_WORDS =>
      if k == 0 then h.ring.first
      else if k == 1 then h.ring.count
      else if k == 2 then h.baseline.state
      else if k == 3 then if h.baselineIsSample then 1 else 0
      else if k == 4 then h.baseline.ms
      else if k == 5 then h.lastState
      else if k % 2 == 0 then h.ring.slots[(k - 6) / 2].ms
      else h.ring.slots[(k - 6) / 2].state)
  }

  function Natural(n: int): nat { if n < 0 then 0 else n }

  function HistoryOf(w: Words): (h: H.History)
    requires |w| == HISTORY_WORDS
    ensures |h.ring.slots| == CAPACITY
  {
    H.History(Ring(Natural(w[0]), Natural(w[1]),
                   seq(CAPACITY, i requires 0 <= i < CAPACITY => H.Event(w[6 + 2 * i], w[7 + 2 * i]))),
              H.Event(w[4], w[2]), w[3] == 1, w[5])
  }

  lemma HistoryLayoutRoundTrip(h: H.History)
    requires |h.ring.slots| == CAPACITY
    ensures HistoryOf(HistoryLayout(h)) == h
  {
    var g := HistoryOf(HistoryLayout(h));
    assert g.ring.slots == h.ring.slots;
  }

  predicate HistoryPlausible(w: Words) {
    |w| == HISTORY_WORDS && 0 <= w[0] < CAPACITY && 0 <= w[1] <= CAPACITY
  }

  function HistoryStart(w: Words, clean: bool, args: seq<int>): Words {
    HistoryLayout(H.Fresh(if |args| == 2 then H.Event(args[0], args[1]) else H.Event(0, -1)))
  }

  lemma PlausibleIsValid(w: Words)
    requires HistoryPlausible(w)
    ensures HistoryOf(w).Valid()
  {
  }

  lemma AddKeepsSlots(h: H.History, state: int, ms: int)
    requires h.Valid()
    ensures |h.Add(state, ms).ring.slots| == CAPACITY
  {
  }

  function HistoryApply(w: Words, args: seq<int>): Words {
    if HistoryPlausible(w) && |args| == 2 then
      PlausibleIsValid(w);
      AddKeepsSlots(HistoryOf(w), args[0], args[1]);
      HistoryLayout(HistoryOf(w).Add(args[0], args[1]))
    else w
  }

  /** `motion_history_start`, `motion_history_observe` and the checks of `read_snapshot`. */
  function HistoryRules(): W.Rules {
    W.Rules(W.Resetting, HISTORY_WORDS,
            (w, clean, a) => HistoryStart(w, clean, a),
            (w, a) => HistoryApply(w, a),
            (w: Words, a: seq<int>) => |a| == 2 && |w| == HISTORY_WORDS && a[0] == w[5],
            w => HistoryPlausible(w))
  }

  /** An observation is passed over exactly when adding it would change nothing. */
  lemma ObservationsAreSkippedExactlyWhenNothingChanges(w: Words, state: int, ms: int)
    requires HistoryPlausible(w) && HistoryOf(w).Valid()
    ensures HistoryRules().skip(w, [state, ms]) <==> HistoryOf(w).Add(state, ms) == HistoryOf(w)
  {
  }

  /** So an observation of the state it is in leaves the shared words and the sequence alone; any other begins an update. */
  lemma AnUnchangedStateTouchesNothing(s: W.State, state: int, ms: int)
    requires s.writer.Idle? && HistoryPlausible(s.mem) && HistoryOf(s.mem).Valid()
    ensures var h, t := HistoryOf(s.mem), W.Step(HistoryRules(), s, W.Begin([state, ms]));
            if state == h.lastState then t == s
            else t.sequence == (s.sequence + 1) % 0x1_0000_0000 && t.mem == s.mem
                 && t.writer.Busy? && |t.writer.target| == HISTORY_WORDS && HistoryOf(t.writer.target) == h.Add(state, ms)
  {
    AddKeepsSlots(HistoryOf(s.mem), state, ms);
    HistoryLayoutRoundTrip(HistoryOf(s.mem).Add(state, ms));
  }

  /** The words are the bounded view of some complete log. */
  ghost predicate IsBoundedView(w: Words) {
    && HistoryPlausible(w)
    && exists startup, log :: H.Tracks(HistoryOf(w), startup, log)
  }

  lemma LayoutIsBoundedView(h: H.History, startup: H.Event, log: seq<H.Event>)
    requires H.Tracks(h, startup, log)
    ensures IsBoundedView(HistoryLayout(h))
  {
    HistoryLayoutRoundTrip(h);
    assert H.Tracks(HistoryOf(HistoryLayout(h)), startup, log);
  }

  lemma HistoryApplyKeepsView(w: Words, args: seq<int>)
    requires IsBoundedView(w)
    ensures IsBoundedView(HistoryApply(w, args))
  {
    if |args| == 2 {
      var startup, log :| H.Tracks(HistoryOf(w), startup, log);
      H.AddTracks(HistoryOf(w), startup, log, args[0], args[1]);
      LayoutIsBoundedView(HistoryOf(w).Add(args[0], args[1]), startup,
                          H.Extend(startup, log, H.Event(args[1], args[0])));
    }
  }

  lemma HistoryRulesMaintainTheView()
    ensures W.WellFormed(HistoryRules()) && W.Maintains(HistoryRules(), IsBoundedView)
  {
    forall w: Words, clean: bool, a: seq<int> ensures IsBoundedView(HistoryStart(w, clean, a)) {
      var startup := if |a| == 2 then H.Event(a[0], a[1]) else H.Event(0, -1);
      H.FreshTracks(startup);
      LayoutIsBoundedView(H.Fresh(startup), startup, []);
    }
    forall w: Words, a: seq<int> | IsBoundedView(w) ensures IsBoundedView(HistoryApply(w, a)) {
      HistoryApplyKeepsView(w, a);
    }
  }

  /** The sample a start took, as the last start among the completed operations left it. */
  function Startup(made: seq<W.Made>): H.Event {
    if made == [] then H.Event(0, -1)
    else match made[|made| - 1]
      case Started(_, _, args) => if |args| == 2 then H.Event(args[0], args[1]) else H.Event(0, -1)
      case Updated(_) => Startup(made[..|made| - 1])
  }

  /** The observations made since then. */
  function Observations(made: seq<W.Made>): seq<H.Event> {
    if made == [] then []
    else match made[|made| - 1]
      case Started(_, _, _) => []
      case Updated(args) =>
        Observations(made[..|made| - 1]) + if |args| == 2 then [H.Event(args[1], args[0])] else []
  }

  /** The history those observations make. */
  function HistoryMade(made: seq<W.Made>): (h: H.History)
    ensures h.Valid()
  {
    H.AddAll(H.Fresh(Startup(made)), Observations(made))
  }

  lemma OneMoreObservation(startup: H.Event, obs: seq<H.Event>, x: H.Event)
    ensures H.AddAll(H.Fresh(startup), obs + [x]) == H.AddAll(H.Fresh(startup), obs).Add(x.state, x.ms)
  {
    assert (obs + [x])[..|obs|] == obs;
  }

  lemma ValidIsPlausible(h: H.History)
    requires h.Valid()
    ensures HistoryPlausible(HistoryLayout(h))
  {
  }

  /** Each committed record lays out the history of the operations completed by then. */
  lemma {:induction false} CommittedIsTheRunsHistory(s: W.State, n: nat)
    requires W.Chained(HistoryRules(), s) && 0 < n <= |s.committed|
    ensures s.committed[n - 1] == HistoryLayout(HistoryMade(s.made[..n]))
  {
    hide HistoryLayout, HistoryOf, H.AddAll;
    var made := s.made[..n];
    assert W.Follows(HistoryRules(), s.committed, s.made, n - 1);
    if made[n - 1].Updated? {
      var args := made[n - 1].args;
      CommittedIsTheRunsHistory(s, n - 1);
      assert made[..n - 1] == s.made[..n - 1];
      var h := HistoryMade(s.made[..n - 1]);
      ValidIsPlausible(h);
      HistoryLayoutRoundTrip(h);
      if |args| == 2 {
        OneMoreObservation(Startup(made), Observations(made[..n - 1]), H.Event(args[1], args[0]));
      } else {
        assert Observations(made[..n - 1]) + [] == Observations(made[..n - 1]);
      }
    } else {
      NoObservations(Startup(made));
    }
  }

  lemma NoObservations(startup: H.Event)
    ensures H.AddAll(H.Fresh(startup), []) == H.Fresh(startup)
  {
  }

  /**
   * In every interleaving, with any crashes and restarts of the collector, a
   * history that a closing clip accepts is what the observations completed since
   * the last start make, as of the moment the copy passed its check; so it is
   * the bounded view of their full log.
   */
  lemma AcceptedHistoriesAreTheRunsOwn(events: seq<W.Event>, i: nat)
    requires W.Legal(HistoryRules(), W.Init(HistoryRules()), events)
    requires i < |W.Run(HistoryRules(), W.Init(HistoryRules()), events).accepted|
    ensures var s := W.Run(HistoryRules(), W.Init(HistoryRules()), events);
            && W.ReadOk(s.committed, s.accepted, s.read) && |s.made| == |s.committed|
            && var made := s.made[..s.read[i]];
               && s.accepted[i] == HistoryLayout(HistoryMade(made))
               && HistoryOf(s.accepted[i]) == HistoryMade(made)
               && H.Tracks(HistoryMade(made), Startup(made), H.FullLog(Startup(made), Observations(made)))
  {
    hide HistoryLayout, HistoryOf, W.Run, H.AddAll, H.FullLog, H.Tracks;
    HistoryRulesMaintainTheView();
    var u := HistoryRules();
    var s := W.Run(u, W.Init(u), events);
    W.InitInv(u);
    W.RunKeepsChain(u, W.Init(u), events);
    W.OnlyCompleteUpdatesAreAccepted(u, events);
    CommittedIsTheRunsHistory(s, s.read[i]);
    var made := s.made[..s.read[i]];
    HistoryLayoutRoundTrip(HistoryMade(made));
    H.HistoryTracksTheFullLog(Startup(made), Observations(made));
  }

  /** The initial state a clip reports out of an accepted history is that of the run's own log. */
  lemma ClipsReportTheRunsOwnState(events: seq<W.Event>, i: nat, start: int)
    requires W.Legal(HistoryRules(), W.Init(HistoryRules()), events)
    requires i < |W.Run(HistoryRules(), W.Init(HistoryRules()), events).accepted|
    requires var s := W.Run(HistoryRules(), W.Init(HistoryRules()), events);
             && W.ReadOk(s.committed, s.accepted, s.read) && |s.made| == |s.committed|
             && var made := s.made[..s.read[i]];
                var log := H.FullLog(Startup(made), Observations(made));
                Startup(made).state >= -1 && forall k :: 0 <= k < |log| ==> log[k].state >= 0
    ensures var s := W.Run(HistoryRules(), W.Init(HistoryRules()), events);
            var made := s.made[..s.read[i]];
            var log := H.FullLog(Startup(made), Observations(made));
            && |s.accepted[i]| == HISTORY_WORDS
            && var h := HistoryOf(s.accepted[i]);
               && h.Valid()
               && (!H.Truncated(h, start) ==>
                     H.StateAt([h.baseline] + h.ring.Window(), start) == H.StateAt([Startup(made)] + log, start))
               && (H.Truncated(h, start) && H.NonDecreasing([Startup(made)] + log) ==>
                     H.StateAt(h.ring.Window(), start) == -1)
  {
    hide HistoryLayout, HistoryOf, W.Run, W.Legal, H.AddAll, H.FullLog, H.StateAt;
    AcceptedHistoriesAreTheRunsOwn(events, i);
    var s := W.Run(HistoryRules(), W.Init(HistoryRules()), events);
    var made := s.made[..s.read[i]];
    var log := H.FullLog(Startup(made), Observations(made));
    var h := HistoryMade(made);
    H.InitialStateAgrees(h, Startup(made), log, start);
    if H.Truncated(h, start) && H.NonDecreasing([Startup(made)] + log) {
      H.TruncatedMeansUnknown(h, Startup(made), log, start);
    }
  }

  // ----- the level history -----

  const LEVEL_WORDS := 5 + 6 * CAPACITY

  function SampleWord(x: L.Sample, k: nat): int {
    if k == 0 then x.unixMs else if k == 1 then x.ratioBits else if k == 2 then x.scene
    else if k == 3 then x.move else if k == 4 then x.level else x.threshold
  }

  function LevelLayout(h: L.Levels): (w: Words)
    requires |h.ring.slots| == CAPACITY
    ensures |w| == LEVEL_WORDS
  {
    seq(LEVEL_WORDS, k requires 0 <= k < LEVEL_WORDS =>
      if k == 0 then h.ring.first
      else if k == 1 then h.ring.count
      else if k == 2 then h.startedMs
      else if k == 3 then h.discardedMs
      else if k == 4 then h.observedUntilMs
      else SampleWord(h.ring.slots[(k - 5) / 6], (k - 5) % 6))
  }

  function SampleAt(w: Words, i: nat): L.Sample
    requires 5 + 6 * i + 5 < |w|
  {
    var k := 5 + 6 * i;
    L.Sample(w[k], w[k + 1], w[k + 2], w[k + 3], w[k + 4], w[k + 5])
  }

  function LevelsOf(w: Words): (h: L.Levels)
    requires |w| == LEVEL_WORDS
    ensures |h.ring.slots| == CAPACITY
  {
    L.Levels(Ring(Natural(w[0]), Natural(w[1]), seq(CAPACITY, i requires 0 <= i < CAPACITY => SampleAt(w, i))),
             w[2], w[3], w[4])
  }

  lemma WordOfSample(h: L.Levels, i: nat, d: nat)
    requires |h.ring.slots| == CAPACITY && i < CAPACITY && d < 6
    ensures LevelLayout(h)[5 + 6 * i + d] == SampleWord(h.ring.slots[i], d)
  {
    assert (6 * i + d) / 6 == i && (6 * i + d) % 6 == d;
  }

  lemma SampleWords(x: L.Sample)
    ensures x == L.Sample(SampleWord(x, 0), SampleWord(x, 1), SampleWord(x, 2),
                          SampleWord(x, 3), SampleWord(x, 4), SampleWord(x, 5))
  {
  }

  lemma SampleRoundTrip(h: L.Levels, i: nat)
    requires |h.ring.slots| == CAPACITY && i < CAPACITY
    ensures SampleAt(LevelLayout(h), i) == h.ring.slots[i]
  {
    hide LevelLayout, SampleWord;
    SampleWords(h.ring.slots[i]);
    WordOfSample(h, i, 0);
    WordOfSample(h, i, 1);
    WordOfSample(h, i, 2);
    WordOfSample(h, i, 3);
    WordOfSample(h, i, 4);
    WordOfSample(h, i, 5);
  }

  lemma LevelLayoutRoundTrip(h: L.Levels)
    requires |h.ring.slots| == CAPACITY
    ensures LevelsOf(LevelLayout(h)) == h
  {
    var g := LevelsOf(LevelLayout(h));
    forall i | 0 <= i < CAPACITY ensures g.ring.slots[i] == h.ring.slots[i] {
      SampleRoundTrip(h, i);
    }
    assert g.ring.slots == h.ring.slots;
  }

  predicate LevelsPlausible(w: Words) {
    |w| == LEVEL_WORDS && 0 <= w[0] < CAPACITY && 0 <= w[1] <= CAPACITY
  }

  function Now(args: seq<int>): int { if args == [] then 0 else args[0] }

  /** `retain` of `motion_levels_start`. */
  predicate Retains(w: Words, clean: bool, now: int) {
    clean && LevelsPlausible(w) && w[4] <= now
  }

  function LevelStart(w: Words, clean: bool, args: seq<int>): Words {
    if Retains(w, clean, Now(args)) then w else LevelLayout(L.Reset(Now(args)))
  }

  lemma TickKeepsSlots(h: L.Levels, stepped: bool, keep: bool, x: L.Sample)
    requires h.Valid()
    ensures |h.Tick(stepped, keep, x).ring.slots| == CAPACITY
  {
  }

  /** A tick's arguments: clock stepped, reading kept, and the six words of the reading. */
  function LevelApply(w: Words, args: seq<int>): Words {
    if LevelsPlausible(w) && |args| == 8 then
      var x := L.Sample(args[2], args[3], args[4], args[5], args[6], args[7]);
      TickKeepsSlots(LevelsOf(w), args[0] == 1, args[1] == 1, x);
      LevelLayout(LevelsOf(w).Tick(args[0] == 1, args[1] == 1, x))
    else w
  }

  /** `motion_levels_start`, `motion_levels_tick` and the checks of `levels_snapshot`. */
  function LevelRules(): W.Rules {
    W.Rules(W.Resetting, LEVEL_WORDS,
            (w: Words, clean, a) => LevelStart(w, clean, a),
            (w, a) => LevelApply(w, a),
            (w, a) => false,
            w => LevelsPlausible(w))
  }

  ghost predicate IsCoverage(w: Words) {
    && LevelsPlausible(w)
    && exists started, until, log :: L.Covers(LevelsOf(w), started, until, log)
  }

  lemma LayoutIsCoverage(h: L.Levels, started: int, until: int, log: seq<L.Sample>)
    requires L.Covers(h, started, until, log)
    ensures IsCoverage(LevelLayout(h))
  {
    LevelLayoutRoundTrip(h);
    assert L.Covers(LevelsOf(LevelLayout(h)), started, until, log);
  }

  lemma LevelApplyKeepsCoverage(w: Words, args: seq<int>)
    requires IsCoverage(w)
    ensures IsCoverage(LevelApply(w, args))
  {
    if |args| == 8 {
      var started, until, log :| L.Covers(LevelsOf(w), started, until, log);
      var x := L.Sample(args[2], args[3], args[4], args[5], args[6], args[7]);
      var stepped, keep := args[0] == 1, args[1] == 1;
      L.TickCovers(LevelsOf(w), started, until, log, stepped, keep, x);
      LayoutIsCoverage(LevelsOf(w).Tick(stepped, keep, x), if stepped then x.unixMs else started, x.unixMs,
                       (if stepped then [] else log) + (if keep then [x] else []));
    }
  }

  lemma LevelRulesMaintainCoverage()
    ensures W.WellFormed(LevelRules()) && W.Maintains(LevelRules(), IsCoverage)
  {
    forall w: Words, clean: bool, a: seq<int> | clean ==> IsCoverage(w) ensures IsCoverage(LevelStart(w, clean, a)) {
      L.ResetCovers(Now(a));
      LayoutIsCoverage(L.Reset(Now(a)), Now(a), Now(a), []);
    }
    forall w: Words, a: seq<int> | IsCoverage(w) ensures IsCoverage(LevelApply(w, a)) {
      LevelApplyKeepsCoverage(w, a);
    }
  }

  datatype Coverage = Coverage(started: int, until: int, log: seq<L.Sample>)

  ghost predicate CoversRun(w: Words, c: Coverage) {
    LevelsPlausible(w) && L.Covers(LevelsOf(w), c.started, c.until, c.log)
  }

  /** From when to when the readings are covered, and which were kept, as the completed operations left it. */
  function Covered(made: seq<W.Made>): Coverage {
    if made == [] then Coverage(0, 0, [])
    else
      var before := Covered(made[..|made| - 1]);
      match made[|made| - 1]
      case Started(_, clean, args) =>
        if clean && before.until <= Now(args) then before else Coverage(Now(args), Now(args), [])
      case Updated(args) =>
        if |args| != 8 then before
        else
          var x := L.Sample(args[2], args[3], args[4], args[5], args[6], args[7]);
          Coverage(if args[0] == 1 then x.unixMs else before.started, x.unixMs,
                   (if args[0] == 1 then [] else before.log) + if args[1] == 1 then [x] else [])
  }

  lemma LayoutCovers(h: L.Levels, c: Coverage)
    requires L.Covers(h, c.started, c.until, c.log)
    ensures CoversRun(LevelLayout(h), c)
  {
    LevelLayoutRoundTrip(h);
  }

  lemma ApplyCovers(w: Words, c: Coverage, made: seq<W.Made>, args: seq<int>)
    requires CoversRun(w, c) && c == Covered(made)
    ensures CoversRun(LevelApply(w, args), Covered(made + [W.Updated(args)]))
  {
    hide LevelLayout, LevelsOf, L.Covers;
    assert (made + [W.Updated(args)])[..|made|] == made;
    if |args| == 8 {
      var x := L.Sample(args[2], args[3], args[4], args[5], args[6], args[7]);
      var stepped, keep := args[0] == 1, args[1] == 1;
      L.TickCovers(LevelsOf(w), c.started, c.until, c.log, stepped, keep, x);
      CoversIsValid(LevelsOf(w), c);
      LayoutCovers(LevelsOf(w).Tick(stepped, keep, x), Covered(made + [W.Updated(args)]));
    }
  }

  lemma CoversIsValid(h: L.Levels, c: Coverage)
    requires L.Covers(h, c.started, c.until, c.log)
    ensures h.Valid()
  {
  }

  /** The word the retain test looks at is the time the coverage reaches to. */
  lemma UntilIsTheFifthWord(w: Words, c: Coverage)
    requires CoversRun(w, c)
    ensures |w| == LEVEL_WORDS && w[4] == c.until
  {
  }

  lemma StartCovers(w: Words, clean: bool, args: seq<int>, c: Coverage, made: seq<W.Made>)
    requires clean ==> CoversRun(w, c)
    requires c == Covered(made)
    ensures CoversRun(LevelStart(w, clean, args), Covered(made + [W.Started(w, clean, args)]))
  {
    hide LevelLayout, LevelsOf, L.Covers;
    assert (made + [W.Started(w, clean, args)])[..|made|] == made;
    if clean { UntilIsTheFifthWord(w, c); }
    if !Retains(w, clean, Now(args)) {
      L.ResetCovers(Now(args));
      LayoutCovers(L.Reset(Now(args)), Coverage(Now(args), Now(args), []));
    }
  }

  lemma {:induction false} CommittedIsTheRunsCoverage(s: W.State, n: nat)
    requires W.Chained(LevelRules(), s) && 0 < n <= |s.committed|
    ensures CoversRun(s.committed[n - 1], Covered(s.made[..n]))
  {
    hide CoversRun, Covered, LevelStart, LevelApply;
    assert W.Follows(LevelRules(), s.committed, s.made, n - 1);
    if n > 1 { CommittedIsTheRunsCoverage(s, n - 1); }
    var before := s.made[..n - 1];
    assert s.made[..n] == before + [s.made[n - 1]];
    match s.made[n - 1]
    case Started(w, clean, args) => StartCovers(w, clean, args, Covered(before), before);
    case Updated(args) => ApplyCovers(s.committed[n - 2], Covered(before), before, args);
  }

  /** The same for the readings: an accepted buffer covers what the run itself kept. */
  lemma AcceptedLevelsAreTheRunsOwn(events: seq<W.Event>, i: nat)
    requires W.Legal(LevelRules(), W.Init(LevelRules()), events)
    requires i < |W.Run(LevelRules(), W.Init(LevelRules()), events).accepted|
    ensures var s := W.Run(LevelRules(), W.Init(LevelRules()), events);
            && W.ReadOk(s.committed, s.accepted, s.read) && |s.made| == |s.committed|
            && CoversRun(s.accepted[i], Covered(s.made[..s.read[i]]))
  {
    hide CoversRun, Covered, W.Run;
    LevelRulesMaintainCoverage();
    var u := LevelRules();
    var s := W.Run(u, W.Init(u), events);
    W.InitInv(u);
    W.RunKeepsChain(u, W.Init(u), events);
    W.OnlyCompleteUpdatesAreAccepted(u, events);
    CommittedIsTheRunsCoverage(s, s.read[i]);
  }

  /**
   * A restarted detector keeps the readings exactly when the last update
   * completed and the clock has not gone back past the run's own last tick;
   * otherwise coverage starts afresh at the restart.
   */
  lemma LevelsAreRetainedExactlyWhenComplete(events: seq<W.Event>, now: int)
    requires W.Legal(LevelRules(), W.Init(LevelRules()), events)
    requires W.Run(LevelRules(), W.Init(LevelRules()), events).writer.Down?
    ensures var s := W.Run(LevelRules(), W.Init(LevelRules()), events);
            var t := W.Step(LevelRules(), s, W.Start([now]));
            var complete := s.sequence % 2 == 0 && s.magic;
            && t.writer.Busy?
            && (complete ==> CoversRun(s.mem, Covered(s.made)))
            && t.writer.target == (if complete && Covered(s.made).until <= now then s.mem else LevelLayout(L.Reset(now)))
  {
    hide W.Run, LevelLayout, LevelsOf, L.Covers, Covered;
    var u := LevelRules();
    var s := W.Run(u, W.Init(u), events);
    LevelRulesMaintainCoverage();
    W.CleanStartKeepsACommittedRecord(u, events, [now]);
    W.InitInv(u);
    W.RunKeepsChain(u, W.Init(u), events);
    if s.sequence % 2 == 0 && s.magic {
      CommittedIsTheRunsCoverage(s, |s.committed|);
      assert s.made[..|s.committed|] == s.made;
      UntilIsTheFifthWord(s.mem, Covered(s.made));
    }
  }
}
