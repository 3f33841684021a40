/**
 * The converse of `StatusVerdict.NotPendingIsTruthful`: the first filter start
 * that finds the measurement's generation odd can be followed by a report, not
 * pending, that is no measurement at all.
 */
module OddStarts {
  import opened Bytes
  import opened U32
  import opened SampleTear
  import opened StatusVerdict
  import opened StatusRuns
  import opened MeasuredPictures
  import opened StatusReports
  import C = CasSeqlock
  import P = PixelCounts
  import R = ControllerRuns
  import B = BootRecovery
  import T = TornStatus
  import W = WriterSeqlock
  import G = SeqlockProgress

  /** The last accepted copy is reported as not pending and is no measurement. */
  ghost predicate Misreported(s: State, t: State) {
    && |t.ring.accepted| == |s.ring.accepted| + 1
    && var w := t.ring.accepted[|s.ring.accepted|];
       |w| == SAMPLE_WORDS && !Pending(t.settings.gen, w) && NoMeasurement(w)
  }

  /** The picture whose raw count the stored words do not hold. */
  function Other(mem: Words): View
    requires |mem| == SAMPLE_WORDS
  {
    Uniform(mem[RAW] == 0)
  }

  /** A status reader takes four words too early and the rest in time. */
  function TornReport(mem: Words, q: nat): seq<Event>
    requires |mem| == SAMPLE_WORDS
  {
    [Publish(Other(mem))] + Shares(Overtake(q, 4))
  }

  lemma TornReportRuns(s: State, q: nat)
    requires s.ring.writer.Idle? && s.ring.sequence % 2 == 1 && 0 < s.ring.sequence + 1 < TWO32 && s.ring.magic
    requires |s.ring.mem| == SAMPLE_WORDS && s.filter in s.settings.readers
    requires var x := s.settings.readers[s.filter];
             x.pc.Resting? && |x.active| == 241 && x.activeGen == s.settings.gen && x.activeGen % 2 == 0
    ensures Legal(s, TornReport(s.ring.mem, q)) && Misreported(s, Run(s, TornReport(s.ring.mem, q)))
  {
    hide Run, Legal, Measured, NoMeasurement, Overtake, C.Step, C.Accepts;
    var x := s.settings.readers[s.filter];
    var v := Other(s.ring.mem);
    UniformRaw(s.ring.mem[RAW] == 0, x.active, x.activeGen);
    T.OvertakeRuns(s, v, q, 4);
    R.EmitStep(s.settings, s.filter);
    var next := Measured(v, x.active, x.activeGen);
    var torn := s.ring.mem[..4] + next[4..];
    assert torn[8..] == next[8..];
    assert torn[RAW] == s.ring.mem[RAW] && torn[APPLIED] == next[APPLIED];
    MixedCountsAreNoMeasurement(torn, v, x.active, x.activeGen);
  }

  lemma NothingHappens(s: State)
    ensures Run(s, []) == s && Legal(s, [])
  {
  }

  /** What the filter does before it is caught: at the last generation of all one whole measurement more. */
  function Warmup(s: State): seq<Event> {
    if s.ring.sequence + 1 < TWO32 then [] else Measure(Full())
  }

  ghost predicate Caught(s: State) {
    && s.ring.writer.Idle? && s.ring.sequence % 2 == 1 && 0 <= s.ring.sequence < TWO32 && s.ring.magic
    && |s.ring.mem| == SAMPLE_WORDS && s.filter in s.settings.readers
    && var x := s.settings.readers[s.filter];
       x.pc.Resting? && |x.active| == 241 && x.activeGen == s.settings.gen && x.activeGen % 2 == 0
  }

  lemma WarmupRuns(s: State)
    requires Caught(s)
    ensures Legal(s, Warmup(s))
    ensures var t := Run(s, Warmup(s)); Caught(t) && t.ring.sequence + 1 < TWO32 && t.ring.accepted == s.ring.accepted
  {
    hide Run, Legal, Measured, Measure, C.Step, C.Accepts, W.Step, Full;
    if s.ring.sequence + 1 < TWO32 {
      NothingHappens(s);
    } else {
      FullUnderDefaults(0);
      MeasureRuns(s, Full());
      R.EmitStep(s.settings, s.filter);
      var x := s.settings.readers[s.filter];
      WrapAround(s.ring, Measured(Full(), x.active, x.activeGen));
    }
  }

  lemma WrapAround(ring: W.State, w: Words)
    requires ring.writer.Idle? && ring.sequence == TWO32 - 1 && |ring.mem| == SAMPLE_WORDS == |w|
    ensures var t := W.Run(SampleRules(), ring, G.Update(w, SAMPLE_WORDS));
            && t.writer.Idle? && t.sequence == 1 && t.magic == ring.magic && t.mem == w && t.accepted == ring.accepted
  {
    hide W.Run;
    SampleRulesAreWellFormed();
    WrapOnce(ring.sequence);
    G.UpdatesCommit(SampleRules(), ring, w);
  }

  /** The filter that started on an odd generation, caught in its next publication. */
  lemma CaughtMisreports(s: State, q: nat) returns (after: seq<Event>)
    requires Caught(s)
    ensures Legal(s, after) && Misreported(s, Run(s, after))
  {
    hide Run, Legal, Warmup, TornReport, NoMeasurement;
    WarmupRuns(s);
    var t := Run(s, Warmup(s));
    TornReportRuns(t, q);
    after := Warmup(s) + TornReport(t.ring.mem, q);
    RunAppend(s, Warmup(s), TornReport(t.ring.mem, q));
  }

  // ----- the settings, brought to rest -----

  lemma {:induction false} AboveAllOf(keys: set<nat>) returns (b: nat)
    ensures forall k :: k in keys ==> k < b
    decreases |keys|
  {
    if keys == {} {
      b := 0;
    } else {
      var k :| k in keys;
      var c := AboveAllOf(keys - {k});
      b := if c <= k then k + 1 else c;
      forall x | x in keys ensures x < b { assert x == k || x in keys - {k}; }
    }
  }

  /** Whoever is inside dies. */
  lemma LockIsLeft(s: C.State) returns (es: seq<C.Event>)
    requires C.Inv(s) && s.kind.Iva? && s.readers == map[]
    ensures C.Legal(s, es) && NoReaders(es)
    ensures var t := C.Run(s, es); C.NobodyInside(t) && t == s.(controllers := t.controllers)
  {
    hide C.Accepts, C.Defaults, Wrap, C.ReaderOk, C.SampleOk, C.ControllerOk, C.Run, C.Legal;
    if c :| s.Alive(c) {
      es := [C.Die(c)];
      R.OneStep(s, C.Die(c));
      var t := C.Step(s, C.Die(c));
      forall d ensures !t.Alive(d) { assert s.Alive(d) ==> d == c; }
    } else {
      es := [];
      assert C.Run(s, es) == s && C.Legal(s, es) by { NothingRuns(s); }
    }
  }

  lemma NothingRuns(s: C.State)
    ensures C.Run(s, []) == s && C.Legal(s, [])
  {
  }

  /** With nobody inside and no filter there, the next boot makes an odd generation zero. */
  lemma SettingsComeToRest(s: C.State) returns (es: seq<C.Event>)
    requires C.Inv(s) && s.kind.Iva? && s.readers == map[]
    ensures C.Legal(s, es) && NoReaders(es) && (s.gen % 2 == 0 ==> es == [])
    ensures var t := C.Run(s, es); t.gen % 2 == 0 && t.readers == map[]
  {
    hide C.Accepts, C.Run, C.Legal, C.Inv, B.Suspect, C.Defaults;
    NothingRuns(s);
    es := [];
    if s.gen % 2 == 1 {
      var left := LockIsLeft(s);
      var t := C.Run(s, left);
      var d := AboveAllOf(t.controllers.Keys);
      B.RecoveryResets(t, d, C.Defaults(C.Iva));
      es := left + (B.Suspect(d, C.Defaults(C.Iva)) + [C.Reset(d)]);
      R.RunAppend(s, left, B.Suspect(d, C.Defaults(C.Iva)) + [C.Reset(d)]);
      RecoveryIsControl(d, C.Defaults(C.Iva));
    }
  }

  lemma RecoveryIsControl(d: nat, want: C.Record)
    ensures NoReaders(B.Suspect(d, want) + [C.Reset(d)])
  {
  }

  /** What the new filter reads of the settings: at generation zero nothing. */
  function Reading(s: State, r: nat): seq<Event> {
    if s.settings.gen == 0 then [] else ReadsOf(R.ReadAll(r))
  }

  lemma NewFilterIsCaught(s: State, r: nat)
    requires Inv(s) && s.ring.writer.Down? && s.ring.sequence % 2 == 1 && s.settings.readers == map[]
    requires s.settings.gen % 2 == 0
    ensures var m := Run(s, [Start(r)]);
            && Legal(m, Reading(s, r))
            && Caught(Run(m, Reading(s, r))) && Run(m, Reading(s, r)).ring.accepted == s.ring.accepted
  {
    hide Run, Legal, Inv, C.Inv, W.Inv, C.Accepts, C.Defaults, C.Run, C.Legal, R.ReadAll, Wrap;
    RingAtRest(s);
    SettingsAreOk(s);
    RunOne(s, Start(r));
    StartStep(s, r);
    var m := Run(s, [Start(r)]);
    if s.settings.gen == 0 {
      R.SizeOf(C.Iva, C.Defaults(C.Iva));
      assert Run(m, []) == m && Legal(m, []) by { NothingHappens(m); }
    } else {
      C.NewestIsClean(s.settings);
      R.SizeOf(C.Iva, s.settings.mem);
      ReadAllReads(r);
      GenerationIsPositive(s.settings);
      R.FilterReads(m.settings, r);
      RunReads(m, R.ReadAll(r));
    }
  }

  lemma GenerationIsPositive(s: C.State)
    requires C.Inv(s)
    ensures 0 <= s.gen < TWO32
  {
    hide C.Accepts, C.Defaults, Wrap;
  }

  /**
   * From every state in which a filter start would find the measurement's
   * generation odd: with that start, and with everything else as assumed, the
   * status can be brought to report as not pending what is no measurement.  An
   * odd settings generation is recovered first.
   */
  lemma AnOddStartCanMisreport(s: State, r: nat, q: nat) returns (before: seq<Event>, after: seq<Event>)
    requires Inv(s) && s.ring.writer.Down? && s.ring.sequence % 2 == 1 && s.settings.readers == map[]
    ensures Legal(s, before) && (s.settings.gen % 2 == 0 ==> before == [])
    ensures var m := Run(s, before);
            && m.ring == s.ring && m.settings.readers == map[]
            && Legal(Run(m, [Start(r)]), after)
            && Misreported(m, Run(Run(m, [Start(r)]), after))
  {
    hide Run, Legal, Inv, C.Inv, W.Inv, C.Run, C.Legal, Caught, NoMeasurement, Reading;
    SettingsAreOk(s);
    var es := SettingsComeToRest(s.settings);
    before := Controls(es);
    RunControls(s, es);
    RunKeepsInv(s, before);
    var m := Run(s, before);
    NewFilterIsCaught(m, r);
    var n := Run(m, [Start(r)]);
    var c := Run(n, Reading(m, r));
    var rest := CaughtMisreports(c, q);
    after := Reading(m, r) + rest;
    RunAppend(n, Reading(m, r), rest);
  }
}
