/**
 * Why `StatusVerdict.NotPendingIsTruthful` asks for even starts: one run, within
 * one boot epoch, in which the status accepts counts made under settings that
 * have been replaced, together with the generation of the new ones.
 */
module TornStatus {
  import opened Bytes
  import opened U32
  import opened SampleTear
  import opened StatusVerdict
  import opened StatusRuns
  import opened MeasuredPictures
  import C = CasSeqlock
  import P = PixelCounts
  import R = ControllerRuns
  import W = WriterSeqlock
  import G = SeqlockProgress
  import StaleStatus

  // ----- the stretches of the run -----

  /** It dies inside its next publication. */
  lemma DieInside(s: State, v: View)
    requires Publishes(s, v)
    ensures var t := Run(s, [Publish(v)] + [Die]);
            && t.settings == C.Step(C.Step(s.settings, C.Emit(s.filter)), C.Detach(s.filter))
            && t.ring == s.ring.(sequence := Wrap(s.ring.sequence + 1), ticks := s.ring.ticks + 1, writer := W.Down)
  {
    hide C.Step, W.Step, Run, Wrap, Measured, Legal, Step, Assumed;
    RunOne(s, Publish(v));
    PublishStep(s, v);
    var t := Step(s, Publish(v));
    RunOne(t, Die);
    DieStep(t);
    var x := s.settings.readers[s.filter];
    CrashInside(s.ring, Measured(v, x.active, x.activeGen));
    RunAppend(s, [Publish(v)], [Die]);
  }

  lemma DieStep(s: State)
    ensures Step(s, Die).settings == C.Step(s.settings, C.Detach(s.filter))
    ensures Step(s, Die).ring == W.Step(SampleRules(), s.ring, W.Crash)
  {
    hide C.Step, W.Step;
  }

  lemma CrashInside(ring: W.State, w: Words)
    requires ring.writer.Idle?
    ensures W.Step(SampleRules(), W.Step(SampleRules(), ring, W.Begin(w)), W.Crash)
         == ring.(sequence := Wrap(ring.sequence + 1), ticks := ring.ticks + 1, writer := W.Down)
  {
    hide Wrap;
  }

  lemma OvertakeIsShared(q: nat, k: nat)
    requires k <= SAMPLE_WORDS
    ensures AllShared(Overtake(q, k))
  {
    hide AllShared;
    PutsAndCopiesAreShared(q, k);
    PutsAndCopiesAreShared(q, SAMPLE_WORDS);
    PutsAndCopiesAreShared(q, SAMPLE_WORDS - k);
    LookIsShared(q);
    SharedBoth([W.Look(q)], G.Copies(q, k));
    SharedBoth(G.Puts(SAMPLE_WORDS), G.Copies(q, SAMPLE_WORDS - k));
    SharedBoth(G.Puts(SAMPLE_WORDS) + G.Copies(q, SAMPLE_WORDS - k), [W.Check(q)]);
    SharedBoth([W.Look(q)] + G.Copies(q, k), (G.Puts(SAMPLE_WORDS) + G.Copies(q, SAMPLE_WORDS - k)) + [W.Check(q)]);
  }

  /** A status reader overtakes the publication of its successor after the first `k` words. */
  lemma OvertakeRuns(s: State, v: View, q: nat, k: nat)
    requires Publishes(s, v) && |s.ring.mem| == SAMPLE_WORDS && k <= SAMPLE_WORDS
    requires s.ring.sequence % 2 == 1 && 0 < s.ring.sequence + 1 < TWO32 && s.ring.magic
    ensures var t := Run(s, [Publish(v)] + Shares(Overtake(q, k)));
            var x := s.settings.readers[s.filter];
            && t.settings == C.Step(s.settings, C.Emit(s.filter))
            && t.ring.accepted == s.ring.accepted + [s.ring.mem[..k] + Measured(v, x.active, x.activeGen)[k..]]
    ensures Legal(s, [Publish(v)] + Shares(Overtake(q, k)))
  {
    hide C.Step, W.Step, Run, W.Run, Measured, Legal, W.Legal, Wrap, Step, Overtake, Shares, SampleRules, StepPublish;
    var x := s.settings.readers[s.filter];
    RunOne(s, Publish(v));
    PublishStep(s, v);
    assert Assumed(s, Publish(v));
    var a := Step(s, Publish(v));
    OvertakeIsShared(q, k);
    RunShares(a, Overtake(q, k));
    TearRuns(s.ring, q, Measured(v, x.active, x.activeGen), k);
    RunAppend(s, [Publish(v)], Shares(Overtake(q, k)));
  }

  // ----- the whole run -----

  /** Settings `v` are published and measured under, and the filter dies inside its next publication. */
  function Outdated(v: C.Record, a: View, b: View): seq<Event> {
    ((Controls(R.Publish(1, v)) + Attend(5)) + Measure(a)) + ([Publish(b)] + [Die])
  }

  /** Settings `w` replace them; a new filter reads those and publishes, and the status overtakes it. */
  function Overtaken(w: C.Record, agree: nat, c: View, q: nat, k: nat): seq<Event>
    requires k <= SAMPLE_WORDS
  {
    (Controls(R.Comparison(2, w, agree) + (R.Repeat(C.Write(2), 241) + [C.Write(2)])) + Attend(6))
    + ([Publish(c)] + Shares(Overtake(q, k)))
  }

  lemma SetsAreNoReaders(c: nat, v: C.Record, agree: nat)
    ensures NoReaders(R.Publish(c, v))
    ensures NoReaders(R.Comparison(c, v, agree) + (R.Repeat(C.Write(c), 241) + [C.Write(c)]))
  {
    RepeatIs(C.Write(c), |v|);
    RepeatIs(C.Write(c), 241);
    RepeatIs(C.Compare(c), agree);
  }

  /** The settings once `v` is published, with one filter under them or none. */
  function SettingsUnder(v: C.Record, samples: seq<C.Sample>, readers: map<nat, C.Reader>): C.State {
    C.State(C.Iva, 2, v, map[1 := C.Controller(v, 0, C.Finished(true))], readers, samples,
            [C.Init(C.Iva).mem, v], {v}, 0)
  }

  lemma FirstSet(v: C.Record)
    requires C.Accepts(C.Iva, v)
    ensures |v| == 241
    ensures Run(Init(), Controls(R.Publish(1, v))) == Init().(settings := SettingsUnder(v, [], map[]))
  {
    hide C.Accepts, C.Run, C.Legal, C.Step, Run, R.Publish, Wrap;
    WrapSmall(2);
    R.SizeOf(C.Iva, v);
    SetsAreNoReaders(1, v, 0);
    RunControls(Init(), R.Publish(1, v));
    R.UncontendedSetPublishes(Init().settings, 1, v);
    var c := C.Run(Init().settings, R.Publish(1, v));
    assert c.controllers == map[1 := C.Controller(v, 0, C.Finished(true))] && c.asked == {v};
  }

  /** The first measurement in shared memory. */
  lemma FirstUpdate(w: Words)
    requires |w| == SAMPLE_WORDS
    ensures var ring := W.Init(SampleRules()).(writer := W.Idle);
            var t := W.Run(SampleRules(), ring, G.Update(w, SAMPLE_WORDS));
            && |ring.mem| == SAMPLE_WORDS
            && t.sequence == 2 && t.writer.Idle? && t.magic && t.accepted == [] && t.mem == w
  {
    hide W.Run, Wrap;
    WrapSmall(2);
    SampleRulesAreWellFormed();
    G.UpdatesCommit(SampleRules(), W.Init(SampleRules()).(writer := W.Idle), w);
  }

  /** One whole measurement under `v`. */
  lemma MeasuredOnce(v: C.Record, a: View)
    requires C.Accepts(C.Iva, v) && a.Valid()
    ensures |v| == 241
    ensures var t := Run(Init(), (Controls(R.Publish(1, v)) + Attend(5)) + Measure(a));
            && t.settings == SettingsUnder(v, [C.Sample(2, 1, v, 0)], map[5 := C.Reader(v, 2, 1, C.Resting)])
            && t.filter == 5
            && t.ring.sequence == 2 && t.ring.writer.Idle? && t.ring.magic && t.ring.accepted == []
            && t.ring.mem == Measured(a, v, 2)
  {
    hide C.Accepts, C.Step, Run, W.Run, Measured, Attend, Measure, Wrap, Controls, SampleRules;
    FirstSet(v);
    var reader := C.Reader(v, 2, 1, C.Resting);
    var s1 := Run(Init(), Controls(R.Publish(1, v)));
    AttendRuns(s1, 5);
    var s2 := Run(s1, Attend(5));
    assert s2.settings == SettingsUnder(v, [], map[5 := reader]);
    FirstUpdate(Measured(a, v, 2));
    MeasureRuns(s2, a);
    R.EmitStep(s2.settings, 5);
    RunAppend(Init(), Controls(R.Publish(1, v)), Attend(5));
    RunAppend(Init(), Controls(R.Publish(1, v)) + Attend(5), Measure(a));
  }

  lemma OutdatedRuns(v: C.Record, a: View, b: View)
    requires C.Accepts(C.Iva, v) && a.Valid() && b.Valid()
    ensures |v| == 241
    ensures var t := Run(Init(), Outdated(v, a, b));
            && t.settings == SettingsUnder(v, [C.Sample(2, 1, v, 0), C.Sample(2, 1, v, 0)], map[])
            && t.ring.sequence == 3 && t.ring.writer.Down? && t.ring.magic && t.ring.accepted == []
            && t.ring.mem == Measured(a, v, 2)
  {
    hide C.Accepts, Run, W.Run, Measured, Attend, Measure, Wrap, Controls, Legal, C.Step;
    MeasuredOnce(v, a);
    var reader := C.Reader(v, 2, 1, C.Resting);
    var s := Run(Init(), (Controls(R.Publish(1, v)) + Attend(5)) + Measure(a));
    DieInside(s, b);
    WrapSmall(3);
    R.EmitStep(s.settings, 5);
    R.DetachStep(C.Step(s.settings, C.Emit(5)), 5);
    assert map[5 := reader] - {5} == map[];
    RunAppend(Init(), (Controls(R.Publish(1, v)) + Attend(5)) + Measure(a), [Publish(b)] + [Die]);
  }

  /** The settings are replaced while no filter is there. */
  lemma SetOverRuns(s: State, v: C.Record, w: C.Record, agree: nat, samples: seq<C.Sample>)
    requires C.Accepts(C.Iva, v) && C.Accepts(C.Iva, w) && |v| == 241 == |w|
    requires agree < 241 && v[agree] != w[agree] && forall i :: 0 <= i < agree ==> v[i] == w[i]
    requires s.settings == SettingsUnder(v, samples, map[])
    ensures var t := Run(s, Controls(R.Comparison(2, w, agree) + (R.Repeat(C.Write(2), 241) + [C.Write(2)])));
            && t == s.(settings := t.settings)
            && t.settings.kind.Iva? && t.settings.gen == 4 && t.settings.mem == w && t.settings.epoch == 0
            && t.settings.readers == map[] && t.settings.samples == samples && |t.settings.published| == 3
  {
    hide C.Accepts, C.Run, C.Legal, Run, Legal, Wrap, Controls, R.Comparison, R.Repeat;
    WrapSmall(4);
    SetsAreNoReaders(2, w, agree);
    RunControls(s, R.Comparison(2, w, agree) + (R.Repeat(C.Write(2), 241) + [C.Write(2)]));
    R.DifferentSetPublishes(s.settings, 2, w, agree);
  }

  lemma OvertakenRuns(s: State, v: C.Record, w: C.Record, agree: nat, c: View, q: nat, k: nat, samples: seq<C.Sample>)
    requires C.Accepts(C.Iva, v) && C.Accepts(C.Iva, w) && |v| == 241 == |w|
    requires agree < 241 && v[agree] != w[agree] && forall i :: 0 <= i < agree ==> v[i] == w[i]
    requires c.Valid() && k <= SAMPLE_WORDS
    requires s.settings == SettingsUnder(v, samples, map[])
    requires s.ring.sequence == 3 && s.ring.writer.Down? && s.ring.magic && |s.ring.mem| == SAMPLE_WORDS
    ensures var t := Run(s, Overtaken(w, agree, c, q, k));
            && t.settings.gen == 4 && t.settings.mem == w && t.settings.epoch == 0
            && t.settings.samples == samples + [C.Sample(4, 2, w, 0)]
            && t.ring.accepted == s.ring.accepted + [s.ring.mem[..k] + Measured(c, w, 4)[k..]]
  {
    hide C.Accepts, Run, Legal, Measured, Attend, Overtake, Wrap, Controls, Shares, R.Comparison, R.Repeat, C.Step;
    SetOverRuns(s, v, w, agree, samples);
    var set' := Controls(R.Comparison(2, w, agree) + (R.Repeat(C.Write(2), 241) + [C.Write(2)]));
    var s1 := Run(s, set');
    AttendRuns(s1, 6);
    var s2 := Run(s1, Attend(6));
    OvertakeRuns(s2, c, q, k);
    R.EmitStep(s2.settings, 6);
    RunAppend(s, set', Attend(6));
    RunAppend(s, set' + Attend(6), [Publish(c)] + Shares(Overtake(q, k)));
  }

  /**
   * Whatever is measured: the accepted words are the first `k` of a measurement
   * under the old settings and the rest of one under the new, all in one epoch,
   * and where the applied generation comes from the new one the status says not
   * pending.
   */
  lemma TornStatusIsNotPending(v: C.Record, w: C.Record, agree: nat, a: View, b: View, c: View, q: nat, k: nat)
    requires C.Accepts(C.Iva, v) && C.Accepts(C.Iva, w) && |v| == 241 == |w|
    requires agree < 241 && v[agree] != w[agree] && forall i :: 0 <= i < agree ==> v[i] == w[i]
    requires a.Valid() && b.Valid() && c.Valid() && k <= APPLIED
    ensures var t := Run(Init(), Outdated(v, a, b) + Overtaken(w, agree, c, q, k));
            && t.ring.accepted == [Measured(a, v, 2)[..k] + Measured(c, w, 4)[k..]]
            && !Pending(t.settings.gen, t.ring.accepted[0])
            && t.settings.mem == w
            && forall i :: 0 <= i < |t.settings.samples| ==> t.settings.samples[i].epoch == t.settings.epoch
  {
    hide C.Accepts, Run, Measured, Outdated, Overtaken;
    OutdatedRuns(v, a, b);
    var s := Run(Init(), Outdated(v, a, b));
    var samples := [C.Sample(2, 1, v, 0), C.Sample(2, 1, v, 0)];
    OvertakenRuns(s, v, w, agree, c, q, k, samples);
    RunAppend(Init(), Outdated(v, a, b), Overtaken(w, agree, c, q, k));
    var m, n := Measured(a, v, 2), Measured(c, w, 4);
    assert (m[..k] + n[k..])[APPLIED] == n[APPLIED];
  }

  // ----- and what it says is wrong -----

  /**
   * Nothing was excluded, then everything: the status reports the whole image as
   * included motion, not pending, though no measurement under the published
   * settings includes a single pixel.
   */
  lemma NotPendingCanBeTornWithinAnEpoch(q: nat)
    ensures Full().Valid()
    ensures var t := Run(Init(), Outdated(C.Defaults(C.Iva), Full(), Full())
                                 + Overtaken(StaleStatus.AllExcluded(), 0, Full(), q, 5));
            && |t.ring.accepted| == 1 && |t.ring.accepted[0]| == SAMPLE_WORDS
            && !Pending(t.settings.gen, t.ring.accepted[0])
            && t.settings.mem == StaleStatus.AllExcluded() && |t.settings.mem| == 241
            && t.ring.accepted[0][INCLUDED] == P.PIXELS
            && (forall v: View :: v.Valid() ==> Measured(v, t.settings.mem, t.settings.gen)[INCLUDED] == 0)
            && forall i :: 0 <= i < |t.settings.samples| ==> t.settings.samples[i].epoch == t.settings.epoch
  {
    hide C.Accepts, Run, Measured, Outdated, Overtaken, Full, StaleStatus.AllExcluded, C.Defaults;
    var old', new' := C.Defaults(C.Iva), StaleStatus.AllExcluded();
    StaleStatus.AllExcludedIsAccepted();
    assert |old'| == 241 && old'[0] != new'[0] by { FirstWords(); }
    FullUnderDefaults(2);
    TornStatusIsNotPending(old', new', 0, Full(), Full(), Full(), q, 5);
    var t := Run(Init(), Outdated(old', Full(), Full()) + Overtaken(new', 0, Full(), q, 5));
    forall v: View | v.Valid() ensures Measured(v, t.settings.mem, t.settings.gen)[INCLUDED] == 0 {
      NothingUnderAllExcluded(v, t.settings.gen);
    }
  }

  lemma FirstWords()
    ensures |C.Defaults(C.Iva)| == 241 && |StaleStatus.AllExcluded()| == 241
    ensures C.Defaults(C.Iva)[0] != StaleStatus.AllExcluded()[0]
  {
  }
}
