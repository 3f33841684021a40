/**
 * Runs in which the status comes to say `pending:false`: the one it is there
 * for, and the one at generation zero, where the filter works under its built-in
 * defaults whatever record a recovery has left in the file.
 */
module StatusReports {
  import opened Bytes
  import opened U32
  import opened SampleTear
  import opened StatusVerdict
  import opened StatusRuns
  import opened MeasuredPictures
  import C = CasSeqlock
  import P = PixelCounts
  import R = ControllerRuns
  import B = BootRecovery
  import W = WriterSeqlock
  import G = SeqlockProgress
  import StaleStatus

  /** Nobody is there but perhaps controllers, the measurement is whole, and its next generation is not zero. */
  ghost predicate AtRest(s: State) {
    && Inv(s)
    && s.ring.writer.Down? && s.ring.sequence % 2 == 0 && s.ring.sequence + 2 < TWO32
    && s.settings.readers == map[]
  }

  lemma RingAtRest(s: State)
    requires Inv(s)
    ensures W.Inv(SampleRules(), s.ring) && |s.ring.mem| == SAMPLE_WORDS && s.ring.magic
    ensures 0 <= s.ring.sequence < TWO32 && s.ring.sequence == Wrap(s.ring.ticks)
  {
    hide Wrap;
  }

  /** The filter that is there measures once, and the status asks. */
  function Report(v: View, q: nat): seq<Event> {
    Measure(v) + Ask(q)
  }

  lemma ReportRuns(s: State, v: View, q: nat)
    requires Inv(s) && Publishes(s, v) && s.ring.sequence + 2 < TWO32
    ensures Legal(s, Report(v, q))
    ensures var t := Run(s, Report(v, q));
            var x := s.settings.readers[s.filter];
            && t.settings == s.settings.(samples := t.settings.samples)
            && t.settings.samples == s.settings.samples + [C.Sample(x.activeGen, x.activeVersion, x.active, s.settings.epoch)]
            && t.ring.accepted == s.ring.accepted + [Measured(v, x.active, x.activeGen)]
  {
    hide Run, Legal, W.Run, Inv, W.Inv, Measured, Measure, Ask, Wrap, C.Step, W.Step, SampleRules;
    RingAtRest(s);
    MeasureRuns(s, v);
    var x := s.settings.readers[s.filter];
    var w := Measured(v, x.active, x.activeGen);
    R.EmitStep(s.settings, s.filter);
    CommitRuns(s.ring, w);
    var t := Run(s, Measure(v));
    RunKeepsInv(s, Measure(v));
    RingAtRest(t);
    AskRuns(t, q);
    RunAppend(s, Measure(v), Ask(q));
  }

  /** The measurement's lock after one update that is let finish. */
  lemma CommitRuns(ring: W.State, w: Words)
    requires ring.writer.Idle? && |ring.mem| == SAMPLE_WORDS == |w| && 0 <= ring.sequence && ring.sequence + 2 < TWO32
    ensures var t := W.Run(SampleRules(), ring, G.Update(w, SAMPLE_WORDS));
            && t.writer.Idle? && t.sequence != 0 && t.mem == w && t.accepted == ring.accepted
  {
    hide W.Run, Wrap;
    SampleRulesAreWellFormed();
    WrapSmall(ring.sequence + 2);
    G.UpdatesCommit(SampleRules(), ring, w);
  }

  /** A filter that is let alone reads the settings, and the status reports them as no longer pending. */
  lemma SettingsComeToBeReported(s: State, r: nat, v: View, q: nat)
    requires AtRest(s) && v.Valid() && s.settings.gen > 0 && s.settings.gen % 2 == 0
    ensures Legal(s, Attend(r) + Report(v, q))
    ensures |s.settings.mem| == 241
    ensures var t := Run(s, Attend(r) + Report(v, q));
            && t.settings.gen == s.settings.gen && t.settings.mem == s.settings.mem
            && t.ring.accepted == s.ring.accepted + [Measured(v, s.settings.mem, s.settings.gen)]
            && !Pending(t.settings.gen, t.ring.accepted[|s.ring.accepted|])
  {
    hide Run, Legal, Inv, C.Inv, W.Inv, Measured, Attend, Report, C.Accepts, Wrap, C.Defaults;
    SettingsAreOk(s);
    C.NewestIsClean(s.settings);
    R.SizeOf(C.Iva, s.settings.mem);
    AttendRuns(s, r);
    var t := Run(s, Attend(r));
    RunKeepsInv(s, Attend(r));
    ReportRuns(t, v, q);
    RunAppend(s, Attend(r), Report(v, q));
  }

  /** At generation zero it reads nothing, and the status reports what it measures under its defaults. */
  lemma DefaultsComeToBeReported(s: State, r: nat, v: View, q: nat)
    requires AtRest(s) && v.Valid() && s.settings.gen == 0
    ensures Legal(s, [Start(r)] + Report(v, q))
    ensures var t := Run(s, [Start(r)] + Report(v, q));
            && t.settings == s.settings.(readers := t.settings.readers, samples := t.settings.samples)
            && t.settings.samples == s.settings.samples + [C.Sample(0, 0, C.Defaults(C.Iva), s.settings.epoch)]
            && |C.Defaults(C.Iva)| == 241
            && t.ring.accepted == s.ring.accepted + [Measured(v, C.Defaults(C.Iva), 0)]
            && !Pending(t.settings.gen, t.ring.accepted[|s.ring.accepted|])
  {
    hide Run, Legal, Inv, C.Inv, W.Inv, Measured, Report, C.Accepts, Wrap, C.Defaults;
    SettingsAreOk(s);
    R.SizeOf(C.Iva, C.Defaults(C.Iva));
    StartStep(s, r);
    RunOne(s, Start(r));
    var t := Run(s, [Start(r)]);
    RunKeepsInv(s, [Start(r)]);
    ReportRuns(t, v, q);
    RunAppend(s, [Start(r)], Report(v, q));
  }

  // ----- from a fresh file -----

  lemma FreshIsAtRest()
    ensures AtRest(Init())
  {
    hide Inv;
    InitInv();
  }

  /** Controllers alone leave everything at rest. */
  lemma ControlsStayAtRest(s: State, es: seq<C.Event>)
    requires AtRest(s) && NoReaders(es) && C.Legal(s.settings, es) && C.Run(s.settings, es).readers == map[]
    ensures Legal(s, Controls(es)) && AtRest(Run(s, Controls(es)))
    ensures Run(s, Controls(es)) == s.(settings := C.Run(s.settings, es))
  {
    hide Run, Legal, Inv, C.Run, C.Legal, Controls;
    RunControls(s, es);
    RunKeepsInv(s, Controls(es));
  }

  /** Any settings, any picture: from a fresh file to `pending:false`. */
  lemma ASetIsReported(want: C.Record, v: View, r: nat, q: nat)
    requires C.Accepts(C.Iva, want) && v.Valid()
    ensures |want| == 241
    ensures var events := Controls(R.Publish(1, want)) + (Attend(r) + Report(v, q));
            var t := Run(Init(), events);
            && Legal(Init(), events)
            && t.ring.accepted == [Measured(v, want, 2)] && t.settings.mem == want
            && !Pending(t.settings.gen, t.ring.accepted[0]) && t.settings.gen != 0
  {
    hide Run, Legal, C.Run, C.Legal, C.Accepts, R.Publish, Attend, Report, Controls, Inv, Measured, Wrap;
    R.SizeOf(C.Iva, want);
    FreshIsAtRest();
    WrapSmall(2);
    R.UncontendedSetPublishes(Init().settings, 1, want);
    PublishingIsControl(1, want);
    ControlsStayAtRest(Init(), R.Publish(1, want));
    var s := Run(Init(), Controls(R.Publish(1, want)));
    SettingsComeToBeReported(s, r, v, q);
    RunAppend(Init(), Controls(R.Publish(1, want)), Attend(r) + Report(v, q));
  }

  lemma PublishingIsControl(c: nat, want: C.Record)
    ensures NoReaders(R.Publish(c, want))
  {
    RepeatIs(C.Write(c), |want|);
  }

  /** Everything is excluded; a controller dies holding the lock, and the next boot stores zero. */
  function Recovered(): seq<C.Event> {
    (R.Publish(1, StaleStatus.AllExcluded()) + B.DieLocked(2, StaleStatus.AllExcluded()))
    + (B.Suspect(3, StaleStatus.AllExcluded()) + [C.Reset(3)])
  }

  lemma RecoveredRuns()
    ensures C.Legal(C.Init(C.Iva), Recovered()) && NoReaders(Recovered())
    ensures var w := StaleStatus.AllExcluded();
            var t := C.Run(C.Init(C.Iva), Recovered());
            && t.kind.Iva? && t.gen == 0 && t.mem == w && t.readers == map[] && t.samples == []
            && t.published == [w] && t.epoch == 1
  {
    hide C.Run, C.Legal, C.Accepts, R.Publish, B.DieLocked, B.Suspect, StaleStatus.AllExcluded, Wrap;
    var w := StaleStatus.AllExcluded();
    StaleStatus.AllExcludedIsAccepted();
    WrapSmall(2);
    var s0 := C.Init(C.Iva);
    R.UncontendedSetPublishes(s0, 1, w);
    var s1 := C.Run(s0, R.Publish(1, w));
    B.LockIsLeftBehind(s1, 2, w);
    var s2 := C.Run(s1, B.DieLocked(2, w));
    B.RecoveryResets(s2, 3, w);
    R.RunAppend(s0, R.Publish(1, w), B.DieLocked(2, w));
    R.RunAppend(s0, R.Publish(1, w) + B.DieLocked(2, w), B.Suspect(3, w) + [C.Reset(3)]);
    RecoveredIsControl();
  }

  lemma RecoveredIsControl()
    ensures NoReaders(Recovered())
  {
    PublishingIsControl(1, StaleStatus.AllExcluded());
  }

  /**
   * One epoch, every start even, and generation zero names two records: the
   * file has everything excluded, the status reports the whole image as included
   * motion, not pending, and no measurement under the file's record includes a
   * single pixel.
   */
  lemma GenerationZeroNamesTwoRecords(r: nat, q: nat)
    ensures var events := Controls(Recovered()) + ([Start(r)] + Report(Full(), q));
            var t := Run(Init(), events);
            && Legal(Init(), events)
            && t.settings.gen == 0 && t.settings.published == [t.settings.mem]
            && t.settings.mem == StaleStatus.AllExcluded() && |t.settings.mem| == 241
            && |t.ring.accepted| == 1 && |t.ring.accepted[0]| == SAMPLE_WORDS
            && !Pending(t.settings.gen, t.ring.accepted[0])
            && t.ring.accepted[0][INCLUDED] == P.PIXELS
            && (forall v: View :: v.Valid() ==> Measured(v, t.settings.mem, t.settings.gen)[INCLUDED] == 0)
            && forall i :: 0 <= i < |t.settings.samples| ==> t.settings.samples[i].epoch == t.settings.epoch
  {
    hide Run, Legal, C.Run, C.Legal, Recovered, Report, Controls, Inv, Measured, Full, StaleStatus.AllExcluded, C.Defaults;
    FreshIsAtRest();
    RecoveredRuns();
    ControlsStayAtRest(Init(), Recovered());
    var s := Run(Init(), Controls(Recovered()));
    FullUnderDefaults(0);
    DefaultsComeToBeReported(s, r, Full(), q);
    RunAppend(Init(), Controls(Recovered()), [Start(r)] + Report(Full(), q));
    StaleStatus.AllExcludedIsAccepted();
    forall v: View | v.Valid() ensures Measured(v, StaleStatus.AllExcluded(), 0)[INCLUDED] == 0 {
      NothingUnderAllExcluded(v, 0);
    }
  }
}
