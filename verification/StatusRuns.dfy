/**
 * Undisturbed stretches of the processes around `motion_ivactl --status`: runs
 * of one of the two locks are runs of the whole, and a filter that is let alone
 * reads the settings, measures and is read.
 */
module StatusRuns {
  import opened Bytes
  import opened U32
  import opened SampleTear
  import opened StatusVerdict
  import C = CasSeqlock
  import R = ControllerRuns
  import W = WriterSeqlock
  import G = SeqlockProgress

  // ----- runs of one part are runs of the whole -----

  lemma {:induction false} RunAppend(s: State, a: seq<Event>, b: seq<Event>)
    ensures Run(s, a + b) == Run(Run(s, a), b)
    ensures Legal(s, a + b) <==> Legal(s, a) && Legal(Run(s, a), b)
    decreases |a|
  {
    hide Step, Assumed;
    if a == [] {
      assert a + b == b;
    } else {
      assert (a + b)[1..] == a[1..] + b;
      RunAppend(Step(s, a[0]), a[1..], b);
    }
  }

  lemma RunOne(s: State, e: Event)
    ensures Run(s, [e]) == Step(s, e)
    ensures Legal(s, [e]) <==> Assumed(s, e)
  {
    hide Step, Assumed;
    assert [e][1..] == [];
    assert Run(Step(s, e), []) == Step(s, e);
    assert Legal(Step(s, e), []);
  }

  function Controls(es: seq<C.Event>): seq<Event> {
    if es == [] then [] else [Control(es[0])] + Controls(es[1..])
  }

  ghost predicate NoReaders(es: seq<C.Event>) {
    forall i :: 0 <= i < |es| ==> !C.ReaderEvent(es[i])
  }

  lemma {:induction false} RunControls(s: State, es: seq<C.Event>)
    requires NoReaders(es)
    ensures Run(s, Controls(es)) == s.(settings := C.Run(s.settings, es))
    ensures C.Legal(s.settings, es) ==> Legal(s, Controls(es))
    decreases |es|
  {
    hide C.Step, C.Assumed;
    if es != [] {
      assert Controls(es)[1..] == Controls(es[1..]);
      RunControls(Step(s, Control(es[0])), es[1..]);
    }
  }

  function ReadsOf(es: seq<C.Event>): seq<Event> {
    if es == [] then [] else [Read(es[0])] + ReadsOf(es[1..])
  }

  ghost predicate AllReads(es: seq<C.Event>, filter: nat) {
    forall i :: 0 <= i < |es| ==> Reads(es[i], filter)
  }

  lemma {:induction false} RunReads(s: State, es: seq<C.Event>)
    requires AllReads(es, s.filter) && s.ring.writer.Idle?
    ensures Run(s, ReadsOf(es)) == s.(settings := C.Run(s.settings, es))
    ensures C.Legal(s.settings, es) ==> Legal(s, ReadsOf(es))
    decreases |es|
  {
    hide C.Step, C.Assumed;
    if es != [] {
      assert ReadsOf(es)[1..] == ReadsOf(es[1..]);
      RunReads(Step(s, Read(es[0])), es[1..]);
    }
  }

  function Shared(e: W.Event): Event {
    if e.Put? then Put(e.i) else Status(e)
  }

  function Shares(es: seq<W.Event>): seq<Event> {
    if es == [] then [] else [Shared(es[0])] + Shares(es[1..])
  }

  ghost predicate AllShared(es: seq<W.Event>) {
    forall i :: 0 <= i < |es| ==> es[i].Put? || Looks(es[i])
  }

  lemma {:induction false} RunShares(s: State, es: seq<W.Event>)
    requires AllShared(es)
    ensures Run(s, Shares(es)) == s.(ring := W.Run(SampleRules(), s.ring, es))
    ensures W.Legal(SampleRules(), s.ring, es) ==> Legal(s, Shares(es))
    decreases |es|
  {
    hide W.Step, W.Assumed;
    if es != [] {
      assert Shares(es)[1..] == Shares(es[1..]);
      RunShares(Step(s, Shared(es[0])), es[1..]);
    }
  }

  lemma {:induction false} RepeatIs(e: C.Event, n: nat)
    ensures |R.Repeat(e, n)| == n && forall i :: 0 <= i < n ==> R.Repeat(e, n)[i] == e
  {
    if n > 0 { RepeatIs(e, n - 1); }
  }

  lemma {:induction false} PutsAndCopiesAreShared(r: nat, n: nat)
    ensures AllShared(G.Puts(n)) && AllShared(G.Copies(r, n))
  {
    if n > 0 { PutsAndCopiesAreShared(r, n - 1); }
  }

  lemma LookIsShared(r: nat)
    ensures AllShared([W.Look(r)]) && AllShared([W.Check(r)])
  {
  }

  lemma SharedBoth(a: seq<W.Event>, b: seq<W.Event>)
    requires AllShared(a) && AllShared(b)
    ensures AllShared(a + b)
  {
    hide Looks;
    var ab := a + b;
    forall i | 0 <= i < |ab| ensures ab[i].Put? || Looks(ab[i]) {
      if i < |a| { assert ab[i] == a[i]; } else { assert ab[i] == b[i - |a|]; }
    }
  }

  // ----- the filter and the status, left alone -----

  /** A filter starts and reads the settings. */
  function Attend(r: nat): seq<Event> {
    [Start(r)] + ReadsOf(R.ReadAll(r))
  }

  lemma StartStep(s: State, r: nat)
    requires s.ring.writer.Down? && s.settings.readers == map[]
    ensures Step(s, Start(r)) ==
            s.(settings := s.settings.(readers := map[r := C.Reader(C.Defaults(s.settings.kind), 0, 0, C.Resting)]),
               ring := s.ring.(writer := W.Idle), filter := r)
    ensures s.ring.sequence % 2 == 0 ==> Assumed(s, Start(r))
  {
    hide C.Accepts, Wrap, C.Defaults;
    R.AttachStep(s.settings, r);
  }

  lemma AttendRuns(s: State, r: nat)
    requires s.ring.writer.Down? && s.settings.readers == map[]
    requires s.settings.kind.Iva? && s.settings.gen > 0 && s.settings.gen % 2 == 0 && |s.settings.published| > 0
    requires |s.settings.mem| == 241 && C.Accepts(C.Iva, s.settings.mem)
    ensures s.ring.sequence % 2 == 0 ==> Legal(s, Attend(r))
    ensures var c := s.settings;
            Run(s, Attend(r)) ==
              s.(settings := c.(readers := map[r := C.Reader(c.mem, c.gen, c.Last(), C.Resting)]),
                 ring := s.ring.(writer := W.Idle), filter := r)
  {
    hide C.Accepts, C.Run, C.Legal, Run, Legal, R.ReadAll, Step, C.Step, C.Defaults, Assumed;
    var c := s.settings;
    RunOne(s, Start(r));
    StartStep(s, r);
    var t := Step(s, Start(r));
    ReadAllReads(r);
    RunReads(t, R.ReadAll(r));
    R.FilterReads(t.settings, r);
    RunAppend(s, [Start(r)], ReadsOf(R.ReadAll(r)));
    assert t.settings.readers[r := C.Reader(c.mem, c.gen, c.Last(), C.Resting)]
        == map[r := C.Reader(c.mem, c.gen, c.Last(), C.Resting)];
  }

  lemma ReadAllReads(r: nat)
    ensures AllReads(R.ReadAll(r), r)
  {
    RepeatIs(C.Copy(r), 241);
  }

  /** The filter measures and publishes in full. */
  function Measure(v: View): seq<Event> {
    [Publish(v)] + (Shares(G.Puts(SAMPLE_WORDS)) + [End])
  }

  lemma MeasureRuns(s: State, v: View)
    requires Publishes(s, v) && |s.ring.mem| == SAMPLE_WORDS
    ensures Legal(s, Measure(v))
    ensures var t := Run(s, Measure(v));
            var x := s.settings.readers[s.filter];
            var w := Measured(v, x.active, x.activeGen);
            && t.filter == s.filter
            && t.settings == C.Step(s.settings, C.Emit(s.filter))
            && t.ring == W.Run(SampleRules(), s.ring, G.Update(w, SAMPLE_WORDS))
            && t.drawn == s.drawn + [|s.settings.samples|]
  {
    hide C.Step, W.Step, Run, W.Run, Measured, Legal, W.Legal, W.Assumed, SampleRules, Step, StepPublish, StepEnd, Shares,
         Wrap, AllShared;
    var u := SampleRules();
    var x := s.settings.readers[s.filter];
    var w := Measured(v, x.active, x.activeGen);
    RunOne(s, Publish(v));
    PublishStep(s, v);
    var a := Step(s, Publish(v));
    PutsAndCopiesAreShared(0, SAMPLE_WORDS);
    RunShares(a, G.Puts(SAMPLE_WORDS));
    G.PutsAreUnassuming(SAMPLE_WORDS);
    G.UnassumingIsLegal(u, a.ring, G.Puts(SAMPLE_WORDS));
    var b := Run(a, Shares(G.Puts(SAMPLE_WORDS)));
    RunOne(b, End);
    RunAppend(a, Shares(G.Puts(SAMPLE_WORDS)), [End]);
    RunAppend(s, [Publish(v)], Shares(G.Puts(SAMPLE_WORDS)) + [End]);
    G.OneStep(u, s.ring, W.Begin(w));
    G.RunAppend(u, a.ring, G.Puts(SAMPLE_WORDS), [W.End]);
    G.OneStep(u, b.ring, W.End);
    G.RunAppend(u, s.ring, [W.Begin(w)], G.Puts(SAMPLE_WORDS) + [W.End]);
    AllPut(s.ring, w);
    EndStep(b);
  }

  lemma PublishStep(s: State, v: View)
    requires Publishes(s, v)
    ensures Step(s, Publish(v)) == StepPublish(s, v) && StepPublish(s, v).filter == s.filter
    ensures StepPublish(s, v).drawn == s.drawn && StepPublish(s, v).drawing == |s.settings.samples|
    ensures var x := s.settings.readers[s.filter];
            && StepPublish(s, v).settings == C.Step(s.settings, C.Emit(s.filter))
            && StepPublish(s, v).ring == W.Step(SampleRules(), s.ring, W.Begin(Measured(v, x.active, x.activeGen)))
  {
    hide C.Step, W.Step, Measured;
  }

  lemma EndStep(s: State)
    ensures Step(s, End) == StepEnd(s)
    ensures StepEnd(s).settings == s.settings && StepEnd(s).filter == s.filter
    ensures StepEnd(s).ring == W.Step(SampleRules(), s.ring, W.End)
    ensures |W.Step(SampleRules(), s.ring, W.End).committed| > |s.ring.committed|
        ==> StepEnd(s).drawn == s.drawn + [s.drawing]
  {
    hide W.Step;
  }

  /** With every word put, the end commits. */
  lemma AllPut(ring: W.State, w: Words)
    requires ring.writer.Idle? && |ring.mem| == SAMPLE_WORDS == |w|
    ensures var u := SampleRules();
            var b := W.Run(u, W.Step(u, ring, W.Begin(w)), G.Puts(SAMPLE_WORDS));
            |W.Step(u, b, W.End).committed| > |b.committed|
  {
    hide W.Run, Wrap;
    var u := SampleRules();
    var a := W.Step(u, ring, W.Begin(w));
    G.RunPuts(u, a, SAMPLE_WORDS);
    assert w[..SAMPLE_WORDS] + ring.mem[SAMPLE_WORDS..] == w;
  }

  /** The status reads the measurement. */
  function Ask(q: nat): seq<Event> {
    Shares(G.Read(q, SAMPLE_WORDS))
  }

  lemma ReadIsShared(q: nat)
    ensures AllShared(G.Read(q, SAMPLE_WORDS))
  {
    hide AllShared;
    PutsAndCopiesAreShared(q, SAMPLE_WORDS);
    LookIsShared(q);
    SharedBoth(G.Copies(q, SAMPLE_WORDS), [W.Check(q)]);
    SharedBoth([W.Look(q)], G.Copies(q, SAMPLE_WORDS) + [W.Check(q)]);
  }

  lemma AskRuns(s: State, q: nat)
    requires W.Inv(SampleRules(), s.ring) && s.ring.writer.Idle? && s.ring.magic && s.ring.sequence != 0
    ensures Legal(s, Ask(q))
    ensures var t := Run(s, Ask(q));
            && t == s.(ring := t.ring)
            && t.ring == s.ring.(readers := t.ring.readers, accepted := s.ring.accepted + [s.ring.mem],
                                 read := s.ring.read + [|s.ring.committed|])
  {
    hide Run, Legal, W.Run, W.Legal, W.Step, W.Inv, Wrap;
    ReadIsShared(q);
    RunShares(s, G.Read(q, SAMPLE_WORDS));
    G.ReadsAccept(SampleRules(), s.ring, q);
  }
}
