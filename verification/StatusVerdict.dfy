/**
 * What `motion_ivactl --status` says about pending settings, with nothing taken
 * for granted between the processes: controllers and filter share the settings
 * under the lock of `CasSeqlock`, filter and status share the measurement under
 * the lock of `WriterSeqlock`, and both move word by word.
 *
 * The filter is one process at a time and does one thing at a time: it reads
 * the settings between two measurements, and a measurement is computed under
 * the settings and the generation it has then.  `drawn` and `drawing` tell which
 * of the filter's measurements a record in shared memory is; they are
 * bookkeeping only.
 */
module StatusVerdict {
  import opened Bytes
  import opened U32
  import opened SampleTear
  import C = CasSeqlock
  import P = PixelCounts
  import W = WriterSeqlock

  type Words = W.Words

  // ----- one measurement -----

  /** What the filter finds in the vendor's context: nothing usable, or a foreground map and a rectangle. */
  datatype Picture =
    | Unusable(error: int)
    | Seen(map': seq<byte>, x0: int, y0: int, x1: int, y1: int, outside: int, inside: int)

  datatype View = View(msLow: int, msHigh: int, frame: int, picture: Picture) {
    predicate Valid() { picture.Seen? ==> |picture.map'| == P.PIXELS }
  }

  const INCLUDED := 4
  const APPLIED := 6

  /** A settings record as the counters use it. */
  function SettingsOf(record: C.Record, p: Picture): P.Settings
    requires |record| == 241 && p.Seen?
  {
    P.Settings(p.x0, p.y0, p.x1, p.y1, record[0] != 0, seq(P.CELLS, i requires 0 <= i < P.CELLS => record[i + 1] != 48))
  }

  function Cells(map': seq<byte>): (c: seq<int>)
    requires |map'| == P.PIXELS
    ensures |c| == 240
  {
    P.CellCounts(map', P.PIXELS)
  }

  /** The record `motion_iva_filter` publishes: times, counts, the generation applied, an error and the cells. */
  function Measured(v: View, record: C.Record, applied: int): (w: Words)
    requires v.Valid() && |record| == 241
    ensures |w| == SAMPLE_WORDS && w[APPLIED] == applied
  {
    match v.picture
    case Unusable(error) => [v.msLow, v.msHigh, v.frame, 0, 0, 0, applied, error] + seq(240, _ => 0)
    case Seen(map', _, _, _, _, outside, inside) =>
      var t := P.Count(map', SettingsOf(record, v.picture), P.PIXELS);
      [v.msLow, v.msHigh, v.frame, t.raw, t.included, t.roi, applied, if t.raw != Wrap(outside + inside) then 3 else 0]
      + Cells(map')
  }

  // ----- the processes together -----

  datatype State = State(settings: C.State, ring: W.State, filter: nat, drawn: seq<nat>, drawing: nat)

  datatype Event =
    | Control(e: C.Event)
    | Start(r: nat)
    | Read(e: C.Event)
    | Publish(v: View)
    | Put(i: nat)
    | End
    | Die
    | Status(look: W.Event)

  predicate Reads(e: C.Event, filter: nat) {
    (e.Begin? || e.Copy? || e.Check?) && e.r == filter
  }

  predicate Looks(e: W.Event) {
    e.Look? || e.Copy? || e.Check?
  }

  predicate Publishes(s: State, v: View) {
    && s.ring.writer.Idle? && v.Valid()
    && s.filter in s.settings.readers
    && var x := s.settings.readers[s.filter]; x.pc.Resting? && |x.active| == 241
  }

  function StepPublish(s: State, v: View): State
    requires Publishes(s, v)
  {
    var x := s.settings.readers[s.filter];
    s.(settings := C.Step(s.settings, C.Emit(s.filter)),
       ring := W.Step(SampleRules(), s.ring, W.Begin(Measured(v, x.active, x.activeGen))),
       drawing := |s.settings.samples|)
  }

  function StepEnd(s: State): State {
    var ring := W.Step(SampleRules(), s.ring, W.End);
    s.(ring := ring, drawn := if |ring.committed| > |s.ring.committed| then s.drawn + [s.drawing] else s.drawn)
  }

  function Step(s: State, e: Event): State {
    match e
    case Control(c) => if C.ReaderEvent(c) then s else s.(settings := C.Step(s.settings, c))
    case Start(r) =>
      if s.ring.writer.Down? && s.settings.readers == map[] then
        s.(settings := C.Step(s.settings, C.Attach(r)), ring := W.Step(SampleRules(), s.ring, W.Start([])), filter := r)
      else s
    case Read(c) => if s.ring.writer.Idle? && Reads(c, s.filter) then s.(settings := C.Step(s.settings, c)) else s
    case Publish(v) => if Publishes(s, v) then StepPublish(s, v) else s
    case Put(i) => s.(ring := W.Step(SampleRules(), s.ring, W.Put(i)))
    case End => StepEnd(s)
    case Die =>
      s.(settings := C.Step(s.settings, C.Detach(s.filter)), ring := W.Step(SampleRules(), s.ring, W.Crash))
    case Status(w) => if Looks(w) then s.(ring := W.Step(SampleRules(), s.ring, w)) else s
  }

  function Run(s: State, events: seq<Event>): State
    decreases |events|
  {
    if events == [] then s else Run(Step(s, events[0]), events[1..])
  }

  function Init(): State {
    State(C.Init(C.Iva), W.Init(SampleRules()), 0, [], 0)
  }

  /** The assumptions of the two locks; that of the measurement's is that every filter start finds its generation even. */
  ghost predicate Assumed(s: State, e: Event) {
    match e
    case Control(c) => C.Assumed(s.settings, c)
    case Read(c) => C.Assumed(s.settings, c)
    case Start(_) => W.Assumed(SampleRules(), s.ring, W.Start([]))
    case Status(w) => W.Assumed(SampleRules(), s.ring, w)
    case _ => true
  }

  ghost predicate Legal(s: State, events: seq<Event>)
    decreases |events|
  {
    events == [] || (Assumed(s, events[0]) && Legal(Step(s, events[0]), events[1..]))
  }

  // ----- the invariant -----

  /** The record is that measurement, of some picture. */
  ghost predicate Carries(w: Words, x: C.Sample) {
    |x.under| == 241 && exists v: View :: v.Valid() && w == Measured(v, x.under, x.applied)
  }

  ghost predicate DrawnOk(committed: seq<Words>, drawn: seq<nat>, samples: seq<C.Sample>) {
    && |drawn| == |committed|
    && forall k :: 0 <= k < |committed| ==> drawn[k] < |samples| && Carries(committed[k], samples[drawn[k]])
  }

  ghost predicate Inv(s: State) {
    && C.Inv(s.settings) && s.settings.kind.Iva?
    && W.Inv(SampleRules(), s.ring)
    && DrawnOk(s.ring.committed, s.drawn, s.settings.samples)
    && (s.ring.writer.Busy? ==>
        s.drawing < |s.settings.samples| && Carries(s.ring.writer.target, s.settings.samples[s.drawing]))
  }

  lemma InitInv()
    ensures Inv(Init())
  {
    C.InitInv(C.Iva);
    SampleRulesAreWellFormed();
    W.InitInv(SampleRules());
  }

  /** A controller's step, or a read of the settings, measures nothing and leaves the measurements alone. */
  lemma SettingsStepKeepsInv(s: State, c: C.Event)
    requires Inv(s) && C.Assumed(s.settings, c) && !c.Emit?
    ensures Inv(s.(settings := C.Step(s.settings, c)))
  {
    hide C.Inv, C.Accepts, Wrap, Carries, W.Inv;
    C.StepKeepsInv(s.settings, c);
    SamplesStay(s.settings, c);
  }

  lemma SamplesStay(s: C.State, c: C.Event)
    requires !c.Emit?
    ensures C.Step(s, c).samples == s.samples && C.Step(s, c).kind == s.kind
  {
    hide C.Accepts, Wrap;
  }

  /** A step of the measurement's lock that begins and commits nothing. */
  lemma RingStepKeepsInv(s: State, w: W.Event)
    requires Inv(s) && W.Assumed(SampleRules(), s.ring, w) && !w.Begin? && !w.End?
    ensures Inv(s.(ring := W.Step(SampleRules(), s.ring, w)))
  {
    hide W.Inv, C.Inv, Carries;
    SampleRulesAreWellFormed();
    W.StepKeepsInv(SampleRules(), s.ring, w);
  }

  lemma PublishKeepsInv(s: State, v: View)
    requires Inv(s) && Publishes(s, v)
    ensures Inv(StepPublish(s, v))
  {
    hide W.Inv, C.Inv, C.Accepts, Wrap, Measured;
    var x := s.settings.readers[s.filter];
    var w := Measured(v, x.active, x.activeGen);
    SampleRulesAreWellFormed();
    W.StepKeepsInv(SampleRules(), s.ring, W.Begin(w));
    C.StepKeepsInv(s.settings, C.Emit(s.filter));
    var t := StepPublish(s, v);
    assert t.settings.samples[t.drawing] == C.Sample(x.activeGen, x.activeVersion, x.active, s.settings.epoch);
    assert Carries(w, t.settings.samples[t.drawing]);
    MoreSamples(s.ring.committed, s.drawn, s.settings.samples, t.settings.samples);
  }

  lemma MoreSamples(committed: seq<Words>, drawn: seq<nat>, samples: seq<C.Sample>, more: seq<C.Sample>)
    requires DrawnOk(committed, drawn, samples) && samples <= more
    ensures DrawnOk(committed, drawn, more)
  {
    hide Carries;
  }

  lemma EndKeepsInv(s: State)
    requires Inv(s)
    ensures Inv(StepEnd(s))
  {
    hide W.Inv, C.Inv, Wrap, Carries;
    SampleRulesAreWellFormed();
    W.StepKeepsInv(SampleRules(), s.ring, W.End);
  }

  lemma StartKeepsInv(s: State, r: nat)
    requires Inv(s) && Assumed(s, Start(r))
    ensures Inv(Step(s, Start(r)))
  {
    hide W.Inv, C.Inv, Carries, Wrap;
    if s.ring.writer.Down? && s.settings.readers == map[] {
      SettingsStepKeepsInv(s, C.Attach(r));
      RingStepKeepsInv(s.(settings := C.Step(s.settings, C.Attach(r))), W.Start([]));
    }
  }

  lemma DieKeepsInv(s: State)
    requires Inv(s)
    ensures Inv(Step(s, Die))
  {
    hide W.Inv, C.Inv, Carries, Wrap;
    SettingsStepKeepsInv(s, C.Detach(s.filter));
    RingStepKeepsInv(s.(settings := C.Step(s.settings, C.Detach(s.filter))), W.Crash);
  }

  lemma StepKeepsInv(s: State, e: Event)
    requires Inv(s) && Assumed(s, e)
    ensures Inv(Step(s, e))
  {
    hide Inv, C.Step, W.Step, C.Assumed, W.Assumed;
    match e
    case Control(c) => if !C.ReaderEvent(c) { SettingsStepKeepsInv(s, c); }
    case Start(r) => StartKeepsInv(s, r);
    case Read(c) => if s.ring.writer.Idle? && Reads(c, s.filter) { SettingsStepKeepsInv(s, c); }
    case Publish(v) => if Publishes(s, v) { PublishKeepsInv(s, v); }
    case Put(i) => PutKeepsInv(s, i);
    case End => EndKeepsInv(s);
    case Die => DieKeepsInv(s);
    case Status(w) => if Looks(w) { RingStepKeepsInv(s, w); }
  }

  lemma PutKeepsInv(s: State, i: nat)
    requires Inv(s)
    ensures Inv(Step(s, Put(i)))
  {
    RingStepKeepsInv(s, W.Put(i));
  }

  lemma {:induction false} RunKeepsInv(s: State, events: seq<Event>)
    requires Inv(s) && Legal(s, events)
    ensures Inv(Run(s, events))
    decreases |events|
  {
    hide Inv, Step, Assumed;
    if events != [] {
      StepKeepsInv(s, events[0]);
      RunKeepsInv(Step(s, events[0]), events[1..]);
    }
  }

  // ----- the verdict -----

  /** `pending` of `--status`, for the copy it accepted and the generation it loaded after that. */
  predicate Pending(config: int, w: Words)
    requires |w| == SAMPLE_WORDS
  {
    config % 2 == 1 || config != w[APPLIED]
  }

  /** The `j`-th accepted copy is one the filter drew. */
  ghost predicate Sourced(s: State, j: nat) {
    && j < |s.ring.accepted| && j < |s.ring.read| && 0 < s.ring.read[j] <= |s.drawn|
    && s.drawn[s.ring.read[j] - 1] < |s.settings.samples|
  }

  /** Which measurement it is. */
  ghost function Source(s: State, j: nat): C.Sample
    requires Sourced(s, j)
  {
    s.settings.samples[s.drawn[s.ring.read[j] - 1]]
  }

  /** Every accepted copy is one of the filter's measurements, whole. */
  lemma AcceptedCopiesAreMeasurements(events: seq<Event>, j: nat)
    requires Legal(Init(), events) && j < |Run(Init(), events).ring.accepted|
    ensures var s := Run(Init(), events);
            Sourced(s, j) && Carries(s.ring.accepted[j], Source(s, j)) && |s.ring.accepted[j]| == SAMPLE_WORDS
  {
    hide Run, Legal, Init, C.Inv, Measured;
    InitInv();
    RunKeepsInv(Init(), events);
  }

  /** The words are a measurement under that record, with that generation, of some picture. */
  ghost predicate MeasuredUnder(w: Words, record: C.Record, applied: int) {
    |record| == 241 && exists v: View :: v.Valid() && w == Measured(v, record, applied)
  }

  /**
   * What `pending:false` means, in every interleaving in which filter starts
   * find the measurement's generation even.  When the settings' generation is
   * not zero and the measurement is of the current boot epoch, the words just
   * read are a measurement under the record that is published now.  At
   * generation zero they are one under the built-in defaults.
   */
  lemma NotPendingIsTruthful(events: seq<Event>, j: nat)
    requires Legal(Init(), events) && j < |Run(Init(), events).ring.accepted|
    ensures var s := Run(Init(), events);
            var w := s.ring.accepted[j];
            && Sourced(s, j) && |w| == SAMPLE_WORDS
            && (!Pending(s.settings.gen, w) && s.settings.gen != 0
                && Source(s, j).epoch == s.settings.epoch && s.settings.Last() - Source(s, j).version < TWO31 ==>
                && s.settings.Last() > 0 && s.settings.mem == s.settings.published[s.settings.Last()]
                && MeasuredUnder(w, s.settings.mem, s.settings.gen))
            && (!Pending(s.settings.gen, w) && s.settings.gen == 0 ==> MeasuredUnder(w, C.Defaults(C.Iva), 0))
  {
    hide Run, Legal, Init, Wrap, Measured, C.Accepts, C.Defaults, Inv, C.Inv;
    InitInv();
    RunKeepsInv(Init(), events);
    AcceptedCopiesAreMeasurements(events, j);
    var s := Run(Init(), events);
    SettingsAreOk(s);
    var x := Source(s, j);
    var v: View :| v.Valid() && s.ring.accepted[j] == Measured(v, x.under, x.applied);
    if !Pending(s.settings.gen, s.ring.accepted[j]) {
      C.NotPendingIsOfTheNewest(s.settings, x);
      assert s.ring.accepted[j] == Measured(v, x.under, s.settings.gen);
    }
  }

  lemma SettingsAreOk(s: State)
    requires Inv(s)
    ensures C.Inv(s.settings) && s.settings.kind.Iva?
  {
  }
}
