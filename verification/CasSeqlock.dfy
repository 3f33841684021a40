/**
 * The settings seqlocks with many controllers: `motion_ivactl` against
 * `motion_iva_filter`, and `nightvisionctl` against `read_settings`.
 *
 * Every atomic load, store, compare-and-swap and every word of a record copy is
 * one event.  A run is any list of events, so it is any interleaving of any
 * number of controllers and readers, any of which may die between two events.
 * An event that its process cannot take leaves the state alone.
 *
 * `published`, `asked`, `samples`, `epoch` and the `version` fields are
 * bookkeeping: no event's effect on the shared words or on a process's choices depends on them.
 */
module CasSeqlock {
  import opened U32

  datatype Kind = Iva | Night

  type Record = seq<int>

  const ATTEMPTS := 50

  function Words(kind: Kind): nat {
    if kind.Iva? then 241 else 2
  }

  /** `motion_iva_valid`, and the range test of `read_settings`. */
  predicate Accepts(kind: Kind, r: Record) {
    && |r| == Words(kind)
    && (kind.Iva? ==> 0 <= r[0] <= 1 && forall i :: 1 <= i < |r| ==> r[i] == 48 || r[i] == 49)
    && (kind.Night? ==> 0 <= r[0] <= 2 && 1 <= r[1] <= 100)
  }

  /** What a reader works under before it has committed any record. */
  function Defaults(kind: Kind): (r: Record)
    ensures Accepts(kind, r)
  {
    if kind.Iva? then [0] + seq(240, _ => 48) else [0, 50]
  }

  /**
   * A controller between two of its accesses.  `Starting`, `Suspecting` and
   * `Recovering` are the boot controller's: before its look at the generation,
   * after seeing it odd, and after finding no live filter.
   */
  datatype Pc =
    | Starting
    | Suspecting
    | Recovering
    | Ready
    | Loaded(gen: int)
    | Comparing(gen: int, at: nat)
    | Writing(gen: int, at: nat)
    | Finished(ok: bool)
  {
    predicate Inside() { Comparing? || Writing? }

    predicate Suspicious() { Suspecting? || Recovering? }
  }

  datatype Controller = Controller(want: Record, attempt: nat, pc: Pc)

  datatype ReaderPc = Resting | Copying(first: int, version: nat, copied: Record)

  datatype Reader = Reader(active: Record, activeGen: int, activeVersion: nat, pc: ReaderPc)

  /**
   * What a reader does under its settings: the generation it carries, and what
   * it was computed under.  The camera's is one stored word, the applied
   * generation; how the filter's travels to a status is `StatusVerdict`.
   */
  datatype Sample = Sample(applied: int, version: nat, under: Record, epoch: nat)

  datatype State = State(
    kind: Kind,
    gen: int,
    mem: Record,
    controllers: map<nat, Controller>,
    readers: map<nat, Reader>,
    samples: seq<Sample>,
    published: seq<Record>,
    asked: set<Record>,
    epoch: nat)
  {
    function Last(): int { |published| - 1 }

    predicate Alive(c: nat) { c in controllers && controllers[c].pc.Inside() }
  }

  datatype Event =
    | Arrive(c: nat, want: Record)
    | Boot(c: nat, want: Record)
    | Look(c: nat)
    | Probe(c: nat)
    | Reset(c: nat)
    | Load(c: nat)
    | Cas(c: nat)
    | Compare(c: nat)
    | Write(c: nat)
    | Die(c: nat)
    | Attach(r: nat)
    | Begin(r: nat)
    | Copy(r: nat)
    | Check(r: nat)
    | Emit(r: nat)
    | Detach(r: nat)

  function SetPc(s: State, c: nat, pc: Pc): State
    requires c in s.controllers
  {
    s.(controllers := s.controllers[c := s.controllers[c].(pc := pc)])
  }

  function SetReader(s: State, r: nat, x: Reader): State {
    s.(readers := s.readers[r := x])
  }

  /** The next loop turn after a failed attempt, or giving up after the last one. */
  function Retry(s: State, c: nat): State
    requires c in s.controllers
  {
    var x := s.controllers[c];
    s.(controllers := s.controllers[c := x.(attempt := x.attempt + 1,
       pc := if x.attempt + 1 < ATTEMPTS then Ready else Finished(false))])
  }

  function StepCas(s: State, c: nat): State
    requires c in s.controllers && s.controllers[c].pc.Loaded?
  {
    var g := s.controllers[c].pc.gen;
    if g % 2 == 0 && s.gen == g then
      SetPc(s.(gen := Wrap(g + 1)), c, if s.kind.Iva? && g != 0 then Comparing(g, 0) else Writing(g, 0))
    else
      Retry(s, c)
  }

  function StepCompare(s: State, c: nat): State
    requires c in s.controllers && s.controllers[c].pc.Comparing?
  {
    var x := s.controllers[c];
    if x.pc.at >= |s.mem| || x.pc.at >= |x.want| then
      SetPc(s.(gen := x.pc.gen), c, Finished(true))
    else if s.mem[x.pc.at] == x.want[x.pc.at] then
      SetPc(s, c, Comparing(x.pc.gen, x.pc.at + 1))
    else
      SetPc(s, c, Writing(x.pc.gen, 0))
  }

  function StepWrite(s: State, c: nat): State
    requires c in s.controllers && s.controllers[c].pc.Writing?
  {
    var x := s.controllers[c];
    if x.pc.at >= |s.mem| || x.pc.at >= |x.want| then
      SetPc(s.(gen := Wrap(x.pc.gen + 2), published := s.published + [x.want]), c, Finished(true))
    else
      SetPc(s.(mem := s.mem[x.pc.at := x.want[x.pc.at]]), c, Writing(x.pc.gen, x.pc.at + 1))
  }

  function StepBegin(s: State, r: nat): State
    requires r in s.readers && |s.published| > 0
  {
    var x := s.readers[r];
    if s.gen % 2 == 1 || (s.kind.Iva? && (s.gen == 0 || s.gen == x.activeGen)) then
      SetReader(s, r, x.(pc := Resting))
    else
      SetReader(s, r, x.(pc := Copying(s.gen, s.Last(), [])))
  }

  function StepCheck(s: State, r: nat): State
    requires r in s.readers && s.readers[r].pc.Copying?
  {
    var x := s.readers[r];
    if s.gen == x.pc.first && Accepts(s.kind, x.pc.copied) then
      SetReader(s, r, Reader(x.pc.copied, x.pc.first, x.pc.version, Resting))
    else
      SetReader(s, r, x.(pc := Resting))
  }

  function StepArrive(s: State, c: nat, want: Record, pc: Pc): State {
    if c in s.controllers || !Accepts(s.kind, want) then s
    else s.(controllers := s.controllers[c := Controller(want, 0, pc)], asked := s.asked + {want})
  }

  /** The store of zero, whatever the generation has become since the look. */
  function StepReset(s: State, c: nat): State
    requires c in s.controllers
  {
    SetPc(s.(gen := 0, published := [s.mem], epoch := s.epoch + 1), c, Ready)
  }

  function Step(s: State, e: Event): State {
    match e
    case Arrive(c, want) => StepArrive(s, c, want, Ready)
    case Boot(c, want) => StepArrive(s, c, want, if s.kind.Iva? then Starting else Ready)
    case Look(c) =>
      if c in s.controllers && s.controllers[c].pc.Starting?
      then SetPc(s, c, if s.gen % 2 == 1 then Suspecting else Ready) else s
    case Probe(c) =>
      if c in s.controllers && s.controllers[c].pc.Suspecting?
      then SetPc(s, c, if s.readers == map[] then Recovering else Ready) else s
    case Reset(c) =>
      if c in s.controllers && s.controllers[c].pc.Recovering? then StepReset(s, c) else s
    case Load(c) =>
      if c in s.controllers && s.controllers[c].pc.Ready? then SetPc(s, c, Loaded(s.gen)) else s
    case Cas(c) =>
      if c in s.controllers && s.controllers[c].pc.Loaded? then StepCas(s, c) else s
    case Compare(c) =>
      if c in s.controllers && s.controllers[c].pc.Comparing? then StepCompare(s, c) else s
    case Write(c) =>
      if c in s.controllers && s.controllers[c].pc.Writing? then StepWrite(s, c) else s
    case Die(c) =>
      s.(controllers := s.controllers - {c})
    case Attach(r) =>
      if r in s.readers then s else SetReader(s, r, Reader(Defaults(s.kind), 0, 0, Resting))
    case Begin(r) =>
      if r in s.readers && |s.published| > 0 then StepBegin(s, r) else s
    case Copy(r) =>
      if r in s.readers && s.readers[r].pc.Copying? && |s.readers[r].pc.copied| < |s.mem| then
        var x := s.readers[r];
        SetReader(s, r, x.(pc := x.pc.(copied := x.pc.copied + [s.mem[|x.pc.copied|]])))
      else s
    case Check(r) =>
      if r in s.readers && s.readers[r].pc.Copying? then StepCheck(s, r) else s
    case Emit(r) =>
      if r in s.readers then
        var x := s.readers[r];
        s.(samples := s.samples + [Sample(x.activeGen, x.activeVersion, x.active, s.epoch)])
      else s
    case Detach(r) =>
      s.(readers := s.readers - {r})
  }

  function Run(s: State, events: seq<Event>): State
    decreases |events|
  {
    if events == [] then s else Run(Step(s, events[0]), events[1..])
  }

  /** The freshly created file: zeroes for IVA, the automatic pair for night vision. */
  function Init(kind: Kind): State {
    var first := if kind.Iva? then seq(241, _ => 0) else Defaults(Night);
    State(kind, 0, first, map[], map[], [], [first], {}, 0)
  }

  ghost predicate NobodyInside(s: State) {
    forall c :: !s.Alive(c)
  }

  predicate Resets(s: State, e: Event) {
    e.Reset? && e.c in s.controllers && s.controllers[e.c].pc.Recovering?
  }

  /** A filter that has not committed anything yet and is not about to. */
  predicate Untouched(x: Reader) {
    x.active == Defaults(Iva) && x.activeGen == 0 && x.activeVersion == 0 && x.pc.Resting?
  }

  /**
   * The two assumptions about the surroundings.  When a recovery stores zero,
   * nobody is inside and no filter has read the settings (`BootRecovery` says
   * what goes wrong otherwise).  And no read lasts for 2^31 publications.
   */
  ghost predicate Assumed(s: State, e: Event) {
    && (Resets(s, e) ==> NobodyInside(s) && forall r :: r in s.readers ==> Untouched(s.readers[r]))
    && (e.Check? && e.r in s.readers && s.readers[e.r].pc.Copying?
        ==> s.Last() - s.readers[e.r].pc.version < TWO31)
  }

  ghost predicate Legal(s: State, events: seq<Event>)
    decreases |events|
  {
    events == [] || (Assumed(s, events[0]) && Legal(Step(s, events[0]), events[1..]))
  }

  // ----- the invariant -----

  /** The record version `v` stands for; version 0 of IVA is the file nobody has published to. */
  function Named(kind: Kind, published: seq<Record>, v: nat): Record
    requires v < |published|
  {
    if v == 0 then Defaults(kind) else published[v]
  }

  /** At most one controller is inside, and only while the generation is odd. */
  ghost predicate Mutex(gen: int, controllers: map<nat, Controller>) {
    && 0 <= gen < TWO32
    && (forall c :: c in controllers && controllers[c].pc.Inside() ==>
        gen % 2 == 1 && controllers[c].pc.gen == gen - 1)
    && (forall c, d ::
          c in controllers && d in controllers && controllers[c].pc.Inside() && controllers[d].pc.Inside() ==> c == d)
  }

  /** And the generation names the publications. */
  ghost predicate LockInv(gen: int, last: int, controllers: map<nat, Controller>) {
    && Mutex(gen, controllers)
    && last >= 0
    && gen - gen % 2 == Wrap(2 * last)
  }

  /** No word of the record has been overwritten since the last publication. */
  ghost predicate Quiet(gen: int, controllers: map<nat, Controller>) {
    gen % 2 == 0 || exists c :: c in controllers && controllers[c].pc.Comparing?
  }

  ghost predicate ControllerOk(kind: Kind, mem: Record, asked: set<Record>, x: Controller) {
    && Accepts(kind, x.want) && x.want in asked
    && (x.pc.Starting? || x.pc.Suspicious() ==> kind.Iva?)
    && (x.pc.Writing? ==> x.pc.at <= |mem| <= |x.want| && forall i :: 0 <= i < x.pc.at ==> mem[i] == x.want[i])
  }

  ghost predicate LogInv(kind: Kind, published: seq<Record>, asked: set<Record>) {
    && |published| > 0
    && (forall i :: 1 <= i < |published| ==> published[i] in asked && Accepts(kind, published[i]))
    && (kind.Night? ==> published[0] == Defaults(Night))
  }

  ghost predicate MemInv(mem: Record, published: seq<Record>, quiet: bool) {
    quiet && |published| > 0 ==> mem == published[|published| - 1]
  }

  /** Every word is one an acceptable record can have there. */
  predicate Clean(r: Record) {
    forall i :: 0 <= i < |r| ==> if i == 0 then 0 <= r[i] <= 1 else r[i] == 48 || r[i] == 49
  }

  ghost predicate ReaderOk(kind: Kind, mem: Record, published: seq<Record>, quiet: bool, x: Reader) {
    && x.activeVersion < |published|
    && x.activeGen == Wrap(2 * x.activeVersion)
    && x.active == Named(kind, published, x.activeVersion)
    && (x.pc.Copying? ==>
        && x.pc.version < |published|
        && x.pc.first == Wrap(2 * x.pc.version)
        && (kind.Iva? ==> x.pc.version >= 1)
        && |x.pc.copied| <= |mem|
        && (x.pc.version == |published| - 1 && quiet ==> x.pc.copied == mem[..|x.pc.copied|]))
    && (kind.Iva? && x.activeGen == 0 ==> x.activeVersion == 0)
    && (kind.Iva? && x.pc.Copying? ==> x.pc.first != 0 && Clean(mem) && Clean(x.pc.copied))
  }

  ghost predicate SampleOk(kind: Kind, published: seq<Record>, epoch: nat, x: Sample) {
    && x.epoch <= epoch
    && (x.epoch == epoch ==>
        && x.version < |published|
        && x.applied == Wrap(2 * x.version)
        && x.under == Named(kind, published, x.version))
    && (kind.Iva? && x.applied == 0 ==> x.under == Defaults(Iva) && (x.epoch == epoch ==> x.version == 0))
  }

  ghost predicate Inv(s: State) {
    && LockInv(s.gen, s.Last(), s.controllers)
    && |s.mem| == Words(s.kind)
    && (forall c :: c in s.controllers ==> ControllerOk(s.kind, s.mem, s.asked, s.controllers[c]))
    && LogInv(s.kind, s.published, s.asked)
    && MemInv(s.mem, s.published, Quiet(s.gen, s.controllers))
    && (forall r :: r in s.readers ==>
        ReaderOk(s.kind, s.mem, s.published, Quiet(s.gen, s.controllers), s.readers[r]))
    && (forall i :: 0 <= i < |s.samples| ==> SampleOk(s.kind, s.published, s.epoch, s.samples[i]))
  }

  lemma InitInv(kind: Kind)
    ensures Inv(Init(kind))
  {
  }

  /** The lock after controller `c` moved to `pc` and the generation to `gen`. */
  lemma LockAfter(gen: int, last: int, controllers: map<nat, Controller>, c: nat, x: Controller, gen': int, last': int)
    requires LockInv(gen, last, controllers) && c in controllers
    requires controllers[c].pc.Inside() || x.pc.Inside() ==> forall d :: d in controllers && d != c ==> !controllers[d].pc.Inside()
    requires 0 <= gen' < TWO32 && last' >= 0 && gen' - gen' % 2 == Wrap(2 * last')
    requires x.pc.Inside() ==> gen' % 2 == 1 && x.pc.gen == gen' - 1
    requires gen' == gen || controllers[c].pc.Inside() || x.pc.Inside()
    ensures LockInv(gen', last', controllers[c := x])
  {
    hide Wrap;
  }

  /** Whether the record is untouched depends only on `c` when `c` is the one inside. */
  lemma QuietAfter(gen: int, controllers: map<nat, Controller>, c: nat, x: Controller, gen': int)
    requires c in controllers
    requires forall d :: d in controllers && d != c ==> !controllers[d].pc.Inside()
    ensures Quiet(gen', controllers[c := x]) <==> gen' % 2 == 0 || x.pc.Comparing?
  {
    if x.pc.Comparing? { assert c in controllers[c := x] && controllers[c := x][c].pc.Comparing?; }
  }

  lemma OthersOutside(s: State, c: nat)
    requires Inv(s) && (s.gen % 2 == 0 || s.Alive(c))
    ensures forall d :: d in s.controllers && d != c ==> !s.controllers[d].pc.Inside()
  {
  }

  /** Readers and samples do not mind an unchanged log, and an untouched record. */
  lemma FrameReaders(s: State, t: State)
    requires Inv(s)
    requires t.kind == s.kind && t.readers == s.readers && t.samples == s.samples && t.epoch == s.epoch
    requires t.published == s.published && |t.mem| == |s.mem|
    requires Quiet(t.gen, t.controllers) ==> Quiet(s.gen, s.controllers) && t.mem == s.mem
    requires s.kind.Iva? && Clean(s.mem) ==> Clean(t.mem)
    ensures forall r :: r in t.readers ==> ReaderOk(t.kind, t.mem, t.published, Quiet(t.gen, t.controllers), t.readers[r])
    ensures forall i :: 0 <= i < |t.samples| ==> SampleOk(t.kind, t.published, t.epoch, t.samples[i])
  {
    hide Wrap, Accepts, Defaults;
    forall r | r in t.readers
      ensures ReaderOk(t.kind, t.mem, t.published, Quiet(t.gen, t.controllers), t.readers[r])
    {
      assert ReaderOk(s.kind, s.mem, s.published, Quiet(s.gen, s.controllers), s.readers[r]);
    }
  }

  /** Controller `c` moved, and with it perhaps the generation or, under its own lock, a word. */
  lemma MovedKeepsInv(s: State, t: State, c: nat, x: Controller)
    requires Inv(s) && c in s.controllers
    requires t == s.(gen := t.gen, mem := t.mem, controllers := s.controllers[c := x])
    requires LockInv(t.gen, t.Last(), t.controllers) && |t.mem| == |s.mem|
    requires ControllerOk(t.kind, t.mem, t.asked, x)
    requires t.mem == s.mem || forall d :: d in s.controllers && d != c ==> !s.controllers[d].pc.Inside()
    requires Quiet(t.gen, t.controllers) ==> Quiet(s.gen, s.controllers) && t.mem == s.mem
    requires s.kind.Iva? && Clean(s.mem) ==> Clean(t.mem)
    ensures Inv(t)
  {
    hide Wrap, Accepts, Defaults, LockInv, Quiet, Clean;
    forall d | d in t.controllers ensures ControllerOk(t.kind, t.mem, t.asked, t.controllers[d]) {
      if d != c { assert ControllerOk(s.kind, s.mem, s.asked, s.controllers[d]); }
    }
    FrameReaders(s, t);
  }

  lemma ControllerIsOk(s: State, c: nat)
    requires Inv(s) && c in s.controllers
    ensures ControllerOk(s.kind, s.mem, s.asked, s.controllers[c]) && |s.controllers[c].want| == |s.mem|
  {
    hide Wrap, LockInv, ReaderOk, SampleOk;
  }

  lemma CasKeepsInv(s: State, c: nat)
    requires Inv(s) && c in s.controllers && s.controllers[c].pc.Loaded?
    ensures Inv(StepCas(s, c))
  {
    hide Wrap, Defaults, Accepts, ReaderOk, SampleOk;
    var g := s.controllers[c].pc.gen;
    var t := StepCas(s, c);
    ControllerIsOk(s, c);
    if g % 2 == 0 && s.gen == g {
      WrapSmall(s.gen + 1);
      OthersOutside(s, c);
    } else {
      QuietSame(s.gen, s.controllers, c, t.controllers[c]);
    }
    LockAfter(s.gen, s.Last(), s.controllers, c, t.controllers[c], t.gen, t.Last());
    MovedKeepsInv(s, t, c, t.controllers[c]);
  }

  lemma QuietSame(gen: int, controllers: map<nat, Controller>, c: nat, x: Controller)
    requires c in controllers && !controllers[c].pc.Inside() && !x.pc.Inside()
    ensures Quiet(gen, controllers[c := x]) == Quiet(gen, controllers)
  {
    forall d | d != c ensures d in controllers[c := x] <==> d in controllers {}
    if Quiet(gen, controllers) && gen % 2 != 0 {
      var d :| d in controllers && controllers[d].pc.Comparing?;
      assert controllers[c := x][d].pc.Comparing?;
    }
  }

  /** The comparison goes on, finds a difference, or ends with the lock given back. */
  lemma CompareKeepsInv(s: State, c: nat)
    requires Inv(s) && c in s.controllers && s.controllers[c].pc.Comparing?
    ensures Inv(StepCompare(s, c))
  {
    hide Wrap, Inv, Quiet, Accepts, Clean, LockInv;
    var t := StepCompare(s, c);
    var x := t.controllers[c];
    ControllerIsOk(s, c);
    ComparingIsLocked(s, c);
    LockAfter(s.gen, s.Last(), s.controllers, c, x, t.gen, t.Last());
    MovedKeepsInv(s, t, c, x);
  }

  lemma ComparingIsLocked(s: State, c: nat)
    requires Inv(s) && c in s.controllers && s.controllers[c].pc.Comparing?
    ensures LockInv(s.gen, s.Last(), s.controllers) && Quiet(s.gen, s.controllers)
    ensures forall d :: d in s.controllers && d != c ==> !s.controllers[d].pc.Inside()
    ensures s.controllers[c].pc.gen == s.gen - 1 && s.gen % 2 == 1 && 0 <= s.gen < TWO32
    ensures s.Last() >= 0 && s.gen - 1 == Wrap(2 * s.Last())
  {
    hide Wrap, Accepts, ReaderOk, SampleOk, ControllerOk;
    OthersOutside(s, c);
  }

  /** The last word is in place: the generation moves on and the record gets its name. */
  lemma PublishKeepsInv(s: State, c: nat)
    requires Inv(s) && c in s.controllers && s.controllers[c].pc.Writing? && s.controllers[c].pc.at >= |s.mem|
    ensures Inv(StepWrite(s, c))
  {
    hide Wrap, Accepts, ReaderOk, SampleOk, Mutex, Clean;
    var t := StepWrite(s, c);
    var x := s.controllers[c];
    ControllerIsOk(s, c);
    assert s.mem == x.want;
    PublishedLock(s, c);
    PublishedReaders(s, t, c);
    forall d | d in t.controllers ensures ControllerOk(t.kind, t.mem, t.asked, t.controllers[d]) {
      if d != c { ControllerIsOk(s, d); }
    }
  }

  lemma PublishedLock(s: State, c: nat)
    requires Inv(s) && c in s.controllers && s.controllers[c].pc.Writing? && s.controllers[c].pc.at >= |s.mem|
    ensures var t := StepWrite(s, c); LockInv(t.gen, t.Last(), t.controllers)
  {
    hide Wrap, Accepts, ReaderOk, SampleOk;
    var t := StepWrite(s, c);
    ControllerIsOk(s, c);
    assert s.Alive(c);
    OthersOutside(s, c);
    WrapStep(2 * s.Last(), 2);
    WrapParity(2 * t.Last());
    LockAfter(s.gen, s.Last(), s.controllers, c, t.controllers[c], t.gen, t.Last());
  }

  /** A longer log silences what readers still claim about the record. */
  lemma PublishedReaders(s: State, t: State, c: nat)
    requires Inv(s) && |t.published| > |s.published| && t.published[..|s.published|] == s.published
    requires t.kind == s.kind && t.mem == s.mem && t.readers == s.readers && t.samples == s.samples && t.epoch == s.epoch
    ensures forall r :: r in t.readers ==> ReaderOk(t.kind, t.mem, t.published, Quiet(t.gen, t.controllers), t.readers[r])
    ensures forall i :: 0 <= i < |t.samples| ==> SampleOk(t.kind, t.published, t.epoch, t.samples[i])
  {
    hide Wrap, Accepts, Defaults, LockInv, Quiet, Clean;
    forall v: nat | v < |s.published| ensures t.published[v] == s.published[v] {
      assert t.published[..|s.published|][v] == t.published[v];
    }
    forall r | r in t.readers
      ensures ReaderOk(t.kind, t.mem, t.published, Quiet(t.gen, t.controllers), t.readers[r])
    {
      assert ReaderOk(s.kind, s.mem, s.published, Quiet(s.gen, s.controllers), s.readers[r]);
    }
    forall i | 0 <= i < |t.samples| ensures SampleOk(t.kind, t.published, t.epoch, t.samples[i]) {
      assert SampleOk(s.kind, s.published, s.epoch, s.samples[i]);
    }
  }

  lemma WriteWordKeepsInv(s: State, c: nat)
    requires Inv(s) && c in s.controllers && s.controllers[c].pc.Writing? && s.controllers[c].pc.at < |s.mem|
    ensures Inv(StepWrite(s, c))
  {
    hide Wrap, Accepts, Defaults, Clean, ReaderOk, SampleOk;
    var t := StepWrite(s, c);
    ControllerIsOk(s, c);
    assert s.Alive(c);
    OthersOutside(s, c);
    LockAfter(s.gen, s.Last(), s.controllers, c, t.controllers[c], t.gen, t.Last());
    QuietAfter(s.gen, s.controllers, c, t.controllers[c], t.gen);
    WordStaysClean(s.kind, s.mem, s.controllers[c].want, s.controllers[c].pc.at);
    MovedKeepsInv(s, t, c, t.controllers[c]);
  }

  lemma WordStaysClean(kind: Kind, mem: Record, want: Record, at: nat)
    requires Accepts(kind, want) && at < |mem| == |want|
    ensures kind.Iva? && Clean(mem) ==> Clean(mem[at := want[at]])
  {
  }

  lemma NewcomerKeepsMutex(gen: int, controllers: map<nat, Controller>, c: nat, x: Controller)
    requires Mutex(gen, controllers) && c !in controllers && !x.pc.Inside()
    ensures Mutex(gen, controllers[c := x])
  {
  }

  lemma ArriveKeepsInv(s: State, c: nat, want: Record, pc: Pc)
    requires Inv(s) && c !in s.controllers && Accepts(s.kind, want)
    requires pc.Ready? || (pc.Starting? && s.kind.Iva?)
    ensures Inv(StepArrive(s, c, want, pc))
  {
    hide Wrap, Accepts, ReaderOk, SampleOk, Mutex;
    var t := StepArrive(s, c, want, pc);
    NewcomerKeepsMutex(s.gen, s.controllers, c, t.controllers[c]);
    forall d | d in t.controllers ensures ControllerOk(t.kind, t.mem, t.asked, t.controllers[d]) {
      if d != c { assert ControllerOk(s.kind, s.mem, s.asked, s.controllers[d]); }
    }
    if exists d :: d in t.controllers && t.controllers[d].pc.Comparing? {
      var d :| d in t.controllers && t.controllers[d].pc.Comparing?;
      assert s.controllers[d].pc.Comparing?;
    }
    FrameReaders(s, t);
  }

  /** A controller outside moves on outside: nothing but its own place changes. */
  lemma OutsideKeepsInv(s: State, c: nat, pc: Pc)
    requires Inv(s) && c in s.controllers && !s.controllers[c].pc.Inside() && !pc.Inside() && !pc.Starting?
    requires pc.Suspicious() ==> s.kind.Iva?
    ensures Inv(SetPc(s, c, pc))
  {
    hide Wrap, Accepts, Defaults;
    var t := SetPc(s, c, pc);
    assert ControllerOk(s.kind, s.mem, s.asked, s.controllers[c]);
    LockAfter(s.gen, s.Last(), s.controllers, c, t.controllers[c], t.gen, t.Last());
    QuietSame(s.gen, s.controllers, c, t.controllers[c]);
    FrameReaders(s, t);
  }

  lemma LoadKeepsInv(s: State, c: nat)
    requires Inv(s) && c in s.controllers && s.controllers[c].pc.Ready?
    ensures Inv(Step(s, Load(c)))
  {
    OutsideKeepsInv(s, c, Loaded(s.gen));
  }

  lemma LookKeepsInv(s: State, c: nat)
    requires Inv(s) && c in s.controllers && s.controllers[c].pc.Starting?
    ensures Inv(Step(s, Look(c)))
  {
    hide Wrap, Accepts, Defaults;
    BootIsIva(s, c);
    OutsideKeepsInv(s, c, if s.gen % 2 == 1 then Suspecting else Ready);
  }

  lemma BootIsIva(s: State, c: nat)
    requires Inv(s) && c in s.controllers && (s.controllers[c].pc.Starting? || s.controllers[c].pc.Suspicious())
    ensures s.kind.Iva?
  {
    assert ControllerOk(s.kind, s.mem, s.asked, s.controllers[c]);
  }

  lemma ProbeKeepsInv(s: State, c: nat)
    requires Inv(s) && c in s.controllers && s.controllers[c].pc.Suspecting?
    ensures Inv(Step(s, Probe(c)))
  {
    hide Wrap, Accepts, Defaults;
    BootIsIva(s, c);
    OutsideKeepsInv(s, c, if s.readers == map[] then Recovering else Ready);
  }

  /** A controller may die anywhere; if it was inside, the generation stays odd. */
  lemma DieKeepsInv(s: State, c: nat)
    requires Inv(s)
    ensures Inv(Step(s, Die(c)))
  {
    hide Wrap, Accepts, Defaults, Mutex;
    var t := Step(s, Die(c));
    assert forall d :: d in t.controllers ==> d in s.controllers && t.controllers[d] == s.controllers[d];
    DeathKeepsMutex(s.gen, s.controllers, c);
    assert LockInv(t.gen, t.Last(), t.controllers);
    if exists d :: d in t.controllers && t.controllers[d].pc.Comparing? {
      var d :| d in t.controllers && t.controllers[d].pc.Comparing?;
      assert s.controllers[d].pc.Comparing?;
    }
    FrameReaders(s, t);
  }

  /** The store of a recovery: the record as it stands opens a new epoch. */
  lemma ResetKeepsInv(s: State, c: nat)
    requires Inv(s) && Assumed(s, Reset(c)) && c in s.controllers && s.controllers[c].pc.Recovering?
    ensures Inv(Step(s, Reset(c)))
  {
    hide Wrap, Accepts;
    WrapSmall(0);
    var t := Step(s, Reset(c));
    BootIsIva(s, c);
    assert Resets(s, Reset(c));
    forall d | d in s.controllers ensures !s.controllers[d].pc.Inside() { assert !s.Alive(d); }
    assert LockInv(t.gen, t.Last(), t.controllers);
    forall d | d in t.controllers ensures ControllerOk(t.kind, t.mem, t.asked, t.controllers[d]) {
      assert ControllerOk(s.kind, s.mem, s.asked, s.controllers[d]);
    }
    forall r | r in t.readers
      ensures ReaderOk(t.kind, t.mem, t.published, Quiet(t.gen, t.controllers), t.readers[r])
    {
      assert Untouched(s.readers[r]);
    }
    forall i | 0 <= i < |t.samples| ensures SampleOk(t.kind, t.published, t.epoch, t.samples[i]) {
      assert SampleOk(s.kind, s.published, s.epoch, s.samples[i]);
    }
  }

  /** The heart of the matter: a copy that passes the second look is the newest published record. */
  lemma CheckedCopyIsWhole(s: State, r: nat)
    requires Inv(s) && Assumed(s, Check(r))
    requires r in s.readers && s.readers[r].pc.Copying? && s.gen == s.readers[r].pc.first
    ensures s.readers[r].pc.version == s.Last()
    ensures s.gen % 2 == 0 && s.mem == s.published[s.Last()]
    ensures |s.readers[r].pc.copied| == |s.mem| ==> s.readers[r].pc.copied == s.published[s.Last()]
  {
    hide Wrap;
    var x := s.readers[r];
    assert ReaderOk(s.kind, s.mem, s.published, Quiet(s.gen, s.controllers), x);
    WrapParity(2 * x.pc.version);
    assert s.gen % 2 == 0;
    WrapInjective(2 * s.Last(), 2 * x.pc.version);
    assert s.mem[..|s.mem|] == s.mem;
  }

  /** Only reader `r` changed, and it is still in order. */
  lemma OneReader(s: State, r: nat, x: Reader)
    requires Inv(s)
    requires ReaderOk(s.kind, s.mem, s.published, Quiet(s.gen, s.controllers), x)
    ensures Inv(SetReader(s, r, x))
  {
    hide Wrap, Accepts, Defaults;
  }

  /** Under an even generation other than zero the record is one that was published. */
  lemma NewestIsClean(s: State)
    requires Inv(s) && s.kind.Iva? && s.gen % 2 == 0 && s.gen != 0
    ensures s.Last() > 0 && s.mem == s.published[s.Last()] && Accepts(Iva, s.mem) && Clean(s.mem)
  {
    hide Wrap, Defaults, ReaderOk, SampleOk, ControllerOk, Mutex;
    WrapSmall(0);
  }

  lemma BeginKeepsInv(s: State, r: nat)
    requires Inv(s) && r in s.readers
    ensures Inv(StepBegin(s, r))
  {
    hide Wrap, Accepts, Defaults;
    WrapSmall(0);
    assert ReaderOk(s.kind, s.mem, s.published, Quiet(s.gen, s.controllers), s.readers[r]);
    if s.kind.Iva? && s.gen % 2 == 0 && s.gen != 0 { NewestIsClean(s); }
    OneReader(s, r, StepBegin(s, r).readers[r]);
  }

  lemma CopyKeepsInv(s: State, r: nat)
    requires Inv(s) && r in s.readers && s.readers[r].pc.Copying? && |s.readers[r].pc.copied| < |s.mem|
    ensures Inv(Step(s, Copy(r)))
  {
    hide Wrap, Accepts, Defaults;
    var x := s.readers[r];
    assert ReaderOk(s.kind, s.mem, s.published, Quiet(s.gen, s.controllers), x);
    var k := |x.pc.copied|;
    assert s.mem[..k + 1] == s.mem[..k] + [s.mem[k]];
    OneReader(s, r, Step(s, Copy(r)).readers[r]);
  }

  lemma CheckKeepsInv(s: State, r: nat)
    requires Inv(s) && Assumed(s, Check(r)) && r in s.readers && s.readers[r].pc.Copying?
    ensures Inv(StepCheck(s, r))
  {
    hide Wrap, Defaults;
    var x := s.readers[r];
    assert ReaderOk(s.kind, s.mem, s.published, Quiet(s.gen, s.controllers), x);
    if s.gen == x.pc.first && Accepts(s.kind, x.pc.copied) {
      NewestIsCommitted(s, r);
      NewestIsNamed(s);
    }
    OneReader(s, r, StepCheck(s, r).readers[r]);
  }

  lemma NewestIsNamed(s: State)
    requires Inv(s)
    ensures (s.Last() == 0 && s.kind.Iva?) || Named(s.kind, s.published, s.Last()) == s.published[s.Last()]
  {
  }

  lemma EmitKeepsInv(s: State, r: nat)
    requires Inv(s)
    ensures Inv(Step(s, Emit(r)))
  {
    hide Wrap, Accepts, Defaults;
    if r in s.readers {
      assert ReaderOk(s.kind, s.mem, s.published, Quiet(s.gen, s.controllers), s.readers[r]);
    }
  }

  predicate ReaderEvent(e: Event) {
    e.Attach? || e.Begin? || e.Copy? || e.Check? || e.Emit? || e.Detach?
  }

  lemma ReaderStepKeepsInv(s: State, e: Event)
    requires Inv(s) && Assumed(s, e) && ReaderEvent(e)
    ensures Inv(Step(s, e))
  {
    hide Wrap, Inv;
    match e
    case Emit(r) => EmitKeepsInv(s, r);
    case Attach(r) => if r !in s.readers { AttachKeepsInv(s, r); }
    case Begin(r) => if r in s.readers { BeginKeepsInv(s, r); }
    case Copy(r) =>
      if r in s.readers && s.readers[r].pc.Copying? && |s.readers[r].pc.copied| < |s.mem| { CopyKeepsInv(s, r); }
    case Check(r) => if r in s.readers && s.readers[r].pc.Copying? { CheckKeepsInv(s, r); }
    case Detach(r) => DetachKeepsInv(s, r);
  }

  lemma DetachKeepsInv(s: State, r: nat)
    requires Inv(s)
    ensures Inv(Step(s, Detach(r)))
  {
    hide Wrap, Accepts;
    var t := Step(s, Detach(r));
    assert forall q :: q in t.readers ==> q in s.readers && t.readers[q] == s.readers[q];
  }

  lemma AttachKeepsInv(s: State, r: nat)
    requires Inv(s) && r !in s.readers
    ensures Inv(Step(s, Attach(r)))
  {
    hide Wrap, Accepts;
    WrapSmall(0);
    OneReader(s, r, Reader(Defaults(s.kind), 0, 0, Resting));
  }

  lemma StepKeepsInv(s: State, e: Event)
    requires Inv(s) && Assumed(s, e)
    ensures Inv(Step(s, e))
  {
    hide Wrap, Inv;
    match e
    case Cas(c) => if c in s.controllers && s.controllers[c].pc.Loaded? { CasKeepsInv(s, c); }
    case Compare(c) => if c in s.controllers && s.controllers[c].pc.Comparing? { CompareKeepsInv(s, c); }
    case Write(c) => if c in s.controllers && s.controllers[c].pc.Writing? { WriteKeepsInv(s, c); }
    case Arrive(c, want) => if c !in s.controllers && Accepts(s.kind, want) { ArriveKeepsInv(s, c, want, Ready); }
    case Boot(c, want) =>
      if c !in s.controllers && Accepts(s.kind, want) {
        ArriveKeepsInv(s, c, want, if s.kind.Iva? then Starting else Ready);
      }
    case Look(c) => if c in s.controllers && s.controllers[c].pc.Starting? { LookKeepsInv(s, c); }
    case Probe(c) => if c in s.controllers && s.controllers[c].pc.Suspecting? { ProbeKeepsInv(s, c); }
    case Reset(c) => if c in s.controllers && s.controllers[c].pc.Recovering? { ResetKeepsInv(s, c); }
    case Load(c) => if c in s.controllers && s.controllers[c].pc.Ready? { LoadKeepsInv(s, c); }
    case Die(c) => DieKeepsInv(s, c);
    case _ => ReaderStepKeepsInv(s, e);
  }

  lemma WriteKeepsInv(s: State, c: nat)
    requires Inv(s) && c in s.controllers && s.controllers[c].pc.Writing?
    ensures Inv(StepWrite(s, c))
  {
    hide Wrap;
    assert ControllerOk(s.kind, s.mem, s.asked, s.controllers[c]);
    if s.controllers[c].pc.at < |s.mem| { WriteWordKeepsInv(s, c); } else { PublishKeepsInv(s, c); }
  }

  lemma {:induction false} RunKeepsInv(s: State, events: seq<Event>)
    requires Inv(s) && Legal(s, events)
    ensures Inv(Run(s, events))
    decreases |events|
  {
    hide Wrap;
    if events != [] {
      StepKeepsInv(s, events[0]);
      RunKeepsInv(Step(s, events[0]), events[1..]);
    }
  }

  // ----- what holds on every run -----

  ghost predicate AtMostOneInside(s: State) {
    forall c, d :: s.Alive(c) && s.Alive(d) ==> c == d
  }

  /** Every store of a recovery finds nobody inside; nothing else is asked of the surroundings. */
  ghost predicate StoresFindNobody(s: State, events: seq<Event>)
    decreases |events|
  {
    events == []
    || ((Resets(s, events[0]) ==> NobodyInside(s)) && StoresFindNobody(Step(s, events[0]), events[1..]))
  }

  /** The one inside may leave or move on, and with nobody inside anyone may enter. */
  lemma MutexAfter(gen: int, controllers: map<nat, Controller>, c: nat, x: Controller, gen': int)
    requires Mutex(gen, controllers) && 0 <= gen' < TWO32
    requires x.pc.Inside() || gen' != gen ==> forall d :: d in controllers && d != c ==> !controllers[d].pc.Inside()
    requires x.pc.Inside() ==> gen' % 2 == 1 && x.pc.gen == gen' - 1
    ensures Mutex(gen', controllers[c := x])
  {
  }

  lemma StepKeepsMutex(s: State, e: Event)
    requires Mutex(s.gen, s.controllers) && (Resets(s, e) ==> NobodyInside(s))
    ensures var t := Step(s, e); Mutex(t.gen, t.controllers)
  {
    hide Accepts, Mutex, Wrap;
    var t := Step(s, e);
    if t.controllers == s.controllers && t.gen == s.gen {
    } else if e.Die? {
      DeathKeepsMutex(s.gen, s.controllers, e.c);
    } else {
      OneStepsMutex(s, e);
    }
  }

  lemma DeathKeepsMutex(gen: int, controllers: map<nat, Controller>, c: nat)
    requires Mutex(gen, controllers)
    ensures Mutex(gen, controllers - {c})
  {
    var rest := controllers - {c};
    forall d | d in rest ensures d in controllers && rest[d] == controllers[d] {}
  }

  /** Only the controller of the event moves, and the generation with it. */
  lemma OneStepsMutex(s: State, e: Event)
    requires Mutex(s.gen, s.controllers) && (Resets(s, e) ==> NobodyInside(s)) && !e.Die?
    requires Step(s, e).controllers != s.controllers || Step(s, e).gen != s.gen
    ensures var t := Step(s, e); Mutex(t.gen, t.controllers)
  {
    hide Accepts, Wrap, Mutex, Step, NobodyInside;
    var t := Step(s, e);
    OneMoves(s, e);
    MoverIsInOrder(s, e);
    if Resets(s, e) {
      forall d | d in s.controllers ensures !s.controllers[d].pc.Inside() { NobodyIs(s, d); }
    } else if t.controllers[e.c].pc.Inside() || t.gen != s.gen {
      OthersAreOutside(s.gen, s.controllers, e.c);
    }
    MutexAfter(s.gen, s.controllers, e.c, t.controllers[e.c], t.gen);
  }

  lemma NobodyIs(s: State, d: nat)
    requires NobodyInside(s) && d in s.controllers
    ensures !s.controllers[d].pc.Inside()
  {
    assert !s.Alive(d);
  }

  lemma OthersAreOutside(gen: int, controllers: map<nat, Controller>, c: nat)
    requires Mutex(gen, controllers) && (gen % 2 == 0 || (c in controllers && controllers[c].pc.Inside()))
    ensures forall d :: d in controllers && d != c ==> !controllers[d].pc.Inside()
  {
  }

  predicate ControllerEvent(e: Event) {
    !ReaderEvent(e) && !e.Die?
  }

  lemma OneMoves(s: State, e: Event)
    requires !e.Die? && (Step(s, e).controllers != s.controllers || Step(s, e).gen != s.gen)
    ensures var t := Step(s, e);
            ControllerEvent(e) && e.c in t.controllers && t.controllers == s.controllers[e.c := t.controllers[e.c]]
  {
    hide Accepts, Wrap, Step;
    if ReaderEvent(e) { ReadersMoveNoController(s, e); }
    else if LockEvent(e) { LockMovesOne(s, e); }
    else { OutsideMovesOne(s, e); }
  }

  lemma ReadersMoveNoController(s: State, e: Event)
    requires ReaderEvent(e)
    ensures var t := Step(s, e); t.kind == s.kind && t.gen == s.gen && t.controllers == s.controllers
  {
    hide Wrap, Accepts, Defaults;
  }

  lemma LockMovesOne(s: State, e: Event)
    requires LockEvent(e)
    ensures var t := Step(s, e);
            if e.c in s.controllers
            then e.c in t.controllers && t.controllers == s.controllers[e.c := t.controllers[e.c]] else t == s
  {
    hide Accepts, Wrap;
    if e.c in s.controllers { assert s.controllers == s.controllers[e.c := s.controllers[e.c]]; }
  }

  lemma OutsideMovesOne(s: State, e: Event)
    requires ControllerEvent(e) && !LockEvent(e)
    ensures var t := Step(s, e);
            t == s || (e.c in t.controllers && t.controllers == s.controllers[e.c := t.controllers[e.c]])
  {
    hide Accepts, Wrap;
  }

  predicate LockEvent(e: Event) { e.Cas? || e.Compare? || e.Write? }

  /** Who enters finds an even generation, who moves it was inside, and only a recovery's store is exempt. */
  ghost predicate InOrder(s: State, e: Event, t: State)
    requires ControllerEvent(e) && e.c in t.controllers
  {
    var x := t.controllers[e.c];
    && 0 <= t.gen < TWO32
    && (x.pc.Inside() ==> t.gen % 2 == 1 && x.pc.gen == t.gen - 1)
    && (x.pc.Inside() || t.gen != s.gen ==>
        s.gen % 2 == 0 || Resets(s, e) || (e.c in s.controllers && s.controllers[e.c].pc.Inside()))
  }

  lemma MoverIsInOrder(s: State, e: Event)
    requires Mutex(s.gen, s.controllers) && ControllerEvent(e)
    requires Step(s, e).controllers != s.controllers || Step(s, e).gen != s.gen
    requires e.c in Step(s, e).controllers
    ensures InOrder(s, e, Step(s, e))
  {
    hide Accepts, Wrap, InOrder, Step;
    if LockEvent(e) { LockIsInOrder(s, e); } else { OutsideIsInOrder(s, e); }
  }

  lemma LockIsInOrder(s: State, e: Event)
    requires Mutex(s.gen, s.controllers) && LockEvent(e)
    requires Step(s, e).controllers != s.controllers || Step(s, e).gen != s.gen
    requires e.c in Step(s, e).controllers
    ensures InOrder(s, e, Step(s, e))
  {
    hide Accepts, Wrap;
    if s.gen % 2 == 0 { WrapSmall(s.gen + 1); }
  }

  lemma OutsideIsInOrder(s: State, e: Event)
    requires Mutex(s.gen, s.controllers) && ControllerEvent(e) && !LockEvent(e)
    requires Step(s, e).controllers != s.controllers || Step(s, e).gen != s.gen
    requires e.c in Step(s, e).controllers
    ensures InOrder(s, e, Step(s, e))
  {
    hide Accepts, Wrap;
  }

  lemma {:induction false} RunKeepsMutex(s: State, events: seq<Event>)
    requires Mutex(s.gen, s.controllers) && StoresFindNobody(s, events)
    ensures var t := Run(s, events); Mutex(t.gen, t.controllers)
    decreases |events|
  {
    if events != [] {
      StepKeepsMutex(s, events[0]);
      RunKeepsMutex(Step(s, events[0]), events[1..]);
    }
  }

  /** Mutual exclusion of the odd-generation section, over every interleaving. */
  lemma NeverTwoInside(kind: Kind, events: seq<Event>)
    requires StoresFindNobody(Init(kind), events)
    ensures AtMostOneInside(Run(Init(kind), events))
    ensures forall c :: Run(Init(kind), events).Alive(c) ==> Run(Init(kind), events).gen % 2 == 1
  {
    RunKeepsMutex(Init(kind), events);
  }

  /** A legal run's stores do. */
  lemma {:induction false} LegalStoresFindNobody(s: State, events: seq<Event>)
    requires Legal(s, events)
    ensures StoresFindNobody(s, events)
    decreases |events|
  {
    hide Wrap, Accepts, Step;
    if events != [] {
      LegalStoresFindNobody(Step(s, events[0]), events[1..]);
    }
  }

  /**
   * Whatever a reader works under is its built-in default or one whole record
   * that some controller asked for; never a mix of two.
   */
  lemma CommittedRecordsAreWhole(kind: Kind, events: seq<Event>, r: nat)
    requires Legal(Init(kind), events)
    requires r in Run(Init(kind), events).readers
    ensures var s := Run(Init(kind), events);
            var x := s.readers[r].active;
            x == Defaults(kind) || (x in s.asked && Accepts(kind, x))
  {
    hide Wrap, Run, Init, Step;
    InitKind(kind);
    InitInv(kind);
    RunKeepsInv(Init(kind), events);
    RunKeepsKind(Init(kind), events);
    var s := Run(Init(kind), events);
    assert ReaderOk(s.kind, s.mem, s.published, Quiet(s.gen, s.controllers), s.readers[r]);
  }

  /**
   * A request is taken exactly when it is in range: for the filter a switch and
   * 240 characters '0' or '1', for night vision a mode up to 2 and a percentage
   * that is not zero.
   */
  lemma ARequestIsTakenExactlyWhenInRange(s: State, c: nat, want: Record)
    requires c !in s.controllers
    ensures c in Step(s, Arrive(c, want)).controllers <==>
            if s.kind.Iva? then
              |want| == 241 && (want[0] == 0 || want[0] == 1) && forall i :: 1 <= i < 241 ==> want[i] == 48 || want[i] == 49
            else
              |want| == 2 && 0 <= want[0] <= 2 && 1 <= want[1] <= 100
  {
  }

  lemma {:induction false} RunKeepsKind(s: State, events: seq<Event>)
    ensures Run(s, events).kind == s.kind
    decreases |events|
  {
    if events != [] {
      RunKeepsKind(Step(s, events[0]), events[1..]);
    }
  }

  /** A commit takes the record published last, and the generation that names it. */
  lemma CommitTakesTheNewest(kind: Kind, events: seq<Event>, r: nat)
    requires Legal(Init(kind), events)
    requires var s := Run(Init(kind), events);
             Assumed(s, Check(r)) && r in s.readers && s.readers[r].pc.Copying? && s.gen == s.readers[r].pc.first
    ensures var s := Run(Init(kind), events);
            var t := Step(s, Check(r));
            |s.readers[r].pc.copied| == Words(kind) ==>
              |s.published| > 0 && t.readers[r] == Reader(s.published[s.Last()], s.gen, s.Last(), Resting)
  {
    hide Wrap, Run, Init, Step;
    InitKind(kind);
    InitInv(kind);
    RunKeepsInv(Init(kind), events);
    RunKeepsKind(Init(kind), events);
    var s := Run(Init(kind), events);
    if |s.readers[r].pc.copied| == Words(kind) { NewestIsCommitted(s, r); }
  }

  lemma NewestIsCommitted(s: State, r: nat)
    requires Inv(s) && Assumed(s, Check(r))
    requires r in s.readers && s.readers[r].pc.Copying? && s.gen == s.readers[r].pc.first
    requires |s.readers[r].pc.copied| == Words(s.kind)
    ensures Step(s, Check(r)).readers[r] == Reader(s.published[s.Last()], s.gen, s.Last(), Resting)
    ensures s.readers[r].pc.version == s.Last() && (s.kind.Iva? ==> s.Last() >= 1)
  {
    hide Wrap;
    CheckedCopyIsWhole(s, r);
    assert ReaderOk(s.kind, s.mem, s.published, Quiet(s.gen, s.controllers), s.readers[r]);
    if s.Last() == 0 { assert Accepts(Night, s.published[0]); }
  }

  /** `pending` of `--status`, for a coherent sample. */
  predicate Pending(config: int, sample: Sample) {
    config % 2 == 1 || config != sample.applied
  }

  /**
   * A measurement that carries the generation of the settings.  At a non-zero
   * generation it was made under the record that is published right now, if it
   * is of the current boot epoch; at generation zero, under the built-in
   * defaults, whatever the record.
   */
  lemma NotPendingIsOfTheNewest(s: State, x: Sample)
    requires Inv(s) && s.kind.Iva? && x in s.samples && !Pending(s.gen, x)
    ensures s.gen == 0 ==> x.under == Defaults(Iva)
    ensures s.gen != 0 && x.epoch == s.epoch && s.Last() - x.version < TWO31 ==>
              x.version == s.Last() > 0 && x.under == s.mem == s.published[s.Last()]
  {
    hide Wrap, Defaults;
    assert SampleOk(s.kind, s.published, s.epoch, x);
    if s.gen != 0 && x.epoch == s.epoch && s.Last() - x.version < TWO31 {
      WrapInjective(2 * s.Last(), 2 * x.version);
      WrapSmall(0);
    }
  }

  /**
   * `applied` of the night-vision status: when the camera's applied generation
   * equals the generation of the pair just read, the camera acted on that pair.
   */
  lemma AppliedPairIsTheOneRead(events: seq<Event>, reader: nat, i: nat)
    requires Legal(Init(Night), events)
    requires var s := Run(Init(Night), events);
             && reader in s.readers && i < |s.samples|
             && s.samples[i].applied == s.readers[reader].activeGen
             && -TWO31 < s.samples[i].version - s.readers[reader].activeVersion < TWO31
    ensures var s := Run(Init(Night), events);
            s.epoch == 0 && s.samples[i].under == s.readers[reader].active
  {
    hide Wrap, Run, Init, Step;
    InitKind(Night);
    InitInv(Night);
    RunKeepsInv(Init(Night), events);
    RunKeepsKind(Init(Night), events);
    NightHasOneEpoch(Init(Night), events);
    var s := Run(Init(Night), events);
    assert SampleOk(s.kind, s.published, s.epoch, s.samples[i]);
    assert ReaderOk(s.kind, s.mem, s.published, Quiet(s.gen, s.controllers), s.readers[reader]);
    WrapInjective(2 * s.samples[i].version, 2 * s.readers[reader].activeVersion);
  }

  lemma InitKind(kind: Kind)
    ensures Init(kind).kind == kind && Init(kind).epoch == 0
  {
  }

  lemma {:induction false} NightHasOneEpoch(s: State, events: seq<Event>)
    requires Inv(s) && Legal(s, events) && s.kind.Night? && s.epoch == 0
    ensures Run(s, events).epoch == 0
    decreases |events|
  {
    hide Wrap, Accepts;
    if events != [] {
      StepKeepsInv(s, events[0]);
      NightStaysInItsEpoch(s, events[0]);
      NightHasOneEpoch(Step(s, events[0]), events[1..]);
    }
  }

  lemma NightStaysInItsEpoch(s: State, e: Event)
    requires Inv(s) && s.kind.Night?
    ensures Step(s, e).epoch == s.epoch && Step(s, e).kind == s.kind
  {
    hide Wrap, Accepts;
    assert e.Reset? && e.c in s.controllers ==> !s.controllers[e.c].pc.Suspicious();
  }
}
