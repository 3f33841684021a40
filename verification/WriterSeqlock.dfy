/**
 * The single-writer sequence locks: the motion history, the level history and
 * the measurement that `motion_iva_filter` publishes.
 *
 * One writer process at a time, which may crash between any two events and be
 * started again, against any number of readers.  Every atomic access and every
 * word of a copy is one event; words of an update may be written in any order.
 * `ticks` (the sequence without its wrap), `committed`, `made`, `accepted` and
 * `read` are bookkeeping only.
 */
module WriterSeqlock {
  import opened U32

  type Words = seq<int>

  /**
   * Resetting: a started writer evens the sequence up, takes the lock, rewrites
   * the whole record and stamps the magic number (the two histories).
   * Resuming: a started writer touches nothing; readers refuse sequence zero
   * instead of checking a magic number they have already seen (the measurement).
   */
  datatype Discipline = Resetting | Resuming

  /** What the updates do to the record; `clean` says whether a start finds a completed update. */
  datatype Rules = Rules(
    discipline: Discipline,
    words: nat,
    start: (Words, bool, seq<int>) -> Words,
    apply: (Words, seq<int>) -> Words,
    skip: (Words, seq<int>) -> bool,
    plausible: Words -> bool)

  ghost predicate WellFormed(u: Rules) {
    && (forall w, c, a :: |w| == u.words ==> |u.start(w, c, a)| == u.words)
    && (forall w, a :: |w| == u.words ==> |u.apply(w, a)| == u.words)
  }

  /** How a record came to be: a start on what was there, or an update of the record before. */
  datatype Made = Started(from: Words, clean: bool, args: seq<int>) | Updated(args: seq<int>)

  datatype Writer = Down | Idle | Busy(target: Words, how: Made)

  datatype Reader = Reader(first: int, tick: nat, copied: Words)

  datatype State = State(
    sequence: int,
    magic: bool,
    mem: Words,
    writer: Writer,
    readers: map<nat, Reader>,
    ticks: nat,
    committed: seq<Words>,
    made: seq<Made>,
    accepted: seq<Words>,
    read: seq<nat>)

  datatype Event =
    | Start(args: seq<int>)
    | Begin(args: seq<int>)
    | Put(i: nat)
    | Stamp
    | End
    | Crash
    | Look(r: nat)
    | Copy(r: nat)
    | Check(r: nat)

  function Init(u: Rules): State {
    State(0, u.discipline.Resuming?, seq(u.words, _ => 0), Down, map[], 0, [], [], [], [])
  }

  function StepStart(u: Rules, s: State, args: seq<int>): State {
    if u.discipline.Resuming? then s.(writer := Idle)
    else
      var clean := s.sequence % 2 == 0 && s.magic;
      var evened := s.ticks + s.ticks % 2;
      s.(sequence := Wrap(s.sequence + s.sequence % 2 + 1), ticks := evened + 1,
         writer := Busy(u.start(s.mem, clean, args), Started(s.mem, clean, args)))
  }

  function StepBegin(u: Rules, s: State, args: seq<int>): State {
    if u.skip(s.mem, args) then s
    else s.(sequence := Wrap(s.sequence + 1), ticks := s.ticks + 1, writer := Busy(u.apply(s.mem, args), Updated(args)))
  }

  function StepCheck(u: Rules, s: State, r: nat): State
    requires r in s.readers
  {
    var x := s.readers[r];
    var t := s.(readers := s.readers - {r});
    if |x.copied| == |s.mem| && s.sequence == x.first && s.magic && u.plausible(x.copied)
    then t.(accepted := s.accepted + [x.copied], read := s.read + [|s.committed|])
    else t
  }

  function Step(u: Rules, s: State, e: Event): State {
    match e
    case Start(args) => if s.writer.Down? then StepStart(u, s, args) else s
    case Begin(args) => if s.writer.Idle? then StepBegin(u, s, args) else s
    case Put(i) =>
      if s.writer.Busy? && i < |s.mem| && i < |s.writer.target|
      then s.(mem := s.mem[i := s.writer.target[i]]) else s
    case Stamp => if s.writer.Busy? && s.writer.how.Started? then s.(magic := true) else s
    case End =>
      if s.writer.Busy? && s.mem == s.writer.target && (s.writer.how.Started? ==> s.magic)
      then s.(sequence := Wrap(s.sequence + 1), ticks := s.ticks + 1, writer := Idle,
              committed := s.committed + [s.mem], made := s.made + [s.writer.how])
      else s
    case Crash => s.(writer := Down)
    case Look(r) =>
      if s.sequence % 2 == 1 || (u.discipline.Resuming? && s.sequence == 0)
      then s.(readers := s.readers - {r})
      else s.(readers := s.readers[r := Reader(s.sequence, s.ticks, [])])
    case Copy(r) =>
      if r in s.readers && |s.readers[r].copied| < |s.mem| then
        var x := s.readers[r];
        s.(readers := s.readers[r := x.(copied := x.copied + [s.mem[|x.copied|]])])
      else s
    case Check(r) => if r in s.readers then StepCheck(u, s, r) else s
  }

  function Run(u: Rules, s: State, events: seq<Event>): State
    decreases |events|
  {
    if events == [] then s else Run(u, Step(u, s, events[0]), events[1..])
  }

  /** No read lasts for 2^32 sequence steps; a resuming writer finds an even sequence. */
  ghost predicate Assumed(u: Rules, s: State, e: Event) {
    && (e.Check? && e.r in s.readers ==> s.ticks - s.readers[e.r].tick < TWO32)
    && (e.Start? && s.writer.Down? && u.discipline.Resuming? ==> s.sequence % 2 == 0)
  }

  ghost predicate Legal(u: Rules, s: State, events: seq<Event>)
    decreases |events|
  {
    events == [] || (Assumed(u, s, events[0]) && Legal(u, Step(u, s, events[0]), events[1..]))
  }

  // ----- the invariant -----

  ghost predicate WriterOk(u: Rules, ticks: nat, writer: Writer, magic: bool, committed: seq<Words>) {
    && (writer.Idle? ==> ticks % 2 == 0)
    && (writer.Idle? && u.discipline.Resetting? ==> magic)
    && (writer.Busy? ==> ticks % 2 == 1 && |writer.target| == u.words)
    && (writer.Busy? && writer.how.Updated? ==> magic)
    && (u.discipline.Resuming? ==> magic && (writer.Busy? ==> writer.how.Updated?))
    && (committed != [] ==> magic && ticks >= 2)
    && (u.discipline.Resuming? && ticks >= 2 ==> committed != [])
  }

  /** Between complete operations the record is the one committed last. */
  ghost predicate MemOk(u: Rules, ticks: nat, magic: bool, mem: Words, committed: seq<Words>) {
    && |mem| == u.words
    && (ticks % 2 == 0 && magic && (u.discipline.Resuming? ==> ticks > 0)
        ==> committed != [] && mem == committed[|committed| - 1])
  }

  ghost predicate ReaderOk(u: Rules, ticks: nat, mem: Words, x: Reader) {
    && x.tick <= ticks
    && x.tick % 2 == 0
    && x.first == Wrap(x.tick)
    && (u.discipline.Resuming? ==> x.tick > 0)
    && |x.copied| <= |mem|
    && (x.tick == ticks ==> x.copied == mem[..|x.copied|])
  }

  /** Every accepted copy is the record committed last when it passed its check. */
  ghost predicate ReadOk(committed: seq<Words>, accepted: seq<Words>, read: seq<nat>) {
    && |read| == |accepted|
    && forall i :: 0 <= i < |accepted| ==> 0 < read[i] <= |committed| && accepted[i] == committed[read[i] - 1]
  }

  ghost predicate Inv(u: Rules, s: State) {
    && s.sequence == Wrap(s.ticks)
    && WriterOk(u, s.ticks, s.writer, s.magic, s.committed)
    && MemOk(u, s.ticks, s.magic, s.mem, s.committed)
    && (forall r :: r in s.readers ==> ReaderOk(u, s.ticks, s.mem, s.readers[r]))
    && ReadOk(s.committed, s.accepted, s.read)
  }

  lemma InitInv(u: Rules)
    requires WellFormed(u)
    ensures Inv(u, Init(u))
  {
  }

  /** A moved tick silences what readers still claim about the record. */
  lemma ReadersMove(u: Rules, s: State, t: State)
    requires Inv(u, s) && t.readers == s.readers && |t.mem| == |s.mem|
    requires t.ticks > s.ticks || (t.ticks == s.ticks && (t.mem == s.mem || s.ticks % 2 == 1))
    ensures forall r :: r in t.readers ==> ReaderOk(u, t.ticks, t.mem, t.readers[r])
  {
    hide Wrap;
    forall r | r in t.readers ensures ReaderOk(u, t.ticks, t.mem, t.readers[r]) {
      assert ReaderOk(u, s.ticks, s.mem, s.readers[r]);
    }
  }

  lemma StartKeepsInv(u: Rules, s: State, args: seq<int>)
    requires WellFormed(u) && Inv(u, s) && Assumed(u, s, Start(args)) && s.writer.Down?
    ensures Inv(u, StepStart(u, s, args))
  {
    hide Wrap;
    var t := StepStart(u, s, args);
    WrapParity(s.ticks);
    WrapStep(s.ticks, s.ticks % 2 + 1);
    assert MemOk(u, t.ticks, t.magic, t.mem, t.committed);
    ReadersMove(u, s, t);
  }

  lemma BeginKeepsInv(u: Rules, s: State, args: seq<int>)
    requires WellFormed(u) && Inv(u, s) && s.writer.Idle?
    ensures Inv(u, StepBegin(u, s, args))
  {
    hide Wrap;
    var t := StepBegin(u, s, args);
    WrapStep(s.ticks, 1);
    assert MemOk(u, t.ticks, t.magic, t.mem, t.committed);
    ReadersMove(u, s, t);
  }

  lemma EndKeepsInv(u: Rules, s: State)
    requires Inv(u, s) && s.writer.Busy?
    ensures Inv(u, Step(u, s, End))
  {
    hide Wrap;
    var t := Step(u, s, End);
    if t != s {
      WrapStep(s.ticks, 1);
      assert MemOk(u, t.ticks, t.magic, t.mem, t.committed);
      ReadersMove(u, s, t);
    }
  }

  lemma PutKeepsInv(u: Rules, s: State, e: Event)
    requires Inv(u, s) && (e.Put? || e.Stamp?)
    ensures Inv(u, Step(u, s, e))
  {
    hide Wrap;
    var t := Step(u, s, e);
    if t != s {
      assert s.writer.Busy? && s.ticks % 2 == 1;
      ReadersMove(u, s, t);
    }
  }

  /** The heart of the matter: an accepted copy is the record committed last, as it stands. */
  lemma AcceptedCopyIsCommitted(u: Rules, s: State, r: nat)
    requires Inv(u, s) && Assumed(u, s, Check(r)) && r in s.readers
    requires s.sequence == s.readers[r].first && |s.readers[r].copied| == |s.mem| && s.magic
    ensures s.committed != [] && s.readers[r].copied == s.mem == s.committed[|s.committed| - 1]
  {
    hide Wrap;
    var x := s.readers[r];
    assert ReaderOk(u, s.ticks, s.mem, x);
    WrapInjective(s.ticks, x.tick);
    assert s.mem[..|s.mem|] == s.mem;
  }

  lemma ReaderKeepsInv(u: Rules, s: State, e: Event)
    requires Inv(u, s) && Assumed(u, s, e) && (e.Look? || e.Copy? || e.Check?)
    ensures Inv(u, Step(u, s, e))
  {
    hide Wrap;
    var t := Step(u, s, e);
    WrapParity(s.ticks);
    WrapSmall(0);
    if e.r in s.readers {
      assert ReaderOk(u, s.ticks, s.mem, s.readers[e.r]);
      if e.Copy? && |s.readers[e.r].copied| < |s.mem| {
        var k := |s.readers[e.r].copied|;
        assert s.mem[..k + 1] == s.mem[..k] + [s.mem[k]];
      }
      if e.Check? && t.accepted != s.accepted {
        AcceptedCopyIsCommitted(u, s, e.r);
      }
    }
    forall q | q in t.readers ensures ReaderOk(u, t.ticks, t.mem, t.readers[q]) {
      if q != e.r { assert ReaderOk(u, s.ticks, s.mem, s.readers[q]); }
    }
  }

  lemma StepKeepsInv(u: Rules, s: State, e: Event)
    requires WellFormed(u) && Inv(u, s) && Assumed(u, s, e)
    ensures Inv(u, Step(u, s, e))
  {
    hide Wrap;
    if e.Look? || e.Copy? || e.Check? {
      ReaderKeepsInv(u, s, e);
    } else if e.Put? || e.Stamp? {
      PutKeepsInv(u, s, e);
    } else if e.Start? && s.writer.Down? {
      StartKeepsInv(u, s, e.args);
    } else if e.Begin? && s.writer.Idle? {
      BeginKeepsInv(u, s, e.args);
    } else if e.End? && s.writer.Busy? {
      EndKeepsInv(u, s);
    }
  }

  lemma {:induction false} RunKeepsInv(u: Rules, s: State, events: seq<Event>)
    requires WellFormed(u) && Inv(u, s) && Legal(u, s, events)
    ensures Inv(u, Run(u, s, events))
    decreases |events|
  {
    hide Wrap;
    if events != [] {
      StepKeepsInv(u, s, events[0]);
      RunKeepsInv(u, Step(u, s, events[0]), events[1..]);
    }
  }

  // ----- what holds on every run -----

  /** Wherever the writer crashes and however often it restarts, only complete updates are accepted, and each newest. */
  lemma OnlyCompleteUpdatesAreAccepted(u: Rules, events: seq<Event>)
    requires WellFormed(u) && Legal(u, Init(u), events)
    ensures var s := Run(u, Init(u), events); ReadOk(s.committed, s.accepted, s.read)
  {
    InitInv(u);
    RunKeepsInv(u, Init(u), events);
  }

  /** The sequence is odd whenever the record is not the one committed last. */
  lemma PartialUpdatesAreMarkedOdd(u: Rules, events: seq<Event>)
    requires WellFormed(u) && Legal(u, Init(u), events)
    ensures var s := Run(u, Init(u), events);
            s.committed != [] && s.mem != s.committed[|s.committed| - 1] ==> s.sequence % 2 == 1
  {
    InitInv(u);
    RunKeepsInv(u, Init(u), events);
    WrapParity(Run(u, Init(u), events).ticks);
  }

  /** What every start establishes and every update keeps holds of every accepted copy. */
  ghost predicate Maintains(u: Rules, p: Words -> bool) {
    && (forall w, clean, a :: |w| == u.words && (clean ==> p(w)) ==> p(u.start(w, clean, a)))
    && (forall w, a :: |w| == u.words && p(w) ==> p(u.apply(w, a)))
  }

  ghost predicate Good(u: Rules, p: Words -> bool, s: State) {
    && (forall i :: 0 <= i < |s.committed| ==> p(s.committed[i]))
    && (s.writer.Busy? ==> p(s.writer.target))
  }

  lemma StepKeepsGood(u: Rules, p: Words -> bool, s: State, e: Event)
    requires WellFormed(u) && Maintains(u, p) && u.discipline.Resetting?
    requires Inv(u, s) && Good(u, p, s)
    ensures Good(u, p, Step(u, s, e))
  {
    hide Wrap;
    WrapParity(s.ticks);
  }

  lemma {:induction false} RunKeepsGood(u: Rules, p: Words -> bool, s: State, events: seq<Event>)
    requires WellFormed(u) && Maintains(u, p) && u.discipline.Resetting?
    requires Inv(u, s) && Good(u, p, s) && Legal(u, s, events)
    ensures Good(u, p, Run(u, s, events))
    decreases |events|
  {
    hide Wrap;
    if events != [] {
      StepKeepsInv(u, s, events[0]);
      StepKeepsGood(u, p, s, events[0]);
      RunKeepsGood(u, p, Step(u, s, events[0]), events[1..]);
    }
  }

  lemma AcceptedCopiesAreGood(u: Rules, p: Words -> bool, events: seq<Event>)
    requires WellFormed(u) && Maintains(u, p) && u.discipline.Resetting? && Legal(u, Init(u), events)
    ensures var s := Run(u, Init(u), events);
            forall i :: 0 <= i < |s.accepted| ==> p(s.accepted[i])
  {
    OnlyCompleteUpdatesAreAccepted(u, events);
    InitInv(u);
    RunKeepsGood(u, p, Init(u), events);
  }

  // ----- where committed records come from -----

  /** Record `k` was made from the one before it, or by a start. */
  ghost predicate Follows(u: Rules, committed: seq<Words>, made: seq<Made>, k: nat)
    requires k < |committed| == |made|
  {
    match made[k]
    case Started(w, clean, args) =>
      committed[k] == u.start(w, clean, args) && (clean ==> k > 0 && w == committed[k - 1])
    case Updated(args) => k > 0 && committed[k] == u.apply(committed[k - 1], args)
  }

  ghost predicate Chained(u: Rules, s: State) {
    && |s.made| == |s.committed|
    && (forall k :: 0 <= k < |s.committed| ==> Follows(u, s.committed, s.made, k))
    && (s.writer.Busy? ==> Follows(u, s.committed + [s.writer.target], s.made + [s.writer.how], |s.committed|))
  }

  lemma LongerChain(u: Rules, committed: seq<Words>, made: seq<Made>, w: Words, how: Made)
    requires |made| == |committed| && forall k :: 0 <= k < |committed| ==> Follows(u, committed, made, k)
    requires Follows(u, committed + [w], made + [how], |committed|)
    ensures forall k :: 0 <= k <= |committed| ==> Follows(u, committed + [w], made + [how], k)
  {
    forall k | 0 <= k < |committed| ensures Follows(u, committed + [w], made + [how], k) {
      assert Follows(u, committed, made, k);
    }
  }

  lemma StepKeepsChain(u: Rules, s: State, e: Event)
    requires WellFormed(u) && u.discipline.Resetting? && Inv(u, s) && Chained(u, s)
    ensures Chained(u, Step(u, s, e))
  {
    hide Wrap;
    WrapParity(s.ticks);
    var t := Step(u, s, e);
    if t.committed != s.committed {
      assert t.committed == s.committed + [s.writer.target] && t.made == s.made + [s.writer.how];
      LongerChain(u, s.committed, s.made, s.writer.target, s.writer.how);
    }
  }

  /** On every run the committed records are a chain of starts and updates. */
  lemma {:induction false} RunKeepsChain(u: Rules, s: State, events: seq<Event>)
    requires WellFormed(u) && u.discipline.Resetting? && Inv(u, s) && Chained(u, s) && Legal(u, s, events)
    ensures Chained(u, Run(u, s, events))
    decreases |events|
  {
    hide Wrap;
    if events != [] {
      StepKeepsInv(u, s, events[0]);
      StepKeepsChain(u, s, events[0]);
      RunKeepsChain(u, Step(u, s, events[0]), events[1..]);
    }
  }

  /**
   * A start is told `clean` exactly when no update is cut short, and then the
   * record it may keep is one that was committed whole.
   */
  lemma CleanStartKeepsACommittedRecord(u: Rules, events: seq<Event>, args: seq<int>)
    requires WellFormed(u) && u.discipline.Resetting? && Legal(u, Init(u), events)
    requires Run(u, Init(u), events).writer.Down?
    ensures var s := Run(u, Init(u), events);
            var t := Step(u, s, Start(args));
            var clean := s.sequence % 2 == 0 && s.magic;
            && t.writer == Busy(u.start(s.mem, clean, args), Started(s.mem, clean, args))
            && t.sequence % 2 == 1
            && (clean ==> s.committed != [] && s.mem == s.committed[|s.committed| - 1])
  {
    hide Wrap;
    InitInv(u);
    RunKeepsInv(u, Init(u), events);
    var s := Run(u, Init(u), events);
    WrapParity(s.ticks);
    StepKeepsInv(u, s, Start(args));
    WrapParity(Step(u, s, Start(args)).ticks);
  }
}
