/**
 * The measurement record of `motion_iva_filter` under `motion_ivactl --status`.
 *
 * The publisher steps its generation by one before and one after the copy, but
 * a restarted publisher does not even it up first.  A crash inside the copy
 * therefore turns the parity around for good: readers then skip the stable
 * record and accept the one that is being written.
 */
module SampleTear {
  import opened U32
  import opened WriterSeqlock
  import opened SeqlockProgress

  /** int64, six uint32 and 240 cell counters, in 32-bit words. */
  const SAMPLE_WORDS := 248

  function SampleRules(): Rules {
    Rules(Resuming, SAMPLE_WORDS,
          (w, clean, a) => w,
          (w: Words, a: seq<int>) => if |a| == SAMPLE_WORDS then a else w,
          (w, a) => false,
          w => true)
  }

  lemma SampleRulesAreWellFormed()
    ensures WellFormed(SampleRules())
  {
  }

  /** A reader copies `k` words too early, the publisher puts all of its own, and the reader copies the rest too late. */
  function Overtake(r: nat, k: nat): seq<Event>
    requires k <= SAMPLE_WORDS
  {
    ([Look(r)] + Copies(r, k)) + ((Puts(SAMPLE_WORDS) + Copies(r, SAMPLE_WORDS - k)) + [Check(r)])
  }

  function Tear(r: nat, next: Words, k: nat): seq<Event>
    requires k <= SAMPLE_WORDS
  {
    [Begin(next)] + Overtake(r, k)
  }

  /** The publisher is at work, under an even generation, and a reader has `k` old words. */
  function Caught(s: State, r: nat, next: Words, k: nat): State
    requires k <= |s.mem|
  {
    s.(sequence := s.sequence + 1, ticks := s.ticks + 1, writer := Busy(next, Updated(next)),
       readers := s.readers[r := Reader(s.sequence + 1, s.ticks + 1, s.mem[..k])])
  }

  lemma CatchRuns(s: State, r: nat, next: Words, k: nat)
    requires s.writer.Idle? && s.sequence % 2 == 1 && 0 < s.sequence + 1 < TWO32
    requires |s.mem| == SAMPLE_WORDS == |next| && k <= SAMPLE_WORDS
    ensures Run(SampleRules(), Step(SampleRules(), s, Begin(next)), [Look(r)] + Copies(r, k)) == Caught(s, r, next, k)
  {
    hide Run;
    var u := SampleRules();
    WrapSmall(s.sequence + 1);
    var b := Step(u, s, Begin(next));
    OneStep(u, b, Look(r));
    var t := Step(u, b, Look(r));
    assert t.readers == s.readers[r := Reader(s.sequence + 1, s.ticks + 1, [])];
    RunCopies(u, t, r, k);
    assert [] + s.mem[0..k] == s.mem[..k];
    assert t.readers[r := Reader(s.sequence + 1, s.ticks + 1, s.mem[..k])]
        == s.readers[r := Reader(s.sequence + 1, s.ticks + 1, s.mem[..k])];
    RunAppend(u, b, [Look(r)], Copies(r, k));
  }

  lemma RestRuns(s: State, r: nat, next: Words, k: nat)
    requires s.magic && |s.mem| == SAMPLE_WORDS == |next| && k <= SAMPLE_WORDS
    ensures var t := Run(SampleRules(), Caught(s, r, next, k), (Puts(SAMPLE_WORDS) + Copies(r, SAMPLE_WORDS - k)) + [Check(r)]);
            && t.accepted == s.accepted + [s.mem[..k] + next[k..]]
            && t.committed == s.committed
            && t.writer == Busy(next, Updated(next))
    ensures Legal(SampleRules(), Caught(s, r, next, k), (Puts(SAMPLE_WORDS) + Copies(r, SAMPLE_WORDS - k)) + [Check(r)])
  {
    hide Run, Legal, Step, Wrap;
    var u := SampleRules();
    var s1 := Caught(s, r, next, k);
    RunPuts(u, s1, SAMPLE_WORDS);
    assert next[..SAMPLE_WORDS] + s.mem[SAMPLE_WORDS..] == next;
    var s2 := s1.(mem := next);
    RunCopies(u, s2, r, SAMPLE_WORDS - k);
    var s3 := Run(u, s2, Copies(r, SAMPLE_WORDS - k));
    assert next[k..k + (SAMPLE_WORDS - k)] == next[k..];
    TornCheck(s3, r);
    OneStep(u, s3, Check(r));
    RunAppend(u, s1, Puts(SAMPLE_WORDS), Copies(r, SAMPLE_WORDS - k));
    RunAppend(u, s1, Puts(SAMPLE_WORDS) + Copies(r, SAMPLE_WORDS - k), [Check(r)]);
    PutsAreUnassuming(SAMPLE_WORDS);
    CopiesAreUnassuming(r, SAMPLE_WORDS - k);
    UnassumingIsLegal(u, s1, Puts(SAMPLE_WORDS) + Copies(r, SAMPLE_WORDS - k));
    LegalAppend(u, s1, Puts(SAMPLE_WORDS) + Copies(r, SAMPLE_WORDS - k), [Check(r)]);
  }

  /** The second look sees the sequence of the first and takes what was copied. */
  lemma TornCheck(s: State, r: nat)
    requires r in s.readers && s.readers[r].first == s.sequence && s.readers[r].tick == s.ticks && s.magic
    requires |s.readers[r].copied| == |s.mem|
    ensures var t := Step(SampleRules(), s, Check(r));
            && t.accepted == s.accepted + [s.readers[r].copied] && t.committed == s.committed && t.writer == s.writer
    ensures Assumed(SampleRules(), s, Check(r))
  {
    hide Wrap;
  }

  lemma CatchIsLegal(b: State, r: nat, k: nat)
    ensures Legal(SampleRules(), b, [Look(r)] + Copies(r, k))
  {
    CopiesAreUnassuming(r, k);
    UnassumingIsLegal(SampleRules(), b, [Look(r)] + Copies(r, k));
  }

  /** Under an inverted generation any split of the old and the new sample is accepted. */
  lemma TearRuns(s: State, r: nat, next: Words, k: nat)
    requires s.writer.Idle? && s.sequence % 2 == 1 && 0 < s.sequence + 1 < TWO32 && s.magic
    requires |s.mem| == SAMPLE_WORDS == |next| && k <= SAMPLE_WORDS
    ensures var t := Run(SampleRules(), Step(SampleRules(), s, Begin(next)), Overtake(r, k));
            && t.accepted == s.accepted + [s.mem[..k] + next[k..]]
            && t.committed == s.committed
            && t.writer == Busy(next, Updated(next))
    ensures Run(SampleRules(), s, Tear(r, next, k))
         == Run(SampleRules(), Step(SampleRules(), s, Begin(next)), Overtake(r, k))
    ensures Legal(SampleRules(), Step(SampleRules(), s, Begin(next)), Overtake(r, k))
  {
    hide Run, Legal, Wrap, Caught;
    var u := SampleRules();
    var b := Step(u, s, Begin(next));
    CatchRuns(s, r, next, k);
    RestRuns(s, r, next, k);
    RunAppend(u, b, [Look(r)] + Copies(r, k), (Puts(SAMPLE_WORDS) + Copies(r, SAMPLE_WORDS - k)) + [Check(r)]);
    CatchIsLegal(b, r, k);
    LegalAppend(u, b, [Look(r)] + Copies(r, k), (Puts(SAMPLE_WORDS) + Copies(r, SAMPLE_WORDS - k)) + [Check(r)]);
    OneStep(u, s, Begin(next));
    RunAppend(u, s, [Begin(next)], Overtake(r, k));
  }

  /** A number that occurs in none of the records. */
  function Above(records: seq<Words>): (m: int)
    ensures forall i, j :: 0 <= i < |records| && 0 <= j < |records[i]| ==> records[i][j] < m
  {
    if records == [] then 0
    else
      var m := Above(records[..|records| - 1]);
      var n := AboveAll(records[|records| - 1]);
      if m < n then n else m
  }

  function AboveAll(w: Words): (m: int)
    ensures forall j :: 0 <= j < |w| ==> w[j] < m
  {
    if w == [] then 0
    else
      var m := AboveAll(w[..|w| - 1]);
      if m <= w[|w| - 1] then w[|w| - 1] + 1 else m
  }

  /** An accepted copy is torn when it is neither a completed measurement nor the one under way. */
  ghost predicate Torn(s: State, copy: Words) {
    copy !in s.committed && (s.writer.Busy? ==> copy != s.writer.target)
  }

  ghost predicate Tears(s: State, events: seq<Event>) {
    var t := Run(SampleRules(), s, events);
    exists i :: |s.accepted| <= i < |t.accepted| && Torn(t, t.accepted[i])
  }

  lemma IdleTears(s: State, r: nat) returns (next: Words)
    requires s.writer.Idle? && s.sequence % 2 == 1 && 0 < s.sequence + 1 < TWO32 && s.magic
    requires |s.mem| == SAMPLE_WORDS
    ensures |next| == SAMPLE_WORDS && Tears(s, Tear(r, next, 1))
  {
    hide Run;
    var m := Above(s.committed + [s.mem]);
    next := seq(SAMPLE_WORDS, _ => m);
    assert s.mem[0] < m by { assert (s.committed + [s.mem])[|s.committed|] == s.mem; }
    TearRuns(s, r, next, 1);
    var t := Run(SampleRules(), s, Tear(r, next, 1));
    var torn := s.mem[..1] + next[1..];
    assert t.accepted[|s.accepted|] == torn;
    assert torn[1] == m && torn[0] != next[0];
    forall i | 0 <= i < |s.committed| ensures s.committed[i] != torn {
      assert (s.committed + [s.mem])[i] == s.committed[i];
    }
    assert Torn(t, t.accepted[|s.accepted|]);
  }

  /**
   * From every odd generation a restart can lead a reader to accept a torn
   * sample.  At the last generation of all it takes one more sample, for zero is
   * refused.
   */
  lemma RestartTearsFromAnOddGeneration(s: State, r: nat)
    requires Inv(SampleRules(), s) && s.writer.Down? && s.sequence % 2 == 1
    ensures exists events :: Tears(s, events)
  {
    hide Run, Wrap, Tear, Update;
    var u := SampleRules();
    var t := s.(writer := Idle);
    OneStep(u, s, Start([]));
    if s.sequence + 1 < TWO32 {
      var next := IdleTears(t, r);
      TearsLater(s, [Start([])], Tear(r, next, 1));
    } else {
      assert Wrap(s.sequence + 2) == 1 by { WrapStep(s.sequence + 1, 1); WrapOnce(s.sequence); }
      SampleRulesAreWellFormed();
      UpdatesCommit(u, t, s.mem);
      var v := Run(u, t, Update(s.mem, SAMPLE_WORDS));
      var next := IdleTears(v, r);
      RunAppend(u, s, [Start([])], Update(s.mem, SAMPLE_WORDS));
      TearsLater(s, [Start([])] + Update(s.mem, SAMPLE_WORDS), Tear(r, next, 1));
    }
  }

  lemma TearsLater(s: State, first: seq<Event>, events: seq<Event>)
    requires Tears(Run(SampleRules(), s, first), events) && Run(SampleRules(), s, first).accepted == s.accepted
    ensures Tears(s, first + events)
  {
    hide Run;
    RunAppend(SampleRules(), s, first, events);
  }

  lemma WrapOnce(n: int)
    requires n == TWO32 - 1
    ensures Wrap(n + 2) == 1
  {
  }

  /** While every restart finds an even generation, no run of any length accepts a torn sample. */
  lemma NoTearWithEvenRestarts(s: State, events: seq<Event>)
    requires Inv(SampleRules(), s) && Legal(SampleRules(), s, events)
    ensures var t := Run(SampleRules(), s, events);
            ReadOk(t.committed, t.accepted, t.read)
  {
    SampleRulesAreWellFormed();
    RunKeepsInv(SampleRules(), s, events);
  }

  /** The publisher of a fresh file, killed inside its first update. */
  function CutShort(first: Words): seq<Event> {
    [Start([]), Begin(first)] + [Crash]
  }

  lemma CutShortRuns(first: Words)
    requires |first| == SAMPLE_WORDS
    ensures var u := SampleRules();
            var s := Run(u, Init(u), CutShort(first));
            Inv(u, s) && s.writer.Down? && s.sequence == 1
  {
    var u := SampleRules();
    SampleRulesAreWellFormed();
    InitInv(u);
    var a := Step(u, Init(u), Start([]));
    var b := Step(u, a, Begin(first));
    RunAppend(u, Init(u), [Start([]), Begin(first)], [Crash]);
    TwoSteps(u, Init(u), Start([]), Begin(first));
    OneStep(u, b, Crash);
    StepKeepsInv(u, Init(u), Start([]));
    StepKeepsInv(u, a, Begin(first));
    StepKeepsInv(u, b, Crash);
  }

  /** So a torn sample is reachable from a fresh file, by one crash and one restart. */
  lemma ATornSampleIsReachable(first: Words, r: nat)
    requires |first| == SAMPLE_WORDS
    ensures exists events :: Tears(Run(SampleRules(), Init(SampleRules()), CutShort(first)), events)
  {
    hide Run;
    CutShortRuns(first);
    RestartTearsFromAnOddGeneration(Run(SampleRules(), Init(SampleRules()), CutShort(first)), r);
  }
}
