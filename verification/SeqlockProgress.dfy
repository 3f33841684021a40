/**
 * Undisturbed stretches of a single-writer sequence lock: an update that is let
 * finish commits, and a read that is let finish accepts it.
 */
module SeqlockProgress {
  import opened U32
  import opened WriterSeqlock

  lemma {:induction false} RunAppend(u: Rules, s: State, a: seq<Event>, b: seq<Event>)
    ensures Run(u, s, a + b) == Run(u, Run(u, s, a), b)
    decreases |a|
  {
    if a == [] {
      assert a + b == b;
    } else {
      assert (a + b)[1..] == a[1..] + b;
      RunAppend(u, Step(u, s, a[0]), a[1..], b);
    }
  }

  lemma OneStep(u: Rules, s: State, e: Event)
    ensures Run(u, s, [e]) == Step(u, s, e)
    ensures Legal(u, s, [e]) <==> Assumed(u, s, e)
  {
    hide Step, Assumed;
    assert [e][1..] == [];
    assert Run(u, Step(u, s, e), []) == Step(u, s, e);
    assert Legal(u, Step(u, s, e), []);
  }

  /** Writing words 0 to n - 1 in order. */
  function Puts(n: nat): seq<Event> {
    if n == 0 then [] else Puts(n - 1) + [Put(n - 1)]
  }

  function Copies(r: nat, n: nat): seq<Event> {
    if n == 0 then [] else Copies(r, n - 1) + [Copy(r)]
  }

  lemma {:induction false} RunPuts(u: Rules, s: State, n: nat)
    requires s.writer.Busy? && |s.writer.target| == |s.mem| && n <= |s.mem|
    ensures Run(u, s, Puts(n)) == s.(mem := s.writer.target[..n] + s.mem[n..])
  {
    if n == 0 {
      assert s.writer.target[..0] + s.mem[0..] == s.mem;
    } else {
      RunPuts(u, s, n - 1);
      var t := s.(mem := s.writer.target[..n - 1] + s.mem[n - 1..]);
      assert t.mem[n - 1 := s.writer.target[n - 1]] == s.writer.target[..n] + s.mem[n..];
      OneStep(u, t, Put(n - 1));
      RunAppend(u, s, Puts(n - 1), [Put(n - 1)]);
    }
  }

  /** The state after reader `r` has copied `n` more words. */
  function Copied(s: State, r: nat, n: nat): State
    requires r in s.readers && |s.readers[r].copied| + n <= |s.mem|
  {
    var x := s.readers[r];
    s.(readers := s.readers[r := x.(copied := x.copied + s.mem[|x.copied|..|x.copied| + n])])
  }

  lemma CopiedNone(s: State, r: nat)
    requires r in s.readers && |s.readers[r].copied| <= |s.mem|
    ensures Copied(s, r, 0) == s
  {
    var x := s.readers[r];
    assert x.copied + s.mem[|x.copied|..|x.copied|] == x.copied;
    assert s.readers == s.readers[r := x];
  }

  lemma CopiedStep(u: Rules, s: State, r: nat, n: nat)
    requires r in s.readers && |s.readers[r].copied| + n + 1 <= |s.mem|
    ensures Step(u, Copied(s, r, n), Copy(r)) == Copied(s, r, n + 1)
  {
    var x := s.readers[r];
    var k := |x.copied|;
    assert (x.copied + s.mem[k..k + n]) + [s.mem[k + n]] == x.copied + s.mem[k..k + (n + 1)];
    assert Step(u, Copied(s, r, n), Copy(r)).readers == Copied(s, r, n + 1).readers;
  }

  lemma {:induction false} RunCopies(u: Rules, s: State, r: nat, n: nat)
    requires r in s.readers && |s.readers[r].copied| + n <= |s.mem|
    ensures Run(u, s, Copies(r, n)) == Copied(s, r, n)
  {
    hide Run, Step, Copied, Legal, Assumed;
    if n == 0 {
      CopiedNone(s, r);
      NoEvents(u, s);
    } else {
      RunCopies(u, s, r, n - 1);
      CopiedStep(u, s, r, n - 1);
      OneStep(u, Copied(s, r, n - 1), Copy(r));
      RunAppend(u, s, Copies(r, n - 1), [Copy(r)]);
    }
  }

  lemma NoEvents(u: Rules, s: State)
    ensures Run(u, s, []) == s
  {
  }

  lemma TwoSteps(u: Rules, s: State, e: Event, f: Event)
    ensures Run(u, s, [e, f]) == Step(u, Step(u, s, e), f)
  {
    assert [e, f][1..] == [f];
    OneStep(u, Step(u, s, e), f);
  }

  /** One update: the sequence goes odd, every word is put, the sequence goes even. */
  function Update(args: seq<int>, words: nat): seq<Event> {
    [Begin(args)] + (Puts(words) + [End])
  }

  lemma BeginStep(u: Rules, s: State, args: seq<int>)
    requires s.writer.Idle? && !u.skip(s.mem, args)
    ensures Step(u, s, Begin(args)) ==
            s.(sequence := Wrap(s.sequence + 1), ticks := s.ticks + 1,
               writer := Busy(u.apply(s.mem, args), Updated(args)))
  {
    hide Wrap;
  }

  lemma EndStep(u: Rules, s: State, args: seq<int>)
    requires s.writer == Busy(s.mem, Updated(args))
    ensures Step(u, s, End) ==
            s.(sequence := Wrap(s.sequence + 1), ticks := s.ticks + 1, writer := Idle,
               committed := s.committed + [s.mem], made := s.made + [Updated(args)])
  {
    hide Wrap;
  }

  lemma UpdatesCommit(u: Rules, s: State, args: seq<int>)
    requires WellFormed(u) && |s.mem| == u.words && s.writer.Idle? && !u.skip(s.mem, args)
    ensures var next := u.apply(s.mem, args);
            Run(u, s, Update(args, u.words)) ==
              s.(sequence := Wrap(s.sequence + 2), ticks := s.ticks + 2, mem := next,
                 committed := s.committed + [next], made := s.made + [Updated(args)])
  {
    hide Wrap, Run, Step, Legal, Assumed;
    var next := u.apply(s.mem, args);
    BeginStep(u, s, args);
    var t := Step(u, s, Begin(args));
    RunPuts(u, t, u.words);
    assert next[..u.words] + s.mem[u.words..] == next;
    var v := t.(mem := next);
    EndStep(u, v, args);
    OneStep(u, v, End);
    WrapStep(s.sequence + 1, 1);
    RunAppend(u, t, Puts(u.words), [End]);
    OneStep(u, s, Begin(args));
    RunAppend(u, s, [Begin(args)], Puts(u.words) + [End]);
  }

  /** One read: the first look, every word, the second look. */
  function Read(r: nat, words: nat): seq<Event> {
    [Look(r)] + (Copies(r, words) + [Check(r)])
  }

  /** While the first look and the words are taken nobody writes, so the second look agrees. */
  lemma ReadsAccept(u: Rules, s: State, r: nat)
    requires Inv(u, s) && s.writer.Idle? && s.magic && u.plausible(s.mem)
    requires u.discipline.Resuming? ==> s.sequence != 0
    ensures Legal(u, s, Read(r, u.words))
    ensures Run(u, s, Read(r, u.words)) ==
            s.(readers := s.readers - {r}, accepted := s.accepted + [s.mem], read := s.read + [|s.committed|])
  {
    hide Wrap, Run, Legal, Step, Inv;
    LookStep(u, s, r);
    OneStep(u, s, Look(r));
    var t := Step(u, s, Look(r));
    RunCopies(u, t, r, u.words);
    assert [] + s.mem[0..u.words] == s.mem;
    var v := Run(u, t, Copies(r, u.words));
    assert v.readers == s.readers[r := Reader(s.sequence, s.ticks, s.mem)];
    AcceptStep(u, s, v, r);
    OneStep(u, v, Check(r));
    CopiesAreLegal(u, t, r, u.words);
    RunAppend(u, t, Copies(r, u.words), [Check(r)]);
    LegalAppend(u, t, Copies(r, u.words), [Check(r)]);
    RunAppend(u, s, [Look(r)], Copies(r, u.words) + [Check(r)]);
    LegalAppend(u, s, [Look(r)], Copies(r, u.words) + [Check(r)]);
  }

  lemma LookStep(u: Rules, s: State, r: nat)
    requires Inv(u, s) && s.writer.Idle?
    requires u.discipline.Resuming? ==> s.sequence != 0
    ensures Step(u, s, Look(r)) == s.(readers := s.readers[r := Reader(s.sequence, s.ticks, [])])
    ensures Assumed(u, s, Look(r)) && |s.mem| == u.words
  {
    hide Wrap;
    WrapParity(s.ticks);
  }

  lemma AcceptStep(u: Rules, s: State, v: State, r: nat)
    requires v == s.(readers := s.readers[r := Reader(s.sequence, s.ticks, s.mem)])
    requires s.magic && u.plausible(s.mem)
    ensures Step(u, v, Check(r)) ==
            s.(readers := s.readers - {r}, accepted := s.accepted + [s.mem], read := s.read + [|s.committed|])
    ensures Assumed(u, v, Check(r))
  {
    hide Wrap;
    assert v.readers - {r} == s.readers - {r};
  }

  lemma {:induction false} LegalAppend(u: Rules, s: State, a: seq<Event>, b: seq<Event>)
    ensures Legal(u, s, a + b) <==> Legal(u, s, a) && Legal(u, Run(u, s, a), b)
    decreases |a|
  {
    hide Step, Assumed;
    if a == [] {
      assert a + b == b;
    } else {
      assert (a + b)[1..] == a[1..] + b;
      LegalAppend(u, Step(u, s, a[0]), a[1..], b);
    }
  }

  /** What an undisturbed update writes is what the next undisturbed read accepts. */
  lemma UpdatesAreReadBack(u: Rules, s: State, args: seq<int>, r: nat)
    requires WellFormed(u) && Inv(u, s) && s.writer.Idle? && s.magic
    requires !u.skip(s.mem, args) && u.plausible(u.apply(s.mem, args))
    requires u.discipline.Resuming? ==> Wrap(s.sequence + 2) != 0
    ensures Run(u, s, Update(args, u.words) + Read(r, u.words)).accepted == s.accepted + [u.apply(s.mem, args)]
  {
    hide Wrap;
    UpdatesCommit(u, s, args);
    var t := Run(u, s, Update(args, u.words));
    UpdatesAreLegal(u, s, args);
    RunKeepsInv(u, s, Update(args, u.words));
    ReadsAccept(u, t, r);
    RunAppend(u, s, Update(args, u.words), Read(r, u.words));
  }

  /** Events that nothing is assumed about. */
  ghost predicate Unassuming(events: seq<Event>) {
    forall i :: 0 <= i < |events| ==> !events[i].Check? && !events[i].Start?
  }

  lemma {:induction false} UnassumingIsLegal(u: Rules, s: State, events: seq<Event>)
    requires Unassuming(events)
    ensures Legal(u, s, events)
    decreases |events|
  {
    if events != [] { UnassumingIsLegal(u, Step(u, s, events[0]), events[1..]); }
  }

  lemma {:induction false} PutsAreUnassuming(n: nat)
    ensures Unassuming(Puts(n))
  {
    if n > 0 { PutsAreUnassuming(n - 1); }
  }

  lemma CopiesAreLegal(u: Rules, s: State, r: nat, n: nat)
    ensures Legal(u, s, Copies(r, n))
  {
    CopiesAreUnassuming(r, n);
    UnassumingIsLegal(u, s, Copies(r, n));
  }

  lemma {:induction false} CopiesAreUnassuming(r: nat, n: nat)
    ensures Unassuming(Copies(r, n))
  {
    if n > 0 { CopiesAreUnassuming(r, n - 1); }
  }

  lemma UpdatesAreLegal(u: Rules, s: State, args: seq<int>)
    ensures Legal(u, s, Update(args, u.words))
  {
    PutsAreUnassuming(u.words);
    UnassumingIsLegal(u, s, Update(args, u.words));
  }
}
