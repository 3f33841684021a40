/**
 * Why the status verdict is only good within a boot epoch: a recovery restarts
 * the generation at zero but leaves the old sample in place, so a later
 * generation can repeat the one that sample carries.
 */
module StaleStatus {
  import opened U32
  import opened CasSeqlock
  import opened ControllerRuns
  import opened BootRecovery

  function AllExcluded(): Record { [1] + seq(240, _ => 49) }

  lemma AllExcludedIsAccepted()
    ensures Accepts(Iva, AllExcluded()) && |AllExcluded()| == 241
  {
  }

  /** Set, measure, die locked; then boot 3 recovers and publishes. */
  function StaleRun(): seq<Event> {
    (((Publish(1, Defaults(Iva)) + Measure(0)) + DieLocked(2, AllExcluded()))
     + (Suspect(3, AllExcluded()) + [Reset(3)])) + Finish(3, AllExcluded())
  }

  /**
   * Across a recovery the verdict can be wrong: here the newest record excludes
   * every cell, the sample was taken with nothing excluded, and it is not pending.
   */
  lemma NotPendingCanBeStaleAfterRecovery()
    ensures var s := Run(Init(Iva), StaleRun());
            && Legal(Init(Iva), StaleRun())
            && |s.samples| == 1 && |s.published| > 0
            && !Pending(s.gen, s.samples[0])
            && s.samples[0].epoch < s.epoch
            && s.samples[0].under != s.published[s.Last()]
  {
    hide Run, Legal, Step, Publish, Measure, DieLocked, Suspect, Finish, Accepts, Wrap;
    WrapSmall(2);
    AllExcludedIsAccepted();
    var v, w := Defaults(Iva), AllExcluded();
    var s0 := Init(Iva);
    UncontendedSetPublishes(s0, 1, v);
    var s1 := Run(s0, Publish(1, v));
    FilterMeasures(s1, 0);
    var s2 := Run(s1, Measure(0));
    LockIsLeftBehind(s2, 2, w);
    var s3 := Run(s2, DieLocked(2, w));
    RecoveryResets(s3, 3, w);
    var s4 := Run(s3, Suspect(3, w) + [Reset(3)]);
    LoneControllerFinishes(s4, 3);
    RunAppend(s0, Publish(1, v), Measure(0));
    RunAppend(s0, Publish(1, v) + Measure(0), DieLocked(2, w));
    RunAppend(s0, (Publish(1, v) + Measure(0)) + DieLocked(2, w), Suspect(3, w) + [Reset(3)]);
    RunAppend(s0, ((Publish(1, v) + Measure(0)) + DieLocked(2, w)) + (Suspect(3, w) + [Reset(3)]), Finish(3, w));
    assert v[0] != w[0];
  }
}
