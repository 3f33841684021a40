/** `motion_update`: when a stream of readings becomes motion, and when motion becomes quiet. */
module MotionDetector {
  import opened Options

  /** `struct sens_cfg`. */
  datatype Config = Config(trigger: real, release: real, confirmSamples: int, quietMs: int, requireZero: bool, levelBoost: bool)

  /** A ratio as the C double it is: infinities and NaN carry no value. */
  datatype Ratio = NotFinite | Finite(value: real)

  datatype Reading = Missing | Reading(ratio: Ratio, level: int)

  /** One call: the reading, the boost in force (the mask switches it off), and the monotonic time. */
  datatype Input = Input(reading: Reading, boost: bool, now: int)

  datatype Transition = Start | Stop | Unchanged

  datatype Detector = Detector(active: bool, positives: int, quietSince: int)

  const INITIAL := Detector(false, 0, -1)

  predicate ConfigValid(c: Config, intervalMs: int) {
    && 0.01 <= c.trigger <= 100.0
    && 0.0 <= c.release < c.trigger
    && 1 <= c.confirmSamples <= 50
    && 100 <= c.quietMs <= 30000
    && 100 <= intervalMs <= 2000
  }

  predicate Usable(x: Reading) {
    && x.Reading? && x.ratio.Finite?
    && 0.0 <= x.ratio.value <= 100.0 && x.level >= 0
  }

  predicate Strong(c: Config, i: Input)
    requires Usable(i.reading)
  {
    || i.reading.ratio.value >= c.trigger
    || (i.boost && i.reading.level >= 2 && i.reading.ratio.value >= c.trigger * 0.5)
  }

  predicate Quiet(c: Config, i: Input)
    requires Usable(i.reading)
  {
    i.reading.ratio.value <= c.release && (!c.requireZero || i.reading.level == 0)
  }

  function Update(c: Config, d: Detector, i: Input): (Detector, Transition) {
    if !Usable(i.reading) then (d.(positives := 0, quietSince := -1), Unchanged)
    else if !d.active then
      var positives := if Strong(c, i) then d.positives + 1 else 0;
      if positives >= c.confirmSamples then (Detector(true, positives, -1), Start)
      else (d.(positives := positives), Unchanged)
    else if !Quiet(c, i) then (d.(quietSince := -1), Unchanged)
    else
      var since := if d.quietSince < 0 then i.now else d.quietSince;
      if i.now - since >= c.quietMs then (INITIAL, Stop) else (d.(quietSince := since), Unchanged)
  }

  // ----- whole traces -----

  function After(c: Config, trace: seq<Input>): Detector {
    if trace == [] then INITIAL
    else Update(c, After(c, trace[..|trace| - 1]), trace[|trace| - 1]).0
  }

  /** What call number `n` of the trace returns. */
  function Output(c: Config, trace: seq<Input>, n: nat): Transition
    requires n < |trace|
  {
    Update(c, After(c, trace[..n]), trace[n]).1
  }

  /** The transitions of the trace, in order. */
  function Transitions(c: Config, trace: seq<Input>): seq<Transition> {
    if trace == [] then []
    else
      var n := |trace| - 1;
      var x := Update(c, After(c, trace[..n]), trace[n]).1;
      Transitions(c, trace[..n]) + if x.Unchanged? then [] else [x]
  }

  /** START and STOP strictly take turns, beginning with START. */
  lemma {:induction false} StartAndStopAlternate(c: Config, trace: seq<Input>)
    ensures var t := Transitions(c, trace);
            && After(c, trace).active == (|t| % 2 == 1)
            && forall i :: 0 <= i < |t| ==> t[i] == if i % 2 == 0 then Start else Stop
  {
    if trace != [] {
      StartAndStopAlternate(c, trace[..|trace| - 1]);
    }
  }

  ghost predicate StrongRun(c: Config, trace: seq<Input>, from: int) {
    forall i :: from <= i < |trace| && 0 <= i ==> Usable(trace[i].reading) && Strong(c, trace[i])
  }

  lemma {:induction false} PositivesCountStrongReadings(c: Config, trace: seq<Input>)
    ensures var d := After(c, trace);
            !d.active ==> 0 <= d.positives <= |trace| && StrongRun(c, trace, |trace| - d.positives)
  {
    if trace != [] {
      var n := |trace| - 1;
      PositivesCountStrongReadings(c, trace[..n]);
      var before := After(c, trace[..n]);
      if !before.active {
        forall i | n - before.positives <= i < n && 0 <= i ensures Usable(trace[i].reading) && Strong(c, trace[i]) {
          assert trace[..n][i] == trace[i];
        }
      }
    }
  }

  /** START is returned only when the last `confirmSamples` readings were all usable and strong. */
  lemma StartNeedsAConfirmedRun(c: Config, trace: seq<Input>, n: nat)
    requires n < |trace| && Output(c, trace, n).Start?
    ensures c.confirmSamples <= n + 1
    ensures forall i :: n + 1 - c.confirmSamples <= i <= n && 0 <= i ==> Usable(trace[i].reading) && Strong(c, trace[i])
  {
    PositivesCountStrongReadings(c, trace[..n]);
    var before := After(c, trace[..n]);
    forall i | n + 1 - c.confirmSamples <= i <= n && 0 <= i ensures Usable(trace[i].reading) && Strong(c, trace[i]) {
      if i < n { assert trace[..n][i] == trace[i]; }
    }
  }

  ghost predicate QuietRun(c: Config, trace: seq<Input>, from: nat, to: nat)
    requires to <= |trace|
  {
    forall i :: from <= i < to ==> Usable(trace[i].reading) && Quiet(c, trace[i])
  }

  lemma {:induction false} QuietSinceMarksAQuietRun(c: Config, trace: seq<Input>) returns (from: nat)
    ensures var d := After(c, trace);
            d.active && d.quietSince >= 0 ==>
              from < |trace| && trace[from].now == d.quietSince && QuietRun(c, trace, from, |trace|)
  {
    from := 0;
    if trace != [] {
      var n := |trace| - 1;
      from := QuietSinceMarksAQuietRun(c, trace[..n]);
      var before := After(c, trace[..n]);
      if before.active && before.quietSince >= 0 {
        forall i | from <= i < n ensures Usable(trace[i].reading) && Quiet(c, trace[i]) {
          assert trace[..n][i] == trace[i];
        }
      } else {
        from := n;
      }
    }
  }

  /** STOP is returned only after an unbroken quiet run of at least `quietMs`, by the readings' own times. */
  lemma StopNeedsAQuietRun(c: Config, trace: seq<Input>, n: nat) returns (from: nat)
    requires n < |trace| && Output(c, trace, n).Stop?
    ensures from <= n && QuietRun(c, trace, from, n + 1)
    ensures trace[n].now - trace[from].now >= c.quietMs
  {
    from := QuietSinceMarksAQuietRun(c, trace[..n]);
    var before := After(c, trace[..n]);
    if before.quietSince < 0 {
      from := n;
    } else {
      forall i | from <= i < n ensures Usable(trace[i].reading) && Quiet(c, trace[i]) {
        assert trace[..n][i] == trace[i];
      }
    }
  }

  /** An unusable reading changes neither state: it can only delay a transition. */
  lemma UnusableReadingsNeverTransition(c: Config, trace: seq<Input>, n: nat)
    requires n < |trace| && !Usable(trace[n].reading)
    ensures Output(c, trace, n).Unchanged?
    ensures After(c, trace[..n + 1]).active == After(c, trace[..n]).active
  {
    assert trace[..n + 1][..n] == trace[..n];
  }

  // ----- no reading is both strong and quiet -----

  ghost predicate BothPossible(c: Config, boost: bool) {
    exists x: Reading, now: int {:trigger Input(x, boost, now)} ::
      Usable(x) && Strong(c, Input(x, boost, now)) && Quiet(c, Input(x, boost, now))
  }

  /** Exactly when a valid configuration lets one reading count as strong and as quiet. */
  lemma StrongAndQuietOverlapExactlyWhen(c: Config, intervalMs: int, boost: bool)
    requires ConfigValid(c, intervalMs)
    ensures BothPossible(c, boost) <==> boost && !c.requireZero && c.release >= c.trigger * 0.5
  {
    if boost && !c.requireZero && c.release >= c.trigger * 0.5 {
      var x := Reading(Finite(c.release), 2);
      assert Usable(x) && Strong(c, Input(x, boost, 0)) && Quiet(c, Input(x, boost, 0));
    }
  }

  /** Row `sensitivity` of the built-in table; every row requires level zero and uses the boost. */
  function Preset(sensitivity: int): Config
    requires 1 <= sensitivity <= 10
  {
    if sensitivity == 1 then Config(15.0, 1.5, 5, 2000, true, true)
    else if sensitivity == 2 then Config(10.0, 1.0, 5, 2000, true, true)
    else if sensitivity == 3 then Config(7.0, 0.7, 4, 2000, true, true)
    else if sensitivity == 4 then Config(5.0, 0.5, 4, 2000, true, true)
    else if sensitivity == 5 then Config(3.0, 0.3, 3, 2000, true, true)
    else if sensitivity == 6 then Config(2.0, 0.2, 3, 2000, true, true)
    else if sensitivity == 7 then Config(1.2, 0.15, 3, 2000, true, true)
    else if sensitivity == 8 then Config(0.8, 0.15, 2, 2000, true, true)
    else if sensitivity == 9 then Config(0.5, 0.15, 2, 2000, true, true)
    else Config(0.25, 0.15, 2, 2000, true, true)
  }

  function Or<T>(x: Option<T>, d: T): T { if x.Some? then x.value else d }

  /** The command line's overrides; any of them switches the boost off. */
  datatype Overrides = Overrides(
    trigger: Option<real>, release: Option<real>, confirm: Option<int>, quiet: Option<int>, zero: Option<bool>)

  function Configured(sensitivity: int, o: Overrides): Config
    requires 1 <= sensitivity <= 10
  {
    var p := Preset(sensitivity);
    var custom := o.trigger.Some? || o.release.Some? || o.confirm.Some? || o.quiet.Some? || o.zero.Some?;
    Config(Or(o.trigger, p.trigger), Or(o.release, p.release), Or(o.confirm, p.confirmSamples), Or(o.quiet, p.quietMs),
           Or(o.zero, p.requireZero), p.levelBoost && !custom)
  }

  /** Each override replaces its field and no other; the boost is left only where there is none. */
  lemma OverridesReplaceThePreset(sensitivity: int, o: Overrides)
    requires 1 <= sensitivity <= 10
    ensures var c, p := Configured(sensitivity, o), Preset(sensitivity);
            && (if o.trigger.Some? then c.trigger == o.trigger.value else c.trigger == p.trigger)
            && (if o.release.Some? then c.release == o.release.value else c.release == p.release)
            && (if o.confirm.Some? then c.confirmSamples == o.confirm.value else c.confirmSamples == p.confirmSamples)
            && (if o.quiet.Some? then c.quietMs == o.quiet.value else c.quietMs == 2000)
            && (if o.zero.Some? then c.requireZero == o.zero.value else c.requireZero)
            && (c.levelBoost <==> o == Overrides(None, None, None, None, None))
  {
  }

  /** With any configuration `main` accepts, masked or not, no reading is both strong and quiet. */
  lemma NoAcceptedConfigurationOverlaps(sensitivity: int, o: Overrides, intervalMs: int, boost: bool)
    requires 1 <= sensitivity <= 10
    requires ConfigValid(Configured(sensitivity, o), intervalMs)
    requires boost ==> Configured(sensitivity, o).levelBoost
    ensures !BothPossible(Configured(sensitivity, o), boost)
  {
    StrongAndQuietOverlapExactlyWhen(Configured(sensitivity, o), intervalMs, boost);
  }

  // ----- and then the verdicts are exact -----

  /** No reading of the trace counts as strong and as quiet. */
  ghost predicate Apart(c: Config, trace: seq<Input>) {
    forall i :: 0 <= i < |trace| && Usable(trace[i].reading) ==> !(Strong(c, trace[i]) && Quiet(c, trace[i]))
  }

  ghost predicate Clocked(trace: seq<Input>) {
    && (forall i :: 0 <= i < |trace| ==> 0 <= trace[i].now)
    && forall i, j :: 0 <= i <= j < |trace| ==> trace[i].now <= trace[j].now
  }

  lemma ApartUnlessPossible(c: Config, trace: seq<Input>)
    requires forall i :: 0 <= i < |trace| ==> !BothPossible(c, trace[i].boost)
    ensures Apart(c, trace)
  {
    forall i | 0 <= i < |trace| && Usable(trace[i].reading) ensures !(Strong(c, trace[i]) && Quiet(c, trace[i])) {
      var x := trace[i];
      assert x == Input(x.reading, x.boost, x.now);
      assert !BothPossible(c, x.boost);
    }
  }

  lemma {:induction false} StrongRunIsCounted(c: Config, trace: seq<Input>, k: nat)
    requires Apart(c, trace) && !After(c, trace).active && k <= |trace| && StrongRun(c, trace, |trace| - k)
    ensures After(c, trace).positives >= k
  {
    PositivesCountStrongReadings(c, trace);
    if k > 0 {
      var n := |trace| - 1;
      var before := After(c, trace[..n]);
      assert Usable(trace[n].reading) && Strong(c, trace[n]);
      assert !before.active;
      assert Apart(c, trace[..n]);
      StrongRunIsCounted(c, trace[..n], k - 1);
    }
  }

  /** START is returned exactly when the last `confirmSamples` readings were all usable and strong. */
  lemma StartExactlyAfterAConfirmedRun(c: Config, trace: seq<Input>, n: nat)
    requires n < |trace| && Apart(c, trace) && c.confirmSamples >= 1 && !After(c, trace[..n]).active
    ensures Output(c, trace, n).Start? <==>
              c.confirmSamples <= n + 1 && StrongRun(c, trace[..n + 1], n + 1 - c.confirmSamples)
  {
    if Output(c, trace, n).Start? { StartNeedsAConfirmedRun(c, trace, n); }
    if c.confirmSamples <= n + 1 && StrongRun(c, trace[..n + 1], n + 1 - c.confirmSamples) {
      assert trace[..n + 1][n] == trace[n];
      forall i | n + 1 - c.confirmSamples <= i < n ensures Usable(trace[i].reading) && Strong(c, trace[i]) {
        assert trace[..n + 1][i] == trace[i];
      }
      assert Apart(c, trace[..n]);
      StrongRunIsCounted(c, trace[..n], c.confirmSamples - 1);
    }
  }

  lemma {:induction false} QuietRunIsMarked(c: Config, trace: seq<Input>, from: nat)
    requires Apart(c, trace) && Clocked(trace) && c.confirmSamples >= 1
    requires After(c, trace).active && from < |trace| && QuietRun(c, trace, from, |trace|)
    ensures 0 <= After(c, trace).quietSince <= trace[from].now
  {
    var n := |trace| - 1;
    var before := After(c, trace[..n]);
    assert Usable(trace[n].reading) && Quiet(c, trace[n]);
    assert before.active;
    if from < n {
      assert Apart(c, trace[..n]) && Clocked(trace[..n]);
      QuietRunIsMarked(c, trace[..n], from);
    } else {
      var k := QuietSinceMarksAQuietRun(c, trace[..n]);
    }
  }

  ghost predicate LongQuiet(c: Config, trace: seq<Input>, from: nat, n: nat)
    requires n < |trace|
  {
    from <= n && QuietRun(c, trace, from, n + 1) && trace[n].now - trace[from].now >= c.quietMs
  }

  /** STOP is returned exactly when a quiet run of at least `quietMs` ends here. */
  lemma StopExactlyAfterAQuietRun(c: Config, trace: seq<Input>, n: nat)
    requires n < |trace| && Apart(c, trace) && Clocked(trace) && c.confirmSamples >= 1 && c.quietMs > 0
    requires After(c, trace[..n]).active
    ensures Output(c, trace, n).Stop? <==> exists from: nat :: LongQuiet(c, trace, from, n)
  {
    if Output(c, trace, n).Stop? {
      var from := StopNeedsAQuietRun(c, trace, n);
      assert LongQuiet(c, trace, from, n);
    }
    if from: nat :| LongQuiet(c, trace, from, n) {
      assert Apart(c, trace[..n]) && Clocked(trace[..n]);
      assert QuietRun(c, trace[..n], from, n);
      QuietRunIsMarked(c, trace[..n], from);
    }
  }

  /** The boost is applied only where the configuration has it; the mask takes it away. */
  predicate Boosted(c: Config, trace: seq<Input>) {
    forall i :: 0 <= i < |trace| ==> (trace[i].boost ==> c.levelBoost)
  }

  lemma AcceptedConfigurationsAreApart(sensitivity: int, o: Overrides, intervalMs: int, trace: seq<Input>)
    requires 1 <= sensitivity <= 10 && ConfigValid(Configured(sensitivity, o), intervalMs)
    requires Boosted(Configured(sensitivity, o), trace)
    ensures Apart(Configured(sensitivity, o), trace)
  {
    hide Configured, BothPossible;
    var c := Configured(sensitivity, o);
    forall i | 0 <= i < |trace| ensures !BothPossible(c, trace[i].boost) {
      NoAcceptedConfigurationOverlaps(sensitivity, o, intervalMs, trace[i].boost);
    }
    ApartUnlessPossible(c, trace);
  }

  /**
   * So with any configuration `main` accepts, masked or not, the verdicts are
   * exact.  What counts towards START: a ratio from 0 to 100 that reaches the
   * trigger, or half of it at level 2 or more while the boost is on.
   */
  lemma AcceptedConfigurationsStartExactly(sensitivity: int, o: Overrides, intervalMs: int, trace: seq<Input>, n: nat)
    requires 1 <= sensitivity <= 10 && ConfigValid(Configured(sensitivity, o), intervalMs)
    requires Boosted(Configured(sensitivity, o), trace) && n < |trace|
    requires !After(Configured(sensitivity, o), trace[..n]).active
    ensures var c := Configured(sensitivity, o);
            Output(c, trace, n).Start? <==>
              && c.confirmSamples <= n + 1
              && forall i :: n + 1 - c.confirmSamples <= i <= n ==>
                   var x := trace[i].reading;
                   && x.Reading? && x.ratio.Finite? && 0.0 <= x.ratio.value <= 100.0 && x.level >= 0
                   && (x.ratio.value >= c.trigger || (trace[i].boost && x.level >= 2 && 2.0 * x.ratio.value >= c.trigger))
  {
    hide Configured;
    var c := Configured(sensitivity, o);
    AcceptedConfigurationsAreApart(sensitivity, o, intervalMs, trace);
    StartExactlyAfterAConfirmedRun(c, trace, n);
    forall i | 0 <= i <= n ensures trace[..n + 1][i] == trace[i] {
    }
    if forall i :: n + 1 - c.confirmSamples <= i <= n && 0 <= i ==> Usable(trace[i].reading) && Strong(c, trace[i]) {
      assert StrongRun(c, trace[..n + 1], n + 1 - c.confirmSamples);
    } else {
      assert !StrongRun(c, trace[..n + 1], n + 1 - c.confirmSamples);
    }
  }

  /** What counts towards STOP: a ratio within the release, and level 0 where the configuration asks for it. */
  lemma AcceptedConfigurationsStopExactly(sensitivity: int, o: Overrides, intervalMs: int, trace: seq<Input>, n: nat)
    requires 1 <= sensitivity <= 10 && ConfigValid(Configured(sensitivity, o), intervalMs)
    requires Boosted(Configured(sensitivity, o), trace) && Clocked(trace) && n < |trace|
    requires After(Configured(sensitivity, o), trace[..n]).active
    ensures var c := Configured(sensitivity, o);
            Output(c, trace, n).Stop? <==>
              exists from: nat ::
                && from <= n && trace[n].now - trace[from].now >= c.quietMs
                && forall i :: from <= i <= n ==>
                     var x := trace[i].reading;
                     && x.Reading? && x.ratio.Finite? && 0.0 <= x.ratio.value <= 100.0 && x.level >= 0
                     && x.ratio.value <= c.release && (c.requireZero ==> x.level == 0)
  {
    hide Configured;
    var c := Configured(sensitivity, o);
    AcceptedConfigurationsAreApart(sensitivity, o, intervalMs, trace);
    StopExactlyAfterAQuietRun(c, trace, n);
    if from: nat :| LongQuiet(c, trace, from, n) {
      assert trace[n].now - trace[from].now >= c.quietMs;
    }
    if from: nat :|
      && from <= n && trace[n].now - trace[from].now >= c.quietMs
      && forall i :: from <= i <= n ==>
           var x := trace[i].reading;
           && x.Reading? && x.ratio.Finite? && 0.0 <= x.ratio.value <= 100.0 && x.level >= 0
           && x.ratio.value <= c.release && (c.requireZero ==> x.level == 0)
    {
      assert LongQuiet(c, trace, from, n);
    }
  }

  /** A built-in sensitivity stops exactly after two seconds of level 0 with the ratio within its release. */
  lemma PresetsStopExactly(sensitivity: int, trace: seq<Input>, n: nat)
    requires 1 <= sensitivity <= 10 && Clocked(trace) && n < |trace|
    requires After(Preset(sensitivity), trace[..n]).active
    ensures Output(Preset(sensitivity), trace, n).Stop? <==>
            exists from: nat ::
              && from <= n && trace[n].now - trace[from].now >= 2000
              && forall i :: from <= i <= n ==>
                   var x := trace[i].reading;
                   && x.Reading? && x.ratio.Finite? && x.level == 0
                   && 0.0 <= x.ratio.value <= Preset(sensitivity).release
  {
    var c := Preset(sensitivity);
    assert c.quietMs == 2000 && c.requireZero && c.release <= 100.0;
    PresetsAreApart(sensitivity, trace);
    StopExactlyAfterAQuietRun(c, trace, n);
    if from: nat :| LongQuiet(c, trace, from, n) {
      assert trace[n].now - trace[from].now >= 2000;
    }
    if from: nat :|
      && from <= n && trace[n].now - trace[from].now >= 2000
      && forall i :: from <= i <= n ==>
           var x := trace[i].reading;
           && x.Reading? && x.ratio.Finite? && x.level == 0 && 0.0 <= x.ratio.value <= c.release
    {
      assert LongQuiet(c, trace, from, n);
    }
  }

  lemma {:induction false} ActiveOnlyAfterAStart(c: Config, trace: seq<Input>, n: nat)
    requires n <= |trace| && After(c, trace[..n]).active
    ensures exists m :: 0 <= m < n && Output(c, trace, m).Start?
  {
    assert trace[..0] == [];
    assert n > 0;
    assert trace[..n][..n - 1] == trace[..n - 1] && trace[..n][n - 1] == trace[n - 1];
    if After(c, trace[..n - 1]).active {
      ActiveOnlyAfterAStart(c, trace, n - 1);
    } else {
      assert Output(c, trace, n - 1).Start?;
    }
  }

  /** A reading that counts at one sensitivity counts at every higher one, which asks for no more of them. */
  lemma StrongAtHigher(s: int, t: int, x: Input)
    requires 1 <= s <= t <= 10 && Usable(x.reading) && Strong(Preset(s), x)
    ensures Strong(Preset(t), x) && 1 <= Preset(t).confirmSamples <= Preset(s).confirmSamples
  {
  }

  lemma PresetsAreApart(s: int, trace: seq<Input>)
    requires 1 <= s <= 10
    ensures Apart(Preset(s), trace) && Preset(s).confirmSamples >= 1
  {
    hide BothPossible;
    forall i | 0 <= i < |trace| ensures !BothPossible(Preset(s), trace[i].boost) {
      StrongAndQuietOverlapExactlyWhen(Preset(s), 500, trace[i].boost);
    }
    ApartUnlessPossible(Preset(s), trace);
  }

  /** On the same readings, a higher sensitivity has started no later than a lower one. */
  lemma HigherSensitivityStartsNoLater(s: int, t: int, trace: seq<Input>, n: nat)
    requires 1 <= s <= t <= 10 && n < |trace| && Output(Preset(s), trace, n).Start?
    ensures exists m :: 0 <= m <= n && Output(Preset(t), trace, m).Start?
  {
    hide Preset;
    StartNeedsAConfirmedRun(Preset(s), trace, n);
    PresetsAreApart(s, trace);
    PresetsAreApart(t, trace);
    forall i | n + 1 - Preset(s).confirmSamples <= i <= n && 0 <= i
      ensures Usable(trace[i].reading) && Strong(Preset(t), trace[i])
    {
      StrongAtHigher(s, t, trace[i]);
    }
    StrongAtHigher(s, t, trace[n]);
    if After(Preset(t), trace[..n]).active {
      ActiveOnlyAfterAStart(Preset(t), trace, n);
    } else {
      assert StrongRun(Preset(t), trace[..n + 1], n + 1 - Preset(t).confirmSamples);
      StartExactlyAfterAConfirmedRun(Preset(t), trace, n);
    }
  }

  /** `struct motion_detector`, updated in place. */
  class MotionDetector {
    var active: bool
    var positives: int
    var quietSince: int

    constructor ()
      ensures Value() == INITIAL
    {
      active, positives, quietSince := false, 0, -1;
    }

    ghost function Value(): Detector
      reads this
    {
      Detector(active, positives, quietSince)
    }

    method UpdateWith(c: Config, i: Input) returns (t: Transition)
      modifies this
      ensures (Value(), t) == Update(c, old(Value()), i)
    {
      if !Usable(i.reading) {
        positives, quietSince := 0, -1;
        return Unchanged;
      }
      if !active {
        positives := if Strong(c, i) then positives + 1 else 0;
        if positives >= c.confirmSamples {
          active, quietSince := true, -1;
          return Start;
        }
      } else if !Quiet(c, i) {
        quietSince := -1;
      } else {
        if quietSince < 0 { quietSince := i.now; }
        if i.now - quietSince >= c.quietMs {
          active, positives, quietSince := false, 0, -1;
          return Stop;
        }
      }
      t := Unchanged;
    }
  }
}
