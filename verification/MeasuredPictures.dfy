/**
 * What the counts of a measurement give away: under which settings they can have
 * been made, and whether they can belong together at all.
 */
module MeasuredPictures {
  import opened Bytes
  import opened U32
  import opened SampleTear
  import opened StatusVerdict
  import C = CasSeqlock
  import P = PixelCounts
  import W = WriterSeqlock
  import StaleStatus

  type Words = W.Words

  const RAW := 3

  /** Every pixel foreground, or none. */
  function Uniform(on: bool): View {
    View(0, 0, 0, Seen(seq(P.PIXELS, _ => if on then 1 else 0), 0, 0, 639, 359, 0, if on then P.PIXELS else 0))
  }

  function Full(): View { Uniform(true) }

  lemma {:induction false} UniformCount(s: P.Settings, map': seq<byte>, on: bool, n: nat)
    requires |map'| == P.PIXELS && |s.excluded| == P.CELLS && n <= P.PIXELS
    requires forall i :: 0 <= i < |map'| ==> map'[i] == if on then 1 else 0
    ensures P.Count(map', s, n).raw == if on then n else 0
    ensures on && !s.enabled ==> P.Count(map', s, n).included == n
  {
    hide P.InRect, P.CellOf;
    if n > 0 { UniformCount(s, map', on, n - 1); }
  }

  lemma UniformRaw(on: bool, record: C.Record, applied: int)
    requires |record| == 241
    ensures Uniform(on).Valid() && Measured(Uniform(on), record, applied)[RAW] == if on then P.PIXELS else 0
  {
    var p := Uniform(on).picture;
    UniformCount(SettingsOf(record, p), p.map', on, P.PIXELS);
  }

  lemma FullUnderDefaults(applied: int)
    ensures Full().Valid() && Measured(Full(), C.Defaults(C.Iva), applied)[INCLUDED] == P.PIXELS
  {
    var p := Full().picture;
    UniformCount(SettingsOf(C.Defaults(C.Iva), p), p.map', true, P.PIXELS);
  }

  lemma {:induction false} NothingIncluded(s: P.Settings, map': seq<byte>, n: nat)
    requires |map'| == P.PIXELS && |s.excluded| == P.CELLS && n <= P.PIXELS && s.enabled
    requires forall c :: 0 <= c < P.CELLS ==> s.excluded[c]
    ensures P.Count(map', s, n).included == 0
  {
    hide P.InRect, P.CellOf;
    if n > 0 { NothingIncluded(s, map', n - 1); }
  }

  lemma NothingUnderAllExcluded(v: View, applied: int)
    requires v.Valid()
    ensures |StaleStatus.AllExcluded()| == 241 && Measured(v, StaleStatus.AllExcluded(), applied)[INCLUDED] == 0
  {
    if v.picture.Seen? {
      var s := SettingsOf(StaleStatus.AllExcluded(), v.picture);
      NothingIncluded(s, v.picture.map', P.PIXELS);
    }
  }

  // ----- when the built-in defaults and a record count alike -----

  /** The record masks nothing: it is switched off, or excludes no cell. */
  predicate MasksNothing(record: C.Record)
    requires |record| == 241
  {
    record[0] == 0 || forall c :: 1 <= c < 241 ==> record[c] == 48
  }

  lemma {:induction false} AllIncludedCountAlike(s: P.Settings, t: P.Settings, map': seq<byte>, n: nat)
    requires |map'| == P.PIXELS && |s.excluded| == P.CELLS == |t.excluded| && n <= P.PIXELS
    requires s.x0 == t.x0 && s.x1 == t.x1 && s.y0 == t.y0 && s.y1 == t.y1
    requires forall i :: 0 <= i < P.PIXELS ==> P.Included(s, i) && P.Included(t, i)
    ensures P.Count(map', s, n) == P.Count(map', t, n)
  {
    hide P.CellOf, P.Included;
    if n > 0 {
      AllIncludedCountAlike(s, t, map', n - 1);
      assert P.Included(s, n - 1) && P.Included(t, n - 1);
    }
  }

  lemma MaskingNothingIncludesAll(record: C.Record, p: Picture)
    requires |record| == 241 && p.Seen? && MasksNothing(record)
    ensures forall i :: 0 <= i < P.PIXELS ==> P.Included(SettingsOf(record, p), i)
  {
    forall i: nat | i < P.PIXELS ensures P.Included(SettingsOf(record, p), i) {
      var c := P.CellOf(i);
      assert record[0] != 0 ==> record[c + 1] == 48;
    }
  }

  lemma MeasuredAlike(v: View, record: C.Record, applied: int)
    requires v.Valid() && |record| == 241 && MasksNothing(record)
    ensures Measured(v, record, applied) == Measured(v, C.Defaults(C.Iva), applied)
  {
    hide P.CellOf, P.Included, MasksNothing, SettingsOf, Cells;
    if v.picture.Seen? {
      DefaultsMaskNothing();
      MaskingNothingIncludesAll(record, v.picture);
      MaskingNothingIncludesAll(C.Defaults(C.Iva), v.picture);
      SameRectangle(record, C.Defaults(C.Iva), v.picture);
      AllIncludedCountAlike(SettingsOf(record, v.picture), SettingsOf(C.Defaults(C.Iva), v.picture),
                            v.picture.map', P.PIXELS);
    }
  }

  lemma DefaultsMaskNothing()
    ensures |C.Defaults(C.Iva)| == 241 && MasksNothing(C.Defaults(C.Iva))
  {
  }

  lemma SameRectangle(r: C.Record, q: C.Record, p: Picture)
    requires |r| == 241 == |q| && p.Seen?
    ensures var s, t := SettingsOf(r, p), SettingsOf(q, p);
            && s.x0 == t.x0 && s.x1 == t.x1 && s.y0 == t.y0 && s.y1 == t.y1
            && |s.excluded| == P.CELLS == |t.excluded|
  {
  }

  /** One pixel that is never included. */
  lemma {:induction false} OneExcluded(s: P.Settings, map': seq<byte>, i: nat, n: nat)
    requires |map'| == P.PIXELS && |s.excluded| == P.CELLS && n <= P.PIXELS && i < P.PIXELS && !P.Included(s, i)
    ensures P.Count(map', s, n).included <= n
    ensures i < n ==> P.Count(map', s, n).included < n
  {
    hide P.InRect, P.Included, P.CellOf;
    if n > 0 { OneExcluded(s, map', i, n - 1); }
  }

  lemma MaskedNeverCountsAll(v: View, record: C.Record, applied: int)
    requires v.Valid() && |record| == 241 && !MasksNothing(record)
    ensures Measured(v, record, applied)[INCLUDED] < P.PIXELS
  {
    if v.picture.Seen? {
      var k :| 1 <= k < 241 && record[k] != 48;
      var c := k - 1;
      P.PixelPlace(c / 20 * 30, c % 20, 0);
      var i := c / 20 * 30 * P.WIDTH + c % 20 * 32;
      var s := SettingsOf(record, v.picture);
      assert P.CellOf(i) == c && s.enabled && s.excluded[c];
      OneExcluded(s, v.picture.map', i, P.PIXELS);
    }
  }

  /**
   * A measurement under the built-in defaults is one under the record for every
   * picture if and only if the record masks nothing.
   */
  lemma DefaultsStandInExactlyWhen(record: C.Record, applied: int)
    requires |record| == 241
    ensures (forall v: View :: v.Valid() ==> MeasuredUnder(Measured(v, C.Defaults(C.Iva), applied), record, applied))
       <==> MasksNothing(record)
  {
    hide Measured, MasksNothing, C.Defaults, Full, Uniform;
    if MasksNothing(record) {
      forall v: View | v.Valid()
        ensures MeasuredUnder(Measured(v, C.Defaults(C.Iva), applied), record, applied)
      {
        MeasuredAlike(v, record, applied);
      }
    } else {
      FullUnderDefaults(applied);
      var w := Measured(Full(), C.Defaults(C.Iva), applied);
      if MeasuredUnder(w, record, applied) {
        var v: View :| v.Valid() && w == Measured(v, record, applied);
        MaskedNeverCountsAll(v, record, applied);
      }
    }
  }

  // ----- words that are no measurement -----

  /** No picture, settings and generation lead to these words. */
  ghost predicate NoMeasurement(w: Words) {
    forall record: C.Record, applied: int :: !MeasuredUnder(w, record, applied)
  }

  /** The raw count is the sum of the cells, whatever the settings. */
  lemma CellsTellTheRawCount(v: View, record: C.Record, applied: int)
    requires v.Valid() && |record| == 241
    ensures var w := Measured(v, record, applied);
            && (forall i :: 8 <= i < |w| ==> w[i] >= 0)
            && w[RAW] == P.Sum(w[8..])
  {
    var w := Measured(v, record, applied);
    if v.picture.Seen? {
      P.CellsSumToRaw(v.picture.map', SettingsOf(record, v.picture), P.PIXELS);
      assert w[8..] == P.CellCounts(v.picture.map', P.PIXELS);
    } else {
      P.SumOfZeros(240);
      assert w[8..] == seq(240, _ => 0);
    }
  }

  /** The raw count of one measurement and the cells of another with a different one do not belong together. */
  lemma MixedCountsAreNoMeasurement(w: Words, v: View, record: C.Record, applied: int)
    requires v.Valid() && |record| == 241 && |w| == SAMPLE_WORDS
    requires w[RAW] != Measured(v, record, applied)[RAW] && w[8..] == Measured(v, record, applied)[8..]
    ensures NoMeasurement(w)
  {
    hide Measured;
    CellsTellTheRawCount(v, record, applied);
    forall r: C.Record, a: int ensures !MeasuredUnder(w, r, a) {
      if MeasuredUnder(w, r, a) {
        var u: View :| u.Valid() && w == Measured(u, r, a);
        CellsTellTheRawCount(u, r, a);
      }
    }
  }
}
