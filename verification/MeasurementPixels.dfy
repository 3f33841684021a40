/**
 * What the words of a measurement count, told by the pixels of the picture and
 * the words of the settings record, and the filter's turn that publishes them
 * and rewrites the vendor's two counters.
 */
module MeasurementPixels {
  import opened Bytes
  import opened U32
  import opened StatusVerdict
  import C = CasSeqlock
  import P = PixelCounts
  import W = WriterSeqlock

  type Words = W.Words

  // ----- the pixels of a picture -----

  /** Column `x`, row `y` of the image. */
  predicate OnImage(x: int, y: int) { 0 <= x < 640 && 0 <= y < 360 }

  predicate Foreground(p: Picture, x: int, y: int)
    requires p.Seen? && |p.map'| == 640 * 360
  {
    OnImage(x, y) && p.map'[y * 640 + x] != 0
  }

  /** The mask leaves the pixel in: it is off, or the character of the pixel's cell, 32 by 30 pixels, is '0'. */
  predicate LeftIn(record: C.Record, x: int, y: int)
    requires |record| == 241
  {
    OnImage(x, y) && (record[0] == 0 || record[1 + y / 30 * 20 + x / 32] == 48)
  }

  predicate InRectangle(p: Picture, x: int, y: int)
    requires p.Seen?
  {
    p.x0 <= x <= p.x1 && p.y0 <= y <= p.y1
  }

  /** The pixels among the first `n`, row by row, with a property. */
  ghost function Those(has: (int, int) -> bool, n: nat): set<(int, int)> {
    set x: int, y: int | 0 <= x < 640 && 0 <= y < 360 && y * 640 + x < n && has(x, y) :: (x, y)
  }

  lemma PlaceOfPixel(i: nat)
    requires i < 640 * 360
    ensures OnImage(i % 640, i / 640) && i / 640 * 640 + i % 640 == i
  {
  }

  lemma PixelOfPlace(x: int, y: int, i: nat)
    requires OnImage(x, y) && y * 640 + x == i
    ensures x == i % 640 && y == i / 640
  {
  }

  lemma NoPixels(has: (int, int) -> bool)
    ensures Those(has, 0) == {}
  {
  }

  lemma OneMorePixel(has: (int, int) -> bool, n: nat)
    requires n < 640 * 360
    ensures |Those(has, n + 1)| == |Those(has, n)| + if has(n % 640, n / 640) then 1 else 0
  {
    var pixel := (n % 640, n / 640);
    PlaceOfPixel(n);
    var before, after := Those(has, n), Those(has, n + 1);
    assert pixel !in before;
    forall q | q in after && q != pixel ensures q in before { PixelsApart(q.0, q.1, n); }
    if has(pixel.0, pixel.1) {
      assert after == before + {pixel};
    } else {
      assert after == before;
    }
  }

  lemma PixelsApart(x: int, y: int, n: nat)
    requires OnImage(x, y) && y * 640 + x < n + 1 && (x, y) != (n % 640, n / 640)
    ensures y * 640 + x < n
  {
    if y * 640 + x == n { PixelOfPlace(x, y, n); }
  }

  lemma AllPixels(has: (int, int) -> bool)
    ensures Those(has, 640 * 360) == set x: int, y: int | 0 <= x < 640 && 0 <= y < 360 && has(x, y) :: (x, y)
  {
    var all := set x: int, y: int | 0 <= x < 640 && 0 <= y < 360 && has(x, y) :: (x, y);
    forall q | q in all ensures q in Those(has, 640 * 360) { LastPlace(q.0, q.1); }
  }

  lemma LastPlace(x: int, y: int)
    requires OnImage(x, y)
    ensures y * 640 + x < 640 * 360
  {
  }

  // ----- the counters are sizes of sets of pixels -----

  /** What one pixel adds, with the cell's character instead of the mask. */
  lemma IncludedIsLeftIn(record: C.Record, p: Picture, i: nat)
    requires |record| == 241 && p.Seen? && i < P.PIXELS
    ensures P.Included(SettingsOf(record, p), i) == LeftIn(record, i % 640, i / 640)
    ensures P.InRect(SettingsOf(record, p), i) == InRectangle(p, i % 640, i / 640)
  {
    PlaceOfPixel(i);
    CellOfPixel(i);
  }

  lemma CellOfPixel(i: nat)
    requires i < P.PIXELS
    ensures P.CellOf(i) == i / 640 / 30 * 20 + i % 640 / 32
  {
  }

  lemma {:induction false} TallyIsSizes(record: C.Record, p: Picture, n: nat)
    requires |record| == 241 && p.Seen? && |p.map'| == P.PIXELS && n <= P.PIXELS
    ensures var t := P.Count(p.map', SettingsOf(record, p), n);
            && t.raw == |Those((x, y) => Foreground(p, x, y), n)|
            && t.included == |Those((x, y) => Foreground(p, x, y) && LeftIn(record, x, y), n)|
            && t.roi == |Those((x, y) => Foreground(p, x, y) && LeftIn(record, x, y) && InRectangle(p, x, y), n)|
  {
    hide Those, P.InRect, P.Included, LeftIn, InRectangle, SettingsOf;
    var a := (x, y) => Foreground(p, x, y);
    var b := (x, y) => Foreground(p, x, y) && LeftIn(record, x, y);
    var c := (x, y) => Foreground(p, x, y) && LeftIn(record, x, y) && InRectangle(p, x, y);
    if n == 0 {
      NoPixels(a);
      NoPixels(b);
      NoPixels(c);
    } else {
      TallyIsSizes(record, p, n - 1);
      OneMorePixel(a, n - 1);
      OneMorePixel(b, n - 1);
      OneMorePixel(c, n - 1);
      PlaceOfPixel(n - 1);
      IncludedIsLeftIn(record, p, n - 1);
    }
  }

  predicate InCell(x: int, y: int, cell: int) { y / 30 * 20 + x / 32 == cell }

  lemma {:induction false} CellsAreSizes(p: Picture, n: nat, cell: nat)
    requires p.Seen? && |p.map'| == P.PIXELS && n <= P.PIXELS && cell < 240
    ensures P.CellCounts(p.map', n)[cell] == |Those((x, y) => Foreground(p, x, y) && InCell(x, y, cell), n)|
  {
    hide Those, InCell;
    var a := (x, y) => Foreground(p, x, y) && InCell(x, y, cell);
    if n == 0 {
      NoPixels(a);
    } else {
      CellsAreSizes(p, n - 1, cell);
      OneMorePixel(a, n - 1);
      PlaceOfPixel(n - 1);
      CellOfPixel(n - 1);
      InCellIs((n - 1) % 640, (n - 1) / 640, cell);
    }
  }

  lemma InCellIs(x: int, y: int, cell: int)
    ensures InCell(x, y, cell) <==> y / 30 * 20 + x / 32 == cell
  {
  }

  // ----- the law of a measurement -----

  ghost function ForegroundPixels(p: Picture): set<(int, int)>
    requires p.Seen? && |p.map'| == 640 * 360
  {
    set x: int, y: int | 0 <= x < 640 && 0 <= y < 360 && p.map'[y * 640 + x] != 0 :: (x, y)
  }

  lemma ForegroundPixelsAre(p: Picture)
    requires p.Seen? && |p.map'| == 640 * 360
    ensures ForegroundPixels(p) == Those((x, y) => Foreground(p, x, y), 640 * 360)
  {
    var a := (x, y) => Foreground(p, x, y);
    AllPixels(a);
    assert ForegroundPixels(p) == set x: int, y: int | 0 <= x < 640 && 0 <= y < 360 && a(x, y) :: (x, y);
  }

  /** Choosing among the foreground pixels is counting those of the image with both properties. */
  lemma Chosen(p: Picture, has: (int, int) -> bool, s: set<(int, int)>)
    requires p.Seen? && |p.map'| == 640 * 360
    requires forall q :: q in s <==> q in ForegroundPixels(p) && has(q.0, q.1)
    ensures s == Those((x, y) => Foreground(p, x, y) && has(x, y), 640 * 360)
  {
    var a := (x, y) => Foreground(p, x, y) && has(x, y);
    AllPixels(a);
    var all := set x: int, y: int | 0 <= x < 640 && 0 <= y < 360 && a(x, y) :: (x, y);
    forall q: (int, int) ensures q in s <==> q in all {
      assert q == (q.0, q.1);
      assert a(q.0, q.1) == (Foreground(p, q.0, q.1) && has(q.0, q.1));
      assert q in ForegroundPixels(p) <==> OnImage(q.0, q.1) && p.map'[q.1 * 640 + q.0] != 0;
      assert q in all <==> OnImage(q.0, q.1) && a(q.0, q.1);
    }
  }

  /** The pixel's cell lies in the record. */
  lemma CellInRecord(p: Picture, q: (int, int))
    requires p.Seen? && |p.map'| == 640 * 360 && q in ForegroundPixels(p)
    ensures OnImage(q.0, q.1) && 0 <= q.1 / 30 * 20 + q.0 / 32 < 240
  {
  }

  /** The foreground pixels whose character in the record is '0', or all of them when the mask is off. */
  ghost function LeftInPixels(p: Picture, record: C.Record): set<(int, int)>
    requires p.Seen? && |p.map'| == 640 * 360 && |record| == 241
  {
    set q | q in ForegroundPixels(p) && (CellInRecord(p, q); record[0] == 0 || record[1 + q.1 / 30 * 20 + q.0 / 32] == 48)
  }

  /**
   * Every measurement of a seen picture, word by word: the times and the frame
   * number, all foreground pixels, those the record leaves in, those of them in
   * the rectangle, the generation, whether the chip's own two counts add up to the
   * same, and the foreground pixels of every cell.
   */
  lemma MeasurementIsOfThePixels(v: View, record: C.Record, applied: int)
    requires v.Valid() && v.picture.Seen? && |record| == 241
    ensures var w, p := Measured(v, record, applied), v.picture;
            && |w| == 248 && w[0] == v.msLow && w[1] == v.msHigh && w[2] == v.frame && w[6] == applied
            && w[3] == |ForegroundPixels(p)|
            && w[4] == |LeftInPixels(p, record)|
            && w[5] == |set q | q in LeftInPixels(p, record) && p.x0 <= q.0 <= p.x1 && p.y0 <= q.1 <= p.y1|
            && w[7] == (if w[3] == (p.outside + p.inside) % 0x1_0000_0000 then 0 else 3)
            && forall k :: 8 <= k < 248 ==>
                 w[k] == |set q | q in ForegroundPixels(p) && 8 + (q.1 / 30 * 20 + q.0 / 32) == k|
  {
    hide ForegroundPixels, Foreground, LeftIn, InRectangle, Those, SettingsOf, P.Count, P.CellCounts;
    var p := v.picture;
    TallyIsSizes(record, p, P.PIXELS);
    ForegroundPixelsAre(p);
    LeftInPixelsAre(p, record);
    InsidePixelsAre(p, record);
    var w := Measured(v, record, applied);
    forall k | 8 <= k < 248
      ensures w[k] == |set q | q in ForegroundPixels(p) && 8 + (q.1 / 30 * 20 + q.0 / 32) == k|
    {
      CellsAreSizes(p, P.PIXELS, k - 8);
      CellPixelsAre(p, k - 8);
      assert w[k] == P.CellCounts(p.map', P.PIXELS)[k - 8];
      assert (set q | q in ForegroundPixels(p) && 8 + (q.1 / 30 * 20 + q.0 / 32) == k)
          == set q | q in ForegroundPixels(p) && q.1 / 30 * 20 + q.0 / 32 == k - 8;
    }
  }

  lemma LeftInPixelsAre(p: Picture, record: C.Record)
    requires p.Seen? && |p.map'| == 640 * 360 && |record| == 241
    ensures LeftInPixels(p, record) == Those((x, y) => Foreground(p, x, y) && LeftIn(record, x, y), 640 * 360)
  {
    hide ForegroundPixels, Foreground, Those;
    forall q ensures q in LeftInPixels(p, record) <==> q in ForegroundPixels(p) && LeftIn(record, q.0, q.1) {
      if q in ForegroundPixels(p) { CellInRecord(p, q); }
    }
    Chosen(p, (x, y) => LeftIn(record, x, y), LeftInPixels(p, record));
    SameThose((x, y) => Foreground(p, x, y) && ((x, y) => LeftIn(record, x, y))(x, y),
              (x, y) => Foreground(p, x, y) && LeftIn(record, x, y));
  }

  lemma SameThose(a: (int, int) -> bool, b: (int, int) -> bool)
    requires forall x, y :: a(x, y) == b(x, y)
    ensures Those(a, 640 * 360) == Those(b, 640 * 360)
  {
  }

  lemma InsidePixelsAre(p: Picture, record: C.Record)
    requires p.Seen? && |p.map'| == 640 * 360 && |record| == 241
    ensures (set q | q in LeftInPixels(p, record) && p.x0 <= q.0 <= p.x1 && p.y0 <= q.1 <= p.y1)
         == Those((x, y) => Foreground(p, x, y) && LeftIn(record, x, y) && InRectangle(p, x, y), 640 * 360)
  {
    hide ForegroundPixels, Foreground, Those;
    var s := set q | q in LeftInPixels(p, record) && p.x0 <= q.0 <= p.x1 && p.y0 <= q.1 <= p.y1;
    var has := (x, y) => LeftIn(record, x, y) && InRectangle(p, x, y);
    forall q ensures q in s <==> q in ForegroundPixels(p) && has(q.0, q.1) {
      if q in ForegroundPixels(p) { CellInRecord(p, q); }
    }
    Chosen(p, has, s);
    SameThose((x, y) => Foreground(p, x, y) && has(x, y),
              (x, y) => Foreground(p, x, y) && LeftIn(record, x, y) && InRectangle(p, x, y));
  }

  lemma CellPixelsAre(p: Picture, cell: nat)
    requires p.Seen? && |p.map'| == 640 * 360
    ensures (set q | q in ForegroundPixels(p) && q.1 / 30 * 20 + q.0 / 32 == cell)
         == Those((x, y) => Foreground(p, x, y) && InCell(x, y, cell), 640 * 360)
  {
    hide ForegroundPixels, Foreground, Those;
    var s := set q | q in ForegroundPixels(p) && q.1 / 30 * 20 + q.0 / 32 == cell;
    Chosen(p, (x, y) => InCell(x, y, cell), s);
    SameThose((x, y) => Foreground(p, x, y) && ((x, y) => InCell(x, y, cell))(x, y),
              (x, y) => Foreground(p, x, y) && InCell(x, y, cell));
  }

  /** A picture the vendor's context does not hold counts nothing, and the error says why. */
  lemma MeasurementOfNothing(v: View, record: C.Record, applied: int)
    requires v.picture.Unusable? && |record| == 241
    ensures var w := Measured(v, record, applied);
            && |w| == 248 && w[0] == v.msLow && w[1] == v.msHigh && w[2] == v.frame && w[6] == applied
            && w[7] == v.picture.error && forall i :: 3 <= i < 248 && i != 6 && i != 7 ==> w[i] == 0
  {
  }

  /** The words count the pixels of a picture as the record wants them counted, or nothing if it is unusable. */
  ghost predicate CountsOf(w: Words, v: View, record: C.Record)
    requires v.Valid() && |record| == 241 && |w| == 248
  {
    match v.picture
    case Unusable(error) => w[7] == error && forall i :: 3 <= i < 248 && i != 6 && i != 7 ==> w[i] == 0
    case Seen(_, x0, y0, x1, y1, _, _) =>
      && w[3] == |ForegroundPixels(v.picture)|
      && w[4] == |LeftInPixels(v.picture, record)|
      && w[5] == |set q | q in LeftInPixels(v.picture, record) && x0 <= q.0 <= x1 && y0 <= q.1 <= y1|
      && forall k :: 8 <= k < 248 ==>
           w[k] == |set q | q in ForegroundPixels(v.picture) && 8 + (q.1 / 30 * 20 + q.0 / 32) == k|
  }

  /** So what the status reports under a record leaves out the pixels of the cells that record excludes. */
  lemma ReportsLeaveOutExcludedCells(w: Words, record: C.Record, applied: int)
    requires MeasuredUnder(w, record, applied)
    ensures |w| == 248 && exists v: View :: v.Valid() && CountsOf(w, v, record)
  {
    hide Measured, ForegroundPixels, LeftInPixels;
    var v: View :| v.Valid() && w == Measured(v, record, applied);
    if v.picture.Seen? { MeasurementIsOfThePixels(v, record, applied); } else { MeasurementOfNothing(v, record, applied); }
    assert CountsOf(w, v, record);
  }

  lemma UnderHasCells(w: Words, record: C.Record, applied: int)
    requires MeasuredUnder(w, record, applied)
    ensures |record| == 241
  {
    hide Measured;
  }

  /**
   * What `pending:false` means, by the pixel: at a non-zero generation, over a
   * measurement of this boot epoch, the words just read count some picture's
   * pixels as the record in the file wants them counted; at generation zero as
   * a record that excludes nothing does.
   */
  lemma NotPendingCountsThePixels(events: seq<Event>, j: nat)
    requires Legal(Init(), events) && j < |Run(Init(), events).ring.accepted|
    ensures var s := Run(Init(), events);
            var w := s.ring.accepted[j];
            && Sourced(s, j) && |w| == 248
            && (!Pending(s.settings.gen, w) && s.settings.gen != 0
                && Source(s, j).epoch == s.settings.epoch && s.settings.Last() - Source(s, j).version < TWO31 ==>
                |s.settings.mem| == 241 && exists v: View :: v.Valid() && CountsOf(w, v, s.settings.mem))
            && (!Pending(s.settings.gen, w) && s.settings.gen == 0 ==>
                exists v: View :: v.Valid() && CountsOf(w, v, [0] + seq(240, _ => 48)))
  {
    hide Run, Legal, Init, CountsOf, Source, Sourced, MeasuredUnder;
    NotPendingIsTruthful(events, j);
    var s := Run(Init(), events);
    var w := s.ring.accepted[j];
    if !Pending(s.settings.gen, w) {
      if s.settings.gen == 0 {
        ReportsLeaveOutExcludedCells(w, C.Defaults(C.Iva), 0);
        assert C.Defaults(C.Iva) == [0] + seq(240, _ => 48);
      } else if Source(s, j).epoch == s.settings.epoch && s.settings.Last() - Source(s, j).version < TWO31 {
        UnderHasCells(w, s.settings.mem, s.settings.gen);
        ReportsLeaveOutExcludedCells(w, s.settings.mem, s.settings.gen);
      }
    }
  }

  // ----- the filter's turn -----

  /**
   * `motion_iva_filter` between the settings and the publication: one count goes
   * into the words it publishes and into the two counters it leaves behind.
   */
  method Measure(v: View, record: C.Record, applied: int) returns (w: Words, r: P.Registers)
    requires v.Valid() && v.picture.Seen? && |record| == 241
    requires 0 <= v.picture.outside < TWO32 && 0 <= v.picture.inside < TWO32
    ensures w == Measured(v, record, applied)
    ensures w[7] == r.error && (r.error == 0 || r.error == 3)
    ensures r.error == 0 <==> w[3] == Wrap(v.picture.outside + v.picture.inside)
    ensures r.error == 3 || record[0] == 0 ==> r.outside == v.picture.outside && r.inside == v.picture.inside
    ensures r.error == 0 && record[0] != 0 ==> r.inside == w[5] && r.outside == w[4] - w[5]
  {
    hide P.Count, P.CellCounts, Wrap;
    var p := v.picture;
    var s := SettingsOf(record, p);
    var sample := P.CountImage(p.map', s);
    r := P.Rewrite(p.map', s, p.outside, p.inside);
    var t := sample.tally;
    w := [v.msLow, v.msHigh, v.frame, t.raw, t.included, t.roi, applied, r.error] + sample.cells;
  }
}
