/**
 * `motion_iva_count`: foreground pixels counted in chunks of 32, against their
 * definition pixel by pixel, and what the filter then writes back.
 */
module PixelCounts {
  import opened Bytes
  import opened U32

  const WIDTH := 640
  const HEIGHT := 360
  const PIXELS := WIDTH * HEIGHT
  const CELLS := 240

  /** The region of interest, corners included, and the cells left out of it when masking is on. */
  datatype Settings = Settings(x0: int, y0: int, x1: int, y1: int, enabled: bool, excluded: seq<bool>)

  /** The cell of pixel `i`, counted row by row. */
  function CellOf(i: nat): (c: nat)
    requires i < PIXELS
    ensures c < CELLS
  {
    (i / WIDTH / 30) * 20 + i % WIDTH / 32
  }

  predicate Included(s: Settings, i: nat)
    requires i < PIXELS && |s.excluded| == CELLS
  {
    !s.enabled || !s.excluded[CellOf(i)]
  }

  predicate InRect(s: Settings, i: nat) {
    s.x0 <= i % WIDTH <= s.x1 && s.y0 <= i / WIDTH <= s.y1
  }

  datatype Tally = Tally(raw: nat, included: nat, roi: nat)

  /** The counts over the first `n` pixels, one pixel at a time. */
  function Count(map': seq<byte>, s: Settings, n: nat): Tally
    requires |map'| == PIXELS && |s.excluded| == CELLS && n <= PIXELS
  {
    if n == 0 then Tally(0, 0, 0)
    else
      var t := Count(map', s, n - 1);
      if map'[n - 1] == 0 then t
      else if !Included(s, n - 1) then t.(raw := t.raw + 1)
      else Tally(t.raw + 1, t.included + 1, if InRect(s, n - 1) then t.roi + 1 else t.roi)
  }

  /** The per-cell counts over the first `n` pixels. */
  function CellCounts(map': seq<byte>, n: nat): (c: seq<nat>)
    requires |map'| == PIXELS && n <= PIXELS
    ensures |c| == CELLS
  {
    if n == 0 then seq(CELLS, _ => 0)
    else
      var c := CellCounts(map', n - 1);
      if map'[n - 1] == 0 then c else c[CellOf(n - 1) := c[CellOf(n - 1)] + 1]
  }

  function Sum(c: seq<nat>): nat {
    if c == [] then 0 else Sum(c[..|c| - 1]) + c[|c| - 1]
  }

  lemma {:induction false} SumOfZeros(n: nat)
    ensures Sum(seq(n, _ => 0)) == 0
  {
    if n > 0 {
      assert seq(n, _ => 0)[..n - 1] == seq(n - 1, _ => 0);
      SumOfZeros(n - 1);
    }
  }

  lemma {:induction false} SumOfUpdate(c: seq<nat>, k: nat, v: nat)
    requires k < |c|
    ensures Sum(c[k := v]) == Sum(c) - c[k] + v
  {
    var n := |c| - 1;
    if k == n {
      assert c[k := v][..n] == c[..n];
    } else {
      assert c[k := v][..n] == c[..n][k := v];
      SumOfUpdate(c[..n], k, v);
    }
  }

  /** The cells account for every counted pixel. */
  lemma {:induction false} CellsSumToRaw(map': seq<byte>, s: Settings, n: nat)
    requires |map'| == PIXELS && |s.excluded| == CELLS && n <= PIXELS
    ensures Sum(CellCounts(map', n)) == Count(map', s, n).raw
  {
    hide CellOf, InRect, Included;
    if n == 0 {
      SumOfZeros(CELLS);
    } else {
      CellsSumToRaw(map', s, n - 1);
      var c := CellCounts(map', n - 1);
      SumOfUpdate(c, CellOf(n - 1), c[CellOf(n - 1)] + 1);
    }
  }

  /** Inside counts never exceed included ones, nor those all of them. */
  lemma {:induction false} CountsNest(map': seq<byte>, s: Settings, n: nat)
    requires |map'| == PIXELS && |s.excluded| == CELLS && n <= PIXELS
    ensures var t := Count(map', s, n);
            t.roi <= t.included <= t.raw <= n
  {
    if n > 0 { CountsNest(map', s, n - 1); }
  }

  /** Excluding more cells never counts more. */
  lemma {:induction false} ExcludingNeverCountsMore(map': seq<byte>, s: Settings, wider: seq<bool>, n: nat)
    requires |map'| == PIXELS && |s.excluded| == CELLS == |wider| && n <= PIXELS
    requires forall c :: 0 <= c < CELLS && s.excluded[c] ==> wider[c]
    ensures var t, u := Count(map', s, n), Count(map', s.(excluded := wider), n);
            u.raw == t.raw && u.included <= t.included && u.roi <= t.roi
  {
    if n > 0 { ExcludingNeverCountsMore(map', s, wider, n - 1); }
  }

  // ----- chunks -----

  /** Non-zero pixels from `a` up to `b`. */
  function NonZero(map': seq<byte>, a: nat, b: nat): (n: nat)
    requires b <= |map'|
    ensures a <= b ==> n <= b - a
  {
    if b <= a then 0 else NonZero(map', a, b - 1) + if map'[b - 1] != 0 then 1 else 0
  }

  /** Row, column and cell of a pixel inside a chunk. */
  lemma PixelPlace(y: nat, column: nat, k: nat)
    requires y < HEIGHT && column < 20 && k < 32
    ensures var i := y * WIDTH + column * 32 + k;
            && i < PIXELS
            && i / WIDTH == y && i % WIDTH == column * 32 + k
            && CellOf(i) == y / 30 * 20 + column
  {
  }

  /** The chunk's pixels inside the rectangle: those between the clipped edges. */
  function ChunkRoi(map': seq<byte>, s: Settings, y: nat, column: nat, k: nat): nat
    requires |map'| == PIXELS && y < HEIGHT && column < 20 && k <= 32
  {
    var row := y * WIDTH;
    var left := column * 32;
    var begin := if left > s.x0 then left else s.x0;
    var end := if left + k - 1 < s.x1 then left + k - 1 else s.x1;
    if s.y0 <= y <= s.y1 && begin <= end then NonZero(map', row + begin, row + end + 1) else 0
  }

  lemma ChunkRoiStep(map': seq<byte>, s: Settings, y: nat, column: nat, k: nat)
    requires |map'| == PIXELS && y < HEIGHT && column < 20 && k < 32
    ensures var i := y * WIDTH + column * 32 + k;
            && i < PIXELS
            && ChunkRoi(map', s, y, column, k + 1)
               == ChunkRoi(map', s, y, column, k) + if map'[i] != 0 && InRect(s, i) then 1 else 0
  {
    PixelPlace(y, column, k);
  }

  /** What a chunk adds to the totals: `n` pixels, `inside` of them in the rectangle, kept or dropped as one. */
  function Added(t: Tally, n: nat, inside: nat, keep: bool): Tally {
    if keep then Tally(t.raw + n, t.included + n, t.roi + inside) else t.(raw := t.raw + n)
  }

  predicate Keep(s: Settings, cell: nat)
    requires |s.excluded| == CELLS && cell < CELLS
  {
    !s.enabled || !s.excluded[cell]
  }

  /** One pixel of a cell, counted. */
  lemma CountPixel(map': seq<byte>, s: Settings, i: nat, cell: nat)
    requires |map'| == PIXELS && |s.excluded| == CELLS && i < PIXELS && cell == CellOf(i)
    ensures cell < CELLS
    ensures Count(map', s, i + 1)
         == Added(Count(map', s, i), if map'[i] != 0 then 1 else 0,
                  if map'[i] != 0 && InRect(s, i) then 1 else 0, Keep(s, cell))
  {
    hide CellOf, InRect;
  }

  /** `k` pixels of a chunk add to the totals what the chunk counters say. */
  lemma {:induction false} ChunkCount(map': seq<byte>, s: Settings, y: nat, column: nat, base: nat, cell: nat, k: nat)
    requires |map'| == PIXELS && |s.excluded| == CELLS && y < HEIGHT && column < 20 && k <= 32
    requires base == y * WIDTH + column * 32 && cell == y / 30 * 20 + column
    ensures base + k <= PIXELS && cell < CELLS
    ensures Count(map', s, base + k)
         == Added(Count(map', s, base), NonZero(map', base, base + k), ChunkRoi(map', s, y, column, k), Keep(s, cell))
  {
    hide Count, CellOf, InRect, ChunkRoi, Keep;
    if k > 0 {
      PixelPlace(y, column, k - 1);
      ChunkCount(map', s, y, column, base, cell, k - 1);
      CountPixel(map', s, base + k - 1, cell);
      ChunkRoiStep(map', s, y, column, k - 1);
      assert base + (k - 1) + 1 == base + k;
    } else {
      PixelPlace(y, column, 0);
      NoRoiYet(map', s, y, column);
    }
  }

  lemma NoRoiYet(map': seq<byte>, s: Settings, y: nat, column: nat)
    requires |map'| == PIXELS && y < HEIGHT && column < 20
    ensures ChunkRoi(map', s, y, column, 0) == 0
  {
  }

  lemma {:induction false} ChunkCells(map': seq<byte>, y: nat, column: nat, k: nat)
    requires |map'| == PIXELS && y < HEIGHT && column < 20 && k <= 32
    ensures var base := y * WIDTH + column * 32;
            && base + k <= PIXELS
            && var cell := y / 30 * 20 + column;
               cell < CELLS &&
               CellCounts(map', base + k)
               == CellCounts(map', base)[cell := CellCounts(map', base)[cell] + NonZero(map', base, base + k)]
  {
    if k > 0 {
      PixelPlace(y, column, k - 1);
      ChunkCells(map', y, column, k - 1);
    } else {
      PixelPlace(y, column, 0);
    }
  }

  /** `motion_iva_count32`, in its scalar form. */
  method CountRun(map': seq<byte>, a: nat, b: nat) returns (n: nat)
    requires a <= b <= |map'|
    ensures n == NonZero(map', a, b)
  {
    n := 0;
    var i := a;
    while i < b
      invariant a <= i <= b && n == NonZero(map', a, i)
    {
      if map'[i] != 0 { n := n + 1; }
      i := i + 1;
    }
  }

  /** The three ways a chunk meets the rectangle. */
  method CountRoi(map': seq<byte>, s: Settings, y: nat, column: nat, count: nat) returns (roi: nat)
    requires |map'| == PIXELS && y < HEIGHT && column < 20
    requires y * WIDTH + column * 32 + 32 <= PIXELS
    requires count == NonZero(map', y * WIDTH + column * 32, y * WIDTH + column * 32 + 32)
    ensures roi == ChunkRoi(map', s, y, column, 32)
  {
    var left, right := column * 32, column * 32 + 31;
    roi := 0;
    NonZeroPart(map', y * WIDTH + left, y * WIDTH + left + 32);
    if count > 0 && y >= s.y0 && y <= s.y1 {
      if left >= s.x0 && right <= s.x1 {
        roi := count;
      } else if right >= s.x0 && left <= s.x1 {
        var begin := if left > s.x0 then left else s.x0;
        var end := if right < s.x1 then right else s.x1;
        if begin <= end { roi := CountRun(map', y * WIDTH + begin, y * WIDTH + end + 1); }
      }
    }
  }

  /** A chunk without foreground has none in any part. */
  lemma NonZeroPart(map': seq<byte>, a: nat, b: nat)
    requires b <= |map'|
    ensures NonZero(map', a, b) == 0 ==> forall c: nat, d: nat :: a <= c && d <= b ==> NonZero(map', c, d) == 0
  {
    if NonZero(map', a, b) == 0 {
      forall c: nat, d: nat | a <= c && d <= b ensures NonZero(map', c, d) == 0 {
        AllZero(map', a, b, c, d);
      }
    }
  }

  lemma {:induction false} AllZero(map': seq<byte>, a: nat, b: nat, c: nat, d: nat)
    requires a <= c && d <= b <= |map'| && NonZero(map', a, b) == 0
    ensures NonZero(map', c, d) == 0
    decreases b
  {
    if c < d {
      if d == b {
        AllZero(map', a, b - 1, c, d - 1);
      } else {
        AllZero(map', a, b - 1, c, d);
      }
    }
  }

  datatype Sample = Sample(tally: Tally, cells: seq<nat>)

  /** One row of chunks. */
  method CountRow(map': seq<byte>, s: Settings, y: nat, before: Sample) returns (after: Sample)
    requires |map'| == PIXELS && |s.excluded| == CELLS && y < HEIGHT
    requires before == Sample(Count(map', s, y * WIDTH), CellCounts(map', y * WIDTH))
    ensures after == Sample(Count(map', s, y * WIDTH + WIDTH), CellCounts(map', y * WIDTH + WIDTH))
  {
    hide Count, CellCounts, ChunkRoi, NonZero;
    var row := y / 30;
    var column := 0;
    after := before;
    while column < 20
      invariant 0 <= column <= 20
      invariant after == Sample(Count(map', s, y * WIDTH + column * 32), CellCounts(map', y * WIDTH + column * 32))
    {
      ChunkCount(map', s, y, column, y * WIDTH + column * 32, y / 30 * 20 + column, 32);
      ChunkCells(map', y, column, 32);
      var base := y * WIDTH + column * 32;
      var count := CountRun(map', base, base + 32);
      var roi := CountRoi(map', s, y, column, count);
      var cell := row * 20 + column;
      var t := after.tally;
      var keep := !s.enabled || !s.excluded[cell];
      after := Sample(
        Tally(t.raw + count, if keep then t.included + count else t.included, if keep then t.roi + roi else t.roi),
        after.cells[cell := after.cells[cell] + count]);
      column := column + 1;
    }
  }

  /** `motion_iva_count`: the chunked counts are the pixel-by-pixel ones. */
  method CountImage(map': seq<byte>, s: Settings) returns (r: Sample)
    requires |map'| == PIXELS && |s.excluded| == CELLS
    ensures r == Sample(Count(map', s, PIXELS), CellCounts(map', PIXELS))
  {
    r := Sample(Tally(0, 0, 0), seq(CELLS, _ => 0));
    var y := 0;
    while y < HEIGHT
      invariant 0 <= y <= HEIGHT
      invariant r == Sample(Count(map', s, y * WIDTH), CellCounts(map', y * WIDTH))
    {
      r := CountRow(map', s, y, r);
      y := y + 1;
    }
  }

  /** What the filter leaves in the two counter registers, and its error code. */
  datatype Registers = Registers(outside: int, inside: int, error: int)

  /**
   * The write-back of `motion_iva_filter`.  Whenever it rewrites, both counters
   * stay non-negative and their sum shrinks to the included pixels.
   */
  method Rewrite(map': seq<byte>, s: Settings, outside: int, inside: int) returns (r: Registers)
    requires |map'| == PIXELS && |s.excluded| == CELLS
    requires 0 <= outside < TWO32 && 0 <= inside < TWO32
    ensures var t := Count(map', s, PIXELS);
            && (t.raw != Wrap(outside + inside) ==> r == Registers(outside, inside, 3))
            && (t.raw == Wrap(outside + inside) && !s.enabled ==> r == Registers(outside, inside, 0))
            && (t.raw == Wrap(outside + inside) && s.enabled ==>
                r.error == 0 && r.inside == t.roi && r.outside + r.inside == t.included)
    ensures 0 <= r.outside < TWO32 && 0 <= r.inside < TWO32
    ensures r.error == 0 ==> r.outside + r.inside <= outside + inside
  {
    hide Count, CellCounts;
    CountsNest(map', s, PIXELS);
    var sample := CountImage(map', s);
    if sample.tally.raw != Wrap(outside + inside) { return Registers(outside, inside, 3); }
    if !s.enabled { return Registers(outside, inside, 0); }
    r := Registers(sample.tally.included - sample.tally.roi, sample.tally.roi, 0);
  }
}
