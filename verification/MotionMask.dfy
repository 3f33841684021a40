/**
 * `motion_mask_vector` and `motion_mask_score`: which coded blocks move, and
 * how much of the visible image the moving blocks outside the mask cover.
 */
module MotionMask {
  import opened Bytes
  import PixelCounts

  const COLUMNS := 40
  const ROWS := 23
  const BLOCKS := COLUMNS * ROWS
  const CELLS := 240
  const WIDTH := 640
  const IMAGE := WIDTH * 360

  // ----- one motion vector record -----

  /** A sub-vector, as two five-bit fields. */
  datatype Sub = Sub(x: bv8, y: bv8)

  /** The 56 bits of a record: four sub-vectors, the base vector and the intra flag. */
  datatype Fields = Fields(s0: Sub, s1: Sub, s2: Sub, s3: Sub, baseY: bv8, baseX: bv8, intra: bool) {
    predicate Valid() { Small(s0) && Small(s1) && Small(s2) && Small(s3) && baseY < 128 }

    function At(k: nat): Sub
      requires k < 4
    {
      if k == 0 then s0 else if k == 1 then s1 else if k == 2 then s2 else s3
    }
  }

  predicate Small(s: Sub) { s.x < 32 && s.y < 32 }

  // The words the source assembles, and the fields it shifts out of them.

  function Low(a: bv8, b: bv8, c: bv8, d: bv8): bv32 {
    (a as bv32) | ((b as bv32) << 8) | ((c as bv32) << 16) | ((d as bv32) << 24)
  }

  function High(a: bv8, b: bv8, c: bv8): bv32 {
    (a as bv32) | ((b as bv32) << 8) | ((c as bv32) << 16)
  }

  function Sub0(lo: bv32): (s: Sub)
    ensures Small(s)
  {
    Sub(((lo >> 5) & 31) as bv8, (lo & 31) as bv8)
  }

  function Sub1(lo: bv32): (s: Sub)
    ensures Small(s)
  {
    Sub(((lo >> 15) & 31) as bv8, ((lo >> 10) & 31) as bv8)
  }

  function Sub2(lo: bv32): (s: Sub)
    ensures Small(s)
  {
    Sub(((lo >> 25) & 31) as bv8, ((lo >> 20) & 31) as bv8)
  }

  function Sub3(d: bv8, e: bv8): (s: Sub)
    ensures Small(s)
  {
    Sub(e >> 3, ((e & 7) << 2) | (d >> 6))
  }

  function BaseY(f: bv8): (r: bv8)
    ensures r < 128
  {
    f & 127
  }

  function BaseX(hi: bv32): bv8 { ((hi >> 15) & 255) as bv8 }
  predicate Intra(g: bv8) { g & 128 != 0 }

  function Unpack(p: seq<bv8>): (f: Fields)
    requires |p| == 8
    ensures f.Valid()
  {
    var lo := Low(p[0], p[1], p[2], p[3]);
    Fields(Sub0(lo), Sub1(lo), Sub2(lo), Sub3(p[3], p[4]), BaseY(p[5]), BaseX(High(p[4], p[5], p[6])), Intra(p[6]))
  }

  // The bytes that carry given fields, laid out from the lowest bit up.

  function Byte0(s: Sub): bv8 { s.y | (s.x << 5) }
  function Byte1(s: Sub, t: Sub): bv8 { (s.x >> 3) | (t.y << 2) | (t.x << 7) }
  function Byte2(s: Sub, t: Sub): bv8 { (s.x >> 1) | (t.y << 4) }
  function Byte3(s: Sub, t: Sub): bv8 { (s.y >> 4) | (s.x << 1) | (t.y << 6) }
  function Byte4(s: Sub): bv8 { (s.y >> 2) | (s.x << 3) }
  function Byte5(y: bv8, x: bv8): bv8 { y | (x << 7) }
  function Byte6(x: bv8, intra: bool): bv8 { (x >> 1) | (if intra then 128 as bv8 else 0 as bv8) }

  function Pack(f: Fields, unused: bv8): (p: seq<bv8>)
    ensures |p| == 8
  {
    [Byte0(f.s0), Byte1(f.s0, f.s1), Byte2(f.s1, f.s2), Byte3(f.s2, f.s3), Byte4(f.s3),
     Byte5(f.baseY, f.baseX), Byte6(f.baseX, f.intra), unused]
  }

  lemma LowSubs(s: Sub, t: Sub, u: Sub, v: Sub)
    requires Small(s) && Small(t) && Small(u) && Small(v)
    ensures var lo := Low(Byte0(s), Byte1(s, t), Byte2(t, u), Byte3(u, v));
      Sub0(lo) == s && Sub1(lo) == t && Sub2(lo) == u
  {
  }

  lemma HighSub(u: Sub, v: Sub)
    requires Small(u) && Small(v)
    ensures Sub3(Byte3(u, v), Byte4(v)) == v
    {
  }

  lemma BaseFields(s: Sub, y: bv8, x: bv8, intra: bool)
    requires y < 128
    ensures BaseY(Byte5(y, x)) == y && BaseX(High(Byte4(s), Byte5(y, x), Byte6(x, intra))) == x && Intra(Byte6(x, intra)) == intra
   {
  }

  /** The fields shifted out of a record are the ones laid into it. */
  lemma UnpackOfPack(f: Fields, unused: bv8)
    requires f.Valid()
    ensures Unpack(Pack(f, unused)) == f
  {
    hide Low, High, Sub0, Sub1, Sub2, Sub3, BaseY, BaseX, Intra, Byte0, Byte1, Byte2, Byte3, Byte4, Byte5, Byte6;
    LowSubs(f.s0, f.s1, f.s2, f.s3);
    HighSub(f.s2, f.s3);
    BaseFields(f.s3, f.baseY, f.baseX, f.intra);
  }

  /** And no record holds anything else. */
  lemma PackOfUnpack(p: seq<bv8>)
    requires |p| == 8
    ensures Pack(Unpack(p), p[7]) == p
  {
  }

  /** `motion_mask_signed`. */
  function Signed(bits: bv8, sign: bv8): int {
    ((bits ^ sign) as int) - (sign as int)
  }

  /** It reads a field of five, seven or eight bits as two's complement. */
  lemma SignedIsTwosComplement(bits: bv8, sign: bv8)
    requires (sign == 16 && bits < 32) || (sign == 64 && bits < 128) || sign == 128
    ensures Signed(bits, sign) == if bits < sign then bits as int else (bits as int) - 2 * (sign as int)
  {
    if bits < sign {
      assert bits ^ sign == bits + sign;
    } else {
      assert bits ^ sign == bits - sign;
    }
  }

  /** Sub-vector `k`, in quarter pixels, reaches the threshold in either direction. */
  predicate Reaches(f: Fields, k: nat, pixels: int)
    requires k < 4
  {
    var x := Signed(f.baseX, 128) * 4 + Signed(f.At(k).x, 16);
    var y := Signed(f.baseY, 64) * 4 + Signed(f.At(k).y, 16);
    x >= pixels * 4 || x <= -pixels * 4 || y >= pixels * 4 || y <= -pixels * 4
  }

  predicate VectorMoves(p: seq<bv8>, pixels: int)
    requires |p| == 8
  {
    !Unpack(p).intra && exists k: nat :: k < 4 && Reaches(Unpack(p), k, pixels)
  }

  /** A field of so many bits, `half` being its highest, as two's complement. */
  function TwosComplement(bits: bv8, half: int): int {
    if (bits as int) < half then bits as int else (bits as int) - 2 * half
  }

  /** A displacement of whole pixels and quarters that is at least so many pixels either way. */
  predicate Far(whole: int, quarters: int, pixels: int) {
    var d := (whole as real) + (quarters as real) / 4.0;
    d >= pixels as real || d <= -(pixels as real)
  }

  /** A sub-vector of the record, added to the base vector, is displaced so far in x or in y. */
  predicate Displaced(f: Fields, s: Sub, pixels: int) {
    || Far(TwosComplement(f.baseX, 128), TwosComplement(s.x, 16), pixels)
    || Far(TwosComplement(f.baseY, 64), TwosComplement(s.y, 16), pixels)
  }

  predicate SomeDisplaced(f: Fields, pixels: int) {
    Displaced(f, f.s0, pixels) || Displaced(f, f.s1, pixels) || Displaced(f, f.s2, pixels) || Displaced(f, f.s3, pixels)
  }

  lemma FarInQuarters(whole: int, quarters: int, pixels: int)
    ensures Far(whole, quarters, pixels) <==> whole * 4 + quarters >= pixels * 4 || whole * 4 + quarters <= -pixels * 4
  {
  }

  lemma ReachesIsDisplaced(f: Fields, k: nat, pixels: int)
    requires f.Valid() && k < 4
    ensures Reaches(f, k, pixels) <==> Displaced(f, f.At(k), pixels)
  {
    hide Signed, TwosComplement, Far;
    SubFields(f, k);
    SignedAsTwosComplement(f.baseX, 128);
    SignedAsTwosComplement(f.baseY, 64);
    SignedAsTwosComplement(f.At(k).x, 16);
    SignedAsTwosComplement(f.At(k).y, 16);
    FarInQuarters(TwosComplement(f.baseX, 128), TwosComplement(f.At(k).x, 16), pixels);
    FarInQuarters(TwosComplement(f.baseY, 64), TwosComplement(f.At(k).y, 16), pixels);
  }

  lemma SubFields(f: Fields, k: nat)
    requires f.Valid() && k < 4
    ensures f.At(k).x < 32 && f.At(k).y < 32 && f.baseY < 128
  {
  }

  lemma SignedAsTwosComplement(bits: bv8, sign: bv8)
    requires (sign == 16 && bits < 32) || (sign == 64 && bits < 128) || sign == 128
    ensures Signed(bits, sign) == TwosComplement(bits, sign as int)
  {
    hide Signed;
    SignedIsTwosComplement(bits, sign);
    LessAsInt(bits, sign);
  }

  lemma LessAsInt(a: bv8, b: bv8)
    ensures a < b <==> a as int < b as int
  {
  }

  /**
   * A record with these fields moves exactly when it is not intra and one of
   * its four sub-vectors, added to the base vector, is displaced by the
   * threshold or more in x or in y.
   */
  lemma RecordMovesExactly(f: Fields, unused: bv8, pixels: int)
    requires f.Valid()
    ensures VectorMoves(Pack(f, unused), pixels) <==> !f.intra && SomeDisplaced(f, pixels)
  {
    hide Reaches, Displaced, Pack, Unpack;
    UnpackOfPack(f, unused);
    forall k: nat | k < 4 ensures Reaches(f, k, pixels) <==> Displaced(f, f.At(k), pixels) {
      ReachesIsDisplaced(f, k, pixels);
    }
    assert f.At(0) == f.s0 && f.At(1) == f.s1 && f.At(2) == f.s2 && f.At(3) == f.s3;
    if SomeDisplaced(f, pixels) {
      assert Reaches(f, 0, pixels) || Reaches(f, 1, pixels) || Reaches(f, 2, pixels) || Reaches(f, 3, pixels);
    }
  }

  /** `motion_mask_vector`. */
  method MoveTest(p: seq<bv8>, pixels: int) returns (moves: bool)
    requires |p| == 8
    ensures moves == VectorMoves(p, pixels)
  {
    hide Sub0, Sub1, Sub2, Sub3, Low, High, BaseX, BaseY, Signed, Reaches;
    if p[6] & 128 != 0 { return false; }
    var lo := Low(p[0], p[1], p[2], p[3]);
    var hi := High(p[4], p[5], p[6]);
    var f := Fields(Sub0(lo), Sub1(lo), Sub2(lo), Sub3(p[3], p[4]), BaseY(p[5]), BaseX(hi), false);
    var k := 0;
    while k < 4
      invariant 0 <= k <= 4 && forall j: nat :: j < k ==> !Reaches(f, j, pixels)
    {
      if Reaches(f, k, pixels) { return true; }
      k := k + 1;
    }
    return false;
  }

  // ----- the blocks of a frame -----

  datatype Frame = Frame(pid: nat, frame: nat, pFrame: bool, ms: int, vectors: seq<bv8>, difference: seq<byte>) {
    ghost predicate Valid() { |vectors| == BLOCKS * 8 && |difference| == BLOCKS }
  }

  /** The visible height of a block: only eight rows of the last coded row are seen. */
  function Height(i: nat): (h: nat)
    ensures h == 8 || h == 16
  {
    if i / COLUMNS == 22 then 8 else 16
  }

  function BlockCell(i: nat): (c: nat)
    requires i < BLOCKS
    ensures c < CELLS
  {
    var y := i / COLUMNS;
    assert y <= 22 && i % COLUMNS / 2 < 20;
    (y * 16 + Height(i) / 2) * 12 / 360 * 20 + i % COLUMNS / 2
  }

  /** A block belongs to the mask cell that holds the pixel at its middle. */
  lemma BlockCellHoldsTheMiddle(i: nat)
    requires i < BLOCKS
    ensures var middle := (i / COLUMNS * 16 + Height(i) / 2) * WIDTH + i % COLUMNS * 16 + 8;
            middle < IMAGE && BlockCell(i) == PixelCounts.CellOf(middle)
  {
    hide PixelCounts.CellOf;
    var y, x := i / COLUMNS * 16 + Height(i) / 2, i % COLUMNS * 16 + 8;
    assert y < 360 && x < WIDTH;
    MiddleCell(y, x);
    assert y * 12 / 360 == y / 30;
    assert x / 32 == i % COLUMNS / 2;
  }

  lemma MiddleCell(y: nat, x: nat)
    requires y < 360 && x < WIDTH
    ensures y * WIDTH + x < IMAGE && PixelCounts.CellOf(y * WIDTH + x) == y / 30 * 20 + x / 32
  {
    assert (y * WIDTH + x) / WIDTH == y && (y * WIDTH + x) % WIDTH == x;
  }

  /** What a score remembers of the frame before. */
  datatype Memory = Memory(havePrevious: bool, previous: seq<byte>, previousMs: int, lastPid: nat)

  datatype Settings = Settings(pixels: int, difference: int, excluded: seq<bool>)

  predicate Temporal(m: Memory, s: Frame) {
    m.havePrevious && s.pid == m.lastPid && s.ms > m.previousMs && s.ms - m.previousMs <= 500
  }

  predicate BlockMoves(c: Settings, m: Memory, s: Frame, i: nat)
    requires s.Valid() && |m.previous| == BLOCKS && i < BLOCKS
  {
    var p := s.vectors[i * 8..i * 8 + 8];
    var delta := (s.difference[i] as int) - m.previous[i] as int;
    s.pFrame && (VectorMoves(p, c.pixels)
                 || (Temporal(m, s) && p[6] & 128 != 0 && c.difference > 0
                     && (delta >= c.difference || -delta >= c.difference)))
  }

  lemma IntraOfPack(f: Fields, unused: bv8)
    requires f.Valid()
    ensures (Pack(f, unused)[6] & 128 != 0) == f.intra
  {
    hide Sub0, Sub1, Sub2, Sub3, Low, High, Byte0, Byte1, Byte2, Byte3, Byte4, Byte5, BaseX, BaseY;
    UnpackOfPack(f, unused);
  }

  /**
   * In a P frame an intra block moves when its difference value has changed by
   * the threshold within half a second of the same recording process, any
   * other block when its vectors do; in other frames nothing moves.
   */
  lemma BlockMovesExactly(c: Settings, m: Memory, s: Frame, i: nat, f: Fields, unused: bv8)
    requires s.Valid() && |m.previous| == BLOCKS && i < BLOCKS
    requires f.Valid() && s.vectors[i * 8..i * 8 + 8] == Pack(f, unused)
    ensures BlockMoves(c, m, s, i) <==>
            && s.pFrame
            && if f.intra then
                 && m.havePrevious && s.pid == m.lastPid && m.previousMs < s.ms <= m.previousMs + 500
                 && c.difference > 0
                 && (s.difference[i] >= m.previous[i] + c.difference || m.previous[i] >= s.difference[i] + c.difference)
               else SomeDisplaced(f, c.pixels)
  {
    hide VectorMoves, SomeDisplaced, Pack;
    IntraOfPack(f, unused);
    RecordMovesExactly(f, unused, c.pixels);
  }

  function Moving(c: Settings, m: Memory, s: Frame): (r: seq<bool>)
    requires s.Valid() && |m.previous| == BLOCKS
    ensures |r| == BLOCKS
  {
    seq(BLOCKS, i requires 0 <= i < BLOCKS => BlockMoves(c, m, s, i))
  }

  /** The moving blocks the mask leaves in. */
  function Counted(moving: seq<bool>, excluded: seq<bool>): (on: seq<bool>)
    requires |moving| == BLOCKS && |excluded| == CELLS
    ensures |on| == BLOCKS
  {
    seq(BLOCKS, i requires 0 <= i < BLOCKS => moving[i] && !excluded[BlockCell(i)])
  }

  /** The area of the counted blocks among the first `n`. */
  function Area(on: seq<bool>, n: nat): nat
    requires n <= |on|
  {
    if n == 0 then 0 else Area(on, n - 1) + if on[n - 1] then 16 * Height(n - 1) else 0
  }

  /** The cells in which some block among the first `n` moves. */
  function Activity(moving: seq<bool>, n: nat): (a: seq<bool>)
    requires |moving| == BLOCKS && n <= BLOCKS
    ensures |a| == CELLS
  {
    if n == 0 then seq(CELLS, _ => false)
    else
      var a := Activity(moving, n - 1);
      if moving[n - 1] then a[BlockCell(n - 1) := true] else a
  }

  lemma {:induction false} ActivityMeans(moving: seq<bool>, n: nat, cell: nat)
    requires |moving| == BLOCKS && n <= BLOCKS && cell < CELLS
    ensures Activity(moving, n)[cell] <==> exists i: nat :: i < n && moving[i] && BlockCell(i) == cell
  {
    hide BlockCell;
    if n > 0 {
      ActivityMeans(moving, n - 1, cell);
      if moving[n - 1] && BlockCell(n - 1) == cell { assert Activity(moving, n)[cell]; }
    }
  }

  // ----- the area is a number of pixels -----

  /** The block that pixel `i`, counted row by row, lies in. */
  function BlockOf(i: nat): (b: nat)
    requires i < IMAGE
    ensures b < BLOCKS
  {
    i / WIDTH / 16 * COLUMNS + i % WIDTH / 16
  }

  function PixelsOn(on: seq<bool>, n: nat): nat
    requires |on| == BLOCKS && n <= IMAGE
  {
    if n == 0 then 0 else PixelsOn(on, n - 1) + if on[BlockOf(n - 1)] then 1 else 0
  }

  /** Counted blocks among the first `x` of block row `y`. */
  function RowOn(on: seq<bool>, y: nat, x: nat): nat
    requires |on| == BLOCKS && y < ROWS && x <= COLUMNS
  {
    if x == 0 then 0 else RowOn(on, y, x - 1) + if on[y * COLUMNS + x - 1] then 1 else 0
  }

  lemma PixelPlace(row: nat, x: nat, j: nat)
    requires row < 360 && x < COLUMNS && j < 16
    ensures var i := row * WIDTH + x * 16 + j;
            i < IMAGE && BlockOf(i) == row / 16 * COLUMNS + x
  {
    var i := row * WIDTH + x * 16 + j;
    assert i / WIDTH == row && i % WIDTH == x * 16 + j;
  }

  lemma {:induction false} StretchOfBlock(on: seq<bool>, row: nat, x: nat, base: nat, j: nat)
    requires |on| == BLOCKS && row < 360 && x < COLUMNS && j <= 16 && base == row * WIDTH + x * 16
    ensures base + j <= IMAGE
    ensures row / 16 * COLUMNS + x < BLOCKS
    ensures PixelsOn(on, base + j) == PixelsOn(on, base) + if on[row / 16 * COLUMNS + x] then j else 0
  {
    hide BlockOf;
    if j > 0 {
      StretchOfBlock(on, row, x, base, j - 1);
      PixelPlace(row, x, j - 1);
    }
  }

  lemma {:induction false} PixelRow(on: seq<bool>, row: nat, x: nat)
    requires |on| == BLOCKS && row < 360 && x <= COLUMNS
    ensures row * WIDTH + x * 16 <= IMAGE && row / 16 < ROWS
    ensures PixelsOn(on, row * WIDTH + x * 16) == PixelsOn(on, row * WIDTH) + 16 * RowOn(on, row / 16, x)
  {
    hide PixelsOn;
    if x > 0 {
      PixelRow(on, row, x - 1);
      StretchOfBlock(on, row, x - 1, row * WIDTH + (x - 1) * 16, 16);
    }
  }

  lemma {:induction false} PixelRows(on: seq<bool>, y: nat, k: nat)
    requires |on| == BLOCKS && y < ROWS && k <= 16 && y * 16 + k <= 360
    ensures PixelsOn(on, (y * 16 + k) * WIDTH) == PixelsOn(on, y * 16 * WIDTH) + k * (16 * RowOn(on, y, COLUMNS))
  {
    hide PixelsOn, RowOn;
    if k > 0 {
      PixelRows(on, y, k - 1);
      PixelRow(on, y * 16 + (k - 1), COLUMNS);
      assert (y * 16 + (k - 1)) * WIDTH + COLUMNS * 16 == (y * 16 + k) * WIDTH;
    }
  }

  lemma {:induction false} AreaOfRow(on: seq<bool>, y: nat, x: nat)
    requires |on| == BLOCKS && y < ROWS && x <= COLUMNS
    ensures Area(on, y * COLUMNS + x)
         == Area(on, y * COLUMNS) + 16 * (if y == 22 then 8 else 16) * RowOn(on, y, x)
  {
    if x > 0 {
      AreaOfRow(on, y, x - 1);
      assert (y * COLUMNS + x - 1) / COLUMNS == y;
    }
  }

  lemma RowsAgree(on: seq<bool>, y: nat)
    requires |on| == BLOCKS && y < ROWS
    ensures var k := if y == 22 then 8 else 16;
            Area(on, y * COLUMNS + COLUMNS) - Area(on, y * COLUMNS)
            == PixelsOn(on, (y * 16 + k) * WIDTH) - PixelsOn(on, y * 16 * WIDTH)
  {
    hide Area, PixelsOn, RowOn;
    AreaOfRow(on, y, COLUMNS);
    if y == 22 { PixelRows(on, 22, 8); } else { PixelRows(on, y, 16); }
  }

  /** The summed block areas are the visible pixels of the counted blocks. */
  lemma {:induction false} AreaCountsPixels(on: seq<bool>, y: nat)
    requires |on| == BLOCKS && y <= ROWS
    ensures Area(on, y * COLUMNS) == PixelsOn(on, if y == ROWS then IMAGE else y * 16 * WIDTH)
  {
    if y > 0 {
      hide Area, PixelsOn;
      var z := y - 1;
      AreaCountsPixels(on, z);
      RowsAgree(on, z);
      assert z * COLUMNS + COLUMNS == y * COLUMNS;
      assert (z * 16 + (if z == 22 then 8 else 16)) * WIDTH == if y == ROWS then IMAGE else y * 16 * WIDTH;
    }
  }

  // ----- the score -----

  /** Percent of the whole visible image. */
  function Score(moving: seq<bool>, excluded: seq<bool>): (r: real)
    requires |moving| == BLOCKS && |excluded| == CELLS
  {
    Area(Counted(moving, excluded), BLOCKS) as real * 100.0 / IMAGE as real
  }

  lemma {:induction false} AreaBound(on: seq<bool>, n: nat)
    requires n <= |on| && |on| == BLOCKS
    ensures Area(on, n) <= Area(seq(BLOCKS, _ => true), n)
    ensures Area(on, n) == Area(seq(BLOCKS, _ => true), n) <==> forall i :: 0 <= i < n ==> on[i]
  {
    if n > 0 { AreaBound(on, n - 1); }
  }

  lemma {:induction false} AreaGrows(on: seq<bool>, wider: seq<bool>, n: nat)
    requires n <= |on| == |wider|
    requires forall i :: 0 <= i < n && on[i] ==> wider[i]
    ensures Area(on, n) <= Area(wider, n)
  {
    if n > 0 { AreaGrows(on, wider, n - 1); }
  }

  lemma {:induction false} AllPixels(n: nat)
    requires n <= IMAGE
    ensures PixelsOn(seq(BLOCKS, _ => true), n) == n
  {
    if n > 0 { AllPixels(n - 1); }
  }

  /** The score is the share of visible pixels in counted blocks, in percent; full marks need every block. */
  lemma ScoreIsAShareOfTheImage(moving: seq<bool>, excluded: seq<bool>)
    requires |moving| == BLOCKS && |excluded| == CELLS
    ensures var on := Counted(moving, excluded);
            && Score(moving, excluded) == PixelsOn(on, IMAGE) as real * 100.0 / 230400.0
            && 0.0 <= Score(moving, excluded) <= 100.0
            && (Score(moving, excluded) == 100.0 <==> forall i :: 0 <= i < BLOCKS ==> on[i])
  {
    hide Area, PixelsOn, Counted;
    var on := Counted(moving, excluded);
    var all := seq(BLOCKS, _ => true);
    AreaCountsPixels(on, ROWS);
    AreaCountsPixels(all, ROWS);
    AllPixels(IMAGE);
    AreaBound(on, BLOCKS);
  }

  /** Excluding more cells never raises the score. */
  lemma ExcludingNeverRaisesTheScore(moving: seq<bool>, excluded: seq<bool>, wider: seq<bool>)
    requires |moving| == BLOCKS && |excluded| == CELLS == |wider|
    requires forall c :: 0 <= c < CELLS && excluded[c] ==> wider[c]
    ensures Score(moving, wider) <= Score(moving, excluded)
  {
    hide Area, BlockCell;
    AreaGrows(Counted(moving, wider), Counted(moving, excluded), BLOCKS);
  }

  lemma BlockPlace(y: nat, x: nat)
    requires y < ROWS && x < COLUMNS
    ensures var i, h := y * COLUMNS + x, if y == 22 then 8 else 16;
            && i < BLOCKS && Height(i) == h
            && BlockCell(i) == (y * 16 + h / 2) * 12 / 360 * 20 + x / 2
  {
    assert (y * COLUMNS + x) / COLUMNS == y && (y * COLUMNS + x) % COLUMNS == x;
  }

  /** The mask and what it remembers; `motion_mask_score` updates all of it but the settings. */
  class Mask {
    const settings: Settings
    var activity: seq<bool>
    var memory: Memory
    var lastFrame: nat

    ghost predicate Valid()
      reads this
    {
      |settings.excluded| == CELLS && |memory.previous| == BLOCKS
    }

    method ScoreFrame(s: Frame) returns (score: real)
      requires Valid() && s.Valid()
      modifies this
      ensures Valid()
      ensures score == Score(Moving(settings, old(memory), s), settings.excluded)
      ensures |activity| == 240 && activity == Activity(Moving(settings, old(memory), s), BLOCKS)
      ensures memory == Memory(s.pFrame, s.difference, s.ms, s.pid) && lastFrame == s.frame
    {
      hide VectorMoves, BlockCell, BlockMoves, Height, Area, Activity, Temporal, Moving, Counted;
      ghost var moving := Moving(settings, memory, s);
      ghost var on := Counted(moving, settings.excluded);
      ghost var before := memory;
      var temporal := Temporal(memory, s);
      var movingPixels := 0;
      activity := seq(CELLS, _ => false);
      Nothing(moving, on);
      var y := 0;
      while y < ROWS
        invariant 0 <= y <= ROWS && memory == before
        invariant activity == Activity(moving, y * COLUMNS) && movingPixels == Area(on, y * COLUMNS)
      {
        var x := 0;
        while x < COLUMNS
          invariant 0 <= x <= COLUMNS && memory == before
          invariant activity == Activity(moving, y * COLUMNS + x) && movingPixels == Area(on, y * COLUMNS + x)
        {
          BlockPlace(y, x);
          var i, h := y * COLUMNS + x, if y == 22 then 8 else 16;
          var cell := (y * 16 + h / 2) * 12 / 360 * 20 + x / 2;
          OneMore(moving, on, i);
          MovingAt(settings, memory, s, i);
          CountedAt(moving, settings.excluded, i);
          var moves := BlockTest(s, i, temporal);
          if moves {
            activity := activity[cell := true];
            if !settings.excluded[cell] { movingPixels := movingPixels + 16 * h; }
          }
          x := x + 1;
        }
        y := y + 1;
      }
      memory := Memory(s.pFrame, s.difference, s.ms, s.pid);
      lastFrame := s.frame;
      score := movingPixels as real * 100.0 / IMAGE as real;
    }

    method BlockTest(s: Frame, i: nat, temporal: bool) returns (moves: bool)
      requires Valid() && s.Valid() && i < BLOCKS && temporal == Temporal(memory, s)
      ensures moves == BlockMoves(settings, memory, s, i)
    {
      hide VectorMoves;
      var p := s.vectors[i * 8..i * 8 + 8];
      var delta := (s.difference[i] as int) - memory.previous[i] as int;
      if delta < 0 { delta := -delta; }
      var vector := MoveTest(p, settings.pixels);
      moves := s.pFrame && (vector || (temporal && p[6] & 128 != 0 && settings.difference > 0
                                       && delta >= settings.difference));
    }
  }

  lemma Nothing(moving: seq<bool>, on: seq<bool>)
    requires |moving| == BLOCKS == |on|
    ensures Activity(moving, 0) == seq(CELLS, _ => false) && Area(on, 0) == 0
  {
  }

  lemma MovingAt(c: Settings, m: Memory, s: Frame, i: nat)
    requires s.Valid() && |m.previous| == BLOCKS && i < BLOCKS
    ensures Moving(c, m, s)[i] == BlockMoves(c, m, s, i)
  {
    hide BlockMoves;
  }

  lemma CountedAt(moving: seq<bool>, excluded: seq<bool>, i: nat)
    requires |moving| == BLOCKS && |excluded| == CELLS && i < BLOCKS
    ensures Counted(moving, excluded)[i] == (moving[i] && !excluded[BlockCell(i)])
  {
    hide BlockCell;
  }

  lemma OneMore(moving: seq<bool>, on: seq<bool>, i: nat)
    requires |moving| == BLOCKS == |on| && i < BLOCKS
    ensures Activity(moving, i + 1)
         == if moving[i] then Activity(moving, i)[BlockCell(i) := true] else Activity(moving, i)
    ensures Area(on, i + 1) == Area(on, i) + if on[i] then 16 * Height(i) else 0
  {
    hide BlockCell, Height;
  }
}
