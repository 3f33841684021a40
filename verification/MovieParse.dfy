/**
 * `find_movie`: locating the final `moov` box of a finished clip and reading
 * its start and duration from `mvhd` (sections 4.2 and 8.2.2 of ISO/IEC 14496-12).
 */
module MovieParse {
  import opened Bytes
  import opened Options

  const MP4_EPOCH := 2082844800
  const UINT32_MAX := 0xFFFF_FFFF
  const UINT64_MAX := 0xFFFF_FFFF_FFFF_FFFF
  const INT64_MAX := 0x7FFF_FFFF_FFFF_FFFF
  const BOX_LIMIT := 64
  const MOOV: seq<byte> := [0x6D, 0x6F, 0x6F, 0x76]
  const MVHD: seq<byte> := [0x6D, 0x76, 0x68, 0x64]

  datatype Movie = Movie(offset: nat, end: nat, size: nat, startMs: int, durationMs: int)

  function Word(f: seq<byte>, at: nat): int
    requires at + 4 <= |f|
  {
    Be32(f[at..at + 4])
  }

  function Long(f: seq<byte>, at: nat): int
    requires at + 8 <= |f|
  {
    Be64(f[at..at + 8])
  }

  function Type(f: seq<byte>, at: nat): seq<byte>
    requires at + 8 <= |f|
  {
    f[at + 4..at + 8]
  }

  /** Where the top-level `moov` starts, looking at no more than 64 boxes. */
  function FindMoov(f: seq<byte>, offset: nat, boxes: nat): (r: Option<nat>)
    ensures r.Some? ==> offset <= r.value && r.value + 8 <= |f|
    decreases BOX_LIMIT - boxes
  {
    if boxes >= BOX_LIMIT || offset > |f| - 8 then None
    else
      var long := Word(f, offset) == 1;
      if long && offset + 16 > |f| then None
      else
        var prefix := if long then 16 else 8;
        var size := if long then Long(f, offset + 8) else Word(f, offset);
        if size < prefix || size > |f| - offset then None
        else if Type(f, offset) == MOOV then
          if prefix != 8 || size > UINT32_MAX || offset + size != |f| then None else Some(offset)
        else FindMoov(f, offset + size, boxes + 1)
  }

  /** Where `mvhd` starts among at most 64 children. */
  function FindMvhd(f: seq<byte>, child: nat, count: nat): (r: Option<nat>)
    ensures r.Some? ==> child <= r.value && r.value + 8 <= |f| && 8 <= Word(f, r.value) <= |f| - r.value
    decreases BOX_LIMIT - count
  {
    if count >= BOX_LIMIT || child > |f| - 8 then None
    else if Word(f, child) < 8 || Word(f, child) > |f| - child then None
    else if Type(f, child) == MVHD then Some(child)
    else FindMvhd(f, child + Word(f, child), count + 1)
  }

  /** Start and duration in milliseconds, from either version of `mvhd`. */
  function Times(f: seq<byte>, at: nat): Option<(int, int)>
    requires at + 8 <= |f| && Word(f, at) <= |f| - at
  {
    if Word(f, at) < 32 then None
    else if f[at + 8] == 0 then
      Convert(Word(f, at + 12), Word(f, at + 20), Word(f, at + 24))
    else if f[at + 8] == 1 && Word(f, at) >= 40 then
      Convert(Long(f, at + 12), Word(f, at + 28), Long(f, at + 32))
    else None
  }

  function Convert(creation: int, scale: int, duration: int): Option<(int, int)>
    requires scale >= 0
  {
    if scale == 0 || creation < MP4_EPOCH || creation - MP4_EPOCH > INT64_MAX / 1000 || duration > UINT64_MAX / 1000
    then None
    else
      var ms := duration * 1000 / scale;
      // `duration_ms` is signed: values from 2^63 on turn negative and are refused as well.
      if 0 < ms <= 86400000 then Some(((creation - MP4_EPOCH) * 1000, ms)) else None
  }

  function FindMovie(f: seq<byte>): (r: Option<Movie>)
    ensures r.Some? ==> r.value.offset + 8 <= |f| && r.value.end == |f| && r.value.size == |f| - r.value.offset <= UINT32_MAX
  {
    if |f| < 32 then None
    else
      var moov := FindMoov(f, 0, 0);
      if moov.None? then None
      else
        MoovReachesTheEnd(f, 0, 0);
        var mvhd := FindMvhd(f, moov.value + 8, 0);
        if mvhd.None? then None
        else
          var times := Times(f, mvhd.value);
          if times.None? then None
          else Some(Movie(moov.value, |f|, Word(f, moov.value), times.value.0, times.value.1))
  }

  lemma {:induction false} MoovReachesTheEnd(f: seq<byte>, offset: nat, boxes: nat)
    requires FindMoov(f, offset, boxes).Some?
    ensures var at := FindMoov(f, offset, boxes).value;
            Type(f, at) == MOOV && Word(f, at) == |f| - at && Word(f, at) != 1
    decreases BOX_LIMIT - boxes
  {
    var size := if Word(f, offset) == 1 then Long(f, offset + 8) else Word(f, offset);
    if Type(f, offset) != MOOV {
      MoovReachesTheEnd(f, offset + size, boxes + 1);
    }
  }

  // ----- appending to moov -----

  /** The clip with `extra` appended inside `moov`: four size bytes change, the rest is added at the end. */
  function Appended(f: seq<byte>, m: Movie, extra: seq<byte>): (g: seq<byte>)
    requires m.offset + 4 <= |f| && m.size + |extra| <= UINT32_MAX
    ensures |g| == |f| + |extra|
  {
    f[..m.offset] + Store32(m.size + |extra|) + f[m.offset + 4..] + extra
  }

  /** Two files that agree on a header agree on what it says. */
  lemma LongFrame(f: seq<byte>, g: seq<byte>, at: nat)
    requires at + 8 <= |f| && at + 8 <= |g| && f[at..at + 8] == g[at..at + 8]
    ensures Long(f, at) == Long(g, at) && Word(f, at) == Word(g, at) && Type(f, at) == Type(g, at)
  {
    assert f[at..at + 8][..4] == f[at..at + 4] && g[at..at + 8][..4] == g[at..at + 4];
    assert f[at..at + 8][4..] == f[at + 4..at + 8] && g[at..at + 8][4..] == g[at + 4..at + 8];
  }

  /** One box before `moov` looks the same in both files. */
  lemma SameHeader(f: seq<byte>, g: seq<byte>, n: nat, offset: nat)
    requires n <= |f| && n <= |g| && f[..n] == g[..n] && offset + 8 <= n
    requires Word(f, offset) == 1 ==> offset + 16 <= n
    ensures Word(g, offset) == Word(f, offset) && Type(g, offset) == Type(f, offset)
    ensures Word(f, offset) == 1 ==> Long(g, offset + 8) == Long(f, offset + 8)
  {
    SliceOfPrefix(f, g, n, offset, 8);
    LongFrame(f, g, offset);
    if Word(f, offset) == 1 {
      SliceOfPrefix(f, g, n, offset + 8, 8);
    }
  }

  /** One step of a walk that has not reached `moov` yet. */
  lemma MoovStep(f: seq<byte>, offset: nat, boxes: nat, moov: nat) returns (size: nat)
    requires FindMoov(f, offset, boxes) == Some(moov) && offset < moov
    ensures boxes < BOX_LIMIT && offset + 8 <= |f| && Type(f, offset) != MOOV
    ensures Word(f, offset) == 1 ==> offset + 16 <= moov && size == Long(f, offset + 8)
    ensures Word(f, offset) != 1 ==> size == Word(f, offset)
    ensures 8 <= size && offset + size <= moov && FindMoov(f, offset + size, boxes + 1) == Some(moov)
    ensures Word(f, offset) == 1 ==> 16 <= size
  {
    hide Be32, Be64;
    size := if Word(f, offset) == 1 then Long(f, offset + 8) else Word(f, offset);
    assert FindMoov(f, offset + size, boxes + 1) == Some(moov);
  }

  /** The walk over the boxes before `moov` does not notice the append. */
  lemma {:induction false} SameMoov(f: seq<byte>, g: seq<byte>, offset: nat, boxes: nat, moov: nat)
    requires FindMoov(f, offset, boxes) == Some(moov)
    requires |f| <= |g| && f[..moov] == g[..moov]
    requires moov + 8 <= |g| && Type(g, moov) == MOOV && Word(g, moov) == |g| - moov <= UINT32_MAX && Word(g, moov) != 1
    ensures FindMoov(g, offset, boxes) == Some(moov)
    decreases BOX_LIMIT - boxes
  {
    hide Word, Long, Type, FindMoov;
    if offset < moov {
      var size := MoovStep(f, offset, boxes, moov);
      SameHeader(f, g, moov, offset);
      SameMoov(f, g, offset + size, boxes + 1, moov);
      MoovSkips(g, offset, boxes, size);
    } else {
      MoovFewer(f, offset, boxes);
      MoovHere(g, offset, boxes);
    }
  }

  lemma MoovSkips(g: seq<byte>, offset: nat, boxes: nat, size: nat)
    requires boxes < BOX_LIMIT && offset + 8 <= |g| && Type(g, offset) != MOOV && offset + size <= |g|
    requires Word(g, offset) == 1 ==> offset + 16 <= |g| && size == Long(g, offset + 8) && 16 <= size
    requires Word(g, offset) != 1 ==> size == Word(g, offset) && 8 <= size
    ensures FindMoov(g, offset, boxes) == FindMoov(g, offset + size, boxes + 1)
  {
    hide Word, Long, Type;
  }

  lemma MoovHere(g: seq<byte>, offset: nat, boxes: nat)
    requires boxes < BOX_LIMIT && offset + 8 <= |g| && Type(g, offset) == MOOV
    requires Word(g, offset) == |g| - offset <= UINT32_MAX && Word(g, offset) != 1
    ensures FindMoov(g, offset, boxes) == Some(offset)
  {
    hide Word, Long, Type;
  }

  lemma MoovFewer(f: seq<byte>, offset: nat, boxes: nat)
    requires FindMoov(f, offset, boxes).Some?
    ensures boxes < BOX_LIMIT
  {
    hide Word, Long, Type;
  }

  lemma {:induction false} SameMvhd(f: seq<byte>, g: seq<byte>, n: nat, child: nat, count: nat)
    requires FindMvhd(f, child, count).Some?
    requires n <= child && n <= |f| <= |g| && f[n..] == g[n..|f|]
    ensures FindMvhd(g, child, count) == FindMvhd(f, child, count)
    decreases BOX_LIMIT - count
  {
    SliceOfRest(f, g, n, child, 8);
    LongFrame(f, g, child);
    if Type(f, child) != MVHD {
      SameMvhd(f, g, n, child + Word(f, child), count + 1);
    }
  }

  lemma SameTimes(f: seq<byte>, g: seq<byte>, n: nat, at: nat)
    requires n <= at && at + 8 <= |f| && 8 <= Word(f, at) <= |f| - at
    requires |f| <= |g| && f[n..] == g[n..|f|]
    ensures Word(g, at) == Word(f, at) && Times(g, at) == Times(f, at)
  {
    hide Be32, Be64, Convert;
    SliceOfRest(f, g, n, at, 4);
    if Word(f, at) >= 32 {
      assert f[at + 8] == f[n..][at + 8 - n] == g[n..|f|][at + 8 - n] == g[at + 8];
      SliceOfRest(f, g, n, at + 12, 4);
      SliceOfRest(f, g, n, at + 20, 4);
      SliceOfRest(f, g, n, at + 24, 4);
      if Word(f, at) >= 40 {
        SliceOfRest(f, g, n, at + 12, 8);
        SliceOfRest(f, g, n, at + 28, 4);
        SliceOfRest(f, g, n, at + 32, 8);
      }
    }
  }

  /** What the append leaves in place: everything but the four size bytes. */
  lemma AppendedKeeps(f: seq<byte>, m: Movie, extra: seq<byte>)
    requires m.offset + 8 <= |f| && m.size + |extra| <= UINT32_MAX
    ensures var g := Appended(f, m, extra);
            && g[..m.offset] == f[..m.offset]
            && Word(g, m.offset) == m.size + |extra|
            && Type(g, m.offset) == Type(f, m.offset)
            && g[m.offset + 8..|f|] == f[m.offset + 8..]
  {
    hide Store32, Be32;
    Be32OfStore32(m.size + |extra|);
    Replaced(f, m.offset, Store32(m.size + |extra|), extra);
  }

  /** The slices of a text with four bytes replaced at `k` and `extra` behind it. */
  lemma Replaced(f: seq<byte>, k: nat, size: seq<byte>, extra: seq<byte>)
    requires k + 8 <= |f| && |size| == 4
    ensures var g := f[..k] + size + f[k + 4..] + extra;
            && |g| == |f| + |extra|
            && g[..k] == f[..k] && g[k..k + 4] == size && g[k + 4..k + 8] == f[k + 4..k + 8]
            && g[k + 8..|f|] == f[k + 8..]
  {
    var g := f[..k] + size + f[k + 4..] + extra;
    forall i | 0 <= i < |f| ensures g[i] == if k <= i < k + 4 then size[i - k] else f[i] {}
  }

  lemma FoundMovie(f: seq<byte>, moov: nat, mvhd: nat)
    requires |f| >= 32 && FindMoov(f, 0, 0) == Some(moov) && FindMvhd(f, moov + 8, 0) == Some(mvhd)
    ensures FindMovie(f).Some? <==> Times(f, mvhd).Some?
    ensures FindMovie(f).Some? ==>
              FindMovie(f).value == Movie(moov, |f|, Word(f, moov), Times(f, mvhd).value.0, Times(f, mvhd).value.1)
  {
    hide Times, Be32, Be64, FindMoov, FindMvhd;
  }

  /** The appended clip is still a clip, of the same start and duration, whose `moov` ends the file. */
  lemma AppendKeepsTheMovie(f: seq<byte>, extra: seq<byte>)
    requires FindMovie(f).Some? && FindMovie(f).value.size + |extra| <= UINT32_MAX
    ensures var m := FindMovie(f).value;
            FindMovie(Appended(f, m, extra)) == Some(m.(end := |f| + |extra|, size := m.size + |extra|))
  {
    hide Times, Be32, FindMoov, FindMvhd;
    var m := FindMovie(f).value;
    var n := m.offset + 8;
    var mvhd := FindMvhd(f, n, 0).value;
    var g := Appended(f, m, extra);
    AppendKeepsTheWalk(f, m, extra, mvhd);
    FoundMovie(f, m.offset, mvhd);
    FoundMovie(g, m.offset, mvhd);
  }

  lemma AppendKeepsTheWalk(f: seq<byte>, m: Movie, extra: seq<byte>, mvhd: nat)
    requires FindMoov(f, 0, 0) == Some(m.offset) && FindMvhd(f, m.offset + 8, 0) == Some(mvhd)
    requires m.size == |f| - m.offset && m.size + |extra| <= UINT32_MAX
    ensures var g := Appended(f, m, extra);
            && Word(g, m.offset) == m.size + |extra|
            && FindMoov(g, 0, 0) == Some(m.offset)
            && FindMvhd(g, m.offset + 8, 0) == Some(mvhd)
            && Word(g, mvhd) == Word(f, mvhd)
            && Times(g, mvhd) == Times(f, mvhd)
  {
    var g := Appended(f, m, extra);
    MoovReachesTheEnd(f, 0, 0);
    AppendedKeeps(f, m, extra);
    SameMoov(f, g, 0, 0, m.offset);
    SameMvhd(f, g, m.offset + 8, m.offset + 8, 0);
    SameTimes(f, g, m.offset + 8, mvhd);
  }

  // ----- what is read out of a movie header -----

  /** The times are those of the header, rounded down to milliseconds, and refused only out of range. */
  lemma ConvertMeans(creation: int, scale: int, duration: int)
    requires 0 <= scale && 0 <= duration
    ensures Convert(creation, scale, duration).Some? <==>
              && scale > 0 && creation >= MP4_EPOCH && creation - MP4_EPOCH <= INT64_MAX / 1000
              && duration <= UINT64_MAX / 1000
              && scale <= duration * 1000 < 86400001 * scale
    ensures Convert(creation, scale, duration).Some? ==>
              var (start, length) := Convert(creation, scale, duration).value;
              start == 1000 * (creation - MP4_EPOCH) && length * scale <= duration * 1000 < (length + 1) * scale
  {
    if scale > 0 {
      var a := duration * 1000;
      DivMod(a, scale);
      QuotientMeans(a, scale, a / scale, a % scale, 1);
      QuotientMeans(a, scale, a / scale, a % scale, 86400001);
    }
  }

  lemma DivMod(a: int, b: int)
    requires b > 0
    ensures a == a / b * b + a % b && 0 <= a % b < b
  {
  }

  lemma {:induction false} ProductIsNatural(k: nat, b: nat)
    ensures k * b >= 0
  {
    if k > 0 {
      ProductIsNatural(k - 1, b);
      assert k * b == (k - 1) * b + b;
    }
  }

  lemma ProductGrows(m: int, n: int, b: nat)
    requires m <= n
    ensures m * b <= n * b
  {
    ProductIsNatural(n - m, b);
    assert n * b == m * b + (n - m) * b;
  }

  lemma QuotientMeans(a: int, b: int, q: int, r: int, n: int)
    requires b > 0 && a == q * b + r && 0 <= r < b
    ensures q * b <= a < (q + 1) * b
    ensures q >= n <==> a >= n * b
  {
    assert (q + 1) * b == q * b + b;
    if q >= n { ProductGrows(n, q, b); } else { ProductGrows(q + 1, n, b); }
  }

  /** A `moov` with nothing but a version 0 movie header. */
  function Shortest(creation: int, scale: int, duration: int): (f: seq<byte>)
    requires 0 <= creation <= UINT32_MAX && 0 <= scale <= UINT32_MAX && 0 <= duration <= UINT32_MAX
    ensures |f| == 40
  {
    Store32(40) + MOOV + Store32(32) + MVHD + Zeros(4) + Store32(creation) + Zeros(4) + Store32(scale) + Store32(duration)
    + Zeros(4)
  }

  lemma ShortestSlices(creation: int, scale: int, duration: int)
    requires 0 <= creation <= UINT32_MAX && 0 <= scale <= UINT32_MAX && 0 <= duration <= UINT32_MAX
    ensures var f := Shortest(creation, scale, duration);
            && f[0..4] == Store32(40) && f[4..8] == MOOV && f[8..12] == Store32(32) && f[12..16] == MVHD
            && f[16] == 0 && f[20..24] == Store32(creation) && f[28..32] == Store32(scale)
            && f[32..36] == Store32(duration)
  {
    hide Store32;
  }

  /** It is accepted exactly when its times are in range, with those times. */
  lemma ShortestIsAMovie(creation: int, scale: int, duration: int)
    requires 0 <= creation <= UINT32_MAX && 0 <= scale <= UINT32_MAX && 0 <= duration <= UINT32_MAX
    ensures FindMovie(Shortest(creation, scale, duration)) ==
              match Convert(creation, scale, duration)
              case None => None
              case Some(times) => Some(Movie(0, 40, 40, times.0, times.1))
  {
    hide Store32, Be32, Convert, Shortest;
    var f := Shortest(creation, scale, duration);
    ShortestSlices(creation, scale, duration);
    Be32OfStore32(40);
    Be32OfStore32(32);
    Be32OfStore32(creation);
    Be32OfStore32(scale);
    Be32OfStore32(duration);
    assert Word(f, 0) == 40 && Type(f, 0) == MOOV;
    assert FindMoov(f, 0, 0) == Some(0);
    assert Word(f, 8) == 32 && Type(f, 8) == MVHD;
    assert FindMvhd(f, 8, 0) == Some(8);
    assert Times(f, 8) == Convert(creation, scale, duration);
  }

  /** So accepted clips exist: two seconds, recorded one second into the epoch. */
  lemma AMovieExists()
    ensures FindMovie(Shortest(MP4_EPOCH + 1, 1000, 2000)) == Some(Movie(0, 40, 40, 1000, 2000))
  {
    hide FindMovie, Shortest;
    ShortestIsAMovie(MP4_EPOCH + 1, 1000, 2000);
  }
}
