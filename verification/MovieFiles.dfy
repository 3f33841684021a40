/**
 * Finished clips, built from their boxes (section 4.2 of ISO/IEC 14496-12) and
 * their movie header (section 8.2.2): which of them the parser accepts, and that
 * it accepts nothing else.
 */
module MovieFiles {
  import opened Bytes
  import opened MovieParse
  import opened Options

  lemma TagsSpell()
    ensures MOOV == Ascii("moov") && MVHD == Ascii("mvhd")
  {
    var a, b := Ascii("moov"), Ascii("mvhd");
    assert a[0] == 0x6D && a[1] == 0x6F && a[2] == 0x6F && a[3] == 0x76;
    assert b[0] == 0x6D && b[1] == 0x76 && b[2] == 0x68 && b[3] == 0x64;
  }

  function Store64(v: int): (s: seq<byte>)
    requires 0 <= v < 0x1_0000_0000_0000_0000
    ensures |s| == 8
  {
    Store32(v / 0x1_0000_0000) + Store32(v % 0x1_0000_0000)
  }

  lemma Be64OfStore64(v: int)
    requires 0 <= v < 0x1_0000_0000_0000_0000
    ensures Be64(Store64(v)) == v
  {
    hide Be32, Store32;
    var s := Store64(v);
    Be32OfStore32(v / 0x1_0000_0000);
    Be32OfStore32(v % 0x1_0000_0000);
    assert s[..4] == Store32(v / 0x1_0000_0000) && s[4..] == Store32(v % 0x1_0000_0000);
  }

  lemma Store64OfBe64(s: seq<byte>)
    requires |s| == 8
    ensures Store64(Be64(s)) == s
  {
    hide Be32, Store32;
    var a, b := s[..4], s[4..];
    Store32OfBe32(a);
    Store32OfBe32(b);
    assert Be64(s) / 0x1_0000_0000 == Be32(a) && Be64(s) % 0x1_0000_0000 == Be32(b);
    assert s == a + b;
  }

  /** A box; `large` ones carry their size in 64 bits behind the type. */
  datatype Atom = Atom(kind: seq<byte>, large: bool, payload: seq<byte>) {
    ghost predicate Valid() {
      |kind| == 4 && if large then 16 + |payload| <= UINT64_MAX else 8 + |payload| <= UINT32_MAX
    }

    function Size(): nat { (if large then 16 else 8) + |payload| }

    function Bytes(): (s: seq<byte>)
      requires Valid()
      ensures |s| == Size()
    {
      if large then Store32(1) + kind + Store64(16 + |payload|) + payload else Store32(8 + |payload|) + kind + payload
    }
  }

  ghost predicate AllValid(atoms: seq<Atom>) {
    forall i :: 0 <= i < |atoms| ==> atoms[i].Valid()
  }

  function Chain(atoms: seq<Atom>): seq<byte>
    requires AllValid(atoms)
  {
    if atoms == [] then [] else atoms[0].Bytes() + Chain(atoms[1..])
  }

  /** What the parser reads of a box that lies at `at`. */
  lemma AtomAt(f: seq<byte>, at: nat, a: Atom)
    requires a.Valid() && at + a.Size() <= |f| && f[at..at + a.Size()] == a.Bytes()
    ensures Type(f, at) == a.kind
    ensures a.large ==> Word(f, at) == 1 && at + 16 <= |f| && Long(f, at + 8) == a.Size()
    ensures !a.large ==> Word(f, at) == a.Size()
  {
    hide Be32, Be64, Store32, Store64;
    Be32OfStore32(1);
    var s := a.Bytes();
    SliceOfSlice(f, at, a.Size(), 0, 4);
    SliceOfSlice(f, at, a.Size(), 4, 8);
    if a.large {
      Be64OfStore64(a.Size());
      SliceOfSlice(f, at, a.Size(), 8, 16);
      assert s[0..4] == Store32(1) && s[4..8] == a.kind && s[8..16] == Store64(a.Size());
    } else {
      Be32OfStore32(a.Size());
      assert s[0..4] == Store32(a.Size()) && s[4..8] == a.kind;
    }
  }

  /** The boxes at the front of what lies at `at`. */
  lemma FirstOfChain(f: seq<byte>, at: nat, atoms: seq<Atom>, rest: seq<byte>)
    requires AllValid(atoms) && atoms != [] && at <= |f| && f[at..] == Chain(atoms) + rest
    ensures AllValid(atoms[1..])
    ensures at + atoms[0].Size() <= |f| && f[at..at + atoms[0].Size()] == atoms[0].Bytes()
    ensures f[at + atoms[0].Size()..] == Chain(atoms[1..]) + rest
  {
    hide Chain, Atom.Bytes;
    ChainBegins(atoms);
    var a, b := atoms[0].Bytes(), Chain(atoms[1..]);
    assert (a + b) + rest == a + (b + rest);
    SplitAt(f, at, a, b + rest);
  }

  lemma ChainBegins(atoms: seq<Atom>)
    requires AllValid(atoms) && atoms != []
    ensures AllValid(atoms[1..]) && Chain(atoms) == atoms[0].Bytes() + Chain(atoms[1..])
  {
    hide Atom.Bytes;
  }

  lemma SplitAt(f: seq<byte>, at: nat, a: seq<byte>, b: seq<byte>)
    requires at <= |f| && f[at..] == a + b
    ensures at + |a| <= |f| && f[at..at + |a|] == a && f[at + |a|..] == b
  {
    assert f[at..][..|a|] == a && f[at..][|a|..] == b;
    assert f[at..at + |a|] == f[at..][..|a|] && f[at + |a|..] == f[at..][|a|..];
  }

  // ----- the walk over the top level -----

  /** The walk passes over any boxes that are not `moov`, as long as 64 are not reached. */
  lemma {:induction false} PassesBoxes(f: seq<byte>, at: nat, boxes: nat, before: seq<Atom>, rest: seq<byte>)
    requires AllValid(before) && at <= |f| && f[at..] == Chain(before) + rest && |rest| >= 8
    requires forall i :: 0 <= i < |before| ==> before[i].kind != MOOV
    ensures |f| >= |rest|
    ensures FindMoov(f, at, boxes) == if boxes + |before| < 64 then FindMoov(f, |f| - |rest|, boxes + |before|) else None
    decreases |before|
  {
    hide Word, Long, Type, FindMoov, Atom.Bytes;
    if before == [] {
      assert f[at..] == rest;
      TooManyBoxes(f, at, boxes);
    } else {
      FirstOfChain(f, at, before, rest);
      var n := before[0].Size();
      AtomAt(f, at, before[0]);
      PassesBoxes(f, at + n, boxes + 1, before[1..], rest);
      if boxes < 64 { MoovSkips(f, at, boxes, n); } else { TooManyBoxes(f, at, boxes); }
    }
  }

  lemma TooManyBoxes(f: seq<byte>, at: nat, boxes: nat)
    ensures boxes >= 64 ==> FindMoov(f, at, boxes) == None
  {
    hide Word, Long, Type;
  }

  // ----- the walk over the children -----

  ghost predicate Plain(atoms: seq<Atom>) {
    AllValid(atoms) && forall i :: 0 <= i < |atoms| ==> !atoms[i].large
  }

  lemma {:induction false} PassesChildren(f: seq<byte>, at: nat, count: nat, children: seq<Atom>, rest: seq<byte>)
    requires Plain(children) && at <= |f| && f[at..] == Chain(children) + rest && |rest| >= 8
    requires forall i :: 0 <= i < |children| ==> children[i].kind != MVHD
    ensures |f| >= |rest|
    ensures FindMvhd(f, at, count) == if count + |children| < 64 then FindMvhd(f, |f| - |rest|, count + |children|) else None
    decreases |children|
  {
    hide Word, Long, Type, FindMvhd, Atom.Bytes;
    if children == [] {
      assert f[at..] == rest;
      TooManyChildren(f, at, count);
    } else {
      FirstOfChain(f, at, children, rest);
      var n := children[0].Size();
      AtomAt(f, at, children[0]);
      PassesChildren(f, at + n, count + 1, children[1..], rest);
      if count < 64 { ChildIsPassed(f, at, count); } else { TooManyChildren(f, at, count); }
    }
  }

  lemma TooManyChildren(f: seq<byte>, at: nat, count: nat)
    ensures count >= 64 ==> FindMvhd(f, at, count) == None
  {
    hide Word, Type;
  }

  lemma ChildIsPassed(f: seq<byte>, at: nat, count: nat)
    requires count < 64 && at + 8 <= |f| && 8 <= Word(f, at) <= |f| - at && Type(f, at) != MVHD
    ensures FindMvhd(f, at, count) == FindMvhd(f, at + Word(f, at), count + 1)
  {
    hide Word, Type;
  }

  lemma HeaderIsFound(f: seq<byte>, at: nat, count: nat)
    requires count < 64 && at + 8 <= |f| && 8 <= Word(f, at) <= |f| - at && Type(f, at) == MVHD
    ensures FindMvhd(f, at, count) == Some(at)
  {
    hide Word, Type;
  }

  // ----- movie headers -----

  /** A movie header of version 0 or 1, with its times, and whatever follows them. */
  datatype MovieHeader = MovieHeader(
    wide: bool, flags: seq<byte>, creation: int, modification: int, scale: int, duration: int, tail: seq<byte>)
  {
    ghost predicate Valid() {
      && |flags| == 3 && 0 <= scale <= UINT32_MAX
      && (if wide then 0 <= creation <= UINT64_MAX && 0 <= modification <= UINT64_MAX && 0 <= duration <= UINT64_MAX
          else 0 <= creation <= UINT32_MAX && 0 <= modification <= UINT32_MAX && 0 <= duration <= UINT32_MAX)
      && (wide || |tail| >= 4) && (if wide then 40 else 28) + |tail| <= UINT32_MAX
    }

    /** The times fit milliseconds in 64 bits, and the clip lasts between one millisecond and a day. */
    predicate InRange() {
      && scale > 0 && 2082844800 <= creation && (creation - 2082844800) * 1000 <= 0x7FFF_FFFF_FFFF_FFFF
      && duration * 1000 <= 0xFFFF_FFFF_FFFF_FFFF && scale <= duration * 1000 < 86400001 * scale
    }

    function Narrow(): (s: seq<byte>)
      requires Valid() && !wide
      ensures |s| == 20 + |tail|
    {
      [0] + flags + Store32(creation) + Store32(modification) + Store32(scale) + Store32(duration) + tail
    }

    function Wide(): (s: seq<byte>)
      requires Valid() && wide
      ensures |s| == 32 + |tail|
    {
      [1] + flags + Store64(creation) + Store64(modification) + Store32(scale) + Store64(duration) + tail
    }

    function Box(): (a: Atom)
      requires Valid()
      ensures a.Valid() && a.Size() == (if wide then 40 else 28) + |tail|
    {
      Atom(MVHD, false, if wide then Wide() else Narrow())
    }
  }

  /** The slices of a text put together from a word, two numbers, a number and one more. */
  lemma SlicesOf(front: seq<byte>, first: seq<byte>, c: seq<byte>, m: seq<byte>, s: seq<byte>, d: seq<byte>, tail: seq<byte>)
    requires |front| == 8 && |first| == 4 && |c| == |m| == |d| && |s| == 4
    ensures var t, n := front + (first + c + m + s + d + tail), |c|;
            && t[8] == first[0] && t[12..12 + n] == c && t[12 + 2 * n..16 + 2 * n] == s
            && t[16 + 2 * n..16 + 3 * n] == d
  {
    var t, n := front + (first + c + m + s + d + tail), |c|;
    assert t[12..] == c + m + s + d + tail;
    assert t[12..][..n] == c && t[12..][2 * n..2 * n + 4] == s && t[12..][2 * n + 4..3 * n + 4] == d;
  }

  lemma NarrowSlices(h: MovieHeader)
    requires h.Valid() && !h.wide
    ensures var s := h.Box().Bytes();
            && s[8] == 0 && s[12..16] == Store32(h.creation) && s[20..24] == Store32(h.scale)
            && s[24..28] == Store32(h.duration)
  {
    hide Store32;
    SlicesOf(Store32(h.Box().Size()) + MVHD, [0] + h.flags, Store32(h.creation), Store32(h.modification),
             Store32(h.scale), Store32(h.duration), h.tail);
  }

  lemma WideSlices(h: MovieHeader)
    requires h.Valid() && h.wide
    ensures var s := h.Box().Bytes();
            && s[8] == 1 && s[12..20] == Store64(h.creation) && s[28..32] == Store32(h.scale)
            && s[32..40] == Store64(h.duration)
  {
    hide Store32, Store64;
    SlicesOf(Store32(h.Box().Size()) + MVHD, [1] + h.flags, Store64(h.creation), Store64(h.modification),
             Store32(h.scale), Store64(h.duration), h.tail);
  }

  /** The times the parser takes from a header of either version. */
  lemma TimesOfHeader(f: seq<byte>, at: nat, h: MovieHeader)
    requires h.Valid() && at + h.Box().Size() <= |f| && f[at..at + h.Box().Size()] == h.Box().Bytes()
    ensures Word(f, at) == h.Box().Size() && Times(f, at) == Convert(h.creation, h.scale, h.duration)
  {
    hide Be32, Be64, Store32, Store64, Convert, Atom.Bytes, MovieHeader.Box;
    var s, n := h.Box().Bytes(), h.Box().Size();
    AtomOfHeader(h);
    AtomAt(f, at, h.Box());
    assert f[at + 8] == f[at..at + n][8];
    Be32OfStore32(h.scale);
    if h.wide {
      WideSlices(h);
      Be64OfStore64(h.creation);
      Be64OfStore64(h.duration);
      SliceOfSlice(f, at, n, 12, 20);
      SliceOfSlice(f, at, n, 28, 32);
      SliceOfSlice(f, at, n, 32, 40);
    } else {
      NarrowSlices(h);
      Be32OfStore32(h.creation);
      Be32OfStore32(h.duration);
      SliceOfSlice(f, at, n, 12, 16);
      SliceOfSlice(f, at, n, 20, 24);
      SliceOfSlice(f, at, n, 24, 28);
    }
  }

  lemma AtomOfHeader(h: MovieHeader)
    requires h.Valid()
    ensures !h.Box().large && h.Box().kind == MVHD
  {
  }

  lemma ConvertInRange(h: MovieHeader)
    requires h.Valid()
    ensures Convert(h.creation, h.scale, h.duration) ==
            if h.InRange() then Some(((h.creation - 2082844800) * 1000, h.duration * 1000 / h.scale)) else None
  {
    ConvertMeans(h.creation, h.scale, h.duration);
  }

  // ----- whole clips -----

  /** Boxes, then the movie box that ends the file: its children, the movie header, and whatever comes after it. */
  datatype Clip = Clip(before: seq<Atom>, children: seq<Atom>, header: MovieHeader, rest: seq<byte>) {
    ghost predicate Valid() {
      && AllValid(before) && Plain(children) && header.Valid()
      && (forall i :: 0 <= i < |before| ==> before[i].kind != Ascii("moov"))
      && (forall i :: 0 <= i < |children| ==> children[i].kind != Ascii("mvhd"))
      && Movie().Valid()
    }

    function Movie(): Atom
      requires Plain(children) && header.Valid()
    {
      Atom(Ascii("moov"), false, Chain(children) + (header.Box().Bytes() + rest))
    }

    function Bytes(): seq<byte>
      requires Valid()
    {
      Chain(before) + Movie().Bytes()
    }

    /** What a reader is to find. */
    ghost function Found(): MovieParse.Movie
      requires Valid() && header.scale > 0
    {
      MovieParse.Movie(|Chain(before)|, |Bytes()|, Movie().Size(),
                       (header.creation - 2082844800) * 1000, header.duration * 1000 / header.scale)
    }
  }

  /** The place of the movie header in a clip. */
  lemma PartsOfClip(c: Clip)
    requires c.Valid()
    ensures var f, at := c.Bytes(), |Chain(c.before)|;
            && |f| == at + c.Movie().Size() && f[at..] == c.Movie().Bytes()
            && f[at + 8..] == Chain(c.children) + (c.header.Box().Bytes() + c.rest)
            && 28 <= c.header.Box().Size() <= |f| - (at + 8)
  {
    hide Store32, Chain, MovieHeader.Box;
    var f, at := c.Bytes(), |Chain(c.before)|;
    var m := c.Movie();
    assert m.Bytes()[8..] == m.payload;
    assert f[at..] == m.Bytes();
    assert f[at + 8..] == f[at..][8..];
  }

  lemma MoovIsFound(c: Clip)
    requires c.Valid()
    ensures var f, at := c.Bytes(), |Chain(c.before)|;
            && FindMoov(f, 0, 0) == (if |c.before| < 64 then Some(at) else None)
            && Word(f, at) == c.Movie().Size()
  {
    hide Word, Type, FindMoov, Chain, Atom.Bytes, Ascii;
    TagsSpell();
    PartsOfClip(c);
    var f, at := c.Bytes(), |Chain(c.before)|;
    assert f[0..] == Chain(c.before) + c.Movie().Bytes();
    PassesBoxes(f, 0, 0, c.before, c.Movie().Bytes());
    assert f[at..at + c.Movie().Size()] == f[at..];
    AtomAt(f, at, c.Movie());
    if |c.before| < 64 { MoovHere(f, at, |c.before|); }
  }

  lemma MvhdIsFound(c: Clip, f: seq<byte>, at: nat) returns (mvhd: nat)
    requires c.Valid() && f == c.Bytes() && at == |Chain(c.before)|
    ensures mvhd + 8 <= |f| && 8 <= Word(f, mvhd) <= |f| - mvhd
    ensures FindMvhd(f, at + 8, 0) == if |c.children| < 64 then Some(mvhd) else None
    ensures Times(f, mvhd) == Convert(c.header.creation, c.header.scale, c.header.duration)
  {
    hide Word, Type, FindMvhd, Chain, Atom.Bytes, Ascii, MovieHeader.Box, Times, Convert;
    TagsSpell();
    PartsOfClip(c);
    var box := c.header.Box().Bytes();
    PassesChildren(f, at + 8, 0, c.children, box + c.rest);
    mvhd := |f| - |c.rest| - |box|;
    EndOf(f, at + 8, Chain(c.children), box + c.rest);
    SplitAt(f, mvhd, box, c.rest);
    TimesOfHeader(f, mvhd, c.header);
    AtomOfHeader(c.header);
    AtomAt(f, mvhd, c.header.Box());
    if |c.children| < 64 { HeaderIsFound(f, mvhd, |c.children|); }
  }

  lemma EndOf(f: seq<byte>, at: nat, a: seq<byte>, b: seq<byte>)
    requires at <= |f| && f[at..] == a + b
    ensures |f| >= |b| && f[|f| - |b|..] == b
  {
    SplitAt(f, at, a, b);
  }

  /**
   * A clip of any boxes in front of the movie box and any children in front of
   * the movie header is found, with the times of either header version, exactly
   * when fewer than 64 come first each time and the times are in range.
   */
  lemma ClipsAreFound(c: Clip)
    requires c.Valid()
    ensures FindMovie(c.Bytes()) ==
            if |c.before| < 64 && |c.children| < 64 && c.header.InRange() then Some(c.Found()) else None
  {
    hide Word, Type, FindMoov, FindMvhd, Chain, Times, Convert, Clip.Bytes, MovieHeader.Box;
    PartsOfClip(c);
    MoovIsFound(c);
    var mvhd := MvhdIsFound(c, c.Bytes(), |Chain(c.before)|);
    ConvertInRange(c.header);
  }

  // ----- and nothing else is accepted -----

  /** The box whose header lies at `at`. */
  lemma ReadAtom(f: seq<byte>, at: nat) returns (a: Atom)
    requires at + 8 <= |f|
    requires Word(f, at) == 1 ==> at + 16 <= |f| && 16 <= Long(f, at + 8) <= |f| - at
    requires Word(f, at) != 1 ==> 8 <= Word(f, at) <= |f| - at
    ensures a.Valid() && a.kind == Type(f, at) && a.large == (Word(f, at) == 1)
    ensures a.Size() == if Word(f, at) == 1 then Long(f, at + 8) else Word(f, at)
    ensures at + a.Size() <= |f| && f[at..at + a.Size()] == a.Bytes()
  {
    hide Be32, Be64, Store32, Store64;
    Store32OfBe32(f[at..at + 4]);
    if Word(f, at) == 1 {
      Store64OfBe64(f[at + 8..at + 16]);
      var n: nat := Long(f, at + 8);
      a := Atom(Type(f, at), true, f[at + 16..at + n]);
      FourPieces(f, at, at + 4, at + 8, at + 16, at + n);
    } else {
      var n: nat := Word(f, at);
      a := Atom(Type(f, at), false, f[at + 8..at + n]);
      FourPieces(f, at, at + 4, at + 8, at + 8, at + n);
      assert f[at + 8..at + 8] == [];
      assert f[at..at + 4] + f[at + 4..at + 8] + [] == f[at..at + 4] + f[at + 4..at + 8];
    }
  }

  lemma FourPieces(f: seq<byte>, a: nat, b: nat, c: nat, d: nat, e: nat)
    requires a <= b <= c <= d <= e <= |f|
    ensures f[a..e] == f[a..b] + f[b..c] + f[c..d] + f[d..e]
  {
    TwoPieces(f, a, b, c);
    TwoPieces(f, a, c, d);
    TwoPieces(f, a, d, e);
  }

  lemma AllOfMore(a: Atom, atoms: seq<Atom>)
    requires a.Valid() && AllValid(atoms)
    ensures AllValid([a] + atoms)
  {
    hide Atom.Valid;
    var all := [a] + atoms;
    forall i | 0 <= i < |all| ensures all[i].Valid() {
      if i == 0 { assert all[0] == a; } else { assert all[i] == atoms[i - 1]; }
    }
    assert AllValid(all);
  }

  lemma ChainOfMore(a: Atom, atoms: seq<Atom>)
    requires a.Valid() && AllValid(atoms)
    ensures AllValid([a] + atoms) && Chain([a] + atoms) == a.Bytes() + Chain(atoms)
  {
    hide AllValid, Atom.Bytes, Atom.Valid;
    AllOfMore(a, atoms);
    var all := [a] + atoms;
    ChainBegins(all);
    assert all[0] == a;
    assert all[1..] == atoms;
    assert Chain(all[1..]) == Chain(atoms);
  }

  lemma TwoPieces(f: seq<byte>, a: nat, b: nat, c: nat)
    requires a <= b <= c <= |f|
    ensures f[a..c] == f[a..b] + f[b..c]
  {
  }

  lemma {:induction false} BoxesBefore(f: seq<byte>, at: nat, boxes: nat) returns (before: seq<Atom>)
    requires FindMoov(f, at, boxes).Some?
    ensures AllValid(before) && boxes + |before| < 64 && at <= FindMoov(f, at, boxes).value <= |f|
    ensures forall i :: 0 <= i < |before| ==> before[i].kind != MOOV
    ensures Chain(before) == f[at..FindMoov(f, at, boxes).value]
    decreases 64 - boxes
  {
    hide Word, Long, Type, FindMoov, Atom.Bytes;
    var moov := FindMoov(f, at, boxes).value;
    if at < moov {
      var size := MoovStep(f, at, boxes, moov);
      var a := ReadAtom(f, at);
      var more := BoxesBefore(f, at + size, boxes + 1);
      before := [a] + more;
      ChainOfMore(a, more);
      TwoPieces(f, at, at + size, moov);
    } else {
      MoovFewer(f, at, boxes);
      before := [];
    }
  }

  lemma {:induction false} ChildrenBefore(f: seq<byte>, at: nat, count: nat) returns (children: seq<Atom>)
    requires FindMvhd(f, at, count).Some?
    ensures Plain(children) && count + |children| < 64 && at <= FindMvhd(f, at, count).value <= |f|
    ensures forall i :: 0 <= i < |children| ==> children[i].kind != MVHD
    ensures Chain(children) == f[at..FindMvhd(f, at, count).value]
    decreases 64 - count
  {
    hide Word, Long, Type, FindMvhd, Atom.Bytes;
    ChildThere(f, at, count);
    var mvhd := FindMvhd(f, at, count).value;
    if Type(f, at) != MVHD {
      var a := ReadAtom(f, at);
      var more := ChildrenBefore(f, at + a.Size(), count + 1);
      children := [a] + more;
      ChainOfMore(a, more);
      TwoPieces(f, at, at + a.Size(), mvhd);
    } else {
      children := [];
    }
  }

  lemma ChildThere(f: seq<byte>, at: nat, count: nat)
    requires FindMvhd(f, at, count).Some?
    ensures count < 64 && at + 8 <= |f| && 8 <= Word(f, at) <= |f| - at
    ensures if Type(f, at) == MVHD then FindMvhd(f, at, count) == Some(at)
            else FindMvhd(f, at, count) == FindMvhd(f, at + Word(f, at), count + 1)
  {
    hide Word, Type;
  }

  /** A movie header the parser takes times from is one of version 0 or 1. */
  lemma ReadHeader(f: seq<byte>, at: nat) returns (h: MovieHeader)
    requires at + 8 <= |f| && 8 <= Word(f, at) <= |f| - at && Type(f, at) == MVHD && Times(f, at).Some?
    ensures h.Valid() && Word(f, at) == h.Box().Size() && f[at..at + h.Box().Size()] == h.Box().Bytes()
  {
    VersionByte(f, at);
    if f[at + 8] == 1 { h := ReadWide(f, at); } else { h := ReadNarrow(f, at); }
  }

  lemma BoxOf(h: MovieHeader)
    requires h.Valid()
    ensures h.Box().Bytes() == Store32(h.Box().Size()) + MVHD + (if h.wide then h.Wide() else h.Narrow())
  {
    hide Store32, MovieHeader.Wide, MovieHeader.Narrow;
  }

  lemma ReadWide(f: seq<byte>, at: nat) returns (h: MovieHeader)
    requires at + 8 <= |f| && 40 <= Word(f, at) <= |f| - at && Type(f, at) == MVHD && f[at + 8] == 1
    ensures h.Valid() && Word(f, at) == h.Box().Size() && f[at..at + h.Box().Size()] == h.Box().Bytes()
  {
    hide Be32, Be64, Store32, Store64, MovieHeader.Box, Atom.Bytes;
    var n: nat := Word(f, at);
    Store32OfBe32(f[at..at + 4]);
    h := MovieHeader(true, f[at + 9..at + 12], Long(f, at + 12), Long(f, at + 20), Word(f, at + 28), Long(f, at + 32),
                     f[at + 40..at + n]);
    Store64OfBe64(f[at + 12..at + 20]);
    Store64OfBe64(f[at + 20..at + 28]);
    Store32OfBe32(f[at + 28..at + 32]);
    Store64OfBe64(f[at + 32..at + 40]);
    HeaderPieces(f, at, 8, n);
    assert h.Wide() == f[at + 8..at + n];
    BoxOf(h);
  }

  lemma ReadNarrow(f: seq<byte>, at: nat) returns (h: MovieHeader)
    requires at + 8 <= |f| && 32 <= Word(f, at) <= |f| - at && Type(f, at) == MVHD && f[at + 8] == 0
    ensures h.Valid() && Word(f, at) == h.Box().Size() && f[at..at + h.Box().Size()] == h.Box().Bytes()
  {
    hide Be32, Store32, Store64, MovieHeader.Box, Atom.Bytes;
    var n: nat := Word(f, at);
    Store32OfBe32(f[at..at + 4]);
    h := MovieHeader(false, f[at + 9..at + 12], Word(f, at + 12), Word(f, at + 16), Word(f, at + 20), Word(f, at + 24),
                     f[at + 28..at + n]);
    Store32OfBe32(f[at + 12..at + 16]);
    Store32OfBe32(f[at + 16..at + 20]);
    Store32OfBe32(f[at + 20..at + 24]);
    Store32OfBe32(f[at + 24..at + 28]);
    HeaderPieces(f, at, 4, n);
    assert h.Narrow() == f[at + 8..at + n];
    BoxOf(h);
  }

  lemma VersionByte(f: seq<byte>, at: nat)
    requires at + 8 <= |f| && Word(f, at) <= |f| - at && Times(f, at).Some?
    ensures Word(f, at) >= 32 && (f[at + 8] == 0 || (f[at + 8] == 1 && Word(f, at) >= 40))
  {
    hide Word, Long, Convert;
  }

  lemma SixPieces(f: seq<byte>, a: nat, b: nat, c: nat, d: nat, e: nat, g: nat, h: nat)
    requires a < b <= c <= d <= e <= g <= h <= |f|
    ensures f[a..h] == [f[a]] + f[a + 1..b] + f[b..c] + f[c..d] + f[d..e] + f[e..g] + f[g..h]
  {
    assert [f[a]] == f[a..a + 1];
    TwoPieces(f, a, a + 1, b);
    TwoPieces(f, a, b, c);
    TwoPieces(f, a, c, d);
    TwoPieces(f, a, d, e);
    TwoPieces(f, a, e, g);
    TwoPieces(f, a, g, h);
  }

  lemma HeaderPieces(f: seq<byte>, at: nat, k: nat, n: nat)
    requires 16 + 3 * k <= n && at + n <= |f| && k >= 4
    ensures f[at + 8..at + n] == [f[at + 8]] + f[at + 9..at + 12] + f[at + 12..at + 12 + k] + f[at + 12 + k..at + 12 + 2 * k]
                 + f[at + 12 + 2 * k..at + 16 + 2 * k] + f[at + 16 + 2 * k..at + 16 + 3 * k] + f[at + 16 + 3 * k..at + n]
    ensures f[at..at + n] == f[at..at + 4] + f[at + 4..at + 8] + f[at + 8..at + n]
  {
    SixPieces(f, at + 8, at + 12, at + 12 + k, at + 12 + 2 * k, at + 16 + 2 * k, at + 16 + 3 * k, at + n);
    TwoPieces(f, at, at + 4, at + 8);
    TwoPieces(f, at, at + 8, at + n);
  }

  /** Every file the parser accepts is such a clip. */
  lemma AcceptedFilesAreClips(f: seq<byte>) returns (c: Clip)
    requires FindMovie(f).Some?
    ensures c.Valid() && |c.before| < 64 && |c.children| < 64 && c.header.InRange()
    ensures c.Bytes() == f && FindMovie(f) == Some(c.Found())
  {
    hide Word, Type, FindMoov, FindMvhd, Chain, Times, Atom.Bytes, Convert, MovieHeader.Box, Ascii;
    TagsSpell();
    MoovReachesTheEnd(f, 0, 0);
    var at := FindMoov(f, 0, 0).value;
    var mvhd := FindMvhd(f, at + 8, 0).value;
    var before := BoxesBefore(f, 0, 0);
    var children := ChildrenBefore(f, at + 8, 0);
    MvhdThere(f, at + 8, 0);
    var header := ReadHeader(f, mvhd);
    var rest := f[mvhd + header.Box().Size()..];
    c := Clip(before, children, header, rest);
    var movie := ReadAtom(f, at);
    assert f[at..at + movie.Size()] == f[at..];
    PayloadBehind(f, at, movie);
    BehindTheTag(f, at + 8, mvhd, mvhd + header.Box().Size(), Chain(children), header.Box().Bytes());
    assert movie == c.Movie();
    FrontAndBack(f, at, Chain(before), movie.Bytes());
    ClipsAreFound(c);
  }

  lemma BehindTheTag(f: seq<byte>, a: nat, b: nat, d: nat, front: seq<byte>, box: seq<byte>)
    requires a <= b <= d <= |f| && front == f[a..b] && box == f[b..d]
    ensures f[a..] == front + (box + f[d..])
  {
    assert f[b..] == box + f[d..];
    assert f[a..] == front + f[b..];
  }

  lemma FrontAndBack(f: seq<byte>, at: nat, front: seq<byte>, back: seq<byte>)
    requires at <= |f| && front == f[0..at] && back == f[at..]
    ensures f == front + back
  {
  }

  lemma MvhdThere(f: seq<byte>, at: nat, count: nat)
    requires FindMvhd(f, at, count).Some?
    ensures var m := FindMvhd(f, at, count).value; m + 8 <= |f| && Type(f, m) == MVHD
    decreases 64 - count
  {
    hide Word, Type, FindMvhd;
    ChildThere(f, at, count);
    if Type(f, at) != MVHD { MvhdThere(f, at + Word(f, at), count + 1); }
  }

  lemma PayloadBehind(f: seq<byte>, at: nat, a: Atom)
    requires a.Valid() && !a.large && at + a.Size() == |f| && f[at..] == a.Bytes()
    ensures a.payload == f[at + 8..]
  {
    hide Store32;
    assert a.Bytes()[8..] == a.payload;
    assert f[at + 8..] == f[at..][8..];
  }

  /** So a file is accepted if and only if it is one of those clips. */
  lemma AcceptedExactly(f: seq<byte>)
    ensures FindMovie(f).Some? <==>
            exists c: Clip :: c.Valid() && |c.before| < 64 && |c.children| < 64 && c.header.InRange() && c.Bytes() == f
  {
    hide FindMovie, Clip.Bytes, Clip.Valid;
    if FindMovie(f).Some? {
      var c := AcceptedFilesAreClips(f);
    }
    if c: Clip :| c.Valid() && |c.before| < 64 && |c.children| < 64 && c.header.InRange() && c.Bytes() == f {
      ClipsAreFound(c);
    }
  }
}
