/**
 * An open clip, seen through `pread`, `pwrite`, `fstat` and `ftruncate`.
 *
 * `script` decides how every system call turns out: interrupted, failed, or
 * moving at most so many bytes.  A theorem about every script is a theorem about
 * every pattern of partial and failed calls; a call after the script's end fails.
 */
module ClipFile {
  import opened Bytes
  import opened MovieParse
  import opened Options

  datatype Outcome = Interrupted | Failed | Moved(n: nat)

  /** `f` with `data` written at `offset`. */
  function Overlay(f: seq<byte>, data: seq<byte>, offset: nat): (g: seq<byte>)
    requires offset <= |f|
    ensures |g| == if offset + |data| > |f| then offset + |data| else |f|
  {
    f[..offset] + data + (if offset + |data| <= |f| then f[offset + |data|..] else [])
  }

  lemma OverlayNothing(f: seq<byte>, offset: nat)
    requires offset <= |f|
    ensures Overlay(f, [], offset) == f
  {
  }

  /** Writing on where a partial write stopped. */
  lemma OverlayOn(f: seq<byte>, data: seq<byte>, k: nat, n: nat, offset: nat)
    requires offset <= |f| && k + n <= |data|
    ensures Overlay(Overlay(f, data[..k], offset), data[k..k + n], offset + k) == Overlay(f, data[..k + n], offset)
  {
    var g := Overlay(f, data[..k], offset);
    var a, b := Overlay(g, data[k..k + n], offset + k), Overlay(f, data[..k + n], offset);
    assert data[..k + n] == data[..k] + data[k..k + n];
    assert |a| == |b|;
    forall i | 0 <= i < |a| ensures a[i] == b[i] {
      if i < offset { } else if i < offset + k { assert g[i] == data[i - offset]; } else if i < offset + k + n { } else { }
    }
  }

  /** What has been read so far; nothing has been, from beyond the end. */
  predicate IsPart(s: seq<byte>, offset: nat, buffer: seq<byte>) {
    buffer == [] || (offset + |buffer| <= |s| && buffer == s[offset..offset + |buffer|])
  }

  lemma NothingIsPart(s: seq<byte>, offset: nat)
    ensures IsPart(s, offset, [])
  {
  }

  lemma WholePart(s: seq<byte>, offset: nat, buffer: seq<byte>)
    requires IsPart(s, offset, buffer)
    ensures buffer != [] || offset <= |s| ==> offset + |buffer| <= |s| && buffer == s[offset..offset + |buffer|]
  {
  }

  /** Reading on where a partial read stopped. */
  lemma ReadOn(s: seq<byte>, offset: nat, got: nat, n: nat, buffer: seq<byte>)
    requires offset + got + n <= |s| && |buffer| == got && IsPart(s, offset, buffer)
    ensures IsPart(s, offset, buffer + s[offset + got..offset + got + n])
  {
    var a, b := buffer + s[offset + got..offset + got + n], s[offset..offset + got + n];
    forall i | 0 <= i < |a| ensures a[i] == b[i] {
      if i < got { assert a[i] == s[offset..offset + got][i]; }
    }
  }

  /** The two words of a box header read at once. */
  lemma HeadOf(s: seq<byte>, at: nat, head: seq<byte>)
    requires at + 8 <= |s| && head == s[at..at + 8]
    ensures head[..4] == s[at..at + 4] && head[4..] == s[at + 4..at + 8]
  {
    SliceOfSlice(s, at, 8, 0, 4);
    SliceOfSlice(s, at, 8, 4, 8);
  }

  /** A box header as the walk over top-level boxes reads it. */
  datatype Header = Header(size: nat, prefix: nat, kind: seq<byte>)

  /** One step of the walk over the children of `moov`. */
  lemma NextChild(f: seq<byte>, child: nat, count: nat)
    requires count < BOX_LIMIT && child + 8 <= |f|
    ensures FindMvhd(f, child, count) ==
            if Word(f, child) < 8 || Word(f, child) > |f| - child then None
            else if Type(f, child) == MVHD then Some(child)
            else FindMvhd(f, child + Word(f, child), count + 1)
  {
    hide Be32;
  }

  lemma NoChild(f: seq<byte>, child: nat, count: nat)
    requires (count >= BOX_LIMIT || child > |f| - 8) && count <= BOX_LIMIT
    ensures FindMvhd(f, child, count) == None
  {
    hide Be32;
  }

  class Clip {
    var bytes: seq<byte>
    var script: seq<Outcome>
    /** Whether some call has failed or moved nothing. */
    var broken: bool

    constructor (content: seq<byte>, outcomes: seq<Outcome>)
      ensures bytes == content && script == outcomes && !broken
    {
      bytes, script, broken := content, outcomes, false;
    }

    method Next() returns (o: Outcome)
      modifies this`script, this`broken
      ensures |script| < old(|script|) || (|script| == old(|script|) && o == Failed)
      ensures broken == (old(broken) || o == Failed || o == Moved(0))
    {
      if script == [] { o := Failed; } else { o, script := script[0], script[1..]; }
      broken := broken || o == Failed || o == Moved(0);
    }

    /** The file's size, or nothing when `fstat` fails. */
    method Stat() returns (size: Option<nat>)
      modifies this`script, this`broken
      ensures old(broken) ==> broken
      ensures if size.Some? then size.value == |bytes| else broken
    {
      var o := Next();
      size := if o.Moved? && o.n > 0 then Some(|bytes|) else None;
      broken := broken || size.None?;
    }

    /** `read_at`. */
    method ReadAt(size: nat, offset: nat) returns (data: Option<seq<byte>>)
      modifies this`script, this`broken
      ensures old(broken) ==> broken
      ensures data.Some? ==> offset + size <= |bytes| && data.value == bytes[offset..offset + size]
      ensures data.None? ==> broken || offset + size > |bytes|
    {
      hide IsPart;
      var got: nat := 0;
      var buffer: seq<byte> := [];
      NothingIsPart(bytes, offset);
      while got < size
        invariant got <= size && |buffer| == got && IsPart(bytes, offset, buffer)
        invariant old(broken) ==> broken
        decreases |script|, size - got
      {
        var o := Next();
        if o.Interrupted? {
          continue;
        }
        if !o.Moved? || o.n == 0 || offset + got >= |bytes| { return None; }
        var left := if size - got < |bytes| - offset - got then size - got else |bytes| - offset - got;
        var n := if o.n < left then o.n else left;
        ReadOn(bytes, offset, got, n, buffer);
        buffer := buffer + bytes[offset + got..offset + got + n];
        got := got + n;
      }
      if size == 0 && offset > |bytes| { return None; }
      WholePart(bytes, offset, buffer);
      data := Some(buffer);
    }

    /** `write_at`. */
    method WriteAt(data: seq<byte>, offset: nat) returns (ok: bool)
      requires offset <= |bytes|
      modifies this
      ensures old(broken) ==> broken
      ensures ok ==> bytes == Overlay(old(bytes), data, offset)
      ensures !ok ==> broken && exists k :: 0 <= k <= |data| && bytes == Overlay(old(bytes), data[..k], offset)
    {
      var done: nat := 0;
      OverlayNothing(bytes, offset);
      assert data[..0] == [];
      while done < |data|
        invariant done <= |data| && offset + done <= |bytes|
        invariant bytes == Overlay(old(bytes), data[..done], offset)
        invariant old(broken) ==> broken
        decreases |script|, |data| - done
      {
        var o := Next();
        if o.Interrupted? {
          continue;
        }
        if !o.Moved? || o.n == 0 { return false; }
        var n := if o.n < |data| - done then o.n else |data| - done;
        OverlayOn(old(bytes), data, done, n, offset);
        bytes := Overlay(bytes, data[done..done + n], offset + done);
        done := done + n;
      }
      assert data[..done] == data;
      ok := true;
    }

    method Truncate(size: nat) returns (ok: bool)
      requires size <= |bytes|
      modifies this
      ensures old(broken) ==> broken
      ensures bytes == if ok then old(bytes)[..size] else old(bytes)
    {
      var o := Next();
      ok := o.Moved? && o.n > 0;
      if ok { bytes := bytes[..size]; }
    }

    /** Eight bytes of header, or sixteen when the 32-bit size says 1. */
    method HeaderAt(offset: nat) returns (header: Option<Header>)
      requires offset + 8 <= |bytes|
      modifies this`script, this`broken
      ensures old(broken) ==> broken
      ensures header.None? ==> broken || (Word(bytes, offset) == 1 && offset + 16 > |bytes|)
      ensures header.Some? ==>
                && header.value.kind == Type(bytes, offset)
                && (Word(bytes, offset) == 1 ==>
                    offset + 16 <= |bytes| && header.value.prefix == 16 && header.value.size == Long(bytes, offset + 8))
                && (Word(bytes, offset) != 1 ==> header.value.prefix == 8 && header.value.size == Word(bytes, offset))
    {
      hide Be32, Be64;
      var h := ReadAt(8, offset);
      if h.None? { return None; }
      HeadOf(bytes, offset, h.value);
      if Be32(h.value[..4]) == 1 {
        var extended := ReadAt(8, offset + 8);
        if extended.None? { return None; }
        return Some(Header(Be64(extended.value), 16, h.value[4..]));
      }
      header := Some(Header(Be32(h.value[..4]), 8, h.value[4..]));
    }

    /** `find_movie`, reading only box headers; nothing for a file that is no finished clip, or on a failed read. */
    method FindMovie() returns (movie: Option<Movie>)
      modifies this`script, this`broken
      ensures old(broken) ==> broken
      ensures movie.Some? || !broken ==> MovieParse.FindMovie(bytes) == movie
    {
      hide Times, Be32, Be64, FindMvhd;
      var st := Stat();
      if st.None? || st.value < 32 { return None; }
      var offset: nat, boxes: nat := 0, 0;
      while boxes < BOX_LIMIT && offset <= st.value - 8
        invariant boxes <= BOX_LIMIT && offset <= |bytes|
        invariant FindMoov(bytes, 0, 0) == FindMoov(bytes, offset, boxes)
        invariant old(broken) ==> broken
      {
        var h := HeaderAt(offset);
        if h.None? { return None; }
        if h.value.size < h.value.prefix || h.value.size > st.value - offset { return None; }
        if h.value.kind == MOOV {
          if h.value.prefix != 8 || h.value.size > UINT32_MAX || offset + h.value.size != st.value { return None; }
          movie := MovieAt(offset, h.value.size);
          return;
        }
        offset := offset + h.value.size;
        boxes := boxes + 1;
      }
      movie := None;
    }

    /** The walk over the children of `moov`. */
    method MvhdAfter(first: nat) returns (mvhd: Option<nat>)
      requires first <= |bytes|
      modifies this`script, this`broken
      ensures old(broken) ==> broken
      ensures mvhd.Some? || !broken ==> FindMvhd(bytes, first, 0) == mvhd
    {
      hide Be32, FindMvhd;
      var child: nat, count: nat := first, 0;
      while count < BOX_LIMIT && child <= |bytes| - 8
        invariant count <= BOX_LIMIT && child <= |bytes|
        invariant FindMvhd(bytes, first, 0) == FindMvhd(bytes, child, count)
        invariant old(broken) ==> broken
      {
        var header := ReadAt(8, child);
        if header.None? { return None; }
        HeadOf(bytes, child, header.value);
        NextChild(bytes, child, count);
        var childSize := Be32(header.value[..4]);
        if childSize < 8 || childSize > |bytes| - child { return None; }
        if header.value[4..] == MVHD { return Some(child); }
        child := child + childSize;
        count := count + 1;
      }
      NoChild(bytes, child, count);
      mvhd := None;
    }

    method MovieAt(offset: nat, size: nat) returns (movie: Option<Movie>)
      requires |bytes| >= 32 && FindMoov(bytes, 0, 0) == Some(offset) && Word(bytes, offset) == size
      modifies this`script, this`broken
      ensures old(broken) ==> broken
      ensures movie.Some? || !broken ==> MovieParse.FindMovie(bytes) == movie
    {
      hide FindMoov, FindMvhd, Times, Be32;
      var mvhd := MvhdAfter(offset + 8);
      if mvhd.None? { return None; }
      FoundMovie(bytes, offset, mvhd.value);
      movie := TimesAt(offset, size, mvhd.value);
    }

    method TimesAt(offset: nat, size: nat, child: nat) returns (movie: Option<Movie>)
      requires child + 8 <= |bytes| && Word(bytes, child) <= |bytes| - child
      modifies this`script, this`broken
      ensures old(broken) ==> broken
      ensures movie.None? && !broken ==> Times(bytes, child).None?
      ensures movie.Some? ==>
                && Times(bytes, child).Some?
                && movie.value == Movie(offset, |bytes|, size, Times(bytes, child).value.0, Times(bytes, child).value.1)
    {
      hide Be32, Be64;
      // The size was read with the header; only this process writes to the open clip.
      var childSize := Be32(bytes[child..child + 4]);
      if childSize < 32 { return None; }
      var n := if childSize < 40 then childSize else 40;
      var h := ReadAt(n, child);
      if h.None? { return None; }
      var creation, scale, duration;
      if h.value[8] == 0 {
        creation, scale, duration := Be32(h.value[12..16]), Be32(h.value[20..24]), Be32(h.value[24..28]);
        SliceOfSlice(bytes, child, n, 12, 16);
        SliceOfSlice(bytes, child, n, 20, 24);
        SliceOfSlice(bytes, child, n, 24, 28);
      } else if h.value[8] == 1 && childSize >= 40 {
        creation, scale, duration := Be64(h.value[12..20]), Be32(h.value[28..32]), Be64(h.value[32..40]);
        SliceOfSlice(bytes, child, n, 12, 20);
        SliceOfSlice(bytes, child, n, 28, 32);
        SliceOfSlice(bytes, child, n, 32, 40);
      } else {
        return None;
      }
      if scale == 0 || creation < MP4_EPOCH || creation - MP4_EPOCH > INT64_MAX / 1000 || duration > UINT64_MAX / 1000 {
        return None;
      }
      var startMs, durationMs := (creation - MP4_EPOCH) * 1000, duration * 1000 / scale;
      if !(0 < durationMs <= 86400000) { return None; }
      movie := Some(Movie(offset, |bytes|, size, startMs, durationMs));
    }
  }
}
