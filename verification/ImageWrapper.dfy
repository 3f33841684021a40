/**
 * The wrapper that the vendor updater asks for, built twice: by
 * `clean_image.c` on the camera and by `pack_flash_core_installer.py`; and the
 * packer's check of its header.
 */
module ImageWrapper {
  import opened Bytes
  import opened Crc32
  import opened U32
  import UImage

  const HEADER := 64
  const MAGIC := UImage.MAGIC
  const SQUASHFS: seq<byte> := [0x68, 0x73, 0x71, 0x73]

  datatype Part = Rootfs | Home {
    function Limit(): nat { if Rootfs? then 0x120000 else 0x340000 }

    /** `xiaoyi-rootfs` or `xiaoyi-home`. */
    function Name(): (n: seq<byte>)
      ensures 0 < |n| < 32 && n[|n| - 1] != 0
    {
      [0x78, 0x69, 0x61, 0x6f, 0x79, 0x69, 0x2d]
      + if Rootfs? then [0x72, 0x6f, 0x6f, 0x74, 0x66, 0x73] else [0x68, 0x6f, 0x6d, 0x65]
    }
  }

  /** Result of a wrapper; the code is the exit status of the C program, 1 for a Python `ValueError`. */
  datatype Outcome = Image(bytes: seq<byte>) | Failed(code: nat)

  // ----- the header -----

  /** A header for operating system 5, architecture 2, type 7, uncompressed, its own checksum still clear. */
  function Raw(time: int, size: int, load: int, entry: int, sum: int, part: Part): (h: seq<byte>)
    requires 0 <= time < TWO32 && 0 <= size < TWO32 && 0 <= load < TWO32 && 0 <= entry < TWO32 && 0 <= sum < TWO32
    ensures |h| == HEADER
  {
    Numbers(time, size, load, entry, sum) + [5, 2, 7, 0] + part.Name() + Zeros(32 - |part.Name()|)
  }

  function Sealed(raw: seq<byte>): (h: seq<byte>)
    requires |raw| == HEADER
    ensures |h| == HEADER
  {
    UImage.WithField(raw, 4, Crc(raw))
  }

  // ----- the Python wrapper -----

  /** `uimage`. */
  function PyImage(data: seq<byte>, part: Part, epoch: int): Outcome {
    if epoch <= 0 || epoch > 0xffff_ffff || |data| >= TWO32 then Failed(1)
    else
      var header := Raw(epoch, |data|, 0, 0, Crc(data), part);
      Image(header[..4] + Store32(Crc(header)) + header[8..] + data)
  }

  function Le64(s: seq<byte>): (v: int)
    requires |s| == 8
    ensures v >= 0
  {
    Le32(s[..4]) + TWO32 * Le32(s[4..])
  }

  function RoundUp(n: nat): nat {
    (n + 4095) / 4096 * 4096
  }

  /** `stock_payload`. */
  function StockPayload(data: seq<byte>): Outcome {
    if |data| < 48 || data[..4] != SQUASHFS then Failed(1)
    else
      var used := Le64(data[40..48]);
      var size := RoundUp(used);
      if used < 96 || size + 64 > |data| || exists i :: size <= i < |data| && data[i] != 0 && data[i] != 255
      then Failed(1)
      else Image(data[..size])
  }

  // ----- the C wrapper -----

  /** The size the file system states for itself, low word. */
  function Used(file: seq<byte>): (n: int)
    requires |file| >= 96
    ensures 0 <= n < TWO32
  {
    Le32(file[40..44])
  }

  /** `(used + 4095) & ~4095` in a 32-bit `size_t`. */
  function RoundUp32(used: nat): (n: nat)
    ensures n < TWO32 && n % 4096 == 0
  {
    var w := Wrap(used + 4095);
    w - w % 4096
  }

  predicate SuperblockOk(file: seq<byte>) {
    |file| >= 96 && file[..4] == SQUASHFS && Le32(file[28..32]) % 0x1_0000 == 4 && Le32(file[44..48]) == 0
  }

  /** `main` of `clean_image.c`, up to writing the result out; `memory` says whether `malloc` succeeds. */
  function CImage(file: seq<byte>, part: Part, memory: bool): Outcome {
    if !SuperblockOk(file) then Failed(2)
    else
      var n := RoundUp32(Used(file));
      if Used(file) < 96 || n + 64 > part.Limit() then Failed(3)
      else if !memory || |file| < n then Failed(4)
      else Image(Sealed(Raw(0, n, 0, 0, Crc(file[..n]), part)) + file[..n])
  }

  method Be(h: array<byte>, at: nat, v: int)
    requires at + 4 <= h.Length && 0 <= v < TWO32
    modifies h
    ensures h[..] == UImage.WithField(old(h[..]), at, v)
  {
    h[at], h[at + 1] := v / 0x100_0000, v / 0x1_0000 % 0x100;
    h[at + 2], h[at + 3] := v / 0x100 % 0x100, v % 0x100;
  }

  /** The program itself: the header bytes are filled in place, its checksum last. */
  method WrapImage(file: seq<byte>, part: Part, memory: bool) returns (r: Outcome)
    ensures r == CImage(file, part, memory)
  {
    hide Crc, Le32;
    if !SuperblockOk(file) { return Failed(2); }
    var used := Used(file);
    var n := RoundUp32(used);
    if used < 96 || n + 64 > part.Limit() { return Failed(3); }
    if !memory || |file| < n { return Failed(4); }
    var data := file[..n];
    var sum := ComputeCrc(data);
    var h := FillHeader(n, sum, part);
    var own := ComputeCrc(h[..]);
    Be(h, 4, own);
    r := Image(h[..] + data);
  }

  method FillHeader(n: int, sum: int, part: Part) returns (h: array<byte>)
    requires 0 <= n < TWO32 && 0 <= sum < TWO32
    ensures fresh(h) && h[..] == Raw(0, n, 0, 0, sum, part)
  {
    hide Store32, UImage.WithField, Raw;
    h := new byte[HEADER](_ => 0);
    assert h[..] == Zeros(HEADER);
    Be(h, 0, MAGIC);
    Be(h, 12, n);
    Be(h, 24, sum);
    ghost var fields := h[..];
    FieldsPlaced(n, sum);
    var kind: seq<byte> := [5, 2, 7];
    UImage.CopyInto(h, 28, kind);
    UImage.CopyInto(h, 32, part.Name());
    TextPlaced(fields, h[..], n, sum, part);
  }

  lemma TextPlaced(fields: seq<byte>, h: seq<byte>, n: int, sum: int, part: Part)
    requires 0 <= n < TWO32 && 0 <= sum < TWO32
    requires |fields| == HEADER && fields[..28] == Numbers(0, n, 0, 0, sum) && fields[28..] == Zeros(36)
    requires var g := fields[..28] + [5, 2, 7] + fields[31..];
             h == g[..32] + part.Name() + g[32 + |part.Name()|..]
    ensures h == Raw(0, n, 0, 0, sum, part)
  {
    hide Numbers;
    var m := |part.Name()|;
    var g := fields[..28] + [5, 2, 7] + fields[31..];
    assert fields[31..] == Zeros(33) by { assert fields[31..] == fields[28..][3..]; }
    assert g == Numbers(0, n, 0, 0, sum) + [5, 2, 7, 0] + Zeros(32) by { assert Zeros(33) == [0] + Zeros(32); }
    assert g[..32] == Numbers(0, n, 0, 0, sum) + [5, 2, 7, 0] && g[32 + m..] == Zeros(32 - m);
  }

  /** The seven numbers at the front of a header. */
  function Numbers(time: int, size: int, load: int, entry: int, sum: int): (h: seq<byte>)
    requires 0 <= time < TWO32 && 0 <= size < TWO32 && 0 <= load < TWO32 && 0 <= entry < TWO32 && 0 <= sum < TWO32
    ensures |h| == 28
  {
    Store32(MAGIC) + Store32(0) + Store32(time) + Store32(size) + Store32(load) + Store32(entry) + Store32(sum)
  }

  lemma SliceOfWithField(h: seq<byte>, at: nat, v: int, k: nat, len: nat)
    requires at + 4 <= |h| && 0 <= v < TWO32 && k + len <= |h|
    requires k + len <= at || at + 4 <= k
    ensures UImage.WithField(h, at, v)[k..k + len] == h[k..k + len]
    ensures UImage.WithField(h, at, v)[at..at + 4] == Store32(v)
  {
    hide Store32;
    var a, b := UImage.WithField(h, at, v)[k..k + len], h[k..k + len];
    forall i | 0 <= i < len ensures a[i] == b[i] {
    }
  }

  lemma FieldsPlaced(n: int, sum: int)
    requires 0 <= n < TWO32 && 0 <= sum < TWO32
    ensures var h := UImage.WithField(UImage.WithField(UImage.WithField(Zeros(HEADER), 0, MAGIC), 12, n), 24, sum);
            h[..28] == Numbers(0, n, 0, 0, sum) && h[28..] == Zeros(36)
  {
    hide Store32, UImage.WithField;
    var z := Zeros(HEADER);
    var f := UImage.WithField(z, 0, MAGIC);
    var g := UImage.WithField(f, 12, n);
    var h := UImage.WithField(g, 24, sum);
    SliceOfWithField(z, 0, MAGIC, 4, 60);
    SliceOfWithField(f, 12, n, 0, 12);
    SliceOfWithField(f, 12, n, 16, 48);
    SliceOfWithField(g, 24, sum, 0, 24);
    SliceOfWithField(g, 24, sum, 28, 36);
    StoreZero();
    assert f == Store32(MAGIC) + Zeros(60) by { assert f == f[0..4] + f[4..64]; assert z[4..64] == Zeros(60); }
    assert f[0..12] == Store32(MAGIC) + Zeros(8) && f[16..64] == Zeros(48);
    assert g == f[0..12] + Store32(n) + f[16..64] by { assert g == g[0..12] + g[12..16] + g[16..64]; }
    assert g[0..24] == Store32(MAGIC) + Zeros(8) + Store32(n) + Zeros(8) && g[28..64] == Zeros(36);
    assert h == g[0..24] + Store32(sum) + g[28..64] by { assert h == h[0..24] + h[24..28] + h[28..64]; }
    assert h == Store32(MAGIC) + Zeros(8) + Store32(n) + Zeros(8) + Store32(sum) + Zeros(36);
    assert Numbers(0, n, 0, 0, sum) == Store32(MAGIC) + Zeros(8) + Store32(n) + Zeros(8) + Store32(sum);
  }

  lemma StoreZero()
    ensures Store32(0) == [0, 0, 0, 0] == Zeros(4)
  {
  }

  // ----- what both wrappers make -----

  /** A wrapper for `data` with the given timestamp. */
  function Wrapped(time: int, data: seq<byte>, part: Part): seq<byte>
    requires 0 <= time < TWO32 && |data| < TWO32
  {
    Sealed(Raw(time, |data|, 0, 0, Crc(data), part)) + data
  }

  lemma PyImageIsWrapped(data: seq<byte>, part: Part, epoch: int)
    requires 0 < epoch <= 0xffff_ffff && |data| < TWO32
    ensures PyImage(data, part, epoch) == Image(Wrapped(epoch, data, part))
  {
  }

  lemma CImageIsWrapped(file: seq<byte>, part: Part, memory: bool)
    requires CImage(file, part, memory).Image?
    ensures |file| >= 96 && RoundUp32(Used(file)) <= |file|
    ensures CImage(file, part, memory) == Image(Wrapped(0, file[..RoundUp32(Used(file))], part))
  {
    hide Crc, Raw, Le32;
  }

  /** The 32-bit rounding is the real one for every size but those in the last page below 2^32. */
  lemma RoundingWraps(used: nat)
    requires used < TWO32
    ensures RoundUp32(used) == RoundUp(used) <==> used <= 0xffff_f000
    ensures used > 0xffff_f000 ==> RoundUp32(used) == 0
  {
    var w := used + 4095;
    assert w / 4096 * 4096 == w - w % 4096;
    if used <= 0xffff_f000 { WrapSmall(w); }
  }

  /** The wrapper holds all of the file system exactly when its stated size is not in that last page. */
  lemma WrapperHoldsTheFileSystem(file: seq<byte>, part: Part, memory: bool)
    requires CImage(file, part, memory).Image?
    ensures var w := CImage(file, part, memory).bytes;
            && |w| >= HEADER && w[HEADER..] == file[..|w| - HEADER]
            && (|w| - HEADER >= Used(file) <==> Used(file) <= 0xffff_f000)
            && |w| <= part.Limit()
  {
    hide Crc, Raw, Le32;
    CImageIsWrapped(file, part, memory);
    RoundingWraps(Used(file));
  }

  /** A file that states such a size is accepted, and an image with nothing in it comes out. */
  lemma AnEmptyImageIsAccepted(file: seq<byte>, part: Part)
    requires SuperblockOk(file) && Used(file) > 0xffff_f000
    ensures CImage(file, part, true) == Image(Wrapped(0, [], part))
  {
    hide Crc, Raw, Le32;
    RoundingWraps(Used(file));
    assert file[..0] == [];
    assert CImage(file, part, true).Image?;
    CImageIsWrapped(file, part, true);
  }

  // ----- the two against each other -----

  predicate SameButTimestamp(v: seq<byte>, w: seq<byte>) {
    |v| == |w| && forall k :: 0 <= k < |v| && !(4 <= k < 12) ==> v[k] == w[k]
  }

  lemma SealedAgree(data: seq<byte>, part: Part, s: int, t: int)
    requires 0 <= s < TWO32 && 0 <= t < TWO32 && |data| < TWO32
    ensures SameButTimestamp(Wrapped(s, data, part), Wrapped(t, data, part))
  {
    hide Crc, Store32;
    var sum := Crc(data);
    var a, b := Raw(s, |data|, 0, 0, sum, part), Raw(t, |data|, 0, 0, sum, part);
    var v, w := Wrapped(s, data, part), Wrapped(t, data, part);
    forall k | 0 <= k < HEADER && !(4 <= k < 12) ensures a[k] == b[k] {
    }
    forall k | 0 <= k < |v| && !(4 <= k < 12) ensures v[k] == w[k] {
      if k < HEADER {
        assert v[k] == Sealed(a)[k] == a[k];
        assert w[k] == Sealed(b)[k] == b[k];
      }
    }
  }

  /** The size both read from the same superblock. */
  lemma SameUsed(file: seq<byte>)
    requires SuperblockOk(file)
    ensures Le64(file[40..48]) == Used(file)
  {
    hide Le32;
    assert file[40..48][..4] == file[40..44] && file[40..48][4..] == file[44..48];
  }

  /**
   * Where both accept, they wrap the same payload in headers that differ in
   * the timestamp and the header checksum only, unless the C program's size
   * wrapped round.
   */
  lemma WrappersAgree(file: seq<byte>, part: Part, epoch: int)
    requires CImage(file, part, true).Image? && StockPayload(file).Image?
    requires PyImage(StockPayload(file).bytes, part, epoch).Image?
    ensures SameButTimestamp(PyImage(StockPayload(file).bytes, part, epoch).bytes, CImage(file, part, true).bytes)
       <==> Used(file) <= 0xffff_f000
  {
    hide Crc, Raw, Le32, SameButTimestamp;
    SameUsed(file);
    RoundingWraps(Used(file));
    CImageIsWrapped(file, part, true);
    var data := StockPayload(file).bytes;
    PyImageIsWrapped(data, part, epoch);
    if Used(file) <= 0xffff_f000 {
      SealedAgree(data, part, epoch, 0);
    } else {
      DifferentLengths(PyImage(data, part, epoch).bytes, CImage(file, part, true).bytes);
    }
  }

  lemma DifferentLengths(v: seq<byte>, w: seq<byte>)
    requires |v| != |w|
    ensures !SameButTimestamp(v, w)
  {
  }

  // ----- the packer's check -----

  /** `pack_flash_core_all.py` over a wrapped image. */
  predicate HeaderCheck(w: seq<byte>, part: Part, original: seq<byte>) {
    && |w| >= HEADER && |w| - HEADER < TWO32
    && Be32(w[..4]) == MAGIC
    && Be32(w[12..16]) == |w| - HEADER
    && Be32(w[24..28]) == Crc(w[HEADER..])
    && Be32(w[4..8]) == Crc(UImage.WithField(w[..HEADER], 4, 0))
    && w[28..32] == [5, 2, 7, 0]
    && Stripped(w[32..64]) == part.Name()
    && w[HEADER..] == original
  }

  /** `rstrip(b'\0')`. */
  function Stripped(s: seq<byte>): seq<byte> {
    if s != [] && s[|s| - 1] == 0 then Stripped(s[..|s| - 1]) else s
  }

  lemma {:induction false} StrippedOfPadded(s: seq<byte>, n: nat)
    requires s != [] && s[|s| - 1] != 0
    ensures Stripped(s + Zeros(n)) == s
  {
    if n == 0 {
      assert s + Zeros(0) == s;
    } else {
      assert (s + Zeros(n))[..|s| + n - 1] == s + Zeros(n - 1);
      StrippedOfPadded(s, n - 1);
    }
  }

  lemma {:induction false} StrippedMeans(s: seq<byte>)
    ensures |Stripped(s)| <= |s| && s == Stripped(s) + Zeros(|s| - |Stripped(s)|)
  {
    if s != [] && s[|s| - 1] == 0 {
      StrippedMeans(s[..|s| - 1]);
      assert s == s[..|s| - 1] + [0];
    }
  }

  lemma NumbersSlices(time: int, size: int, load: int, entry: int, sum: int)
    requires 0 <= time < TWO32 && 0 <= size < TWO32 && 0 <= load < TWO32 && 0 <= entry < TWO32 && 0 <= sum < TWO32
    ensures var h := Numbers(time, size, load, entry, sum);
            && h[0..4] == Store32(MAGIC) && h[4..8] == Store32(0) && h[8..12] == Store32(time)
            && h[12..16] == Store32(size) && h[16..20] == Store32(load) && h[20..24] == Store32(entry)
            && h[24..28] == Store32(sum)
  {
    hide Store32;
  }

  /** The slices of a raw header. */
  ghost predicate Shaped(h: seq<byte>, time: int, size: int, load: int, entry: int, sum: int, part: Part)
    requires 0 <= time < TWO32 && 0 <= size < TWO32 && 0 <= load < TWO32 && 0 <= entry < TWO32 && 0 <= sum < TWO32
  {
    && |h| == HEADER
    && h[0..4] == Store32(MAGIC) && h[8..12] == Store32(time)
    && h[12..16] == Store32(size) && h[16..20] == Store32(load) && h[20..24] == Store32(entry)
    && h[24..28] == Store32(sum) && h[28..32] == [5, 2, 7, 0]
    && h[32..64] == part.Name() + Zeros(32 - |part.Name()|)
  }

  lemma RawIsShaped(time: int, size: int, load: int, entry: int, sum: int, part: Part)
    requires 0 <= time < TWO32 && 0 <= size < TWO32 && 0 <= load < TWO32 && 0 <= entry < TWO32 && 0 <= sum < TWO32
    ensures var h := Raw(time, size, load, entry, sum, part);
            Shaped(h, time, size, load, entry, sum, part) && h[4..8] == Store32(0)
  {
    hide Store32;
    var h, g := Raw(time, size, load, entry, sum, part), Numbers(time, size, load, entry, sum);
    NumbersSlices(time, size, load, entry, sum);
    assert h[..28] == g;
    SliceOfPrefixes(h, g);
    assert h[28..32] == [5, 2, 7, 0];
    assert h[32..64] == part.Name() + Zeros(32 - |part.Name()|);
  }

  lemma SliceOfPrefixes(h: seq<byte>, g: seq<byte>)
    requires |h| == HEADER && |g| == 28 && h[..28] == g
    ensures h[0..4] == g[0..4] && h[4..8] == g[4..8] && h[8..12] == g[8..12] && h[12..16] == g[12..16]
    ensures h[16..20] == g[16..20] && h[20..24] == g[20..24] && h[24..28] == g[24..28]
  {
  }

  /** Only the raw header has that shape with its checksum clear. */
  lemma ShapedIsRaw(h: seq<byte>, time: int, size: int, load: int, entry: int, sum: int, part: Part)
    requires 0 <= time < TWO32 && 0 <= size < TWO32 && 0 <= load < TWO32 && 0 <= entry < TWO32 && 0 <= sum < TWO32
    requires Shaped(h, time, size, load, entry, sum, part) && h[4..8] == Store32(0)
    ensures h == Raw(time, size, load, entry, sum, part)
  {
    hide Store32;
    RawIsShaped(time, size, load, entry, sum, part);
    BySlices(h, Raw(time, size, load, entry, sum, part));
  }

  lemma BySlices(h: seq<byte>, g: seq<byte>)
    requires |h| == HEADER == |g|
    requires h[0..4] == g[0..4] && h[4..8] == g[4..8] && h[8..12] == g[8..12] && h[12..16] == g[12..16]
    requires h[16..20] == g[16..20] && h[20..24] == g[20..24] && h[24..28] == g[24..28] && h[28..32] == g[28..32]
    requires h[32..64] == g[32..64]
    ensures h == g
  {
    assert h == h[0..4] + h[4..8] + h[8..12] + h[12..16] + h[16..20] + h[20..24] + h[24..28] + h[28..32] + h[32..64];
    assert g == g[0..4] + g[4..8] + g[8..12] + g[12..16] + g[16..20] + g[20..24] + g[24..28] + g[28..32] + g[32..64];
  }

  /** Writing the checksum field leaves the shape alone. */
  lemma ShapedWithSum(h: seq<byte>, v: int, time: int, size: int, load: int, entry: int, sum: int, part: Part)
    requires 0 <= time < TWO32 && 0 <= size < TWO32 && 0 <= load < TWO32 && 0 <= entry < TWO32 && 0 <= sum < TWO32
    requires |h| == HEADER && 0 <= v < TWO32
    ensures Shaped(UImage.WithField(h, 4, v), time, size, load, entry, sum, part)
       <==> Shaped(h, time, size, load, entry, sum, part)
    ensures UImage.WithField(h, 4, v)[4..8] == Store32(v)
  {
    hide Store32, UImage.WithField;
    SliceOfWithField(h, 4, v, 0, 4);
    SliceOfWithField(h, 4, v, 8, 4);
    SliceOfWithField(h, 4, v, 12, 4);
    SliceOfWithField(h, 4, v, 16, 4);
    SliceOfWithField(h, 4, v, 20, 4);
    SliceOfWithField(h, 4, v, 24, 4);
    SliceOfWithField(h, 4, v, 28, 4);
    SliceOfWithField(h, 4, v, 32, 32);
  }

  lemma WithOwnField(h: seq<byte>, at: nat, v: int)
    requires at + 4 <= |h| && 0 <= v < TWO32 && h[at..at + 4] == Store32(v)
    ensures UImage.WithField(h, at, v) == h
  {
    hide Store32;
    assert h == h[..at] + h[at..at + 4] + h[at + 4..];
  }

  /** Both wrappers' images pass the check against the payload they hold. */
  lemma WrappedPassesTheCheck(time: int, data: seq<byte>, part: Part)
    requires 0 <= time < TWO32 && |data| < TWO32
    ensures HeaderCheck(Wrapped(time, data, part), part, data)
  {
    hide Crc, Store32, Be32, Raw, UImage.WithField, Stripped;
    var sum := Crc(data);
    var raw := Raw(time, |data|, 0, 0, sum, part);
    var h, w := Sealed(raw), Wrapped(time, data, part);
    RawIsShaped(time, |data|, 0, 0, sum, part);
    ShapedWithSum(raw, Crc(raw), time, |data|, 0, 0, sum, part);
    UImage.WithFieldTwice(raw, 4, Crc(raw), 0);
    WithOwnField(raw, 4, 0);
    assert w[..HEADER] == h && w[HEADER..] == data;
    HeadSlices(w, h);
    Be32OfStore32(MAGIC);
    Be32OfStore32(|data|);
    Be32OfStore32(sum);
    Be32OfStore32(Crc(raw));
    StrippedOfPadded(part.Name(), 32 - |part.Name()|);
  }

  lemma HeadSlices(w: seq<byte>, h: seq<byte>)
    requires |w| >= HEADER && w[..HEADER] == h
    ensures w[..4] == h[0..4] && w[4..8] == h[4..8] && w[8..12] == h[8..12] && w[12..16] == h[12..16]
    ensures w[16..20] == h[16..20] && w[20..24] == h[20..24] && w[24..28] == h[24..28] && w[28..32] == h[28..32]
    ensures w[32..64] == h[32..64]
  {
  }

  /** And nothing else passes: the check fixes every byte but the timestamp and the two addresses. */
  lemma TheCheckFixesTheImage(w: seq<byte>, part: Part, original: seq<byte>)
    requires HeaderCheck(w, part, original)
    ensures w == Sealed(Raw(Be32(w[8..12]), |original|, Be32(w[16..20]), Be32(w[20..24]), Crc(original), part)) + original
  {
    hide Crc, Store32, Be32, Raw, UImage.WithField, Stripped;
    var h := w[..HEADER];
    HeadSlices(w, h);
    var time, size, load, entry, sum := Be32(w[8..12]), |original|, Be32(w[16..20]), Be32(w[20..24]), Crc(original);
    Store32OfBe32(w[..4]);
    Store32OfBe32(w[4..8]);
    Store32OfBe32(w[8..12]);
    Store32OfBe32(w[12..16]);
    Store32OfBe32(w[16..20]);
    Store32OfBe32(w[20..24]);
    Store32OfBe32(w[24..28]);
    StrippedMeans(w[32..64]);
    assert Shaped(h, time, size, load, entry, sum, part);
    var raw := UImage.WithField(h, 4, 0);
    ShapedWithSum(h, 0, time, size, load, entry, sum, part);
    ShapedIsRaw(raw, time, size, load, entry, sum, part);
    UImage.WithFieldTwice(h, 4, 0, Crc(raw));
    WithOwnField(h, 4, Crc(raw));
    assert w == h + original;
  }

  /** The camera's wrapper of a file passes against that file exactly when the file has no byte to spare. */
  lemma CameraWrapperPassesTheCheck(file: seq<byte>, part: Part)
    requires CImage(file, part, true).Image?
    ensures HeaderCheck(CImage(file, part, true).bytes, part, file) <==> |file| == RoundUp32(Used(file))
  {
    hide Crc, Raw, Le32, Stripped, Be32;
    CImageIsWrapped(file, part, true);
    var n := RoundUp32(Used(file));
    WrappedPassesTheCheck(0, file[..n], part);
    if |file| == n { assert file[..n] == file; }
  }
}
