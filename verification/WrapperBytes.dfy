/** The wrapped images and the files they are made of, byte by byte. */
module WrapperBytes {
  import opened Bytes
  import opened Crc32
  import opened U32
  import opened ImageWrapper
  import UImage

  /** The 32 bytes of the partition's name. */
  function Label(part: Part): (s: seq<byte>)
    ensures |s| == 32
  {
    if part.Rootfs? then Ascii("xiaoyi-rootfs") + seq(19, _ => 0) else Ascii("xiaoyi-home") + seq(21, _ => 0)
  }

  /** A header written out, holding `sum` as its own checksum. */
  function Head(time: int, data: seq<byte>, part: Part, sum: int): (h: seq<byte>)
    requires 0 <= time < 0x1_0000_0000 && 0 <= sum < 0x1_0000_0000 && |data| < 0x1_0000_0000
    ensures |h| == 64
  {
    [0x27, 0x05, 0x19, 0x56] + Store32(sum) + Behind(time, data, part)
  }

  /** What stands behind the header's own checksum. */
  function Behind(time: int, data: seq<byte>, part: Part): (h: seq<byte>)
    requires 0 <= time < 0x1_0000_0000 && |data| < 0x1_0000_0000
    ensures |h| == 56
  {
    Store32(time) + Store32(|data|) + [0, 0, 0, 0, 0, 0, 0, 0] + Store32(Crc(data)) + [5, 2, 7, 0] + Label(part)
  }

  function ByHand(time: int, data: seq<byte>, part: Part): seq<byte>
    requires 0 <= time < 0x1_0000_0000 && |data| < 0x1_0000_0000
  {
    Head(time, data, part, Crc(Head(time, data, part, 0))) + data
  }

  lemma LabelIsName(part: Part)
    ensures part.Name() + Zeros(32 - |part.Name()|) == Label(part)
  {
    RootfsName();
    HomeName();
  }

  lemma RootfsName()
    ensures Rootfs.Name() == Ascii("xiaoyi-rootfs")
  {
    var a, b := Rootfs.Name(), Ascii("xiaoyi-rootfs");
    assert a[0] == b[0] && a[1] == b[1] && a[2] == b[2] && a[3] == b[3] && a[4] == b[4] && a[5] == b[5] && a[6] == b[6];
    assert a[7] == b[7] && a[8] == b[8] && a[9] == b[9] && a[10] == b[10] && a[11] == b[11] && a[12] == b[12];
  }

  lemma HomeName()
    ensures Home.Name() == Ascii("xiaoyi-home")
  {
    var a, b := Home.Name(), Ascii("xiaoyi-home");
    assert a[0] == b[0] && a[1] == b[1] && a[2] == b[2] && a[3] == b[3] && a[4] == b[4] && a[5] == b[5];
    assert a[6] == b[6] && a[7] == b[7] && a[8] == b[8] && a[9] == b[9] && a[10] == b[10];
  }

  lemma MagicBytes()
    ensures Store32(MAGIC) == [0x27, 0x05, 0x19, 0x56]
  {
  }

  lemma RawIsHead(time: int, data: seq<byte>, part: Part)
    requires 0 <= time < 0x1_0000_0000 && |data| < 0x1_0000_0000
    ensures Raw(time, |data|, 0, 0, Crc(data), part) == Head(time, data, part, 0)
  {
    hide Crc, Store32, Part.Name, Label;
    MagicBytes();
    StoreZero();
    LabelIsName(part);
    assert Store32(0) + Store32(0) == [0, 0, 0, 0, 0, 0, 0, 0];
    var n, t, s, c := Store32(|data|), Store32(time), Store32(0), Store32(Crc(data));
    assert Store32(MAGIC) + s + t + n + s + s + c == Store32(MAGIC) + s + t + n + (s + s) + c;
  }

  lemma HeadWithSum(time: int, data: seq<byte>, part: Part, sum: int)
    requires 0 <= time < 0x1_0000_0000 && 0 <= sum < 0x1_0000_0000 && |data| < 0x1_0000_0000
    ensures UImage.WithField(Head(time, data, part, 0), 4, sum) == Head(time, data, part, sum)
  {
    hide Store32, Behind, UImage.WithField;
    UImage.FieldReplaced([0x27, 0x05, 0x19, 0x56], Store32(0), Behind(time, data, part), sum);
  }

  lemma WrappedIsByHand(time: int, data: seq<byte>, part: Part)
    requires 0 <= time < 0x1_0000_0000 && |data| < 0x1_0000_0000
    ensures Wrapped(time, data, part) == ByHand(time, data, part)
  {
    hide Crc, Raw, Head, UImage.WithField;
    RawIsHead(time, data, part);
    HeadWithSum(time, data, part, Crc(Head(time, data, part, 0)));
  }

  /** The Python wrapper: the header by hand in front of any data that fits, under any timestamp that fits. */
  lemma PyImageIsByHand(data: seq<byte>, part: Part, epoch: int)
    ensures PyImage(data, part, epoch) ==
            if 0 < epoch < 0x1_0000_0000 && |data| < 0x1_0000_0000 then Image(ByHand(epoch, data, part)) else Failed(1)
  {
    hide Crc, Raw, Head, ByHand;
    if 0 < epoch < 0x1_0000_0000 && |data| < 0x1_0000_0000 {
      PyImageIsWrapped(data, part, epoch);
      WrappedIsByHand(epoch, data, part);
    }
  }

  // ----- the files -----

  /** A SquashFS file by what `clean_image.c` looks at: version 4, the size it states, and anything else. */
  datatype FileParts = FileParts(a: seq<byte>, b: seq<byte>, used: seq<byte>, rest: seq<byte>) {
    ghost predicate Valid() { |a| == 24 && |b| == 10 && |used| == 4 && |rest| >= 48 }

    function Whole(): seq<byte> {
      Ascii("hsqs") + a + [4, 0] + b + used + [0, 0, 0, 0] + rest
    }

    /** The stated size, lowest byte first. */
    function Size(): int
      requires |used| == 4
    {
      (used[0] as int) + 256 * (used[1] as int) + 65536 * (used[2] as int) + 16777216 * (used[3] as int)
    }

    /** It rounded up to whole pages in 32 bits. */
    function Rounded(): (n: int)
      requires |used| == 4
      ensures n >= 0
    {
      (Size() + 4095) % 0x1_0000_0000 / 4096 * 4096
    }
  }

  lemma Signature()
    ensures SQUASHFS == Ascii("hsqs")
  {
    var a, b := SQUASHFS, Ascii("hsqs");
    assert a[0] == b[0] && a[1] == b[1] && a[2] == b[2] && a[3] == b[3];
  }

  lemma PiecesOfFile(f: seq<byte>, s: seq<byte>, a: seq<byte>, v: seq<byte>, b: seq<byte>, u: seq<byte>, z: seq<byte>, rest: seq<byte>)
    requires |s| == 4 && |a| == 24 && |v| == 2 && |b| == 10 && |u| == 4 && |z| == 4
    requires f == s + a + v + b + u + z + rest
    ensures f[..4] == s && f[4..28] == a && f[28..30] == v && f[30..40] == b && f[40..44] == u && f[44..48] == z && f[48..] == rest
    ensures f[28..32] == [v[0], v[1], b[0], b[1]]
  {
  }

  lemma PartsAreOk(p: FileParts)
    requires p.Valid()
    ensures SuperblockOk(p.Whole()) && Used(p.Whole()) == p.Size() && RoundUp32(p.Size()) == p.Rounded()
  {
    hide Ascii;
    Signature();
    PiecesOfFile(p.Whole(), Ascii("hsqs"), p.a, [4, 0], p.b, p.used, [0, 0, 0, 0], p.rest);
    VersionOf(p.b[0], p.b[1]);
    Rounding(p.Size());
  }

  lemma VersionOf(x: byte, y: byte)
    ensures Le32([4, 0, x, y]) % 0x1_0000 == 4 && Le32([0, 0, 0, 0]) == 0
  {
    assert Le32([4, 0, x, y]) == 4 + 0x1_0000 * (x + 0x100 * y);
  }

  lemma Rounding(used: int)
    requires 0 <= used < 0x1_0000_0000
    ensures RoundUp32(used) == (used + 4095) % 0x1_0000_0000 / 4096 * 4096
  {
    var w := (used + 4095) % 0x1_0000_0000;
    assert w - w % 4096 == w / 4096 * 4096;
  }

  /** What the camera makes of a file built so: an image, or 3 for a bad size and 4 for a short file or no memory. */
  lemma CameraImageOfParts(p: FileParts, part: Part, memory: bool)
    requires p.Valid()
    ensures var f, n := p.Whole(), p.Rounded();
            CImage(f, part, memory) ==
              if p.Size() < 96 || n + 64 > (if part.Rootfs? then 0x120000 else 0x340000) then Failed(3)
              else if !memory || |f| < n then Failed(4)
              else Image(ByHand(0, f[..n], part))
  {
    hide Crc, Raw, Head, ByHand, SuperblockOk, Used, RoundUp32, FileParts.Size, FileParts.Rounded, FileParts.Whole, Sealed;
    PartsAreOk(p);
    var f, n := p.Whole(), p.Rounded();
    if n <= |f| && n < 0x1_0000_0000 { WrappedIsByHand(0, f[..n], part); }
  }

  /** Every other file is refused with 2. */
  lemma OtherFilesAreRefused(file: seq<byte>, part: Part, memory: bool) returns (p: FileParts)
    ensures CImage(file, part, memory) != Failed(2) ==> p.Valid() && p.Whole() == file
  {
    hide Crc, Raw, Ascii, Le32, Sealed;
    p := FileParts([], [], [], []);
    if SuperblockOk(file) {
      Signature();
      p := FileParts(file[4..28], file[30..40], file[40..44], file[48..]);
      VersionBytes(file[28..32]);
      ZeroBytes(file[44..48]);
      assert file[28..30] == [4, 0];
      assert file == file[..4] + file[4..28] + file[28..30] + file[30..40] + file[40..44] + file[44..48] + file[48..]
        by { SevenPieces(file); }
    }
  }

  lemma SevenPieces(f: seq<byte>)
    requires |f| >= 48
    ensures f == f[..4] + f[4..28] + f[28..30] + f[30..40] + f[40..44] + f[44..48] + f[48..]
  {
    assert f[..28] == f[..4] + f[4..28];
    assert f[..30] == f[..28] + f[28..30];
    assert f[..40] == f[..30] + f[30..40];
    assert f[..44] == f[..40] + f[40..44];
    assert f[..48] == f[..44] + f[44..48];
    assert f == f[..48] + f[48..];
  }

  lemma VersionBytes(s: seq<byte>)
    requires |s| == 4 && Le32(s) % 0x1_0000 == 4
    ensures s[0] == 4 && s[1] == 0
  {
    LowHalf(Le32(s), (s[0] as int) + 0x100 * (s[1] as int), (s[2] as int) + 0x100 * (s[3] as int));
  }

  lemma LowHalf(n: int, low: int, high: int)
    requires 0 <= low < 0x1_0000 && n == low + 0x1_0000 * high
    ensures n % 0x1_0000 == low
  {
  }

  lemma ZeroBytes(s: seq<byte>)
    requires |s| == 4 && Le32(s) == 0
    ensures s == [0, 0, 0, 0]
  {
  }

  // ----- the stock partitions -----

  /** A dump of a stock partition by what the packer looks at: the signature and the 64-bit size. */
  function Dump(a: seq<byte>, low: seq<byte>, high: seq<byte>, rest: seq<byte>): seq<byte> {
    Ascii("hsqs") + a + low + high + rest
  }

  function Number(s: seq<byte>): int
    requires |s| == 4
  {
    (s[0] as int) + 256 * (s[1] as int) + 65536 * (s[2] as int) + 16777216 * (s[3] as int)
  }

  /** It gives the whole pages of the file system, if they fit and only padding follows. */
  lemma StockPayloadOfDump(a: seq<byte>, low: seq<byte>, high: seq<byte>, rest: seq<byte>)
    requires |a| == 36 && |low| == 4 && |high| == 4
    ensures var f := Dump(a, low, high, rest);
            var used := Number(low) + 0x1_0000_0000 * Number(high);
            var n := (used + 4095) / 4096 * 4096;
            StockPayload(f) ==
              if used < 96 || n + 64 > |f| || (exists i :: n <= i < |f| && f[i] != 0 && f[i] != 255) then Failed(1)
              else Image(f[..n])
  {
    hide Ascii;
    Signature();
    var f := Dump(a, low, high, rest);
    assert f[..4] == Ascii("hsqs") && f[40..48] == low + high;
    assert (low + high)[..4] == low && (low + high)[4..] == high;
  }

  /** And nothing else is taken. */
  lemma OtherDumpsAreRefused(f: seq<byte>)
    requires |f| < 48 || f[..4] != Ascii("hsqs")
    ensures StockPayload(f) == Failed(1)
  {
    hide Ascii;
    Signature();
  }
}
