/**
 * `patch_y623_ve_debugfs.py`: a uImage is taken apart, two call sites in its
 * compressed kernel are exchanged, and it is put together again.
 */
module UImage {
  import opened Bytes
  import opened Crc32

  const MAGIC := 0x27051956
  const HEADER := 64
  const PAYLOAD := 1878024
  const XZ_OFFSET := 15273
  const XZ_SLOT := 1862684
  const IMAGE := 3742168

  datatype Refusal =
    | TooShort | WrongMagic | WrongSize | Truncated | HeaderCrc | DataCrc
    | XzFailed | ImageSize | Signature | HalfPatched | TooLarge | Padding | RoundTrip | NotPatched

  datatype Result<T> = Ok(value: T) | Refused(why: Refusal)

  // ----- taking apart -----

  datatype Parsed = Parsed(header: seq<byte>, payload: seq<byte>, tail: seq<byte>)

  function Field(header: seq<byte>, at: nat): (v: int)
    requires at + 4 <= |header|
    ensures 0 <= v < 0x1_0000_0000
  {
    Be32(header[at..at + 4])
  }

  /** `struct.pack_into('>I', header, at, v)`. */
  function WithField(header: seq<byte>, at: nat, v: int): (r: seq<byte>)
    requires at + 4 <= |header| && 0 <= v < 0x1_0000_0000
    ensures |r| == |header|
  {
    header[..at] + Store32(v) + header[at + 4..]
  }

  /** The checksum over a header, taken with its own field cleared. */
  function HeaderSum(header: seq<byte>): (v: int)
    requires |header| == HEADER
    ensures 0 <= v < 0x1_0000_0000
  {
    Crc(WithField(header, 4, 0))
  }

  function Parse(partition: seq<byte>): (r: Result<Parsed>)
  {
    if |partition| < HEADER then Refused(TooShort)
    else
      var header := partition[..HEADER];
      if Field(header, 0) != MAGIC then Refused(WrongMagic)
      else if Field(header, 12) != PAYLOAD then Refused(WrongSize)
      else if |partition| < HEADER + PAYLOAD then Refused(Truncated)
      else if HeaderSum(header) != Field(header, 4) then Refused(HeaderCrc)
      else
        var payload := partition[HEADER..HEADER + PAYLOAD];
        if Crc(payload) != Field(header, 24) then Refused(DataCrc)
        else Ok(Parsed(header, payload, partition[HEADER + PAYLOAD..]))
  }

  /** A header the parser lets pass, for this payload. */
  ghost predicate GoodHeader(header: seq<byte>, payload: seq<byte>) {
    && |header| == HEADER && |payload| == PAYLOAD
    && Field(header, 0) == MAGIC && Field(header, 12) == PAYLOAD
    && Field(header, 4) == HeaderSum(header) && Field(header, 24) == Crc(payload)
  }

  /** Parsing accepts exactly what a good header, its payload and any tail make. */
  lemma ParseMeans(partition: seq<byte>, p: Parsed)
    ensures Parse(partition) == Ok(p)
       <==> GoodHeader(p.header, p.payload) && partition == p.header + p.payload + p.tail
  {
    hide Crc, HeaderSum, Field;
    if |p.header| == HEADER && |p.payload| == PAYLOAD && partition == p.header + p.payload + p.tail {
      assert partition[..HEADER] == p.header;
      assert partition[HEADER..HEADER + PAYLOAD] == p.payload;
      assert partition[HEADER + PAYLOAD..] == p.tail;
    }
    if Parse(partition).Ok? {
      var q := Parse(partition).value;
      assert partition == q.header + q.payload + q.tail;
    }
  }

  // ----- fields -----

  lemma FieldOfWithField(header: seq<byte>, at: nat, v: int, k: nat)
    requires at + 4 <= |header| && 0 <= v < 0x1_0000_0000
    requires k + 4 <= |header| && (k == at || k + 4 <= at || at + 4 <= k)
    ensures Field(WithField(header, at, v), k) == if k == at then v else Field(header, k)
  {
    hide Be32, Store32;
    Be32OfStore32(v);
    var a, b := WithField(header, at, v)[k..k + 4], if k == at then Store32(v) else header[k..k + 4];
    forall i | 0 <= i < 4 ensures a[i] == b[i] {
    }
    assert a == b;
  }

  lemma FieldReplaced(front: seq<byte>, old': seq<byte>, back: seq<byte>, v: int)
    requires |old'| == 4 && 0 <= v < 0x1_0000_0000
    ensures WithField(front + old' + back, |front|, v) == front + Store32(v) + back
  {
    hide Store32;
    var h := front + old' + back;
    assert h[..|front|] == front && h[|front| + 4..] == back;
  }

  lemma WithFieldTwice(header: seq<byte>, at: nat, v: int, w: int)
    requires at + 4 <= |header| && 0 <= v < 0x1_0000_0000 && 0 <= w < 0x1_0000_0000
    ensures WithField(WithField(header, at, v), at, w) == WithField(header, at, w)
  {
    hide Store32;
    var once := WithField(header, at, v);
    assert once[..at] == header[..at] && once[at + 4..] == header[at + 4..];
  }

  // ----- one wrong byte is always noticed -----

  ghost predicate OneByteOff(s: seq<byte>, t: seq<byte>, i: nat) {
    |s| == |t| && i < |s| && s[i] != t[i] && forall j :: 0 <= j < |s| && j != i ==> s[j] == t[j]
  }

  /** No image stays acceptable when a single byte of its header or payload is damaged. */
  lemma DamageIsNoticed(good: seq<byte>, bad: seq<byte>, i: nat)
    requires Parse(good).Ok? && OneByteOff(good, bad, i) && i < HEADER + PAYLOAD
    ensures Parse(bad).Refused?
  {
    if Parse(bad).Ok? {
      hide Crc, Field, HeaderSum, OneByteOff;
      var p, q := Parse(good).value, Parse(bad).value;
      assert |good| == |bad| by { SliceDamage(good, bad, i, 0, 0); }
      SliceDamage(good, bad, i, 0, HEADER);
      SliceDamage(good, bad, i, HEADER, HEADER + PAYLOAD);
      assert good[0..HEADER] == p.header && bad[0..HEADER] == q.header;
      if i < HEADER {
        HeaderDamage(p.header, q.header, i);
      } else {
        PayloadDamage(p.payload, q.payload, i - HEADER);
      }
    }
  }

  lemma PayloadDamage(s: seq<byte>, t: seq<byte>, i: nat)
    requires OneByteOff(s, t, i)
    ensures Crc(s) != Crc(t)
  {
    OneByteTells(s, t, i);
  }

  lemma SliceDamage(s: seq<byte>, t: seq<byte>, i: nat, lo: nat, hi: nat)
    requires OneByteOff(s, t, i) && lo <= hi <= |s|
    ensures |t| == |s|
    ensures if lo <= i < hi then OneByteOff(s[lo..hi], t[lo..hi], i - lo) else s[lo..hi] == t[lo..hi]
  {
  }

  lemma FieldDamage(h: seq<byte>, g: seq<byte>, i: nat, at: nat)
    requires OneByteOff(h, g, i) && at + 4 <= |h|
    ensures at <= i < at + 4 <==> Field(h, at) != Field(g, at)
  {
    hide Be32, Store32;
    var a, b := h[at..at + 4], g[at..at + 4];
    Store32OfBe32(a);
    Store32OfBe32(b);
    if at <= i < at + 4 {
      assert a[i - at] != b[i - at];
    } else {
      assert a == b;
    }
  }

  lemma HeaderDamage(h: seq<byte>, g: seq<byte>, i: nat)
    requires |h| == HEADER && OneByteOff(h, g, i)
    ensures Field(h, 4) != Field(g, 4) || HeaderSum(h) != HeaderSum(g)
    ensures Field(h, 4) == Field(g, 4) || HeaderSum(h) == HeaderSum(g)
  {
    hide Crc, Field, Store32;
    FieldDamage(h, g, i, 4);
    var a, b := WithField(h, 4, 0), WithField(g, 4, 0);
    if 4 <= i < 8 {
      assert a == b;
    } else {
      assert OneByteOff(a, b, i);
      OneByteTells(a, b, i);
    }
  }

  // ----- the two call sites -----

  datatype Patch = Patch(offset: nat, old': seq<byte>, new': seq<byte>)

  /** The sites, counted from the start of the image: 0xC018C414 and 0xC018C42C less 0xC0008000. */
  const PATCHES: seq<Patch> :=
    [Patch(0x184414, [0xed, 0xf6, 0x6c, 0xff], [0xe6, 0xf6, 0x82, 0xfd]),
     Patch(0x18442C, [0xd9, 0xf6, 0x58, 0xfc], [0xe6, 0xf6, 0xb4, 0xfe])]

  /** Four bytes at most, as Python slices past the end. */
  function Four(image: seq<byte>, at: nat): seq<byte> {
    if at + 4 <= |image| then image[at..at + 4] else if at <= |image| then image[at..] else []
  }

  ghost predicate WellFormed(ps: seq<Patch>) {
    && (forall i :: 0 <= i < |ps| ==> |ps[i].old'| == 4 && |ps[i].new'| == 4 && ps[i].old' != ps[i].new')
    && (forall i, j :: 0 <= i < j < |ps| ==> ps[i].offset + 4 <= ps[j].offset)
  }

  predicate AllOld(image: seq<byte>, ps: seq<Patch>) {
    forall i :: 0 <= i < |ps| ==> Four(image, ps[i].offset) == ps[i].old'
  }

  predicate AllNew(image: seq<byte>, ps: seq<Patch>) {
    forall i :: 0 <= i < |ps| ==> Four(image, ps[i].offset) == ps[i].new'
  }

  predicate Known(image: seq<byte>, p: Patch) {
    Four(image, p.offset) == p.old' || Four(image, p.offset) == p.new'
  }

  predicate SomeSite(ps: seq<Patch>, at: nat) {
    exists i :: 0 <= i < |ps| && ps[i].offset <= at < ps[i].offset + 4
  }

  /** `image` is `before` with every site exchanged and nothing else. */
  ghost predicate Exchanged(before: seq<byte>, image: seq<byte>, ps: seq<Patch>) {
    && |image| == |before| && AllNew(image, ps)
    && forall k :: 0 <= k < |image| && !SomeSite(ps, k) ==> image[k] == before[k]
  }

  datatype Patched = Patched(image: seq<byte>, changed: bool)

  /** The loop that writes the new calls. */
  method WriteNew(image: seq<byte>, ps: seq<Patch>) returns (out: seq<byte>)
    requires WellFormed(ps) && AllOld(image, ps)
    ensures Exchanged(image, out, ps)
  {
    hide SomeSite;
    out := image;
    var n := 0;
    while n < |ps|
      invariant 0 <= n <= |ps| && |out| == |image|
      invariant forall i :: 0 <= i < n ==> Four(out, ps[i].offset) == ps[i].new'
      invariant forall k :: 0 <= k < |out| && !SomeSite(ps, k) ==> out[k] == image[k]
    {
      var p := ps[n];
      assert Four(image, p.offset) == p.old';
      ghost var last := out;
      out := out[..p.offset] + p.new' + out[p.offset + 4..];
      forall i | 0 <= i < n ensures Four(out, ps[i].offset) == ps[i].new' {
        var a, b := Four(out, ps[i].offset), Four(last, ps[i].offset);
        assert forall k :: 0 <= k < 4 ==> a[k] == b[k];
      }
      forall k | 0 <= k < |out| && !SomeSite(ps, k) ensures out[k] == image[k] {
        NotThisSite(ps, n, k);
      }
      n := n + 1;
    }
  }

  lemma NotThisSite(ps: seq<Patch>, n: nat, k: nat)
    requires n < |ps| && !SomeSite(ps, k)
    ensures !(ps[n].offset <= k < ps[n].offset + 4)
  {
  }

  /** The first loop of `patch_image`: true where the new call is already in place. */
  method Inspect(image: seq<byte>, ps: seq<Patch>) returns (r: Result<seq<bool>>)
    requires WellFormed(ps)
    ensures r.Ok? ==> |r.value| == |ps| && forall i :: 0 <= i < |ps| ==>
              Four(image, ps[i].offset) == if r.value[i] then ps[i].new' else ps[i].old'
    ensures r.Ok? <==> forall i :: 0 <= i < |ps| ==> Known(image, ps[i])
    ensures r.Refused? ==> r.why == Signature
  {
    hide Four;
    var states: seq<bool> := [];
    while |states| < |ps|
      invariant |states| <= |ps|
      invariant forall i :: 0 <= i < |states| ==>
                  Four(image, ps[i].offset) == if states[i] then ps[i].new' else ps[i].old'
      invariant forall i :: 0 <= i < |states| ==> Known(image, ps[i])
    {
      var p := ps[|states|];
      var current := Four(image, p.offset);
      if current == p.old' {
        states := states + [false];
      } else if current == p.new' {
        states := states + [true];
      } else {
        assert !Known(image, p);
        return Refused(Signature);
      }
    }
    return Ok(states);
  }

  /** `patch_image`: all sites change or none, and an unknown or half-changed image is refused. */
  method PatchImage(image: seq<byte>, ps: seq<Patch>) returns (r: Result<Patched>)
    requires WellFormed(ps) && ps != []
    ensures AllNew(image, ps) ==> r == Ok(Patched(image, false))
    ensures AllOld(image, ps) ==> r.Ok? && r.value.changed && Exchanged(image, r.value.image, ps)
    ensures r.Ok? ==> AllOld(image, ps) || AllNew(image, ps)
    ensures r.Refused? ==>
              r.why == if forall i :: 0 <= i < |ps| ==> Known(image, ps[i]) then HalfPatched else Signature
  {
    hide Four, Exchanged;
    NotBoth(image, ps);
    KnownEitherWay(image, ps);
    var states := Inspect(image, ps);
    if states.Refused? { return Refused(states.why); }
    if forall i :: 0 <= i < |states.value| ==> states.value[i] { return Ok(Patched(image, false)); }
    if exists i :: 0 <= i < |states.value| && states.value[i] { return Refused(HalfPatched); }
    var out := WriteNew(image, ps);
    r := Ok(Patched(out, true));
  }

  lemma KnownEitherWay(image: seq<byte>, ps: seq<Patch>)
    ensures AllOld(image, ps) || AllNew(image, ps) ==> forall i :: 0 <= i < |ps| ==> Known(image, ps[i])
  {
    hide Four;
  }

  lemma NotBoth(image: seq<byte>, ps: seq<Patch>)
    requires WellFormed(ps) && ps != []
    ensures !(AllOld(image, ps) && AllNew(image, ps))
  {
    hide Four;
    assert ps[0].old' != ps[0].new';
  }

  lemma PatchesAreWellFormed()
    ensures WellFormed(PATCHES)
  {
  }

  // ----- putting together -----

  /** The `xz` program: any pair of commands, either of which may fail. */
  datatype Xz = Xz(compress: seq<byte> -> Result<seq<byte>>, decompress: seq<byte> -> Result<seq<byte>>)

  function Slot(payload: seq<byte>): seq<byte>
    requires |payload| == PAYLOAD
  {
    payload[XZ_OFFSET..XZ_OFFSET + XZ_SLOT]
  }

  function WithSlot(payload: seq<byte>, slot: seq<byte>): (r: seq<byte>)
    requires |payload| == PAYLOAD && |slot| == XZ_SLOT
    ensures |r| == PAYLOAD
  {
    payload[..XZ_OFFSET] + slot + payload[XZ_OFFSET + XZ_SLOT..]
  }

  /** `decompress_kernel`. */
  function DecompressKernel(payload: seq<byte>, xz: Xz): Result<seq<byte>>
    requires |payload| == PAYLOAD
  {
    var r := xz.decompress(Slot(payload));
    if r.Ok? && |r.value| != IMAGE then Refused(ImageSize) else r
  }

  /** `compress_kernel`. */
  function CompressKernel(image: seq<byte>, xz: Xz): (r: Result<seq<byte>>)
    ensures r.Ok? ==> |r.value| == XZ_SLOT
  {
    var c := xz.compress(image);
    if c.Refused? then c
    else if |c.value| > XZ_SLOT then Refused(TooLarge)
    else if (XZ_SLOT - |c.value|) % 4 != 0 then Refused(Padding)
    else Ok(c.value + Zeros(XZ_SLOT - |c.value|))
  }

  /** The header for a new payload: both checksums taken anew, the header's own last. */
  function Stamped(header: seq<byte>, payload: seq<byte>): (r: seq<byte>)
    requires |header| == HEADER
    ensures |r| == HEADER
  {
    var h := WithField(WithField(header, 24, Crc(payload)), 4, 0);
    WithField(h, 4, Crc(h))
  }

  /** Any header with the right magic number and size becomes good for any payload of that size. */
  lemma StampedIsGood(header: seq<byte>, payload: seq<byte>)
    requires |header| == HEADER && Field(header, 0) == MAGIC && Field(header, 12) == PAYLOAD && |payload| == PAYLOAD
    ensures GoodHeader(Stamped(header, payload), payload)
  {
    hide Crc, Field, WithField;
    var sum := Crc(payload);
    var g := WithField(header, 24, sum);
    var h := WithField(g, 4, 0);
    WithFieldTwice(g, 4, 0, Crc(h));
    assert Stamped(header, payload) == WithField(g, 4, Crc(h));
    WithFieldTwice(g, 4, Crc(h), 0);
    FieldOfWithField(header, 24, sum, 0);
    FieldOfWithField(header, 24, sum, 12);
    FieldOfWithField(header, 24, sum, 24);
    FieldOfWithField(g, 4, Crc(h), 0);
    FieldOfWithField(g, 4, Crc(h), 4);
    FieldOfWithField(g, 4, Crc(h), 12);
    FieldOfWithField(g, 4, Crc(h), 24);
  }

  /** Every payload of the right size is the payload of some partition the parser accepts. */
  lemma EveryPayloadHasAPartition(payload: seq<byte>, tail: seq<byte>)
    requires |payload| == PAYLOAD
    ensures exists header :: Parse(header + payload + tail) == Ok(Parsed(header, payload, tail))
  {
    hide Crc, Field, WithField, Parse, GoodHeader;
    var z := Zeros(HEADER);
    var raw := WithField(WithField(z, 0, MAGIC), 12, PAYLOAD);
    FieldOfWithField(z, 0, MAGIC, 0);
    FieldOfWithField(WithField(z, 0, MAGIC), 12, PAYLOAD, 0);
    FieldOfWithField(WithField(z, 0, MAGIC), 12, PAYLOAD, 12);
    StampedIsGood(raw, payload);
    var header := Stamped(raw, payload);
    ParseMeans(header + payload + tail, Parsed(header, payload, tail));
  }

  /** What a rebuild comes to: the checks left that can fail are all about `xz` and the kernel. */
  function Rebuilt(p: Parsed, image: seq<byte>, xz: Xz): Result<seq<byte>>
    requires |p.header| == HEADER && |p.payload| == PAYLOAD
  {
    var slot := CompressKernel(image, xz);
    if slot.Refused? then Refused(slot.why)
    else
      var payload := WithSlot(p.payload, slot.value);
      var kernel := DecompressKernel(payload, xz);
      if kernel.Refused? then Refused(kernel.why)
      else if kernel.value != image then Refused(RoundTrip)
      else if !AllNew(image, PATCHES) then Refused(NotPatched)
      else Ok(Stamped(p.header, payload) + payload + p.tail)
  }

  /** Positions a rebuild may touch: the two checksums and the compressed kernel. */
  predicate Touched(k: int) {
    4 <= k < 8 || 24 <= k < 28 || HEADER + XZ_OFFSET <= k < HEADER + XZ_OFFSET + XZ_SLOT
  }

  /** A partition whose kernel already calls the new functions. */
  ghost predicate Settled(partition: seq<byte>, xz: Xz) {
    && Parse(partition).Ok?
    && DecompressKernel(Parse(partition).value.payload, xz).Ok?
    && AllNew(DecompressKernel(Parse(partition).value.payload, xz).value, PATCHES)
  }

  lemma StampedKeeps(header: seq<byte>, payload: seq<byte>, k: int)
    requires |header| == HEADER && 0 <= k < HEADER && !Touched(k)
    ensures Stamped(header, payload)[k] == header[k]
  {
    hide Crc, Store32;
  }

  /** A rebuilt partition parses again, holds the given kernel, and differs nowhere else. */
  lemma RebuiltIsSettled(partition: seq<byte>, p: Parsed, image: seq<byte>, xz: Xz)
    requires Parse(partition) == Ok(p) && Rebuilt(p, image, xz).Ok?
    ensures var out := Rebuilt(p, image, xz).value;
            && Parse(out).Ok? && Parse(out).value.tail == p.tail
            && DecompressKernel(Parse(out).value.payload, xz) == Ok(image)
            && Settled(out, xz) && |out| == |partition|
            && forall k :: 0 <= k < |out| && !Touched(k) ==> out[k] == partition[k]
  {
    hide Crc, Parse, Stamped, WithSlot, GoodHeader, Touched, CompressKernel, DecompressKernel, AllNew;
    ParseMeans(partition, p);
    GoodSizes(p.header, p.payload);
    var payload := WithSlot(p.payload, CompressKernel(image, xz).value);
    var header := Stamped(p.header, payload);
    var out := header + payload + p.tail;
    StampedIsGood(p.header, payload);
    ParseMeans(out, Parsed(header, payload, p.tail));
    forall k | 0 <= k < |out| && !Touched(k) ensures out[k] == partition[k] {
      if k < HEADER {
        StampedKeeps(p.header, payload, k);
      } else if k < HEADER + PAYLOAD {
        SlotKeeps(p.payload, CompressKernel(image, xz).value, k - HEADER);
        assert out[k] == payload[k - HEADER];
      }
    }
  }

  lemma SlotKeeps(payload: seq<byte>, slot: seq<byte>, k: nat)
    requires |payload| == PAYLOAD && |slot| == XZ_SLOT && k < PAYLOAD && !Touched(k + HEADER)
    ensures WithSlot(payload, slot)[k] == payload[k]
  {
  }

  /** `struct.pack_into` on a buffer. */
  method PackInto(a: array<byte>, at: nat, v: int)
    requires at + 4 <= a.Length && 0 <= v < 0x1_0000_0000
    modifies a
    ensures a[..] == WithField(old(a[..]), at, v)
  {
    var s := Store32(v);
    forall i | 0 <= i < 4 { a[at + i] := s[i]; }
  }

  method CopyInto(a: array<byte>, at: nat, s: seq<byte>)
    requires at + |s| <= a.Length
    modifies a
    ensures a[..] == old(a[..at]) + s + old(a[at + |s|..])
  {
    forall i | 0 <= i < |s| { a[at + i] := s[i]; }
  }

  /** `rebuild_uimage`, which changes the buffers it is given. */
  method Rebuild(original: seq<byte>, header: array<byte>, payload: array<byte>, tail: seq<byte>,
                 image: seq<byte>, xz: Xz)
    returns (r: Result<seq<byte>>)
    requires header != payload && Parse(original) == Ok(Parsed(header[..], payload[..], tail))
    modifies header, payload
    ensures r == Rebuilt(old(Parsed(header[..], payload[..], tail)), image, xz)
    ensures r.Ok? ==> r.value == header[..] + payload[..] + tail
  {
    hide Crc, Parse, AllNew, Store32, GoodHeader, Field, HeaderSum;
    ghost var p := Parsed(header[..], payload[..], tail);
    ParseMeans(original, p);
    GoodSizes(p.header, p.payload);
    var compressed := CompressKernel(image, xz);
    if compressed.Refused? { return Refused(compressed.why); }
    var slot := compressed.value;
    var before := payload[..];
    CopyInto(payload, XZ_OFFSET, slot);
    assert payload[..] == WithSlot(p.payload, slot);
    if payload[..XZ_OFFSET] != before[..XZ_OFFSET] { assert false; }
    if payload[XZ_OFFSET + XZ_SLOT..] != before[XZ_OFFSET + XZ_SLOT..] { assert false; }
    PackInto(header, 24, Crc(payload[..]));
    PackInto(header, 4, 0);
    PackInto(header, 4, Crc(header[..]));
    assert header[..] == Stamped(p.header, payload[..]);
    var output := header[..] + payload[..] + tail;
    StampedIsGood(p.header, payload[..]);
    ParseMeans(output, Parsed(header[..], payload[..], tail));
    if |output| != |original| { assert false; }
    var again := Parse(output);
    if again.Refused? || again.value.tail != tail { assert false; }
    var kernel := DecompressKernel(again.value.payload, xz);
    if kernel.Refused? { return Refused(kernel.why); }
    if kernel.value != image { return Refused(RoundTrip); }
    if !AllNew(kernel.value, PATCHES) { return Refused(NotPatched); }
    return Ok(output);
  }

  lemma GoodSizes(header: seq<byte>, payload: seq<byte>)
    requires GoodHeader(header, payload)
    ensures |header| == HEADER && |payload| == PAYLOAD
    ensures Field(header, 0) == MAGIC && Field(header, 12) == PAYLOAD
  {
  }

  // ----- the whole program -----

  /** The kernel a partition holds. */
  function Kernel(partition: seq<byte>, xz: Xz): (r: Result<seq<byte>>)
  {
    var p := Parse(partition);
    if p.Refused? then Refused(p.why) else DecompressKernel(p.value.payload, xz)
  }

  /** What one run makes of a partition it accepts. */
  ghost predicate Converted(partition: seq<byte>, out: seq<byte>, xz: Xz) {
    && Settled(out, xz) && |out| == |partition|
    && (forall k :: 0 <= k < |out| && !Touched(k) ==> out[k] == partition[k])
    && Kernel(partition, xz).Ok? && Kernel(out, xz).Ok?
    && (Settled(partition, xz) ==> out == partition)
    && (!Settled(partition, xz) ==>
          && AllOld(Kernel(partition, xz).value, PATCHES)
          && Exchanged(Kernel(partition, xz).value, Kernel(out, xz).value, PATCHES))
  }

  /** The answer is that of a rebuild with the sites exchanged. */
  ghost predicate RebuildGives(partition: seq<byte>, r: Result<seq<byte>>, xz: Xz) {
    && Parse(partition).Ok? && Kernel(partition, xz).Ok?
    && var p := Parse(partition).value;
       && |p.header| == HEADER && |p.payload| == PAYLOAD
       && exists image :: Exchanged(Kernel(partition, xz).value, image, PATCHES) && Rebuilt(p, image, xz) == r
  }

  /** `main`: an accepted partition comes out converted; a converted one comes out as it is. */
  method Process(partition: seq<byte>, xz: Xz) returns (r: Result<seq<byte>>)
    ensures r.Ok? ==> Converted(partition, r.value, xz)
    ensures Settled(partition, xz) ==> r == Ok(partition)
    ensures Kernel(partition, xz).Refused? ==> r == Refused(Kernel(partition, xz).why)
    ensures Kernel(partition, xz).Ok? && AllOld(Kernel(partition, xz).value, PATCHES) ==> RebuildGives(partition, r, xz)
    ensures Kernel(partition, xz).Ok? ==>
              var kernel := Kernel(partition, xz).value;
              !AllOld(kernel, PATCHES) && !AllNew(kernel, PATCHES) ==>
                r == Refused(if forall i :: 0 <= i < |PATCHES| ==> Known(kernel, PATCHES[i]) then HalfPatched else Signature)
  {
    hide Crc, Parse, DecompressKernel, AllNew, AllOld, Exchanged, Rebuilt, Touched;
    var parsed := Parse(partition);
    if parsed.Refused? { return Refused(parsed.why); }
    var p := parsed.value;
    ParseMeans(partition, p);
    GoodSizes(p.header, p.payload);
    var kernel := DecompressKernel(p.payload, xz);
    if kernel.Refused? { return Refused(kernel.why); }
    PatchesAreWellFormed();
    NotBoth(kernel.value, PATCHES);
    var patched := PatchImage(kernel.value, PATCHES);
    if patched.Refused? { return Refused(patched.why); }
    if !patched.value.changed { return Ok(partition); }
    var header := new byte[HEADER](i requires 0 <= i < HEADER => p.header[i]);
    var payload := new byte[PAYLOAD](i requires 0 <= i < PAYLOAD => p.payload[i]);
    assert header[..] == p.header && payload[..] == p.payload;
    r := Rebuild(partition, header, payload, p.tail, patched.value.image, xz);
    if r.Ok? { RebuiltIsSettled(partition, p, patched.value.image, xz); }
  }
}
