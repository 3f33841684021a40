/**
 * Boot partitions built by hand: which bytes `patch_y623_ve_debugfs.py` accepts,
 * what it finds in them and what it makes of them.
 */
module KernelPartitions {
  import opened Bytes
  import opened Crc32
  import opened UImage

  /**
   * A uImage header's free fields, the payload in front of, in and behind the
   * compressed kernel, and the rest of the partition.
   */
  datatype Parts = Parts(time: seq<byte>, load: seq<byte>, entry: seq<byte>, rest: seq<byte>,
                         front: seq<byte>, stream: seq<byte>, back: seq<byte>, tail: seq<byte>)
  {
    ghost predicate Valid() {
      && |time| == 4 && |load| == 4 && |entry| == 4 && |rest| == 36
      && |front| == 15273 && |stream| == 1862684 && |back| == 67
    }

    function Payload(): seq<byte> { front + stream + back }

    /** The header with this number as its own checksum. */
    function Header(sum: int): seq<byte>
      requires 0 <= sum < 0x1_0000_0000
    {
      [0x27, 0x05, 0x19, 0x56] + Store32(sum) + Behind()
    }

    function Behind(): seq<byte> { time + Store32(1878024) + load + entry + Store32(Crc(Payload())) + rest }

    /** The header's checksum is taken while it holds zero. */
    function Sealed(): seq<byte> { Header(Crc(Header(0))) }

    function Whole(): seq<byte> { Sealed() + Payload() + tail }
  }

  // ----- headers by their fields -----

  lemma Fields(h: seq<byte>, a: seq<byte>, b: seq<byte>, c: seq<byte>, d: seq<byte>, e: seq<byte>, f: seq<byte>, g: seq<byte>, r: seq<byte>)
    requires |a| == 4 && |b| == 4 && |c| == 4 && |d| == 4 && |e| == 4 && |f| == 4 && |g| == 4 && |r| == 36
    requires h == a + b + c + d + e + f + g + r
    ensures |h| == 64 && h[0..4] == a && h[4..8] == b && h[8..12] == c && h[12..16] == d
    ensures h[16..20] == e && h[20..24] == f && h[24..28] == g && h[28..64] == r
  {
  }

  lemma FieldsOfHeader(p: Parts, sum: int)
    requires p.Valid() && 0 <= sum < 0x1_0000_0000
    ensures var h := p.Header(sum);
            && |h| == 64 && Field(h, 0) == 0x27051956 && Field(h, 4) == sum
            && Field(h, 12) == 1878024 && Field(h, 24) == Crc(p.Payload())
  {
    hide Crc, Be32, Store32;
    Fields(p.Header(sum), [0x27, 0x05, 0x19, 0x56], Store32(sum), p.time, Store32(1878024), p.load, p.entry, Store32(Crc(p.Payload())), p.rest);
    Be32OfStore32(sum);
    Be32OfStore32(1878024);
    Be32OfStore32(Crc(p.Payload()));
    Magic();
  }

  lemma Magic()
    ensures Be32([0x27, 0x05, 0x19, 0x56]) == 0x27051956
  {
  }

  lemma SumChanged(p: Parts, sum: int, other: int)
    requires p.Valid() && 0 <= sum < 0x1_0000_0000 && 0 <= other < 0x1_0000_0000
    ensures |p.Header(sum)| == 64 && WithField(p.Header(sum), 4, other) == p.Header(other)
  {
    hide Crc, Store32, WithField;
    FieldReplaced([0x27, 0x05, 0x19, 0x56], Store32(sum), p.Behind(), other);
  }

  lemma PartsAreGood(p: Parts)
    requires p.Valid()
    ensures |p.Sealed()| == 64 && GoodHeader(p.Sealed(), p.Payload())
  {
    hide Crc, Parts.Header, Field, WithField;
    var sum := Crc(p.Header(0));
    FieldsOfHeader(p, sum);
    SumChanged(p, sum, 0);
  }

  /** Every partition built so is accepted, and taken apart into header, payload and tail. */
  lemma PartsAreAccepted(p: Parts)
    requires p.Valid()
    ensures Parse(p.Whole()) == Ok(Parsed(p.Sealed(), p.Payload(), p.tail))
  {
    hide Parse, GoodHeader, Parts.Sealed, Parts.Payload;
    PartsAreGood(p);
    ParseMeans(p.Whole(), Parsed(p.Sealed(), p.Payload(), p.tail));
  }

  /** And no other. */
  lemma AcceptedPartitionsAreParts(partition: seq<byte>) returns (p: Parts)
    requires Parse(partition).Ok?
    ensures p.Valid() && p.Whole() == partition
  {
    hide Parse, Crc, Field, HeaderSum;
    var q := Parse(partition).value;
    ParseMeans(partition, q);
    var h, payload := q.header, q.payload;
    p := Parts(h[8..12], h[16..20], h[20..24], h[28..64],
               payload[..15273], payload[15273..1877957], payload[1877957..], q.tail);
    assert p.Payload() == payload;
    HeaderOfFields(p, h);
    SumChanged(p, Field(h, 4), 0);
    assert HeaderSum(h) == Crc(p.Header(0)) by { SumOf(h); }
  }

  lemma SumOf(h: seq<byte>)
    requires |h| == 64
    ensures HeaderSum(h) == Crc(WithField(h, 4, 0))
  {
  }

  lemma HeaderOfFields(p: Parts, h: seq<byte>)
    requires p.Valid() && |h| == 64
    requires p.time == h[8..12] && p.load == h[16..20] && p.entry == h[20..24] && p.rest == h[28..64]
    requires Field(h, 0) == 0x27051956 && Field(h, 12) == 1878024 && Field(h, 24) == Crc(p.Payload())
    ensures h == p.Header(Field(h, 4))
  {
    hide Crc, Be32, Store32;
    Store32OfBe32(h[0..4]);
    Store32OfBe32(h[4..8]);
    Store32OfBe32(h[12..16]);
    Store32OfBe32(h[24..28]);
    Magic();
    Be32OfStore32(0x27051956);
    MagicBytes();
    EightPieces(h);
  }

  lemma MagicBytes()
    ensures Store32(0x27051956) == [0x27, 0x05, 0x19, 0x56]
  {
  }

  lemma EightPieces(h: seq<byte>)
    requires |h| == 64
    ensures h == h[0..4] + h[4..8] + h[8..12] + h[12..16] + h[16..20] + h[20..24] + h[24..28] + h[28..64]
  {
    assert h[0..8] == h[0..4] + h[4..8];
    assert h[0..12] == h[0..8] + h[8..12];
    assert h[0..16] == h[0..12] + h[12..16];
    assert h[0..20] == h[0..16] + h[16..20];
    assert h[0..24] == h[0..20] + h[20..24];
    assert h[0..28] == h[0..24] + h[24..28];
    assert h == h[0..28] + h[28..64];
  }

  // ----- the kernel in it -----

  lemma SlotOfParts(p: Parts)
    requires p.Valid()
    ensures |p.Payload()| == 1878024 && Slot(p.Payload()) == p.stream
  {
    var front, back := p.front, p.back;
    assert p.Payload()[15273..1877957] == p.stream;
  }

  /** The kernel is what the stream decompresses to, if it has the right size. */
  lemma KernelOfParts(p: Parts, xz: Xz)
    requires p.Valid()
    ensures Kernel(p.Whole(), xz) ==
            match xz.decompress(p.stream)
            case Refused(why) => Refused(why)
            case Ok(kernel) => if |kernel| == 3742168 then Ok(kernel) else Refused(ImageSize)
  {
    hide Parse, Slot;
    PartsAreAccepted(p);
    SlotOfParts(p);
  }

  /** The two calls, by their addresses in a kernel that starts at 0xC0008000. */
  lemma SitesOfKernel(kernel: seq<byte>)
    requires |kernel| == 3742168
    ensures AllOld(kernel, PATCHES) <==>
            && kernel[0xC018C414 - 0xC0008000..0xC018C418 - 0xC0008000] == [0xed, 0xf6, 0x6c, 0xff]
            && kernel[0xC018C42C - 0xC0008000..0xC018C430 - 0xC0008000] == [0xd9, 0xf6, 0x58, 0xfc]
    ensures AllNew(kernel, PATCHES) <==>
            && kernel[0xC018C414 - 0xC0008000..0xC018C418 - 0xC0008000] == [0xe6, 0xf6, 0x82, 0xfd]
            && kernel[0xC018C42C - 0xC0008000..0xC018C430 - 0xC0008000] == [0xe6, 0xf6, 0xb4, 0xfe]
  {
    hide Four;
    FourOfKernel(kernel, 0xC018C414);
    FourOfKernel(kernel, 0xC018C42C);
    var a, b := PATCHES[0], PATCHES[1];
    assert a.offset == 0xC018C414 - 0xC0008000 && b.offset == 0xC018C42C - 0xC0008000;
    TwoSites(kernel, a, b);
    assert PATCHES == [a, b];
  }

  lemma FourOfKernel(kernel: seq<byte>, address: nat)
    requires 0xC0008000 <= address && address + 4 - 0xC0008000 <= |kernel|
    ensures Four(kernel, address - 0xC0008000) == kernel[address - 0xC0008000..address + 4 - 0xC0008000]
  {
  }

  lemma TwoSites(kernel: seq<byte>, a: Patch, b: Patch)
    ensures AllOld(kernel, [a, b]) <==> Four(kernel, a.offset) == a.old' && Four(kernel, b.offset) == b.old'
    ensures AllNew(kernel, [a, b]) <==> Four(kernel, a.offset) == a.new' && Four(kernel, b.offset) == b.new'
  {
    hide Four;
    assert [a, b][0] == a && [a, b][1] == b;
  }

  // ----- putting a kernel in -----

  lemma StampedParts(p: Parts, stream: seq<byte>)
    requires p.Valid() && |stream| == 1862684
    ensures |p.Sealed()| == 64 && |p.Payload()| == 1878024
    ensures var q := p.(stream := stream);
            WithSlot(p.Payload(), stream) == q.Payload() && Stamped(p.Sealed(), q.Payload()) == q.Sealed()
  {
    hide Crc, Parts.Header, WithField, Store32;
    var q := p.(stream := stream);
    SlotOfParts(p);
    SlotReplaced(p, stream);
    var sum := Crc(p.Header(0));
    DataSumChanged(p, q, sum);
    SumChanged(q, sum, 0);
    SumChanged(q, 0, Crc(q.Header(0)));
  }

  lemma SlotReplaced(p: Parts, stream: seq<byte>)
    requires p.Valid() && |stream| == 1862684
    ensures |p.Payload()| == 1878024 && WithSlot(p.Payload(), stream) == p.(stream := stream).Payload()
  {
    assert p.Payload()[..15273] == p.front;
    assert p.Payload()[1877957..] == p.back;
  }

  /** A new payload's checksum goes where the old one was. */
  lemma DataSumChanged(p: Parts, q: Parts, sum: int)
    requires p.Valid() && q.Valid() && 0 <= sum < 0x1_0000_0000
    requires q.time == p.time && q.load == p.load && q.entry == p.entry && q.rest == p.rest
    ensures |p.Header(sum)| == 64 && WithField(p.Header(sum), 24, Crc(q.Payload())) == q.Header(sum)
  {
    hide Crc, Store32, Parts.Payload, WithField;
    var magic: seq<byte> := [0x27, 0x05, 0x19, 0x56];
    var before := magic + Store32(sum) + (p.time + Store32(1878024) + p.load + p.entry);
    FieldReplaced(before, Store32(Crc(p.Payload())), p.rest, Crc(q.Payload()));
    assert p.Header(sum) == before + Store32(Crc(p.Payload())) + p.rest;
    assert q.Header(sum) == before + Store32(Crc(q.Payload())) + q.rest;
  }

  /** What a rebuild makes of a partition: the same parts with the new stream, padded, or the reason why not. */
  lemma RebuiltOfParts(p: Parts, image: seq<byte>, xz: Xz)
    requires p.Valid()
    ensures |p.Sealed()| == 64 && |p.Payload()| == 1878024
    ensures Rebuilt(Parsed(p.Sealed(), p.Payload(), p.tail), image, xz) ==
            match xz.compress(image)
            case Refused(why) => Refused(why)
            case Ok(c) =>
              if |c| > 1862684 then Refused(TooLarge)
              else if (1862684 - |c|) % 4 != 0 then Refused(Padding)
              else
                var stream := c + seq(1862684 - |c|, _ => 0);
                match xz.decompress(stream)
                case Refused(why) => Refused(why)
                case Ok(kernel) =>
                  if |kernel| != 3742168 then Refused(ImageSize)
                  else if kernel != image then Refused(RoundTrip)
                  else if !AllNew(image, PATCHES) then Refused(NotPatched)
                  else Ok(p.(stream := stream).Whole())
  {
    hide Crc, Stamped, WithSlot, Slot, AllNew, Parts.Sealed, Parts.Payload;
    PartsAreGood(p);
    SlotOfParts(p);
    var c := xz.compress(image);
    if c.Ok? && |c.value| <= 1862684 && (1862684 - |c.value|) % 4 == 0 {
      var stream := c.value + Zeros(1862684 - |c.value|);
      assert stream == c.value + seq(1862684 - |c.value|, _ => 0);
      StampedParts(p, stream);
      SlotOfParts(p.(stream := stream));
    }
  }
}
