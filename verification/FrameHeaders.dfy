/**
 * The packed frame headers of the camera's four firmware families, built field
 * by field as the writer lays them out, and read back by the capture loop.
 */
module FrameHeaders {
  import opened Bytes
  import opened FrameCapture
  import opened FrameRing
  import opened Options

  function Little16(v: int): (s: seq<byte>)
    requires 0 <= v < 0x1_0000
    ensures |s| == 2
  {
    [v % 0x100, v / 0x100]
  }

  function Little32(v: int): (s: seq<byte>)
    requires 0 <= v < 0x1_0000_0000
    ensures |s| == 4
  {
    [v % 0x100, v / 0x100 % 0x100, v / 0x1_0000 % 0x100, v / 0x100_0000]
  }

  /** The fields of a header; `u1` to `u4` are the ones nobody reads. */
  datatype Fields = Fields(len: int, counter: int, time: int, kind: int, streamCounter: int, u1: int, u2: int, u4: int) {
    ghost predicate Valid() {
      && 0 <= len < 0x1_0000_0000 && 0 <= counter < 0x1_0000_0000 && 0 <= time < 0x1_0000_0000
      && 0 <= kind < 0x1_0000 && 0 <= streamCounter < 0x1_0000
      && 0 <= u1 < 0x1_0000_0000 && 0 <= u2 < 0x1_0000_0000 && 0 <= u4 < 0x1_0000_0000
    }
  }

  /** Length, counter and the first unknown word; a second one in the two longer headers. */
  function Front(f: Fields, longer: bool): (s: seq<byte>)
    requires f.Valid()
    ensures |s| == if longer then 16 else 12
  {
    Little32(f.len) + Little32(f.counter) + Little32(f.u1) + if longer then Little32(f.u2) else []
  }

  /** Time, type and stream counter. */
  function Middle(f: Fields): (s: seq<byte>)
    requires f.Valid()
    ensures |s| == 8
  {
    Little32(f.time) + Little16(f.kind) + Little16(f.streamCounter)
  }

  function Packed22(f: Fields): (s: seq<byte>)
    requires f.Valid()
    ensures |s| == 22
  {
    Front(f, false) + Middle(f) + Little16(f.u4 % 0x1_0000)
  }

  function Packed24(f: Fields): (s: seq<byte>)
    requires f.Valid()
    ensures |s| == 24
  {
    Front(f, false) + Middle(f) + Little32(f.u4)
  }

  function Packed26(f: Fields): (s: seq<byte>)
    requires f.Valid()
    ensures |s| == 26
  {
    Front(f, true) + Middle(f) + Little16(f.u4 % 0x1_0000)
  }

  function Packed28(f: Fields): (s: seq<byte>)
    requires f.Valid()
    ensures |s| == 28
  {
    Front(f, true) + Middle(f) + Little32(f.u4)
  }

  /** The packed header of that many bytes. */
  function Packed(f: Fields, size: nat): (s: seq<byte>)
    requires f.Valid() && HeaderSize(size)
    ensures |s| == size
  {
    if size == 22 then Packed22(f) else if size == 24 then Packed24(f) else if size == 26 then Packed26(f) else Packed28(f)
  }

  lemma Le32OfLittle32(v: int)
    requires 0 <= v < 0x1_0000_0000
    ensures Le32(Little32(v)) == v
  {
    assert v / 0x100 / 0x100 == v / 0x1_0000 && v / 0x1_0000 / 0x100 == v / 0x100_0000;
  }

  lemma Le16OfLittle16(v: int)
    requires 0 <= v < 0x1_0000
    ensures Le16(Little16(v)) == v
  {
  }

  /** The slices of a packed header, for either front. */
  lemma SlicesOfPacked(f: Fields, longer: bool, rest: seq<byte>)
    requires f.Valid()
    ensures var s := Front(f, longer) + Middle(f) + rest;
            var n := if longer then 16 else 12;
            && s[0..4] == Little32(f.len) && s[4..8] == Little32(f.counter)
            && s[n..n + 4] == Little32(f.time) && s[n + 4..n + 6] == Little16(f.kind)
            && s[n + 6..n + 8] == Little16(f.streamCounter)
  {
    hide Little32, Little16;
    var s, n := Front(f, longer) + Middle(f) + rest, if longer then 16 else 12;
    assert s[n..n + 8] == Middle(f);
    assert s[n..n + 4] == s[n..n + 8][0..4] && s[n + 4..n + 6] == s[n..n + 8][4..6] && s[n + 6..n + 8] == s[n..n + 8][6..8];
  }

  /** Each of the four headers reads back as the fields it was built from. */
  lemma DecodeOfPacked(f: Fields, size: nat)
    requires f.Valid() && (size == 22 || size == 24 || size == 26 || size == 28)
    ensures Decode(Packed(f, size)) == Some(Header(f.len, f.counter, f.time, f.kind, f.streamCounter))
  {
    hide Little32, Little16, Le32, Le16, Front, Middle;
    Le32OfLittle32(f.len);
    Le32OfLittle32(f.counter);
    Le32OfLittle32(f.time);
    Le16OfLittle16(f.kind);
    Le16OfLittle16(f.streamCounter);
    SlicesOfPacked(f, size >= 26, if size == 22 || size == 26 then Little16(f.u4 % 0x1_0000) else Little32(f.u4));
  }

  /** A type, from its bits. */
  function Kind(above: nat, parameterSet: bool, lowest: bool): nat {
    4 * above + (if parameterSet then 2 else 0) + if lowest then 1 else 0
  }

  lemma FrameOfPacked(f: Fields, size: nat, data: seq<byte>)
    requires f.Valid() && HeaderSize(size) && |data| == f.len
    ensures (Packed(f, size) + data)[..size] == Packed(f, size) && (Packed(f, size) + data)[size..] == data
  {
  }

  /** Such a header with its data behind it is a frame, if it fits the ring. */
  lemma PackedIsAFrame(g: Geometry, f: Fields, size: nat, data: seq<byte>)
    requires f.Valid() && HeaderSize(size) && |data| == f.len
    ensures IsFrame(g, size, Packed(f, size) + data) <==> size + |data| <= g.Length()
  {
    hide Decode, Packed;
    FrameOfPacked(f, size, data);
    DecodeOfPacked(f, size);
  }

  /**
   * What goes to the queue for a frame so built: its data, without the first six
   * bytes exactly when bit 1 of the type marks a parameter set, and nothing when
   * no byte is left.
   */
  lemma PayloadOfPacked(f: Fields, size: nat, data: seq<byte>, above: nat, parameterSet: bool, lowest: bool)
    requires f.Valid() && HeaderSize(size) && |data| == f.len && f.kind == Kind(above, parameterSet, lowest)
    ensures var skip := if parameterSet then 6 else 0;
            PayloadOf(size, Packed(f, size) + data) == if |data| > skip then Some(data[skip..]) else None
  {
    hide Decode, Packed;
    FrameOfPacked(f, size, data);
    DecodeOfPacked(f, size);
    KindBit(above, parameterSet, lowest);
    var frame := Packed(f, size) + data;
    if parameterSet && |data| > 6 { assert frame[size + 6..] == data[6..]; }
  }

  lemma KindBit(above: nat, parameterSet: bool, lowest: bool)
    ensures IsParameterSet(Kind(above, parameterSet, lowest)) == parameterSet
  {
  }

  // ----- a whole stream of such frames -----

  /** A frame as its writer builds it. */
  datatype Sent = Sent(fields: Fields, data: seq<byte>, above: nat, parameterSet: bool, lowest: bool) {
    ghost predicate Valid() {
      fields.Valid() && |data| == fields.len && fields.kind == Kind(above, parameterSet, lowest)
    }
  }

  /** The data of the frames with the given numbers, without what is not handed on. */
  function Handed(stream: seq<Sent>, ns: seq<nat>): seq<seq<byte>> {
    if ns == [] then []
    else
      var n := ns[|ns| - 1];
      var skip := if n < |stream| && stream[n].parameterSet then 6 else 0;
      Handed(stream, ns[..|ns| - 1]) + if n < |stream| && |stream[n].data| > skip then [stream[n].data[skip..]] else []
  }

  ghost predicate PackedAs(size: nat, frames: seq<seq<byte>>, stream: seq<Sent>)
    requires HeaderSize(size)
  {
    && |frames| == |stream|
    && forall k :: 0 <= k < |frames| ==>
         stream[k].Valid() && frames[k] == Packed(stream[k].fields, size) + stream[k].data
  }

  lemma {:induction false} PayloadsOfPacked(size: nat, frames: seq<seq<byte>>, stream: seq<Sent>, ns: seq<nat>)
    requires HeaderSize(size) && PackedAs(size, frames, stream)
    ensures Payloads(size, frames, ns) == Handed(stream, ns)
  {
    hide PayloadOf, Packed, Kind;
    if ns != [] {
      var n := ns[|ns| - 1];
      PayloadsOfPacked(size, frames, stream, ns[..|ns| - 1]);
      if n < |frames| {
        var x := stream[n];
        PayloadOfPacked(x.fields, size, x.data, x.above, x.parameterSet, x.lowest);
      }
    }
  }

  /** So any number of polls of a ring that holds such a stream hand on its data, frame by frame. */
  lemma RunOnPackedStream(g: Geometry, size: nat, polls: seq<Snapshot>, frames: seq<seq<byte>>, stream: seq<Sent>,
                          first: nat, seen: seq<Seen>)
    requires g.Valid() && HeaderSize(size) && first <= |frames| && PackedAs(size, frames, stream)
    requires Snapshots(g, size, polls, frames, first, seen)
    ensures SnapshotsOf(g, polls)
    ensures RunPolls(g, size, g.At(Start(frames, first)), polls).0 == Handed(stream, Processed(first, seen))
  {
    hide Snapshots, RunPolls, Start, PackedAs, StandsAt;
    RunOnStream(g, size, polls, frames, first, seen);
    PayloadsOfPacked(size, frames, stream, Processed(first, seen));
  }
}
