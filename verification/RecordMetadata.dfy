/**
 * `finalize_metadata`: the motion metadata of a clip as one `udta` subtree
 * (section 8.10.1 of ISO/IEC 14496-12) appended inside the final `moov`.
 */
module RecordMetadata {
  import opened Bytes
  import opened MovieParse
  import opened ClipFile
  import opened Options

  const JSON_CAPACITY := 32768
  const BUFFER_SIZE := JSON_CAPACITY + 256

  type Tag = t: seq<byte> | |t| == 4 witness [0, 0, 0, 0]

  const UDTA: Tag := [0x75, 0x64, 0x74, 0x61]
  const META: Tag := [0x6D, 0x65, 0x74, 0x61]
  const HDLR: Tag := [0x68, 0x64, 0x6C, 0x72]
  const MDIR: Tag := [0x6D, 0x64, 0x69, 0x72]
  const ILST: Tag := [0x69, 0x6C, 0x73, 0x74]
  const CUSTOM: Tag := [0x2D, 0x2D, 0x2D, 0x2D]
  const MEAN: Tag := [0x6D, 0x65, 0x61, 0x6E]
  const NAME: Tag := [0x6E, 0x61, 0x6D, 0x65]
  const DATA: Tag := [0x64, 0x61, 0x74, 0x61]
  /** "com.yi-hack" and "yi_motion". */
  const OWNER: seq<byte> := [0x63, 0x6F, 0x6D, 0x2E, 0x79, 0x69, 0x2D, 0x68, 0x61, 0x63, 0x6B]
  const KEY: seq<byte> := [0x79, 0x69, 0x5F, 0x6D, 0x6F, 0x74, 0x69, 0x6F, 0x6E]

  // ----- the tree, as bytes and as boxes -----

  function Box(tag: Tag, payload: seq<byte>): (r: seq<byte>)
    requires 8 + |payload| <= UINT32_MAX
    ensures |r| == 8 + |payload|
  {
    Store32(8 + |payload|) + tag + payload
  }

  function DataBox(json: seq<byte>): (r: seq<byte>)
    requires |json| < JSON_CAPACITY
    ensures |r| == 16 + |json|
  {
    Box(DATA, Store32(1) + Zeros(4) + json)
  }

  function CustomBox(json: seq<byte>): (r: seq<byte>)
    requires |json| < JSON_CAPACITY
    ensures |r| == 68 + |json|
  {
    Box(CUSTOM, Box(MEAN, Zeros(4) + OWNER) + Box(NAME, Zeros(4) + KEY) + DataBox(json))
  }

  function HandlerBox(): (r: seq<byte>)
    ensures |r| == 33
  {
    Box(HDLR, Zeros(8) + MDIR + Zeros(13))
  }

  function UdtaBox(json: seq<byte>): (r: seq<byte>)
    requires |json| < JSON_CAPACITY
    ensures |r| == 129 + |json|
  {
    Box(UDTA, Box(META, Zeros(4) + HandlerBox() + Box(ILST, CustomBox(json))))
  }

  datatype Atom = Atom(tag: Tag, payload: seq<byte>)

  /** Reading bytes as boxes that follow one another without a gap; nothing if the sizes do not tile. */
  function Boxes(s: seq<byte>): Option<seq<Atom>>
    decreases |s|
  {
    if s == [] then Some([])
    else if |s| < 8 then None
    else
      var size := Be32(s[..4]);
      if size < 8 || size > |s| then None
      else
        var rest := Boxes(s[size..]);
        if rest.None? then None else Some([Atom(s[4..8], s[8..size])] + rest.value)
  }

  lemma BoxesOfBox(tag: Tag, payload: seq<byte>, rest: seq<byte>)
    requires 8 + |payload| <= UINT32_MAX && Boxes(rest).Some?
    ensures Boxes(Box(tag, payload) + rest) == Some([Atom(tag, payload)] + Boxes(rest).value)
  {
    hide Be32;
    var s := Box(tag, payload) + rest;
    Be32OfStore32(8 + |payload|);
    assert s[..4] == Store32(8 + |payload|);
    assert s[4..8] == tag && s[8..8 + |payload|] == payload && s[8 + |payload|..] == rest;
  }

  lemma BoxesOfOne(tag: Tag, payload: seq<byte>)
    requires 8 + |payload| <= UINT32_MAX
    ensures Boxes(Box(tag, payload)) == Some([Atom(tag, payload)])
  {
    hide Box;
    assert Boxes([]) == Some([]);
    BoxesOfBox(tag, payload, []);
    assert Box(tag, payload) + [] == Box(tag, payload);
    assert [Atom(tag, payload)] + [] == [Atom(tag, payload)];
  }

  /**
   * What a reader that knows the names finds: descend udta / meta / ilst / ----
   * / data, with the handler and the owner as they must be, and take the text of
   * the data box (type 1, no locale).
   */
  function ReadMetadata(s: seq<byte>): Option<seq<byte>> {
    var top := Boxes(s);
    if top.None? || |top.value| != 1 || top.value[0].tag != Ascii("udta") then None else
    var meta := Boxes(top.value[0].payload);
    if meta.None? || |meta.value| != 1 || meta.value[0].tag != Ascii("meta") || |meta.value[0].payload| < 4 then None else
    var inner := Boxes(meta.value[0].payload[4..]);
    if inner.None? || |inner.value| != 2 || inner.value[0].tag != Ascii("hdlr") || inner.value[1].tag != Ascii("ilst")
    then None else
    if |inner.value[0].payload| != 25 || inner.value[0].payload[8..12] != Ascii("mdir") then None else
    var custom := Boxes(inner.value[1].payload);
    if custom.None? || |custom.value| != 1 || custom.value[0].tag != Ascii("----") then None else
    var parts := Boxes(custom.value[0].payload);
    if parts.None? || |parts.value| != 3 || parts.value[2].tag != Ascii("data") || |parts.value[2].payload| < 8 then None else
    if parts.value[0] != Atom(Ascii("mean"), [0, 0, 0, 0] + Ascii("com.yi-hack")) then None else
    if parts.value[1] != Atom(Ascii("name"), [0, 0, 0, 0] + Ascii("yi_motion")) then None else
    if parts.value[2].payload[..8] != [0, 0, 0, 1, 0, 0, 0, 0] then None
    else Some(parts.value[2].payload[8..])
  }

  lemma NamesSpell()
    ensures UDTA == Ascii("udta") && META == Ascii("meta") && HDLR == Ascii("hdlr") && MDIR == Ascii("mdir")
    ensures ILST == Ascii("ilst") && CUSTOM == Ascii("----") && MEAN == Ascii("mean") && NAME == Ascii("name")
    ensures DATA == Ascii("data") && OWNER == Ascii("com.yi-hack") && KEY == Ascii("yi_motion")
  {
    Spells(UDTA, "udta");
    Spells(META, "meta");
    Spells(HDLR, "hdlr");
    Spells(MDIR, "mdir");
    Spells(ILST, "ilst");
    Spells(CUSTOM, "----");
    Spells(MEAN, "mean");
    Spells(NAME, "name");
    Spells(DATA, "data");
    Spells(OWNER, "com.yi-hack");
    Spells(KEY, "yi_motion");
  }

  lemma Spells(s: seq<byte>, text: string)
    requires |s| == |text| && forall i :: 0 <= i < |s| ==> text[i] < 128 as char && s[i] == text[i] as int
    ensures s == Ascii(text)
  {
  }

  lemma CustomPartsTile(json: seq<byte>)
    requires |json| < JSON_CAPACITY
    ensures var mean, name := Zeros(4) + OWNER, Zeros(4) + KEY;
            var data := Store32(1) + Zeros(4) + json;
            Boxes(Box(MEAN, mean) + Box(NAME, name) + Box(DATA, data))
              == Some([Atom(MEAN, mean), Atom(NAME, name), Atom(DATA, data)])
  {
    var mean, name, data := Zeros(4) + OWNER, Zeros(4) + KEY, Store32(1) + Zeros(4) + json;
    BoxesOfOne(DATA, data);
    BoxesOfBox(NAME, name, Box(DATA, data));
    BoxesOfBox(MEAN, mean, Box(NAME, name) + Box(DATA, data));
    assert Box(MEAN, mean) + Box(NAME, name) + Box(DATA, data) == Box(MEAN, mean) + (Box(NAME, name) + Box(DATA, data));
    assert [Atom(MEAN, mean)] + ([Atom(NAME, name)] + [Atom(DATA, data)])
        == [Atom(MEAN, mean), Atom(NAME, name), Atom(DATA, data)];
  }

  /** Every level of the appended subtree tiles exactly, and the text comes back out of it. */
  lemma MetadataRoundTrip(json: seq<byte>)
    requires |json| < JSON_CAPACITY
    ensures ReadMetadata(UdtaBox(json)) == Some(json)
  {
    hide Boxes, Box, Ascii;
    NamesSpell();
    FourZeros();
    var parts := Box(MEAN, Zeros(4) + OWNER) + Box(NAME, Zeros(4) + KEY) + DataBox(json);
    var ilst := CustomBox(json);
    var handler := Zeros(8) + MDIR + Zeros(13);
    var meta := Zeros(4) + HandlerBox() + Box(ILST, ilst);
    CustomPartsTile(json);
    BoxesOfOne(CUSTOM, parts);
    BoxesOfOne(ILST, ilst);
    BoxesOfBox(HDLR, handler, Box(ILST, ilst));
    assert meta[4..] == HandlerBox() + Box(ILST, ilst);
    assert [Atom(HDLR, handler)] + [Atom(ILST, ilst)] == [Atom(HDLR, handler), Atom(ILST, ilst)];
    BoxesOfOne(META, meta);
    BoxesOfOne(UDTA, Box(META, meta));
    assert (Store32(1) + Zeros(4) + json)[8..] == json;
    assert (Store32(1) + Zeros(4) + json)[..8] == [0, 0, 0, 1, 0, 0, 0, 0];
    assert handler[8..12] == MDIR;
  }

  lemma FourZeros()
    ensures Zeros(4) == [0, 0, 0, 0] && Store32(1) == [0, 0, 0, 1]
  {
  }

  // ----- the buffer, filled in place -----

  /** Writing the size over the four zeroes makes the box. */
  lemma SizeFilledIn(before: seq<byte>, tag: Tag, payload: seq<byte>, old': seq<byte>, new': seq<byte>)
    requires old' == before + Zeros(4) + tag + payload && 8 + |payload| <= UINT32_MAX && |new'| == |old'|
    requires forall i :: 0 <= i < |old'| ==>
               new'[i] == if |before| <= i < |before| + 4 then Store32(8 + |payload|)[i - |before|] else old'[i]
    ensures new' == before + Box(tag, payload)
  {
    hide Store32;
    var box := before + (Store32(8 + |payload|) + tag + payload);
    forall i | 0 <= i < |new'| ensures new'[i] == box[i] {
      if i >= |before| + 4 { assert old'[i] == (tag + payload)[i - |before| - 4]; }
    }
  }

  /** The zeroed buffer with `used` bytes filled. */
  class Buffer {
    const data: array<byte>
    var used: nat

    ghost predicate Valid()
      reads this, data
    {
      && data.Length == BUFFER_SIZE && used <= BUFFER_SIZE
      && forall i :: used <= i < BUFFER_SIZE ==> data[i] == 0
    }

    ghost function Content(): seq<byte>
      requires used <= data.Length
      reads this, data
    {
      data[..used]
    }

    constructor ()
      ensures Valid() && Content() == [] && fresh(data)
    {
      data, used := new byte[BUFFER_SIZE](_ => 0), 0;
    }

    /** `begin_box`. */
    method Begin(tag: Tag) returns (start: nat)
      requires Valid() && used + 8 <= BUFFER_SIZE
      modifies this, data
      ensures Valid() && start == old(used) && Content() == old(Content()) + Zeros(4) + tag
    {
      start := used;
      data[start + 4], data[start + 5], data[start + 6], data[start + 7] := tag[0], tag[1], tag[2], tag[3];
      used := used + 8;
      assert data[..used] == old(data[..used]) + Zeros(4) + tag;
    }

    /** Bytes left as the zeroes they are. */
    method Skip(n: nat)
      requires Valid() && used + n <= BUFFER_SIZE
      modifies this`used
      ensures Valid() && Content() == old(Content()) + Zeros(n)
    {
      used := used + n;
      assert data[..used] == old(data[..used]) + Zeros(n);
    }

    method Append(s: seq<byte>)
      requires Valid() && used + |s| <= BUFFER_SIZE
      modifies this, data
      ensures Valid() && Content() == old(Content()) + s
    {
      forall i | 0 <= i < |s| { data[used + i] := s[i]; }
      used := used + |s|;
      assert data[..used] == old(data[..used]) + s;
    }

    /** `end_box`: the bytes from `start` become the box they hold. */
    method End(start: nat, ghost before: seq<byte>, ghost tag: Tag, ghost payload: seq<byte>)
      requires Valid() && |before| == start
      requires Content() == before + Zeros(4) + tag + payload
      modifies data
      ensures Valid() && used == old(used) && Content() == before + Box(tag, payload)
    {
      hide Store32, Box;
      var size := Store32(used - start);
      ghost var content := data[..used];
      data[start], data[start + 1], data[start + 2], data[start + 3] := size[0], size[1], size[2], size[3];
      SizeFilledIn(before, tag, payload, content, data[..used]);
    }
  }

  /** A box of a few zeroes and a fixed text: `mean` and `name`. */
  method Leaf(b: Buffer, tag: Tag, text: seq<byte>)
    requires b.Valid() && b.used + 12 + |text| <= BUFFER_SIZE
    modifies b, b.data
    ensures b.Valid() && b.Content() == old(b.Content()) + Box(tag, Zeros(4) + text)
  {
    hide Box, Zeros;
    ghost var before := b.Content();
    var start := b.Begin(tag);
    b.Skip(4);
    b.Append(text);
    assert b.Content() == before + Zeros(4) + tag + (Zeros(4) + text);
    b.End(start, before, tag, Zeros(4) + text);
  }

  method Handler(b: Buffer)
    requires b.Valid() && b.used + 33 <= BUFFER_SIZE
    modifies b, b.data
    ensures b.Valid() && b.Content() == old(b.Content()) + HandlerBox()
  {
    hide Box, Zeros;
    ghost var before := b.Content();
    var start := b.Begin(HDLR);
    b.Skip(8);
    b.Append(MDIR);
    b.Skip(13);
    assert b.Content() == before + Zeros(4) + HDLR + (Zeros(8) + MDIR + Zeros(13));
    b.End(start, before, HDLR, Zeros(8) + MDIR + Zeros(13));
  }

  /** The whole subtree around the text; the cursor stays inside the buffer. */
  method BuildTree(b: Buffer, json: seq<byte>)
    requires b.Valid() && b.used == 0 && |json| < JSON_CAPACITY
    modifies b, b.data
    ensures b.Valid() && b.Content() == UdtaBox(json)
  {
    hide Box, Zeros, CustomBox;
    var udta := b.Begin(UDTA);
    ghost var inUdta := Box(META, Zeros(4) + HandlerBox() + Box(ILST, CustomBox(json)));
    MetaPart(b, json);
    ghost var nothing: seq<byte> := [];
    assert b.Content() == nothing + Zeros(4) + UDTA + inUdta;
    b.End(udta, nothing, UDTA, inUdta);
  }

  method MetaPart(b: Buffer, json: seq<byte>)
    requires b.Valid() && |json| < JSON_CAPACITY && b.used <= 8
    modifies b, b.data
    ensures b.Valid() && b.Content() == old(b.Content()) + Box(META, Zeros(4) + HandlerBox() + Box(ILST, CustomBox(json)))
  {
    hide Box, Zeros, CustomBox, HandlerBox;
    ghost var before := b.Content();
    var meta := b.Begin(META);
    b.Skip(4);
    Handler(b);
    ListPart(b, json);
    ghost var inMeta := Zeros(4) + HandlerBox() + Box(ILST, CustomBox(json));
    assert b.Content() == before + Zeros(4) + META + inMeta;
    b.End(meta, before, META, inMeta);
  }

  method ListPart(b: Buffer, json: seq<byte>)
    requires b.Valid() && |json| < JSON_CAPACITY && b.used <= 64
    modifies b, b.data
    ensures b.Valid() && b.Content() == old(b.Content()) + Box(ILST, CustomBox(json))
  {
    hide Box, Zeros, CustomBox;
    ghost var before := b.Content();
    var ilst := b.Begin(ILST);
    BuildItem(b, json);
    assert b.Content() == before + Zeros(4) + ILST + CustomBox(json);
    b.End(ilst, before, ILST, CustomBox(json));
  }

  method DataPart(b: Buffer, json: seq<byte>)
    requires b.Valid() && |json| < JSON_CAPACITY && b.used <= 200
    modifies b, b.data
    ensures b.Valid() && b.Content() == old(b.Content()) + DataBox(json)
  {
    hide Box, Zeros;
    ghost var before := b.Content();
    var data := b.Begin(DATA);
    b.Append(Store32(1));
    b.Skip(4);
    b.Append(json);
    assert b.Content() == before + Zeros(4) + DATA + (Store32(1) + Zeros(4) + json);
    b.End(data, before, DATA, Store32(1) + Zeros(4) + json);
  }

  /** The one item: its owner, its key and its data. */
  method BuildItem(b: Buffer, json: seq<byte>)
    requires b.Valid() && |json| < JSON_CAPACITY && b.used <= 128
    modifies b, b.data
    ensures b.Valid() && b.Content() == old(b.Content()) + CustomBox(json)
  {
    hide Box, Zeros, DataBox;
    ghost var before := b.Content();
    var custom := b.Begin(CUSTOM);
    Leaf(b, MEAN, OWNER);
    Leaf(b, NAME, KEY);
    DataPart(b, json);
    ghost var parts := Box(MEAN, Zeros(4) + OWNER) + Box(NAME, Zeros(4) + KEY) + DataBox(json);
    assert b.Content() == before + Zeros(4) + CUSTOM + parts;
    b.End(custom, before, CUSTOM, parts);
  }

  // ----- the append -----

  /** There is a movie, a text for it, and room in the 32-bit size. */
  predicate Fits(f: seq<byte>, json: Movie -> Option<seq<byte>>) {
    var m := FindMovie(f);
    && m.Some? && json(m.value).Some? && |json(m.value).value| < JSON_CAPACITY
    && m.value.size + 129 + |json(m.value).value| <= UINT32_MAX
  }

  /** A text of up to 32767 bytes fits if the `moov` stays within a 32-bit size with the 129 bytes around the text. */
  lemma FitsExactlyWhen(f: seq<byte>, json: Movie -> Option<seq<byte>>)
    ensures Fits(f, json) <==>
            exists m: Movie :: FindMovie(f) == Some(m) && json(m).Some? && |json(m).value| <= 32767
                               && m.size + |UdtaBox(json(m).value)| <= 0xFFFF_FFFF
  {
    hide MovieParse.FindMovie, UdtaBox;
    if FindMovie(f).Some? {
      var m := FindMovie(f).value;
      if json(m).Some? && |json(m).value| <= 32767 { assert |UdtaBox(json(m).value)| == 129 + |json(m).value|; }
    }
  }

  function Finalized(f: seq<byte>, json: Movie -> Option<seq<byte>>): seq<byte>
    requires Fits(f, json)
  {
    var m := FindMovie(f).value;
    Appended(f, m, UdtaBox(json(m).value))
  }

  ghost predicate OnlySizeTouched(f: seq<byte>, g: seq<byte>) {
    if FindMovie(f).None? then g == f
    else
      && |g| >= |f|
      && forall i :: 0 <= i < |f| && !(FindMovie(f).value.offset <= i < FindMovie(f).value.offset + 4) ==> g[i] == f[i]
  }

  /** `g` is `f`, perhaps longer, up to the four bytes at `at`. */
  ghost predicate Near(f: seq<byte>, g: seq<byte>, at: nat) {
    && |g| >= |f|
    && forall i :: 0 <= i < |f| && !(at <= i < at + 4) ==> g[i] == f[i]
  }

  lemma NearOverlay(f: seq<byte>, g: seq<byte>, at: nat, data: seq<byte>, offset: nat)
    requires Near(f, g, at) && offset <= |g|
    requires (offset == at && |data| <= 4) || offset >= |f|
    ensures Near(f, Overlay(g, data, offset), at)
  {
  }

  lemma AppendedIsOverlay(f: seq<byte>, m: Movie, extra: seq<byte>)
    requires m.offset + 4 <= |f| && m.size + |extra| <= UINT32_MAX
    ensures Overlay(Overlay(f, extra, |f|), Store32(m.size + |extra|), m.offset) == Appended(f, m, extra)
  {
    var size := Store32(m.size + |extra|);
    assert Overlay(f, extra, |f|) == f + extra;
    assert (f + extra)[m.offset + 4..] == f[m.offset + 4..] + extra;
    assert (f + extra)[..m.offset] == f[..m.offset];
  }

  /** A half-written size is undone by writing the old one again. */
  lemma RestoredSize(f: seq<byte>, g: seq<byte>, at: nat, part: seq<byte>)
    requires at + 4 <= |f| && |g| >= |f| && g[..|f|] == f && |part| <= 4
    ensures Overlay(Overlay(g, part, at), f[at..at + 4], at)[..|f|] == f
  {
    var h := Overlay(Overlay(g, part, at), f[at..at + 4], at);
    assert |h| == |g|;
    forall i | 0 <= i < |f| ensures h[..|f|][i] == f[i] {
      assert g[..|f|][i] == g[i];
    }
  }

  /** How a finalization ended: whether it took, and if not, whether its rollback writes went through. */
  datatype Ending = Ending(done: bool, rolledBack: bool)

  /**
   * `finalize_metadata`.  `json` stands for `build_json`: the text for a movie,
   * or nothing when it would not fit or has no source.
   */
  method Finalize(clip: Clip, json: Movie -> Option<seq<byte>>) returns (e: Ending)
    requires forall m :: json(m).Some? ==> |json(m).value| < JSON_CAPACITY
    modifies clip
    // Success is exactly the append.
    ensures e.done ==> Fits(old(clip.bytes), json) && clip.bytes == Finalized(old(clip.bytes), json)
    // All or nothing.
    ensures !e.done && e.rolledBack ==> clip.bytes == old(clip.bytes)
    // Whatever happens, nothing but the four size bytes of the old file can differ.
    ensures OnlySizeTouched(old(clip.bytes), clip.bytes)
    // With calls that all go through it succeeds whenever there is something to append.
    ensures !clip.broken ==> (e.done <==> Fits(old(clip.bytes), json))
  {
    hide MovieParse.FindMovie, UdtaBox, Store32, Overlay, Appended;
    ghost var original := clip.bytes;
    var movie := clip.FindMovie();
    if movie.None? { return Ending(false, true); }
    var m := movie.value;
    MovieInFile(original);
    var text := json(m);
    if text.None? { return Ending(false, true); }
    var b := new Buffer();
    BuildTree(b, text.value);
    var udta := b.data[..b.used];
    if m.size > UINT32_MAX - b.used {
      var kept := clip.Truncate(m.end);
      assert original[..m.end] == original;
      return Ending(false, kept);
    }
    e := WriteTree(clip, m, udta);
  }

  lemma MovieInFile(f: seq<byte>)
    ensures var m := FindMovie(f);
            m.Some? ==> && m.value.offset + 8 <= |f| && m.value.end == |f|
                        && m.value.size == |f| - m.value.offset == Word(f, m.value.offset)
  {
    hide Times, FindMvhd, Be32;
    if FindMovie(f).Some? { MoovReachesTheEnd(f, 0, 0); }
  }

  /** The two writes, and the rollback when one of them fails. */
  method WriteTree(clip: Clip, m: Movie, udta: seq<byte>) returns (e: Ending)
    requires m.offset + 8 <= |clip.bytes| == m.end
    requires m.size == |clip.bytes| - m.offset == Word(clip.bytes, m.offset)
    requires m.size + |udta| <= UINT32_MAX
    modifies clip
    ensures old(clip.broken) ==> clip.broken
    ensures e.done ==> clip.bytes == Appended(old(clip.bytes), m, udta)
    ensures !e.done ==> clip.broken
    ensures !e.done && e.rolledBack ==> clip.bytes == old(clip.bytes)
    ensures Near(old(clip.bytes), clip.bytes, m.offset)
  {
    hide Store32, Be32;
    ghost var original := clip.bytes;
    var done, restored := false, true;
    var appended := clip.WriteAt(udta, m.end);
    ghost var grown := clip.bytes;
    ghost var k :| 0 <= k <= |udta| && grown == Overlay(original, udta[..k], m.end) && (appended ==> k == |udta|);
    assert udta[..|udta|] == udta;
    NearOverlay(original, original, m.offset, udta[..k], m.end);
    assert grown[..m.end] == original;
    if appended {
      var sized := clip.WriteAt(Store32(m.size + |udta|), m.offset);
      if sized {
        AppendedIsOverlay(original, m, udta);
        NearOverlay(original, grown, m.offset, Store32(m.size + |udta|), m.offset);
        done := true;
      } else {
        restored := RestoreSize(clip, m, original, grown, Store32(m.size + |udta|));
      }
    }
    var truncated := true;
    if !done { truncated := clip.Truncate(m.end); }
    e := Ending(done, restored && truncated);
  }

  /** Writing the old size again after its update failed part way. */
  method RestoreSize(clip: Clip, m: Movie, ghost original: seq<byte>, ghost grown: seq<byte>, ghost size: seq<byte>)
    returns (restored: bool)
    requires m.offset + 8 <= |original| == m.end && m.size == Word(original, m.offset)
    requires |grown| >= |original| && grown[..m.end] == original && |size| == 4
    requires clip.broken
    requires exists j :: 0 <= j <= 4 && clip.bytes == Overlay(grown, size[..j], m.offset)
    modifies clip
    ensures clip.broken && |clip.bytes| == |grown|
    ensures restored ==> clip.bytes[..m.end] == original
    ensures Near(original, clip.bytes, m.offset)
  {
    hide Store32, Be32;
    ghost var j :| 0 <= j <= 4 && clip.bytes == Overlay(grown, size[..j], m.offset);
    Store32OfBe32(original[m.offset..m.offset + 4]);
    assert Near(original, grown, m.offset) by {
      forall i | 0 <= i < |original| ensures grown[i] == original[i] { assert grown[..m.end][i] == grown[i]; }
    }
    NearOverlay(original, grown, m.offset, size[..j], m.offset);
    ghost var partial := clip.bytes;
    restored := clip.WriteAt(Store32(m.size), m.offset);
    RestoredSize(original, grown, m.offset, size[..j]);
    if !restored {
      ghost var i :| 0 <= i <= 4 && clip.bytes == Overlay(partial, Store32(m.size)[..i], m.offset);
      NearOverlay(original, partial, m.offset, Store32(m.size)[..i], m.offset);
    } else {
      NearOverlay(original, partial, m.offset, Store32(m.size), m.offset);
    }
  }

  /** A finished append still parses as the same movie, and gives the text back to a reader. */
  lemma FinalizedClipIsAMovieWithItsMetadata(f: seq<byte>, json: Movie -> Option<seq<byte>>)
    requires Fits(f, json)
    ensures var m := FindMovie(f).value;
            var g := Finalized(f, json);
            && FindMovie(g) == Some(m.(end := |g|, size := m.size + |g| - |f|))
            && ReadMetadata(g[m.end..]) == json(m)
  {
    hide MovieParse.FindMovie, UdtaBox, ReadMetadata;
    var m := FindMovie(f).value;
    var text := json(m).value;
    MovieInFile(f);
    AppendKeepsTheMovie(f, UdtaBox(text));
    MetadataRoundTrip(text);
    assert Finalized(f, json)[m.end..] == UdtaBox(text);
  }
}
