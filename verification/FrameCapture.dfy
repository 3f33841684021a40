/**
 * The polling loop of `capture`: walking the frames between the remembered
 * position and the write end, holding the last one back, and giving up the
 * batch when it does not look right.
 *
 * The loop itself is modelled on any contents of the ring; what it comes to when
 * the ring holds a stream of frames is said after that.  A write end at the
 * ring's very end is named by the ring's beginning, where no step of the walk
 * ever lands: such a poll is blind and loses its batch.
 */
module FrameCapture {
  import opened Bytes
  import opened FrameRing
  import opened Options

  const BATCH := 10

  predicate HeaderSize(h: nat) { h == 22 || h == 24 || h == 26 || h == 28 }

  // ----- the loop, on whatever the ring holds -----

  /** What a walk notes of a frame. */
  datatype Visited = Visited(place: int, header: Header)

  function Pairs(places: seq<int>, headers: seq<Header>): (s: seq<Visited>)
    requires |places| == |headers|
    ensures |s| == |places| && forall k :: 0 <= k < |s| ==> s[k] == Visited(places[k], headers[k])
  {
    seq(|places|, k requires 0 <= k < |places| => Visited(places[k], headers[k]))
  }

  /** The announced frame fits the ring. */
  ghost predicate Plausible(g: Geometry, h: nat, v: Visited) {
    g.offset <= v.place <= g.size && v.header.len <= g.Length() - h
  }

  ghost predicate AllPlausible(g: Geometry, h: nat, visits: seq<Visited>) {
    forall k :: 0 <= k < |visits| ==> Plausible(g, h, visits[k])
  }

  function HeaderThere(g: Geometry, h: nat, ring: seq<byte>, place: int): (x: Header)
    requires g.Valid() && |ring| == g.size && HeaderSize(h) && g.offset <= place <= g.size
    ensures Decode(Unrolled(g, ring, place - g.offset, h)) == Some(x)
  {
    Decode(Unrolled(g, ring, place - g.offset, h)).value
  }

  /** A step over an announced frame never lands on the ring's beginning. */
  lemma StepStaysInside(g: Geometry, h: nat, v: Visited)
    requires g.Valid() && HeaderSize(h) && Plausible(g, h, v)
    ensures g.offset < g.Move(v.place, v.header.len + h) <= g.size
  {
  }

  /**
   * The rest of a walk that has noted `n` frames and stands at `current`: whether
   * it comes to `end` in sync, and what it notes on the way.
   */
  ghost function WalkFrom(g: Geometry, h: nat, ring: seq<byte>, current: int, end: int, n: nat): (r: (bool, seq<Visited>))
    requires g.Valid() && |ring| == g.size && HeaderSize(h) && g.offset <= current <= g.size && n < BATCH
    ensures |r.1| + n <= BATCH && (r.0 ==> |r.1| + n < BATCH)
    ensures AllPlausible(g, h, r.1)
    decreases BATCH - n
  {
    if current == end then (true, [])
    else
      var v := Visited(current, HeaderThere(g, h, ring, current));
      if v.header.len > g.Length() - h then (false, [])
      else if n + 1 == BATCH then (false, [v])
      else
        StepStaysInside(g, h, v);
        var (sync, more) := WalkFrom(g, h, ring, g.Move(current, v.header.len + h), end, n + 1);
        (sync, [v] + more)
  }

  /** One poll: the frames it hands on and the place it remembers. */
  ghost function PollRing(g: Geometry, h: nat, ring: seq<byte>, previous: int, end: int): (r: (seq<Visited>, int))
    requires g.Valid() && |ring| == g.size && HeaderSize(h) && g.offset <= previous <= g.size && g.offset <= end <= g.size
    ensures g.offset <= r.1 <= g.size && |r.0| < BATCH
    ensures AllPlausible(g, h, r.0)
  {
    if end == previous then ([], previous)
    else
      var (sync, visits) := WalkFrom(g, h, ring, previous, end, 0);
      if !sync then ([], end)
      else if |visits| > 1 then (visits[..|visits| - 1], visits[|visits| - 1].place)
      else ([], previous)
  }

  /** Bit 1 of the type marks a parameter set, which carries six more bytes before its payload. */
  predicate IsParameterSet(kind: nat) { kind / 2 % 2 == 1 }

  /** The bytes that go to the queue for a frame that was noted; nothing for one too short for its kind. */
  function BytesOf(g: Geometry, h: nat, ring: seq<byte>, v: Visited): Option<seq<byte>>
    requires g.Valid() && |ring| == g.size && HeaderSize(h) && g.offset <= v.place <= g.size
  {
    var skip := if IsParameterSet(v.header.kind) then h + 6 else h;
    var length := v.header.len - (skip - h);
    if length <= 0 then None else Some(Unrolled(g, ring, g.Move(v.place, skip) - g.offset, length))
  }

  ghost function BatchBytes(g: Geometry, h: nat, ring: seq<byte>, visits: seq<Visited>): seq<seq<byte>>
    requires g.Valid() && |ring| == g.size && HeaderSize(h)
    requires AllPlausible(g, h, visits)
  {
    if visits == [] then []
    else
      var n := |visits| - 1;
      assert Plausible(g, h, visits[n]);
      var data := BytesOf(g, h, ring, visits[n]);
      BatchBytes(g, h, ring, visits[..n]) + if data.Some? then [data.value] else []
  }

  /** What a poll sees: the ring and the write end. */
  datatype Snapshot = Snapshot(ring: seq<byte>, end: int)

  ghost predicate SnapshotsOf(g: Geometry, polls: seq<Snapshot>) {
    forall p :: 0 <= p < |polls| ==> |polls[p].ring| == g.size && g.offset <= polls[p].end < g.size
  }

  /** Any number of polls, each on the ring as it is then: the bytes handed on, and the place remembered. */
  ghost function RunPolls(g: Geometry, h: nat, previous: int, polls: seq<Snapshot>): (r: (seq<seq<byte>>, int))
    requires g.Valid() && HeaderSize(h) && g.offset <= previous <= g.size && SnapshotsOf(g, polls)
    ensures g.offset <= r.1 <= g.size
  {
    if polls == [] then ([], previous)
    else
      var n := |polls| - 1;
      var (out, p) := RunPolls(g, h, previous, polls[..n]);
      var (visits, q) := PollRing(g, h, polls[n].ring, p, polls[n].end);
      (out + BatchBytes(g, h, polls[n].ring, visits), q)
  }

  // ----- the code that works in place -----

  class Capture {
    const g: Geometry
    const headerSize: nat
    /** `buf_idx_end_prev`, and the two local arrays of a walk. */
    var previous: int
    const headers: array<Header>
    const places: array<int>

    ghost predicate Valid()
      reads this
    {
      && g.Valid() && HeaderSize(headerSize)
      && headers.Length == BATCH && places.Length == BATCH
      && g.offset <= previous <= g.size
    }

    constructor (geometry: Geometry, size: nat, end: int)
      requires geometry.Valid() && HeaderSize(size)
      requires geometry.offset <= end < geometry.size
      ensures Valid() && g == geometry && headerSize == size && previous == end && fresh(headers) && fresh(places)
    {
      g, headerSize, previous := geometry, size, end;
      headers := new Header[BATCH](_ => Header(0, 0, 0, 0, 0));
      places := new int[BATCH](_ => 0);
    }

    /** The first `n` entries of the two arrays. */
    ghost function Noted(n: nat): (s: seq<Visited>)
      requires Valid() && n <= BATCH
      reads this, headers, places
      ensures |s| == n && forall k :: 0 <= k < n ==> s[k] == Visited(places[k], headers[k])
    {
      Pairs(places[..n], headers[..n])
    }

    /** Reading the header at `current`, whatever it is, and stepping over the frame it announces. */
    method Visit(ring: seq<byte>, current: int, k: nat) returns (sync: bool, after: int)
      requires Valid() && |ring| == g.size && k < BATCH && g.offset <= current <= g.size
      modifies headers, places
      ensures Valid() && Noted(k) == old(Noted(k))
      ensures var v := Visited(current, HeaderThere(g, headerSize, ring, current));
              && sync == (v.header.len <= g.Length() - headerSize)
              && (sync ==> Noted(k + 1) == Noted(k) + [v])
              && (sync ==> after == g.Move(current, v.header.len + headerSize) && g.offset < after <= g.size)
    {
      hide Decode, Unrolled, HeaderThere;
      var fh := HeaderAt(g, ring, current, headerSize, current - g.offset);
      ghost var there := HeaderThere(g, headerSize, ring, current);
      headers[k] := fh.value;
      if headers[k].len > g.Length() - headerSize { return false, current; }
      places[k] := current;
      after := g.Move(current, headers[k].len + headerSize);
      sync := true;
    }

    /** The walk: what it notes, and whether it comes to the write end in sync. */
    method Walk(ring: seq<byte>, end: int) returns (sync: bool, count: nat)
      requires Valid() && |ring| == g.size
      modifies headers, places
      ensures Valid() && count <= BATCH
      ensures (sync, Noted(count)) == WalkFrom(g, headerSize, ring, previous, end, 0)
    {
      hide WalkFrom, HeaderThere, Plausible, Geometry.Move, SoFar;
      var current := previous;
      count, sync := 0, true;
      SoFarNothing(g, headerSize, ring, previous, end);
      while current != end
        invariant 0 <= count < BATCH && sync && Valid() && g.offset <= current <= g.size
        invariant SoFar(g, headerSize, ring, previous, end, current, Noted(count))
        decreases BATCH - count
      {
        SoFarStep(g, headerSize, ring, previous, end, current, Noted(count));
        sync, current := Visit(ring, current, count);
        if !sync { return; }
        count := count + 1;
        // Check if the sync is lost.
        if count == BATCH { return false, count; }
      }
      SoFarEnd(g, headerSize, ring, previous, end, Noted(count));
    }

    /** One turn of the main loop; `count` frames are handed on. */
    method Poll(ring: seq<byte>, end: int) returns (count: nat)
      requires Valid() && |ring| == g.size && g.offset <= end < g.size
      modifies this`previous, headers, places
      ensures Valid() && count <= BATCH
      ensures (Noted(count), previous) == PollRing(g, headerSize, ring, old(previous), end)
    {
      hide WalkFrom;
      if end == previous { return 0; }
      var sync, n := Walk(ring, end);
      ghost var noted := Noted(n);
      if !sync {
        previous := end;
        return 0;
      }
      if n > 1 {
        previous := places[n - 1];
        assert Plausible(g, headerSize, noted[n - 1]);
        count := n - 1;
        assert Noted(count) == noted[..count];
      } else {
        count := 0;
      }
    }

    /** The bytes of one frame that was noted, read out of the ring. */
    method Payload(ring: seq<byte>, k: nat) returns (data: Option<seq<byte>>)
      requires Valid() && |ring| == g.size && k < BATCH
      requires Plausible(g, headerSize, Visited(places[k], headers[k]))
      ensures data == BytesOf(g, headerSize, ring, Visited(places[k], headers[k]))
    {
      hide Unrolled;
      var fh, place := headers[k], places[k];
      var skip := if fh.kind / 2 % 2 == 1 then headerSize + 6 else headerSize;
      var length := fh.len - (skip - headerSize);
      var from := g.Move(place, skip);
      if length <= 0 { return None; }
      var dest := new byte[length];
      CopyOut(g, ring, dest, from, length, from - g.offset);
      data := Some(dest[..length]);
    }

    /** The bytes of the batch, one frame after another. */
    method TakeBatch(ring: seq<byte>, count: nat) returns (out: seq<seq<byte>>)
      requires Valid() && |ring| == g.size && count <= BATCH
      requires AllPlausible(g, headerSize, Noted(count))
      ensures out == BatchBytes(g, headerSize, ring, Noted(count))
    {
      hide BytesOf, Plausible;
      out := [];
      var k := 0;
      while k < count
        invariant 0 <= k <= count
        invariant AllPlausible(g, headerSize, Noted(k))
        invariant out == BatchBytes(g, headerSize, ring, Noted(k))
      {
        assert Noted(count)[k] == Visited(places[k], headers[k]);
        assert Noted(k + 1) == Noted(count)[..k + 1];
        var data := Payload(ring, k);
        assert Noted(k + 1)[..k] == Noted(k);
        if data.Some? { out := out + [data.value]; }
        k := k + 1;
      }
    }

    /** Any number of polls, each on the ring as it is then, and what goes to the queues. */
    method PollAll(polls: seq<Snapshot>) returns (out: seq<seq<byte>>)
      requires Valid() && SnapshotsOf(g, polls)
      modifies this`previous, headers, places
      ensures Valid()
      ensures (out, previous) == RunPolls(g, headerSize, old(previous), polls)
    {
      hide PollRing, BatchBytes, Plausible;
      out := [];
      var p := 0;
      while p < |polls|
        invariant 0 <= p <= |polls| && Valid()
        invariant (out, previous) == RunPolls(g, headerSize, old(previous), polls[..p])
      {
        assert polls[..p + 1][..p] == polls[..p];
        ghost var before := previous;
        var count := Poll(polls[p].ring, polls[p].end);
        ghost var visits := PollRing(g, headerSize, polls[p].ring, before, polls[p].end).0;
        assert Noted(count) == visits;
        var batch := TakeBatch(polls[p].ring, count);
        out := out + batch;
        p := p + 1;
      }
      assert polls[..p] == polls;
    }
  }

  lemma WalkUnfolds(g: Geometry, h: nat, ring: seq<byte>, current: int, end: int, n: nat)
    requires g.Valid() && |ring| == g.size && HeaderSize(h) && g.offset <= current <= g.size && n < BATCH && current != end
    ensures var v := Visited(current, HeaderThere(g, h, ring, current));
            var after := g.Move(current, v.header.len + h);
            if v.header.len > g.Length() - h then WalkFrom(g, h, ring, current, end, n) == (false, [])
            else if n + 1 == BATCH then WalkFrom(g, h, ring, current, end, n) == (false, [v])
            else
              && g.offset <= after <= g.size
              && WalkFrom(g, h, ring, current, end, n)
                 == (WalkFrom(g, h, ring, after, end, n + 1).0, [v] + WalkFrom(g, h, ring, after, end, n + 1).1)
  {
    hide HeaderThere, Geometry.Move, AllPlausible, Unrolled, Decode;
    var v := Visited(current, HeaderThere(g, h, ring, current));
    if v.header.len <= g.Length() - h { StepStaysInside(g, h, v); }
  }

  /** A walk that began at `previous` has noted `noted` and stands at `current`. */
  ghost predicate SoFar(g: Geometry, h: nat, ring: seq<byte>, previous: int, end: int, current: int, noted: seq<Visited>)
    requires g.Valid() && |ring| == g.size && HeaderSize(h)
    requires g.offset <= previous <= g.size && g.offset <= current <= g.size && |noted| < BATCH
  {
    var ahead := WalkFrom(g, h, ring, current, end, |noted|);
    WalkFrom(g, h, ring, previous, end, 0) == (ahead.0, noted + ahead.1)
  }

  lemma SoFarNothing(g: Geometry, h: nat, ring: seq<byte>, previous: int, end: int)
    requires g.Valid() && |ring| == g.size && HeaderSize(h) && g.offset <= previous <= g.size
    ensures SoFar(g, h, ring, previous, end, previous, [])
  {
    hide WalkFrom;
    var ahead := WalkFrom(g, h, ring, previous, end, 0);
    assert [] + ahead.1 == ahead.1;
  }

  lemma SoFarStep(g: Geometry, h: nat, ring: seq<byte>, previous: int, end: int, current: int, noted: seq<Visited>)
    requires g.Valid() && |ring| == g.size && HeaderSize(h)
    requires g.offset <= previous <= g.size && g.offset <= current <= g.size && |noted| < BATCH && current != end
    requires SoFar(g, h, ring, previous, end, current, noted)
    ensures var v := Visited(current, HeaderThere(g, h, ring, current));
            var after := g.Move(current, v.header.len + h);
            if v.header.len > g.Length() - h then WalkFrom(g, h, ring, previous, end, 0) == (false, noted)
            else if |noted| + 1 == BATCH then WalkFrom(g, h, ring, previous, end, 0) == (false, noted + [v])
            else g.offset <= after <= g.size && SoFar(g, h, ring, previous, end, after, noted + [v])
  {
    hide WalkFrom, HeaderThere, Unrolled, Decode, Geometry.Move;
    WalkUnfolds(g, h, ring, current, end, |noted|);
    var v := Visited(current, HeaderThere(g, h, ring, current));
    if v.header.len > g.Length() - h {
      assert noted + [] == noted;
    } else if |noted| + 1 < BATCH {
      var more := WalkFrom(g, h, ring, g.Move(current, v.header.len + h), end, |noted| + 1).1;
      assert noted + ([v] + more) == (noted + [v]) + more;
    }
  }

  lemma SoFarEnd(g: Geometry, h: nat, ring: seq<byte>, previous: int, end: int, noted: seq<Visited>)
    requires g.Valid() && |ring| == g.size && HeaderSize(h)
    requires g.offset <= previous <= g.size && g.offset <= end <= g.size && |noted| < BATCH
    requires SoFar(g, h, ring, previous, end, end, noted)
    ensures WalkFrom(g, h, ring, previous, end, 0) == (true, noted)
  {
    WalkEnds(g, h, ring, end, |noted|);
    assert noted + [] == noted;
  }

  /** No walk comes to the ring's beginning, whatever the ring holds. */
  lemma {:induction false} ABlindWalkLosesSync(g: Geometry, h: nat, ring: seq<byte>, current: int, n: nat)
    requires g.Valid() && |ring| == g.size && HeaderSize(h) && g.offset < current <= g.size && n < BATCH
    ensures !WalkFrom(g, h, ring, current, g.offset, n).0
    decreases BATCH - n
  {
    hide HeaderThere, WalkFrom, Geometry.Move, Unrolled, Decode;
    var v := Visited(current, HeaderThere(g, h, ring, current));
    WalkUnfolds(g, h, ring, current, g.offset, n);
    if v.header.len <= g.Length() - h && n + 1 < BATCH {
      StepStaysInside(g, h, v);
      ABlindWalkLosesSync(g, h, ring, g.Move(current, v.header.len + h), n + 1);
    }
  }

  /** So a poll that finds the write end there gives up whatever there was. */
  lemma ABlindPollGivesUp(g: Geometry, h: nat, ring: seq<byte>, previous: int)
    requires g.Valid() && |ring| == g.size && HeaderSize(h) && g.offset <= previous <= g.size
    ensures PollRing(g, h, ring, previous, g.offset) == ([], g.offset)
  {
    if previous != g.offset { ABlindWalkLosesSync(g, h, ring, previous, 0); }
  }

  // ----- when the ring holds a stream of frames -----

  /** A frame of the stream: its header of `h` bytes and as many bytes as the header says. */
  ghost predicate IsFrame(g: Geometry, h: nat, f: seq<byte>) {
    && |f| >= h && |f| <= g.Length()
    && Decode(f[..h]).Some? && Decode(f[..h]).value.len == |f| - h
  }

  /** Where frame `k` of the stream starts on the unrolled ring. */
  function Start(frames: seq<seq<byte>>, k: nat): (a: nat)
    requires k <= |frames|
  {
    if k == 0 then 0 else Start(frames, k - 1) + |frames[k - 1]|
  }

  lemma {:induction false} StartGrows(frames: seq<seq<byte>>, i: nat, j: nat)
    requires i <= j <= |frames|
    ensures Start(frames, i) <= Start(frames, j)
    ensures (forall k :: i <= k < j ==> |frames[k]| > 0) ==> (i < j ==> Start(frames, i) < Start(frames, j))
  {
    if i < j { StartGrows(frames, i, j - 1); }
  }

  /** The ring holds frames `i` to `j` of the stream, less than a lap of them. */
  ghost predicate Holds(g: Geometry, h: nat, ring: seq<byte>, frames: seq<seq<byte>>, i: nat, j: nat)
    requires g.Valid() && |ring| == g.size
  {
    && i <= j <= |frames|
    && Start(frames, j) - Start(frames, i) < g.Length()
    && forall k :: i <= k < j ==>
         IsFrame(g, h, frames[k]) && Unrolled(g, ring, Start(frames, k), |frames[k]|) == frames[k]
  }

  /** One poll, on frame numbers: what it processes and where it stands afterwards. */
  function PollTo(next: nat, written: nat, blind: bool): (r: (seq<nat>, nat)) {
    if written <= next then ([], next)
    else if written - next >= BATCH || blind then ([], written)
    else if written - next >= 2 then (seq(written - next - 1, k => next + k), written - 1)
    else ([], next)
  }

  /** Positions a whole number of laps apart are the same place. */
  lemma UnrolledSame(g: Geometry, ring: seq<byte>, a: nat, b: nat, n: nat)
    requires g.Valid() && |ring| == g.size && a % g.Length() == b % g.Length()
    ensures Unrolled(g, ring, a, n) == Unrolled(g, ring, b, n)
  {
    var s, t := Unrolled(g, ring, a, n), Unrolled(g, ring, b, n);
    forall i | 0 <= i < n ensures s[i] == t[i] {
      ModAdd(a, b, i, g.Length());
      assert g.At(a + i) == g.At(b + i);
      assert s[i] == ByteAt(g, ring, a + i) && t[i] == ByteAt(g, ring, b + i);
    }
  }

  /** The noted entries are frames `i` and on. */
  ghost predicate Describe(g: Geometry, h: nat, visits: seq<Visited>, frames: seq<seq<byte>>, i: nat)
    requires g.Valid()
  {
    i + |visits| <= |frames| && forall k :: 0 <= k < |visits| ==> Describes(g, h, visits[k], frames, i + k)
  }

  ghost predicate Describes(g: Geometry, h: nat, v: Visited, frames: seq<seq<byte>>, n: nat)
    requires g.Valid() && n < |frames|
  {
    g.Denotes(v.place, Start(frames, n)) && |frames[n]| >= h && Decode(frames[n][..h]) == Some(v.header)
  }

  lemma FrameHeld(g: Geometry, h: nat, ring: seq<byte>, frames: seq<seq<byte>>, i: nat, j: nat, k: nat)
    requires g.Valid() && |ring| == g.size && HeaderSize(h) && Holds(g, h, ring, frames, i, j) && i <= k < j
    ensures IsFrame(g, h, frames[k]) && |frames[k]| > 0
    ensures Unrolled(g, ring, Start(frames, k), |frames[k]|) == frames[k]
  {
    hide Unrolled, Decode;
  }

  /** What a step of the walk is when a frame of the stream lies there. */
  lemma FrameVisited(g: Geometry, h: nat, ring: seq<byte>, frames: seq<seq<byte>>, n: nat, current: int)
    requires g.Valid() && |ring| == g.size && HeaderSize(h) && n < |frames| && g.Denotes(current, Start(frames, n))
    requires IsFrame(g, h, frames[n]) && Unrolled(g, ring, Start(frames, n), |frames[n]|) == frames[n]
    ensures var v := Visited(current, HeaderThere(g, h, ring, current));
            && Describes(g, h, v, frames, n)
            && v.header.len + h == |frames[n]| && v.header.len <= g.Length() - h
            && g.Denotes(g.Move(current, v.header.len + h), Start(frames, n + 1))
  {
    hide Decode, Unrolled;
    var a, f := Start(frames, n), frames[n];
    var header := HeaderThere(g, h, ring, current);
    UnrolledSame(g, ring, current - g.offset, a, h);
    UnrolledSplit(g, ring, a, h, |f|);
    assert Unrolled(g, ring, a, h) == f[..h] by { PrefixOf(Unrolled(g, ring, a, h), Unrolled(g, ring, a + h, |f| - h)); }
    MoveIsAddition(g, current, a, header.len + h);
  }

  lemma PrefixOf(a: seq<byte>, b: seq<byte>)
    ensures (a + b)[..|a|] == a
  {
  }

  lemma EndDenotes(g: Geometry, a: nat)
    requires g.Valid()
    ensures g.Denotes(g.At(a), a)
  {
    ModUnique(a % g.Length(), 0, a % g.Length(), g.Length());
  }

  /** The walk has come to the last written byte: the pointers are equal. */
  lemma AtTheEnd(g: Geometry, current: int, a: nat)
    requires g.Valid() && g.Denotes(current, a) && g.At(a) != g.offset
    ensures current == g.At(a)
  {
    CanonicalIsAt(g, current, a);
    if current == g.size { ModStep(0, 1, g.Length()); }
  }

  /** Equal pointers less than a lap apart mean the same frame number. */
  lemma SamePlaceLater(g: Geometry, h: nat, ring: seq<byte>, frames: seq<seq<byte>>, i: nat, j: nat, current: int)
    requires g.Valid() && |ring| == g.size && HeaderSize(h) && Holds(g, h, ring, frames, i, j)
    requires g.Denotes(current, Start(frames, i)) && current == g.At(Start(frames, j))
    ensures i == j
  {
    hide Unrolled, Decode, IsFrame;
    forall n | i <= n < j ensures |frames[n]| > 0 { FrameHeld(g, h, ring, frames, i, j, n); }
    StartGrows(frames, i, j);
    EndDenotes(g, Start(frames, j));
    if i < j { ModDistinct(Start(frames, i), Start(frames, j), g.Length()); }
  }

  lemma HoldsFewer(g: Geometry, h: nat, ring: seq<byte>, frames: seq<seq<byte>>, i: nat, j: nat)
    requires g.Valid() && |ring| == g.size && Holds(g, h, ring, frames, i, j) && i < j
    ensures Holds(g, h, ring, frames, i + 1, j)
  {
    hide Unrolled, IsFrame;
    StartGrows(frames, i, i + 1);
  }

  lemma DescribeMore(g: Geometry, h: nat, v: Visited, more: seq<Visited>, frames: seq<seq<byte>>, i: nat)
    requires g.Valid() && i < |frames| && Describes(g, h, v, frames, i) && Describe(g, h, more, frames, i + 1)
    ensures Describe(g, h, [v] + more, frames, i)
  {
    hide Describes;
    var all := [v] + more;
    forall k | 0 <= k < |all| ensures Describes(g, h, all[k], frames, i + k) {
      if k > 0 { assert Describes(g, h, more[k - 1], frames, (i + 1) + (k - 1)); }
    }
  }

  /** The walk notes the frames of the stream one after another, and loses sync exactly at ten of them. */
  lemma {:induction false} WalkOnStream(g: Geometry, h: nat, ring: seq<byte>, frames: seq<seq<byte>>, i: nat, j: nat,
                                        current: int, n: nat)
    requires g.Valid() && |ring| == g.size && HeaderSize(h) && Holds(g, h, ring, frames, i, j)
    requires g.Denotes(current, Start(frames, i)) && n < BATCH && g.At(Start(frames, j)) != g.offset
    ensures var (sync, visits) := WalkFrom(g, h, ring, current, g.At(Start(frames, j)), n);
            && sync == (j - i < 10 - n) && |visits| == (if sync then j - i else 10 - n)
            && Describe(g, h, visits, frames, i)
    decreases BATCH - n
  {
    hide Unrolled, Decode, IsFrame, Holds, HeaderThere, Describes, WalkFrom, Start, Geometry.Move, Geometry.Denotes;
    InOrder(g, h, ring, frames, i, j);
    OnTheRing(g, current, Start(frames, i));
    var end := g.At(Start(frames, j));
    if current == end {
      SamePlaceLater(g, h, ring, frames, i, j, current);
      WalkEnds(g, h, ring, current, n);
    } else {
      if i == j { AtTheEnd(g, current, Start(frames, j)); }
      FrameHeld(g, h, ring, frames, i, j, i);
      FrameVisited(g, h, ring, frames, i, current);
      WalkUnfolds(g, h, ring, current, end, n);
      var v := Visited(current, HeaderThere(g, h, ring, current));
      var after := g.Move(current, v.header.len + h);
      if n + 1 < BATCH {
        HoldsFewer(g, h, ring, frames, i, j);
        WalkOnStream(g, h, ring, frames, i + 1, j, after, n + 1);
        DescribeMore(g, h, v, WalkFrom(g, h, ring, after, end, n + 1).1, frames, i);
      } else {
        assert [v] == [v] + [];
        DescribeMore(g, h, v, [], frames, i);
      }
    }
  }

  lemma OnTheRing(g: Geometry, p: int, a: nat)
    requires g.Valid() && g.Denotes(p, a)
    ensures g.offset <= p <= g.size
  {
  }

  lemma InOrder(g: Geometry, h: nat, ring: seq<byte>, frames: seq<seq<byte>>, i: nat, j: nat)
    requires g.Valid() && |ring| == g.size && Holds(g, h, ring, frames, i, j)
    ensures i <= j <= |frames|
  {
  }

  lemma WalkEnds(g: Geometry, h: nat, ring: seq<byte>, end: int, n: nat)
    requires g.Valid() && |ring| == g.size && HeaderSize(h) && g.offset <= end <= g.size && n < BATCH
    ensures WalkFrom(g, h, ring, end, end, n) == (true, [])
  {
  }

  /**
   * One poll of a ring that holds frames `i` to `j` of the stream from the
   * remembered place to the write end.
   */
  lemma PollOnStream(g: Geometry, h: nat, ring: seq<byte>, frames: seq<seq<byte>>, i: nat, j: nat, previous: int)
    requires g.Valid() && |ring| == g.size && HeaderSize(h) && Holds(g, h, ring, frames, i, j)
    requires g.Denotes(previous, Start(frames, i)) && (i == j ==> previous == g.At(Start(frames, j)))
    ensures j <= |frames|
    ensures var end := g.At(Start(frames, j));
            var (visits, place) := PollRing(g, h, ring, previous, end);
            var (batch, then') := PollTo(i, j, end == g.offset);
            && |visits| == |batch| && Describe(g, h, visits, frames, i)
            && then' <= j && g.Denotes(place, Start(frames, then')) && (then' == j ==> place == end)
  {
    hide Unrolled, Decode, IsFrame, Holds, Describes, WalkFrom, Start, Geometry.Denotes;
    InOrder(g, h, ring, frames, i, j);
    var end := g.At(Start(frames, j));
    EndDenotes(g, Start(frames, j));
    OnTheRing(g, previous, Start(frames, i));
    if previous == end {
      SamePlaceLater(g, h, ring, frames, i, j, previous);
    } else if end == g.offset {
      ABlindPollGivesUp(g, h, ring, previous);
    } else {
      WalkOnStream(g, h, ring, frames, i, j, previous, 0);
      var visits := WalkFrom(g, h, ring, previous, end, 0).1;
      if 2 <= j - i < BATCH { LastPlace(g, h, visits, frames, i); }
    }
  }

  lemma LastPlace(g: Geometry, h: nat, visits: seq<Visited>, frames: seq<seq<byte>>, i: nat)
    requires g.Valid() && Describe(g, h, visits, frames, i) && visits != []
    ensures var n := |visits| - 1;
            Describe(g, h, visits[..n], frames, i) && g.Denotes(visits[n].place, Start(frames, i + n))
  {
    hide Start, Decode, Geometry.Denotes;
    assert Describes(g, h, visits[|visits| - 1], frames, i + (|visits| - 1));
  }

  // ----- whole runs of polls -----

  /** In terms of the stream: how many frames are written, and whether the write end hides them. */
  datatype Seen = Seen(written: nat, blind: bool)

  /** Where a run of polls stands. */
  function Standing(next: nat, seen: seq<Seen>): nat {
    if seen == [] then next
    else
      var x := seen[|seen| - 1];
      PollTo(Standing(next, seen[..|seen| - 1]), x.written, x.blind).1
  }

  /** Everything it processes. */
  function Processed(next: nat, seen: seq<Seen>): seq<nat> {
    if seen == [] then []
    else
      var x := seen[|seen| - 1];
      Processed(next, seen[..|seen| - 1]) + PollTo(Standing(next, seen[..|seen| - 1]), x.written, x.blind).0
  }

  /** The stream only grows from poll to poll. */
  ghost predicate Growing(next: nat, seen: seq<Seen>) {
    && (forall k :: 0 <= k < |seen| ==> next <= seen[k].written)
    && forall k, l :: 0 <= k <= l < |seen| ==> seen[k].written <= seen[l].written
  }

  ghost predicate SnapshotOk(g: Geometry, h: nat, s: Snapshot, frames: seq<seq<byte>>, i: nat, x: Seen)
    requires g.Valid()
  {
    && |s.ring| == g.size && i <= x.written <= |frames|
    && s.end == g.At(Start(frames, x.written)) && x.blind == (s.end == g.offset)
    && Holds(g, h, s.ring, frames, i, x.written)
  }

  /** Every poll finds the frames from where the walk stands to the write end still in the ring. */
  ghost predicate Snapshots(g: Geometry, h: nat, polls: seq<Snapshot>, frames: seq<seq<byte>>, first: nat, seen: seq<Seen>)
    requires g.Valid()
  {
    && |seen| == |polls| && Growing(first, seen)
    && forall p :: 0 <= p < |polls| ==> SnapshotOk(g, h, polls[p], frames, Standing(first, seen[..p]), seen[p])
  }

  lemma OneBatch(next: nat, written: nat, blind: bool)
    ensures var (batch, then') := PollTo(next, written, blind);
            && next <= then' && (next <= written ==> then' <= written)
            && (forall k :: 0 <= k < |batch| ==> batch[k] == next + k)
            && |batch| <= then' - next && (batch != [] ==> then' == next + |batch|)
  {
  }

  lemma {:induction false} StandingBound(next: nat, seen: seq<Seen>)
    requires Growing(next, seen)
    ensures next <= Standing(next, seen)
    ensures Standing(next, seen) <= if seen == [] then next else seen[|seen| - 1].written
  {
    if seen != [] {
      var x := seen[|seen| - 1];
      StandingBound(next, seen[..|seen| - 1]);
      OneBatch(Standing(next, seen[..|seen| - 1]), x.written, x.blind);
    }
  }

  ghost predicate Ascending(p: seq<nat>, low: nat, high: nat) {
    && low <= high
    && (forall k :: 0 <= k < |p| ==> low <= p[k] < high)
    && (forall k, l :: 0 <= k < l < |p| ==> p[k] < p[l])
  }

  lemma AscendingAppend(p: seq<nat>, q: seq<nat>, low: nat, mid: nat, high: nat)
    requires Ascending(p, low, mid) && Ascending(q, mid, high)
    ensures Ascending(p + q, low, high)
  {
  }

  /** In order and at most once: the processed frame numbers strictly increase, from the start on. */
  lemma {:induction false} ProcessedInOrderAtMostOnce(next: nat, seen: seq<Seen>)
    ensures Ascending(Processed(next, seen), next, Standing(next, seen))
  {
    if seen != [] {
      var before, x := seen[..|seen| - 1], seen[|seen| - 1];
      ProcessedInOrderAtMostOnce(next, before);
      OneBatch(Standing(next, before), x.written, x.blind);
      AscendingAppend(Processed(next, before), PollTo(Standing(next, before), x.written, x.blind).0,
                      next, Standing(next, before), Standing(next, seen));
    }
  }

  /** No poll is blind or finds more than nine frames. */
  ghost predicate Unhurried(next: nat, seen: seq<Seen>) {
    forall k :: 0 <= k < |seen| ==> !seen[k].blind && seen[k].written - Standing(next, seen[..k]) < 10
  }

  /** Exactly once: then the processed frames are all frames up to where the walk stands. */
  lemma {:induction false} UnhurriedPollsMissNothing(next: nat, seen: seq<Seen>)
    requires Unhurried(next, seen)
    ensures next <= Standing(next, seen)
    ensures Processed(next, seen) == seq(Standing(next, seen) - next, k => next + k)
  {
    if seen != [] {
      var n := |seen| - 1;
      var before, x := seen[..n], seen[n];
      forall k | 0 <= k < n ensures !before[k].blind && before[k].written - Standing(next, before[..k]) < BATCH {
        assert before[..k] == seen[..k];
      }
      UnhurriedPollsMissNothing(next, before);
      BatchIsWhole(Standing(next, before), x);
      Consecutive(next, Standing(next, before), Standing(next, seen));
    }
  }

  lemma BatchIsWhole(next: nat, x: Seen)
    requires !x.blind && x.written - next < BATCH
    ensures var (batch, then') := PollTo(next, x.written, x.blind);
            next <= then' && batch == seq(then' - next, k => next + k)
  {
    var (batch, then') := PollTo(next, x.written, x.blind);
    assert |batch| == then' - next;
  }

  lemma Consecutive(a: nat, b: nat, c: nat)
    requires a <= b <= c
    ensures seq<nat>(b - a, k => a + k) + seq<nat>(c - b, k => b + k) == seq<nat>(c - a, k => a + k)
  {
  }

  /**
   * The newest frame of a batch is held back, and it is the first frame of the
   * next batch that has any, unless that poll gives up.
   */
  lemma TheLastFrameIsHeldBack(next: nat, written: nat, later: nat)
    requires next < written <= later && written - next < 10
    ensures var (batch, then') := PollTo(next, written, false);
            && then' == written - 1 && written - 1 !in batch
            && (2 <= later - then' < 10 ==>
                  PollTo(then', later, false).0 != [] && PollTo(then', later, false).0[0] == written - 1)
  {
    assert forall k :: k in PollTo(next, written, false).0 ==> k < written - 1;
  }

  // ----- what a run hands on -----

  /** The bytes of a frame that go to the queue, if any. */
  function PayloadOf(h: nat, f: seq<byte>): Option<seq<byte>> {
    if |f| < h || Decode(f[..h]).None? then None
    else
      var skip := if IsParameterSet(Decode(f[..h]).value.kind) then h + 6 else h;
      if |f| > skip then Some(f[skip..]) else None
  }

  function Payloads(h: nat, frames: seq<seq<byte>>, ns: seq<nat>): seq<seq<byte>> {
    if ns == [] then []
    else
      var n := ns[|ns| - 1];
      var data := if n < |frames| then PayloadOf(h, frames[n]) else None;
      Payloads(h, frames, ns[..|ns| - 1]) + if data.Some? then [data.value] else []
  }

  lemma NoPayloads(h: nat, frames: seq<seq<byte>>)
    ensures Payloads(h, frames, []) == []
  {
  }

  lemma {:induction false} PayloadsAppend(h: nat, frames: seq<seq<byte>>, p: seq<nat>, q: seq<nat>)
    ensures Payloads(h, frames, p + q) == Payloads(h, frames, p) + Payloads(h, frames, q)
  {
    hide PayloadOf;
    if q == [] {
      assert p + q == p;
    } else {
      PayloadsAppend(h, frames, p, q[..|q| - 1]);
      assert (p + q)[..|p + q| - 1] == p + q[..|q| - 1];
    }
  }

  /** The bytes handed on for a noted frame are that frame's own. */
  lemma BytesOfAFrame(g: Geometry, h: nat, ring: seq<byte>, v: Visited, frames: seq<seq<byte>>, n: nat)
    requires g.Valid() && |ring| == g.size && HeaderSize(h) && n < |frames| && Describes(g, h, v, frames, n)
    requires IsFrame(g, h, frames[n]) && Unrolled(g, ring, Start(frames, n), |frames[n]|) == frames[n]
    ensures BytesOf(g, h, ring, v) == PayloadOf(h, frames[n])
  {
    hide Decode, Unrolled, Start;
    var f, a := frames[n], Start(frames, n);
    var skip := if IsParameterSet(v.header.kind) then h + 6 else h;
    if |f| > skip {
      MoveIsAddition(g, v.place, a, skip);
      var from := g.Move(v.place, skip) - g.offset;
      UnrolledSame(g, ring, from, a + skip, |f| - skip);
      UnrolledSplit(g, ring, a, skip, |f|);
      SuffixOf(Unrolled(g, ring, a, skip), Unrolled(g, ring, a + skip, |f| - skip));
    }
  }

  lemma SuffixOf(a: seq<byte>, b: seq<byte>)
    ensures (a + b)[|a|..] == b
  {
  }

  lemma {:induction false} BatchOnStream(g: Geometry, h: nat, ring: seq<byte>, frames: seq<seq<byte>>, i: nat, j: nat,
                                         visits: seq<Visited>)
    requires g.Valid() && |ring| == g.size && HeaderSize(h) && Holds(g, h, ring, frames, i, j)
    requires AllPlausible(g, h, visits)
    requires Describe(g, h, visits, frames, i) && i + |visits| <= j
    ensures BatchBytes(g, h, ring, visits) == Payloads(h, frames, seq(|visits|, k => i + k))
    decreases |visits|
  {
    hide Decode, Unrolled, IsFrame, Holds, Describes, Start, BytesOf, PayloadOf, Plausible;
    if visits == [] {
      assert seq<nat>(0, k => i + k) == [];
    } else {
      var n := |visits| - 1;
      var ns := seq<nat>(|visits|, k => i + k);
      assert ns[..n] == seq<nat>(n, k => i + k);
      BatchOnStream(g, h, ring, frames, i, j, visits[..n]);
      assert Describes(g, h, visits[n], frames, i + n);
      FrameHeld(g, h, ring, frames, i, j, i + n);
      BytesOfAFrame(g, h, ring, visits[n], frames, i + n);
      assert ns[n] == i + n;
    }
  }

  /** Where a run of polls is: the walk's place, and whether it is the write end itself. */
  ghost predicate StandsAt(g: Geometry, previous: int, frames: seq<seq<byte>>, i: nat, written: nat)
    requires g.Valid()
  {
    && i <= written <= |frames| && g.Denotes(previous, Start(frames, i))
    && (i == written ==> previous == g.At(Start(frames, written)))
  }

  /** One poll of a run, and its batch. */
  lemma OnePollOnStream(g: Geometry, h: nat, s: Snapshot, frames: seq<seq<byte>>, i: nat, x: Seen, before: nat, previous: int)
    requires g.Valid() && HeaderSize(h) && StandsAt(g, previous, frames, i, before) && before <= x.written
    requires SnapshotOk(g, h, s, frames, i, x)
    ensures var (visits, place) := PollRing(g, h, s.ring, previous, s.end);
            && StandsAt(g, place, frames, PollTo(i, x.written, x.blind).1, x.written)
            && BatchBytes(g, h, s.ring, visits) == Payloads(h, frames, PollTo(i, x.written, x.blind).0)
  {
    hide Unrolled, Decode, IsFrame, Holds, Describe, Start, Geometry.Denotes, PollRing, BatchBytes, Payloads, Plausible;
    OnTheRing(g, previous, Start(frames, i));
    PollOnStream(g, h, s.ring, frames, i, x.written, previous);
    var visits := PollRing(g, h, s.ring, previous, s.end).0;
    OneBatch(i, x.written, x.blind);
    var batch := PollTo(i, x.written, x.blind).0;
    assert batch == seq<nat>(|visits|, k => i + k);
    BatchOnStream(g, h, s.ring, frames, i, x.written, visits);
  }

  /**
   * Any number of polls of a ring that still holds, at each of them, the frames
   * from where the walk stands to the write end: the bytes handed on are the
   * payloads of the frames `Processed` names, in that order.
   */
  lemma {:induction false} RunOnStream(g: Geometry, h: nat, polls: seq<Snapshot>, frames: seq<seq<byte>>, first: nat,
                                       seen: seq<Seen>)
    requires g.Valid() && HeaderSize(h) && first <= |frames| && Snapshots(g, h, polls, frames, first, seen)
    ensures SnapshotsOf(g, polls)
    ensures var (out, place) := RunPolls(g, h, g.At(Start(frames, first)), polls);
            && StandsAt(g, place, frames, Standing(first, seen), if seen == [] then first else seen[|seen| - 1].written)
            && out == Payloads(h, frames, Processed(first, seen))
    decreases |polls|
  {
    hide Start, SnapshotOk, PollRing, BatchBytes, Payloads, PollTo, StandsAt, Plausible;
    SnapshotsInRing(g, h, polls, frames, first, seen);
    var start := g.At(Start(frames, first));
    if polls == [] {
      StandsAtStart(g, frames, first);
      NoPayloads(h, frames);
    } else {
      var n := |polls| - 1;
      SnapshotsBefore(g, h, polls, frames, first, seen);
      RunOnStream(g, h, polls[..n], frames, first, seen[..n]);
      var (out, place) := RunPolls(g, h, start, polls[..n]);
      var i := Standing(first, seen[..n]);
      OnePollOnStream(g, h, polls[n], frames, i, seen[n], if n == 0 then first else seen[n - 1].written, place);
      PayloadsAppend(h, frames, Processed(first, seen[..n]), PollTo(i, seen[n].written, seen[n].blind).0);
    }
  }

  lemma StandsAtStart(g: Geometry, frames: seq<seq<byte>>, first: nat)
    requires g.Valid() && first <= |frames|
    ensures StandsAt(g, g.At(Start(frames, first)), frames, first, first)
  {
    EndDenotes(g, Start(frames, first));
  }

  lemma SnapshotsInRing(g: Geometry, h: nat, polls: seq<Snapshot>, frames: seq<seq<byte>>, first: nat, seen: seq<Seen>)
    requires g.Valid() && Snapshots(g, h, polls, frames, first, seen)
    ensures SnapshotsOf(g, polls)
  {
    hide Holds;
    forall p | 0 <= p < |polls| ensures |polls[p].ring| == g.size && g.offset <= polls[p].end < g.size {
      assert SnapshotOk(g, h, polls[p], frames, Standing(first, seen[..p]), seen[p]);
    }
  }

  lemma SnapshotsBefore(g: Geometry, h: nat, polls: seq<Snapshot>, frames: seq<seq<byte>>, first: nat, seen: seq<Seen>)
    requires g.Valid() && Snapshots(g, h, polls, frames, first, seen) && polls != []
    ensures var n := |polls| - 1;
            && Snapshots(g, h, polls[..n], frames, first, seen[..n])
            && SnapshotOk(g, h, polls[n], frames, Standing(first, seen[..n]), seen[n])
            && (if n == 0 then first else seen[n - 1].written) <= seen[n].written
  {
    hide SnapshotOk, Standing;
    var n := |polls| - 1;
    forall p | 0 <= p < n ensures SnapshotOk(g, h, polls[..n][p], frames, Standing(first, seen[..n][..p]), seen[..n][p]) {
      assert seen[..n][..p] == seen[..p];
      assert SnapshotOk(g, h, polls[p], frames, Standing(first, seen[..p]), seen[p]);
    }
  }
}
