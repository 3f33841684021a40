/** `record_ring_duration`: the time the recorder's pre-roll ring spans, if its packets add up. */
module PrerollRing {
  import opened U32
  import opened Options

  const HEADER := 28
  const LONGEST := 120000

  /** What the header copied from a ring position says. */
  datatype Packet = Packet(length: int, time: int)

  predicate Readable(headers: int -> Packet, capacity: nat) {
    forall p :: 0 <= p < capacity ==> 0 <= headers(p).length < TWO32 && 0 <= headers(p).time < TWO32
  }

  function Next(position: nat, length: nat, capacity: nat): int
    requires capacity > 0
  {
    var p := position + length + HEADER;
    if p >= capacity then p - capacity else p
  }

  /** The packets that tile `remaining` bytes from `position` on, if they do. */
  function Tiling(headers: int -> Packet, capacity: nat, position: nat, remaining: nat): (r: Option<seq<Packet>>)
    requires position < capacity && remaining <= capacity && Readable(headers, capacity)
    ensures r.Some? ==> Bytes(r.value) == remaining && (r.value == [] <==> remaining == 0)
    decreases remaining
  {
    if remaining == 0 then Some([])
    else if remaining < HEADER || headers(position).length > remaining - HEADER then None
    else
      var x := headers(position);
      var rest := Tiling(headers, capacity, Next(position, x.length, capacity), remaining - HEADER - x.length);
      if rest.None? then None else Some([x] + rest.value)
  }

  function Bytes(packets: seq<Packet>): int {
    if packets == [] then 0 else packets[0].length + HEADER + Bytes(packets[1..])
  }

  /** The unsigned difference of the last and first time, through a wrap of the millisecond clock. */
  function Span(packets: seq<Packet>): (s: int)
    requires packets != []
    ensures 0 <= s < TWO32
  {
    Wrap(packets[|packets| - 1].time - packets[0].time)
  }

  /** The bytes the packets take up, each behind a header of 28. */
  function Occupied(packets: seq<Packet>): int {
    if packets == [] then 0 else 28 + packets[0].length + Occupied(packets[1..])
  }

  /** The packets lie in the ring one behind the other, the first at `position`, round the end of the ring. */
  ghost predicate LaidOut(headers: int -> Packet, capacity: nat, position: nat, packets: seq<Packet>)
    requires Readable(headers, capacity) && position < capacity
    decreases |packets|
  {
    packets == [] ||
    var behind := position + 28 + packets[0].length;
    && headers(position) == packets[0] && behind < 2 * capacity
    && LaidOut(headers, capacity, if behind < capacity then behind else behind - capacity, packets[1..])
  }

  lemma OccupiedIsPositive(headers: int -> Packet, capacity: nat, position: nat, packets: seq<Packet>)
    requires Readable(headers, capacity) && position < capacity && LaidOut(headers, capacity, position, packets)
    ensures Occupied(packets) >= 0
    decreases |packets|
  {
    if packets != [] {
      var behind := position + 28 + packets[0].length;
      OccupiedIsPositive(headers, capacity, if behind < capacity then behind else behind - capacity, packets[1..]);
    }
  }

  /** The packets that tile the occupied bytes are those laid out from the position on that take up just these bytes. */
  lemma {:induction false} TilingExactly(headers: int -> Packet, capacity: nat, position: nat, remaining: nat, packets: seq<Packet>)
    requires position < capacity && remaining <= capacity && Readable(headers, capacity)
    ensures Tiling(headers, capacity, position, remaining) == Some(packets)
       <==> LaidOut(headers, capacity, position, packets) && Occupied(packets) == remaining
    decreases remaining
  {
    var x := headers(position);
    var next := Next(position, x.length, capacity);
    if remaining >= 28 && x.length <= remaining - 28 {
      var left := remaining - 28 - x.length;
      var rest := Tiling(headers, capacity, next, left);
      if packets != [] {
        TilingExactly(headers, capacity, next, left, packets[1..]);
        assert [packets[0]] + packets[1..] == packets;
      }
      if rest.Some? { assert ([x] + rest.value)[1..] == rest.value; }
    } else if LaidOut(headers, capacity, position, packets) && packets != [] {
      OccupiedIsPositive(headers, capacity, next, packets[1..]);
    }
  }

  /** Where the packets before `remaining` bytes left off. */
  ghost predicate SoFar(headers: int -> Packet, capacity: nat, position0: nat, remaining0: nat,
                        done: seq<Packet>, position: nat, remaining: nat)
    requires position0 < capacity && remaining0 <= capacity && Readable(headers, capacity)
    requires position < capacity && remaining <= capacity
  {
    var rest := Tiling(headers, capacity, position, remaining);
    Tiling(headers, capacity, position0, remaining0) == if rest.None? then None else Some(done + rest.value)
  }

  lemma SoFarStart(headers: int -> Packet, capacity: nat, position: nat, remaining: nat)
    requires position < capacity && remaining <= capacity && Readable(headers, capacity)
    ensures SoFar(headers, capacity, position, remaining, [], position, remaining)
  {
    var t := Tiling(headers, capacity, position, remaining);
    assert t.Some? ==> [] + t.value == t.value;
  }

  lemma SoFarStep(headers: int -> Packet, capacity: nat, position0: nat, remaining0: nat,
                  done: seq<Packet>, position: nat, remaining: nat)
    requires position0 < capacity && remaining0 <= capacity && Readable(headers, capacity)
    requires position < capacity && HEADER <= remaining <= capacity && headers(position).length <= remaining - HEADER
    requires SoFar(headers, capacity, position0, remaining0, done, position, remaining)
    ensures SoFar(headers, capacity, position0, remaining0, done + [headers(position)],
                  Next(position, headers(position).length, capacity), remaining - HEADER - headers(position).length)
  {
    var x := headers(position);
    var rest := Tiling(headers, capacity, Next(position, x.length, capacity), remaining - HEADER - x.length);
    assert rest.Some? ==> done + ([x] + rest.value) == (done + [x]) + rest.value;
  }

  /** A walk that cannot go on has met exactly the tiling, or none exists. */
  lemma SoFarEnd(headers: int -> Packet, capacity: nat, position0: nat, remaining0: nat,
                 done: seq<Packet>, position: nat, remaining: nat)
    requires position0 < capacity && remaining0 <= capacity && Readable(headers, capacity)
    requires position < capacity && remaining <= capacity
    requires remaining < HEADER || headers(position).length > remaining - HEADER
    requires SoFar(headers, capacity, position0, remaining0, done, position, remaining)
    ensures Tiling(headers, capacity, position0, remaining0) == if remaining == 0 then Some(done) else None
  {
    assert done + [] == done;
  }

  /**
   * The walk never leaves the ring and never overflows 32 bits; its result is
   * the span of the packets exactly when they tile the occupied bytes.
   */
  method Duration(headers: int -> Packet, capacity: nat, position0: nat, remaining0: nat) returns (span: nat)
    requires 0 < capacity <= 0x100000 && Readable(headers, capacity)
    ensures span <= 120000
    ensures position0 < capacity && remaining0 <= capacity ==>
              var t := Tiling(headers, capacity, position0, remaining0);
              span == if t.Some? && t.value != [] && Span(t.value) <= 120000 then Span(t.value) else 0
    ensures !(position0 < capacity && remaining0 <= capacity) ==> span == 0
  {
    hide Wrap, Tiling, SoFar, Bytes;
    if !(remaining0 <= capacity && position0 < capacity) { return 0; }
    var remaining, position := remaining0, position0;
    var first, last, count := 0, 0, 0;
    ghost var done: seq<Packet> := [];
    SoFarStart(headers, capacity, position0, remaining0);
    while remaining >= HEADER
      invariant 0 <= position < capacity && 0 <= remaining <= capacity
      invariant count == |done| && 0 <= first < TWO32 && 0 <= last < TWO32
      invariant count > 0 ==> first == done[0].time && last == done[count - 1].time
      invariant SoFar(headers, capacity, position0, remaining0, done, position, remaining)
      decreases remaining
    {
      var x := headers(position);
      if x.length > remaining - HEADER { break; }
      SoFarStep(headers, capacity, position0, remaining0, done, position, remaining);
      if count == 0 { first := x.time; }
      count := count + 1;
      last := x.time;
      done := done + [x];
      var size := x.length + HEADER;
      assert size < TWO32 && position + size < TWO32;
      remaining := remaining - size;
      position := position + size;
      if position >= capacity { position := position - capacity; }
    }
    SoFarEnd(headers, capacity, position0, remaining0, done, position, remaining);
    span := Wrap(last - first);
    if !(count > 0 && remaining == 0 && span <= LONGEST) { span := 0; }
  }
}
