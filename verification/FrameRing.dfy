/**
 * The camera's shared frame ring: pointer moves, copies and comparisons across
 * the wrap, against one unrolled, endless ring.
 */
module FrameRing {
  import opened Bytes
  import opened Options

  /** Frames live between `offset` and `size`; pointers are counted from the start of the mapping. */
  datatype Geometry = Geometry(offset: nat, size: nat) {
    ghost predicate Valid() { offset + 64 < size }

    function Length(): int { size - offset }

    /** The pointer of unrolled position `a`. */
    function At(a: nat): (p: int)
      requires Valid()
      ensures offset <= p < size
    {
      offset + a % Length()
    }

    /** `p` points at unrolled position `a`; the ring's end stands for its beginning. */
    ghost predicate Denotes(p: int, a: nat)
      requires Valid()
    {
      offset <= p <= size && (p - offset) % Length() == a % Length()
    }

    /** `cb_move`. */
    function Move(p: int, n: int): int {
      var q := p + n;
      if n > 0 && q > size then q - Length()
      else if n < 0 && q < offset then q + Length()
      else q
    }
  }

  lemma ModAdd(a: int, b: int, n: int, m: int)
    requires m > 0 && a % m == b % m
    ensures (a + n) % m == (b + n) % m
  {
    var k := a / m - b / m;
    assert a == b + m * k;
    ModStep(b + n, k, m);
    assert a + n == b + n + m * k;
  }

  lemma ModStep(x: int, k: int, m: int)
    requires m > 0
    ensures (x + m * k) % m == x % m
  {
    var q, r := x / m, x % m;
    assert x + m * k == m * (q + k) + r;
    ModUnique(x + m * k, q + k, r, m);
  }

  lemma {:induction false} MultipleGap(d: int, m: int)
    requires m > 0
    ensures d > 0 ==> m * d >= m
    ensures d < 0 ==> m * d <= -m
    ensures d == 0 ==> m * d == 0
    decreases if d < 0 then -d else d
  {
    if d > 1 { MultipleGap(d - 1, m); } else if d < -1 { MultipleGap(d + 1, m); }
  }

  lemma ModUnique(x: int, q: int, r: int, m: int)
    requires m > 0 && 0 <= r < m && x == m * q + r
    ensures x % m == r && x / m == q
  {
    var d := x / m - q;
    assert m * d == r - x % m;
    MultipleGap(d, m);
  }

  /** Positions less than a lap apart denote different pointers. */
  lemma ModDistinct(a: int, b: int, m: int)
    requires m > 0 && a < b < a + m
    ensures a % m != b % m
  {
    var d := b / m - a / m;
    assert b - a == m * d + (b % m - a % m);
    MultipleGap(d, m);
  }

  /** `cb_move` is addition on the unrolled ring, forwards and backwards, for moves of up to a lap. */
  lemma MoveIsAddition(g: Geometry, p: int, a: nat, n: int)
    requires g.Valid() && g.Denotes(p, a) && -g.Length() <= n <= g.Length() && a + n >= 0
    ensures g.Denotes(g.Move(p, n), a + n)
  {
    var m := g.Length();
    ModAdd(p - g.offset, a, n, m);
    ModStep(p - g.offset + n, -1, m);
    ModStep(p - g.offset + n, 1, m);
  }

  /**
   * The moved pointer is the canonical one exactly when the move does not land
   * on the ring's end: there `cb_move` stays at the end instead of wrapping.
   */
  lemma MoveIsCanonicalExactlyOffTheEnd(g: Geometry, p: int, a: nat, n: nat)
    requires g.Valid() && g.offset <= p < g.size && g.Denotes(p, a) && 0 < n <= g.Length()
    ensures g.Move(p, n) == g.At(a + n) <==> p + n != g.size
  {
    MoveIsAddition(g, p, a, n);
    CanonicalIsAt(g, g.Move(p, n), a + n);
  }

  lemma CanonicalIsAt(g: Geometry, p: int, a: nat)
    requires g.Valid() && g.Denotes(p, a)
    ensures p < g.size ==> p == g.At(a)
  {
    if p < g.size {
      ModUnique(p - g.offset, 0, p - g.offset, g.Length());
    }
  }

  // ----- the ring's contents, unrolled -----

  function ByteAt(g: Geometry, ring: seq<byte>, a: nat): byte
    requires g.Valid() && |ring| == g.size
  {
    ring[g.At(a)]
  }

  function Unrolled(g: Geometry, ring: seq<byte>, a: nat, n: nat): (s: seq<byte>)
    requires g.Valid() && |ring| == g.size
    ensures |s| == n
  {
    seq<byte>(n, i requires 0 <= i < n => ByteAt(g, ring, a + i))
  }

  lemma UnrolledSplit(g: Geometry, ring: seq<byte>, a: nat, k: nat, n: nat)
    requires g.Valid() && |ring| == g.size && k <= n
    ensures Unrolled(g, ring, a, n) == Unrolled(g, ring, a, k) + Unrolled(g, ring, a + k, n - k)
  {
  }

  /** Up to the wrap the unrolled bytes are consecutive bytes of the mapping. */
  lemma StraightRun(g: Geometry, ring: seq<byte>, p: int, a: nat, n: nat)
    requires g.Valid() && |ring| == g.size && g.Denotes(p, a) && p + n <= g.size
    ensures Unrolled(g, ring, a, n) == ring[p..p + n]
  {
    var u, r := Unrolled(g, ring, a, n), ring[p..p + n];
    forall i | 0 <= i < n ensures u[i] == r[i] {
      ModAdd(p - g.offset, a, i, g.Length());
      assert p - g.offset + i == p + i - g.offset;
      CanonicalIsAt(g, p + i, a + i);
      assert u[i] == ByteAt(g, ring, a + i) == ring[p + i];
    }
  }

  /** What lies across the wrap: the end of the mapping, then its beginning. */
  lemma WrappedRun(g: Geometry, ring: seq<byte>, p: int, a: nat, n: nat)
    requires g.Valid() && |ring| == g.size && g.Denotes(p, a) && n <= g.Length() && p + n > g.size
    ensures Unrolled(g, ring, a, n) == ring[p..g.size] + ring[g.offset..g.offset + n - (g.size - p)]
  {
    var k := g.size - p;
    UnrolledSplit(g, ring, a, k, n);
    StraightRun(g, ring, p, a, k);
    ModAdd(p - g.offset, a, k, g.Length());
    ModStep(0, 1, g.Length());
    StraightRun(g, ring, g.offset, a + k, n - k);
  }

  /** `cb2s_memcpy`: the destination receives the unrolled bytes, and nothing past them. */
  method CopyOut(g: Geometry, ring: seq<byte>, dest: array<byte>, src: int, n: nat, ghost a: nat)
    requires g.Valid() && |ring| == g.size && g.Denotes(src, a) && n <= g.Length() && n <= dest.Length
    modifies dest
    ensures dest[..n] == Unrolled(g, ring, a, n)
    ensures forall i :: n <= i < dest.Length ==> dest[i] == old(dest[i])
  {
    if src + n > g.size {
      var k := g.size - src;
      forall i | 0 <= i < k { dest[i] := ring[src + i]; }
      forall i | k <= i < n { dest[i] := ring[g.offset + i - k]; }
      WrappedRun(g, ring, src, a, n);
    } else {
      forall i | 0 <= i < n { dest[i] := ring[src + i]; }
      StraightRun(g, ring, src, a, n);
    }
  }

  /** `memcmp`: the difference at the first byte that differs. */
  function Memcmp(a: seq<byte>, b: seq<byte>): int
    requires |a| == |b|
  {
    if a == [] then 0 else if a[0] != b[0] then a[0] as int - b[0] as int else Memcmp(a[1..], b[1..])
  }

  lemma {:induction false} MemcmpAppend(a: seq<byte>, b: seq<byte>, c: seq<byte>, d: seq<byte>)
    requires |a| == |b| && |c| == |d|
    ensures Memcmp(a + c, b + d) == if Memcmp(a, b) != 0 then Memcmp(a, b) else Memcmp(c, d)
  {
    if a == [] {
      assert a + c == c && b + d == d;
    } else {
      assert (a + c)[1..] == a[1..] + c && (b + d)[1..] == b[1..] + d;
      MemcmpAppend(a[1..], b[1..], c, d);
    }
  }

  lemma {:induction false} MemcmpZero(a: seq<byte>, b: seq<byte>)
    requires |a| == |b|
    ensures Memcmp(a, b) == 0 <==> a == b
  {
    if a != [] {
      MemcmpZero(a[1..], b[1..]);
      if a[0] == b[0] && a[1..] == b[1..] { assert a == [a[0]] + a[1..] && b == [b[0]] + b[1..]; }
    }
  }

  /** The texts agree up to `k`, where the first has the larger byte. */
  ghost predicate LargerAt(a: seq<byte>, b: seq<byte>, k: nat) {
    k < |a| && k < |b| && a[k] > b[k] && forall i :: 0 <= i < k ==> a[i] == b[i]
  }

  lemma {:induction false} MemcmpSign(a: seq<byte>, b: seq<byte>)
    requires |a| == |b|
    ensures Memcmp(a, b) > 0 <==> exists k: nat :: LargerAt(a, b, k)
    ensures Memcmp(a, b) < 0 <==> exists k: nat :: LargerAt(b, a, k)
  {
    if a != [] {
      if a[0] > b[0] {
        assert LargerAt(a, b, 0);
      } else if a[0] < b[0] {
        assert LargerAt(b, a, 0);
      } else {
        MemcmpSign(a[1..], b[1..]);
        LargerBehind(a, b);
        LargerBehind(b, a);
      }
    }
  }

  lemma LargerBehind(a: seq<byte>, b: seq<byte>)
    requires |a| == |b| && a != [] && a[0] == b[0]
    ensures (exists k: nat :: LargerAt(a, b, k)) <==> exists k: nat :: LargerAt(a[1..], b[1..], k)
  {
    if k: nat :| LargerAt(a, b, k) {
      assert LargerAt(a[1..], b[1..], k - 1);
    }
    if k: nat :| LargerAt(a[1..], b[1..], k) {
      forall i | 0 <= i < k + 1 ensures a[i] == b[i] {
        if i > 0 { assert a[1..][i - 1] == b[1..][i - 1]; }
      }
      assert LargerAt(a, b, k + 1);
    }
  }

  /** `cb_memcmp`: the comparison with the unrolled bytes, in sign and in equality. */
  method CompareWith(g: Geometry, ring: seq<byte>, s: seq<byte>, src: int, ghost a: nat) returns (r: int)
    requires g.Valid() && |ring| == g.size && g.Denotes(src, a) && |s| <= g.Length()
    ensures r == Memcmp(s, Unrolled(g, ring, a, |s|))
    ensures r == 0 <==> s == Unrolled(g, ring, a, |s|)
    ensures r > 0 <==> exists k: nat :: LargerAt(s, Unrolled(g, ring, a, |s|), k)
    ensures r < 0 <==> exists k: nat :: LargerAt(Unrolled(g, ring, a, |s|), s, k)
  {
    hide LargerAt;
    var n := |s|;
    MemcmpSign(s, Unrolled(g, ring, a, n));
    MemcmpZero(s, Unrolled(g, ring, a, n));
    if src + n > g.size {
      var k := g.size - src;
      WrappedRun(g, ring, src, a, n);
      MemcmpAppend(s[..k], ring[src..g.size], s[k..], ring[g.offset..g.offset + n - k]);
      assert s[..k] + s[k..] == s;
      r := Memcmp(s[..k], ring[src..g.size]);
      if r != 0 { return; }
      r := Memcmp(s[k..], ring[g.offset..g.offset + n - k]);
    } else {
      StraightRun(g, ring, src, a, n);
      r := Memcmp(s, ring[src..src + n]);
    }
  }

  // ----- frame headers -----

  datatype Header = Header(len: nat, counter: nat, time: nat, kind: nat, streamCounter: nat)

  function Le16(s: seq<byte>): (v: int)
    requires |s| == 2
    ensures 0 <= v < 0x1_0000
  {
    (s[0] as int) + (s[1] as int) * 0x100
  }

  /** The four packed layouts; the 26- and 28-byte ones carry one more unknown word before the time. */
  function Decode(s: seq<byte>): Option<Header> {
    if |s| == 22 || |s| == 24 then
      Some(Header(Le32(s[0..4]), Le32(s[4..8]), Le32(s[12..16]), Le16(s[16..18]), Le16(s[18..20])))
    else if |s| == 26 || |s| == 28 then
      Some(Header(Le32(s[0..4]), Le32(s[4..8]), Le32(s[16..20]), Le16(s[20..22]), Le16(s[22..24])))
    else None
  }

  /** `cb2s_headercpy`: the header's fields from the unrolled bytes; other sizes copy nothing. */
  method HeaderAt(g: Geometry, ring: seq<byte>, src: int, n: nat, ghost a: nat) returns (h: Option<Header>)
    requires g.Valid() && |ring| == g.size && g.Denotes(src, a)
    ensures h == Decode(Unrolled(g, ring, a, n))
  {
    if !(n == 22 || n == 24 || n == 26 || n == 28) { return None; }
    var raw;
    if src + n > g.size {
      raw := ring[src..g.size] + ring[g.offset..g.offset + n - (g.size - src)];
      WrappedRun(g, ring, src, a, n);
    } else {
      raw := ring[src..src + n];
      StraightRun(g, ring, src, a, n);
    }
    h := Decode(raw);
  }
}
