/** Bytes, and the fixed-width numbers the container and image formats store in them. */
module Bytes {
  type byte = b: int | 0 <= b < 256

  function Store32(v: int): (r: seq<byte>)
    requires 0 <= v < 0x1_0000_0000
    ensures |r| == 4
  {
    [v / 0x100_0000, v / 0x1_0000 % 0x100, v / 0x100 % 0x100, v % 0x100]
  }

  function Be32(s: seq<byte>): (v: int)
    requires |s| == 4
    ensures 0 <= v < 0x1_0000_0000
  {
    (s[0] as int) * 0x100_0000 + (s[1] as int) * 0x1_0000 + (s[2] as int) * 0x100 + s[3] as int
  }

  function Be64(s: seq<byte>): (v: int)
    requires |s| == 8
    ensures 0 <= v < 0x1_0000_0000_0000_0000
  {
    Be32(s[..4]) * 0x1_0000_0000 + Be32(s[4..])
  }

  function Le32(s: seq<byte>): (v: int)
    requires |s| == 4
    ensures 0 <= v < 0x1_0000_0000
  {
    (s[0] as int) + (s[1] as int) * 0x100 + (s[2] as int) * 0x1_0000 + (s[3] as int) * 0x100_0000
  }

  lemma Be32OfStore32(v: int)
    requires 0 <= v < 0x1_0000_0000
    ensures Be32(Store32(v)) == v
  {
    assert v / 0x1_0000 / 0x100 == v / 0x100_0000;
    assert v / 0x100 / 0x100 == v / 0x1_0000;
  }

  lemma Store32OfBe32(s: seq<byte>)
    requires |s| == 4
    ensures Store32(Be32(s)) == s
  {
    var a, b, c, d := s[0] as int, s[1] as int, s[2] as int, s[3] as int;
    var v := Be32(s);
    LastDigit((a * 0x100 + b) * 0x100 + c, d);
    LastDigit(a * 0x100 + b, c);
    LastDigit(a, b);
    assert v / 0x100 == (a * 0x100 + b) * 0x100 + c;
    assert v / 0x1_0000 == v / 0x100 / 0x100 && v / 0x100_0000 == v / 0x1_0000 / 0x100;
  }

  lemma LastDigit(n: int, d: int)
    requires 0 <= d < 0x100
    ensures (n * 0x100 + d) / 0x100 == n && (n * 0x100 + d) % 0x100 == d
  {
  }

  function Zeros(n: nat): (r: seq<byte>)
    ensures |r| == n
  {
    seq(n, _ => 0)
  }

  lemma SliceOfPrefix(f: seq<byte>, g: seq<byte>, n: nat, k: nat, len: nat)
    requires n <= |f| && n <= |g| && f[..n] == g[..n] && k + len <= n
    ensures f[k..k + len] == g[k..k + len]
  {
    assert f[k..k + len] == f[..n][k..k + len];
    assert g[k..k + len] == g[..n][k..k + len];
  }

  lemma SliceOfRest(f: seq<byte>, g: seq<byte>, n: nat, k: nat, len: nat)
    requires n <= |f| <= |g| && f[n..] == g[n..|f|] && n <= k && k + len <= |f|
    ensures f[k..k + len] == g[k..k + len]
  {
    var a, b := f[k..k + len], g[k..k + len];
    forall j | 0 <= j < len ensures a[j] == b[j] {
      assert a[j] == f[n..][k - n + j] && b[j] == g[n..|f|][k - n + j];
    }
  }

  lemma SliceOfSlice(f: seq<byte>, at: nat, n: nat, i: nat, j: nat)
    requires at + n <= |f| && i <= j <= n
    ensures f[at..at + n][i..j] == f[at + i..at + j]
  {
    var a, b := f[at..at + n][i..j], f[at + i..at + j];
    forall k | 0 <= k < |a| ensures a[k] == b[k] {
    }
  }

  /** The bytes of a text in ASCII; a question mark stands for any other character. */
  function Ascii(text: string): (s: seq<byte>)
    ensures |s| == |text|
  {
    seq(|text|, i requires 0 <= i < |text| => if text[i] < 128 as char then text[i] as int else 63)
  }
}
