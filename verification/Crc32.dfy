/** The checksum of the uImage format: CRC-32 with reflected bits, as `clean_image.c` computes it. */
module Crc32 {
  import opened Bytes

  function Bit(c: bv32): bv32 {
    (c >> 1) ^ ((0 - (c & 1)) & 0xedb88320)
  }

  function Eight(c: bv32): bv32 {
    Bit(Bit(Bit(Bit(Bit(Bit(Bit(Bit(c))))))))
  }

  /** The byte with the given bits, lowest first. */
  function OfBits(b0: bool, b1: bool, b2: bool, b3: bool, b4: bool, b5: bool, b6: bool, b7: bool): bv8 {
    (if b0 then 1 else 0 as bv8) | (if b1 then 2 else 0) | (if b2 then 4 else 0) | (if b3 then 8 else 0)
    | (if b4 then 16 else 0) | (if b5 then 32 else 0) | (if b6 then 64 else 0) | (if b7 then 128 else 0)
  }

  function Narrow(b: byte): bv8 {
    OfBits(b % 2 == 1, b / 2 % 2 == 1, b / 4 % 2 == 1, b / 8 % 2 == 1,
           b / 16 % 2 == 1, b / 32 % 2 == 1, b / 64 % 2 == 1, b / 128 == 1)
  }

  function Wide(b: byte): bv32 {
    Narrow(b) as bv32
  }

  function Step(c: bv32, b: byte): bv32 {
    Eight(Mix(c, Wide(b)))
  }

  function Mix(c: bv32, w: bv32): bv32 {
    c ^ w
  }

  /** The register after the bytes of `s`, starting from `c`. */
  function Run(c: bv32, s: seq<byte>): bv32 {
    if s == [] then c else Step(Run(c, s[..|s| - 1]), s[|s| - 1])
  }

  function Crc(s: seq<byte>): (v: int)
    ensures 0 <= v < 0x1_0000_0000
  {
    (!Run(0xffff_ffff, s)) as int
  }

  function Turns(c: bv32, n: nat): bv32 {
    if n == 0 then c else Bit(Turns(c, n - 1))
  }

  lemma TurnsIsEight(c: bv32)
    ensures Turns(c, 8) == Eight(c)
  {
    hide Bit;
    assert Turns(c, 1) == Bit(Turns(c, 0));
    assert Turns(c, 2) == Bit(Bit(c));
    assert Turns(c, 4) == Bit(Bit(Turns(c, 2)));
    assert Turns(c, 6) == Bit(Bit(Turns(c, 4)));
  }

  /** The inner loop of `crc`: one byte, bit by bit. */
  method TakeByte(before: bv32, b: byte) returns (c: bv32)
    ensures c == Step(before, b)
  {
    hide Bit, Eight, Wide, Mix;
    c := Mix(before, Wide(b));
    ghost var start := c;
    var i := 0;
    while i < 8
      invariant 0 <= i <= 8 && c == Turns(start, i)
    {
      c := Bit(c);
      i := i + 1;
    }
    TurnsIsEight(start);
  }

  /** `crc` of `clean_image.c`. */
  method ComputeCrc(p: seq<byte>) returns (v: int)
    ensures v == Crc(p)
  {
    hide Step;
    var c: bv32 := 0xffff_ffff;
    var n := 0;
    while n < |p|
      invariant 0 <= n <= |p| && c == Run(0xffff_ffff, p[..n])
    {
      assert p[..n + 1][..n] == p[..n];
      c := TakeByte(c, p[n]);
      n := n + 1;
    }
    assert p[..n] == p;
    v := (!c) as int;
  }

  // ----- no single byte can change unnoticed -----

  /** The top bit of the polynomial tells which bit was shifted out. */
  lemma BitIsInjective(a: bv32, b: bv32)
    requires Bit(a) == Bit(b)
    ensures a == b
  {
  }

  lemma EightIsInjective(a: bv32, b: bv32)
    requires Eight(a) == Eight(b)
    ensures a == b
  {
    hide Bit;
    BitIsInjective(Bit(Bit(Bit(Bit(Bit(Bit(Bit(a))))))), Bit(Bit(Bit(Bit(Bit(Bit(Bit(b))))))));
    BitIsInjective(Bit(Bit(Bit(Bit(Bit(Bit(a)))))), Bit(Bit(Bit(Bit(Bit(Bit(b)))))));
    BitIsInjective(Bit(Bit(Bit(Bit(Bit(a))))), Bit(Bit(Bit(Bit(Bit(b))))));
    BitIsInjective(Bit(Bit(Bit(Bit(a)))), Bit(Bit(Bit(Bit(b)))));
    BitIsInjective(Bit(Bit(Bit(a))), Bit(Bit(Bit(b))));
    BitIsInjective(Bit(Bit(a)), Bit(Bit(b)));
    BitIsInjective(Bit(a), Bit(b));
    BitIsInjective(a, b);
  }

  lemma XorCancels(c: bv32, d: bv32, x: bv32)
    requires c ^ x == d ^ x
    ensures c == d
  {
    assert (c ^ x) ^ x == c && (d ^ x) ^ x == d;
  }

  lemma XorTells(c: bv32, x: bv32, y: bv32)
    requires c ^ x == c ^ y
    ensures x == y
  {
    assert (c ^ x) ^ c == x && (c ^ y) ^ c == y;
  }

  lemma OfBitsTells(a0: bool, a1: bool, a2: bool, a3: bool, a4: bool, a5: bool, a6: bool, a7: bool,
                    b0: bool, b1: bool, b2: bool, b3: bool, b4: bool, b5: bool, b6: bool, b7: bool)
    requires OfBits(a0, a1, a2, a3, a4, a5, a6, a7) == OfBits(b0, b1, b2, b3, b4, b5, b6, b7)
    ensures a0 == b0 && a1 == b1 && a2 == b2 && a3 == b3 && a4 == b4 && a5 == b5 && a6 == b6 && a7 == b7
  {
  }

  lemma NarrowTells(x: byte, y: byte)
    requires Narrow(x) == Narrow(y)
    ensures x == y
  {
    hide OfBits;
    OfBitsTells(x % 2 == 1, x / 2 % 2 == 1, x / 4 % 2 == 1, x / 8 % 2 == 1,
                x / 16 % 2 == 1, x / 32 % 2 == 1, x / 64 % 2 == 1, x / 128 == 1,
                y % 2 == 1, y / 2 % 2 == 1, y / 4 % 2 == 1, y / 8 % 2 == 1,
                y / 16 % 2 == 1, y / 32 % 2 == 1, y / 64 % 2 == 1, y / 128 == 1);
    BitsTell(x, y);
  }

  lemma BitsTell(x: int, y: int)
    requires 0 <= x < 256 && 0 <= y < 256
    requires x % 2 == y % 2 && x / 2 % 2 == y / 2 % 2 && x / 4 % 2 == y / 4 % 2 && x / 8 % 2 == y / 8 % 2
    requires x / 16 % 2 == y / 16 % 2 && x / 32 % 2 == y / 32 % 2 && x / 64 % 2 == y / 64 % 2 && x / 128 == y / 128
    ensures x == y
  {
    Halves(x);
    Halves(y);
  }

  lemma Halves(x: int)
    requires 0 <= x < 256
    ensures x == x % 2 + 2 * (x / 2 % 2) + 4 * (x / 4 % 2) + 8 * (x / 8 % 2)
                 + 16 * (x / 16 % 2) + 32 * (x / 32 % 2) + 64 * (x / 64 % 2) + 128 * (x / 128)
  {
    assert x / 64 == 2 * (x / 128) + x / 64 % 2;
    assert x / 32 == 2 * (x / 64) + x / 32 % 2;
    assert x / 16 == 2 * (x / 32) + x / 16 % 2;
    assert x / 8 == 2 * (x / 16) + x / 8 % 2;
    assert x / 4 == 2 * (x / 8) + x / 4 % 2;
    assert x / 2 == 2 * (x / 4) + x / 2 % 2;
  }

  lemma WidenTells(a: bv8, b: bv8)
    requires a as bv32 == b as bv32
    ensures a == b
  {
  }

  lemma WideTells(x: byte, y: byte)
    requires Wide(x) == Wide(y)
    ensures x == y
  {
    hide Narrow;
    WidenTells(Narrow(x), Narrow(y));
    NarrowTells(x, y);
  }

  lemma StepIsInjective(c: bv32, d: bv32, w: bv32)
    requires Eight(Mix(c, w)) == Eight(Mix(d, w))
    ensures c == d
  {
    hide Eight;
    EightIsInjective(Mix(c, w), Mix(d, w));
    XorCancels(c, d, w);
  }

  lemma StepTellsBytes(c: bv32, v: bv32, w: bv32)
    requires Eight(Mix(c, v)) == Eight(Mix(c, w))
    ensures v == w
  {
    hide Eight;
    EightIsInjective(Mix(c, v), Mix(c, w));
    XorTells(c, v, w);
  }

  /** Two texts that differ in one byte have different checksums. */
  lemma {:induction false} RunTells(c: bv32, s: seq<byte>, t: seq<byte>, i: nat)
    requires |s| == |t| && i < |s| && s[i] != t[i]
    requires forall j :: 0 <= j < |s| && j != i ==> s[j] == t[j]
    ensures Run(c, s) != Run(c, t)
  {
    hide Eight, Wide, Mix;
    var n := |s| - 1;
    var a, b := Run(c, s[..n]), Run(c, t[..n]);
    if i == n {
      assert s[..n] == t[..n];
      if Run(c, s) == Run(c, t) {
        StepTellsBytes(a, Wide(s[n]), Wide(t[n]));
        WideTells(s[n], t[n]);
      }
    } else {
      RunTells(c, s[..n], t[..n], i);
      assert s[n] == t[n];
      if Run(c, s) == Run(c, t) { StepIsInjective(a, b, Wide(s[n])); }
    }
  }

  lemma OneByteTells(s: seq<byte>, t: seq<byte>, i: nat)
    requires |s| == |t| && i < |s| && s[i] != t[i]
    requires forall j :: 0 <= j < |s| && j != i ==> s[j] == t[j]
    ensures Crc(s) != Crc(t)
  {
    hide Run;
    RunTells(0xffff_ffff, s, t, i);
    ComplementTells(Run(0xffff_ffff, s), Run(0xffff_ffff, t));
  }

  lemma ComplementTells(a: bv32, b: bv32)
    requires a != b
    ensures (!a) as int != (!b) as int
  {
    NotTells(a, b);
    assert ((!a) as int) as bv32 == !a && ((!b) as int) as bv32 == !b;
  }

  lemma NotTells(a: bv32, b: bv32)
    requires a != b
    ensures !a != !b
  {
  }
}
