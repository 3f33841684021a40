/**
 * The checksum is the CRC-32 of polynomial division: the complement of the
 * remainder of the message, after 32 more bits and with its first 32 bits
 * complemented, by the generator polynomial.  Polynomials have their
 * coefficients in 0 and 1 and are read from the highest power down.
 */
module CrcPolynomial {
  import opened Bytes
  import opened Crc32

  /** The powers in the generator polynomial of CRC-32. */
  predicate Power(e: int) {
    e == 32 || e == 26 || e == 23 || e == 22 || e == 16 || e == 12 || e == 11 || e == 10
    || e == 8 || e == 7 || e == 5 || e == 4 || e == 2 || e == 1 || e == 0
  }

  /** Its coefficients, from the highest power down. */
  predicate Generator(j: int) {
    Power(32 - j)
  }

  /** Coefficient `k` of the product of `q` and the generator. */
  predicate Product(q: seq<bool>, k: int) {
    q != [] && Product(q[..|q| - 1], k) != (q[|q| - 1] && Generator(k - (|q| - 1)))
  }

  function Half(c: bv32): bv32 { c >> 1 }

  predicate Low(c: bv32) { c & 1 == 1 }

  /** Bit `j` of the register, lowest first: the coefficient of power `31 - j`. */
  predicate RegisterBit(c: bv32, j: int)
    decreases j
  {
    if j <= 0 then j == 0 && Low(c) else RegisterBit(Half(c), j - 1)
  }

  function TwoTo(j: int): int {
    if j == 0 then 1 else if j == 1 then 2 else if j == 2 then 4 else if j == 3 then 8
    else if j == 4 then 16 else if j == 5 then 32 else if j == 6 then 64 else 128
  }

  /** Bit `j` of a byte, lowest first. */
  predicate ByteBit(b: byte, j: int) {
    b / TwoTo(j) % 2 == 1
  }

  /** Bit `k` of the message: every byte from its lowest bit up. */
  predicate MessageBit(s: seq<byte>, k: int) {
    0 <= k < 8 * |s| && ByteBit(s[k / 8], k % 8)
  }

  // ----- the bits of words -----

  lemma Read(c: bv32, j: int)
    ensures RegisterBit(c, j) == if j <= 0 then j == 0 && Low(c) else RegisterBit(Half(c), j - 1)
  {
    hide Half, Low;
  }

  lemma HalvingNothing()
    ensures Half(0) == 0 && !Low(0)
  {
  }

  lemma {:induction false} NoBits(j: int)
    ensures !RegisterBit(0, j)
    decreases j
  {
    hide Half, Low;
    HalvingNothing();
    if j > 0 { NoBits(j - 1); }
  }

  lemma HalvingsPolynomial()
    ensures Half(0xedb88320) == 0x76dc4190 && !Low(0xedb88320) && Half(0x76dc4190) == 0x3b6e20c8 && !Low(0x76dc4190)
    ensures Half(0x3b6e20c8) == 0x1db71064 && !Low(0x3b6e20c8) && Half(0x1db71064) == 0xedb8832 && !Low(0x1db71064)
    ensures Half(0xedb8832) == 0x76dc419 && !Low(0xedb8832) && Half(0x76dc419) == 0x3b6e20c && Low(0x76dc419)
    ensures Half(0x3b6e20c) == 0x1db7106 && !Low(0x3b6e20c) && Half(0x1db7106) == 0xedb883 && !Low(0x1db7106)
    ensures Half(0xedb883) == 0x76dc41 && Low(0xedb883) && Half(0x76dc41) == 0x3b6e20 && Low(0x76dc41)
    ensures Half(0x3b6e20) == 0x1db710 && !Low(0x3b6e20) && Half(0x1db710) == 0xedb88 && !Low(0x1db710)
    ensures Half(0xedb88) == 0x76dc4 && !Low(0xedb88) && Half(0x76dc4) == 0x3b6e2 && !Low(0x76dc4)
    ensures Half(0x3b6e2) == 0x1db71 && !Low(0x3b6e2) && Half(0x1db71) == 0xedb8 && Low(0x1db71)
    ensures Half(0xedb8) == 0x76dc && !Low(0xedb8) && Half(0x76dc) == 0x3b6e && !Low(0x76dc)
    ensures Half(0x3b6e) == 0x1db7 && !Low(0x3b6e) && Half(0x1db7) == 0xedb && Low(0x1db7)
    ensures Half(0xedb) == 0x76d && Low(0xedb) && Half(0x76d) == 0x3b6 && Low(0x76d)
    ensures Half(0x3b6) == 0x1db && !Low(0x3b6) && Half(0x1db) == 0xed && Low(0x1db)
    ensures Half(0xed) == 0x76 && Low(0xed) && Half(0x76) == 0x3b && !Low(0x76)
    ensures Half(0x3b) == 0x1d && Low(0x3b) && Half(0x1d) == 0xe && Low(0x1d)
    ensures Half(0xe) == 0x7 && !Low(0xe) && Half(0x7) == 0x3 && Low(0x7)
    ensures Half(0x3) == 0x1 && Low(0x3) && Half(0x1) == 0x0 && Low(0x1)
  {
  }

  /** The constant holds the generator below its highest power. */
  lemma PolynomialBits(j: int)
    ensures RegisterBit(0xedb88320, j) == (j >= 0 && Generator(j + 1))
  {
    hide Half, Low, RegisterBit;
    HalvingsPolynomial();
    Read(0xedb88320, j - 0); Read(0x76dc4190, j - 1); Read(0x3b6e20c8, j - 2); Read(0x1db71064, j - 3);
    Read(0xedb8832, j - 4); Read(0x76dc419, j - 5); Read(0x3b6e20c, j - 6); Read(0x1db7106, j - 7);
    Read(0xedb883, j - 8); Read(0x76dc41, j - 9); Read(0x3b6e20, j - 10); Read(0x1db710, j - 11);
    Read(0xedb88, j - 12); Read(0x76dc4, j - 13); Read(0x3b6e2, j - 14); Read(0x1db71, j - 15);
    Read(0xedb8, j - 16); Read(0x76dc, j - 17); Read(0x3b6e, j - 18); Read(0x1db7, j - 19);
    Read(0xedb, j - 20); Read(0x76d, j - 21); Read(0x3b6, j - 22); Read(0x1db, j - 23);
    Read(0xed, j - 24); Read(0x76, j - 25); Read(0x3b, j - 26); Read(0x1d, j - 27);
    Read(0xe, j - 28); Read(0x7, j - 29); Read(0x3, j - 30); Read(0x1, j - 31);
    NoBits(j - 32);
  }

  lemma HalvingsOnes()
    ensures Half(0xffffffff) == 0x7fffffff && Low(0xffffffff) && Half(0x7fffffff) == 0x3fffffff && Low(0x7fffffff)
    ensures Half(0x3fffffff) == 0x1fffffff && Low(0x3fffffff) && Half(0x1fffffff) == 0xfffffff && Low(0x1fffffff)
    ensures Half(0xfffffff) == 0x7ffffff && Low(0xfffffff) && Half(0x7ffffff) == 0x3ffffff && Low(0x7ffffff)
    ensures Half(0x3ffffff) == 0x1ffffff && Low(0x3ffffff) && Half(0x1ffffff) == 0xffffff && Low(0x1ffffff)
    ensures Half(0xffffff) == 0x7fffff && Low(0xffffff) && Half(0x7fffff) == 0x3fffff && Low(0x7fffff)
    ensures Half(0x3fffff) == 0x1fffff && Low(0x3fffff) && Half(0x1fffff) == 0xfffff && Low(0x1fffff)
    ensures Half(0xfffff) == 0x7ffff && Low(0xfffff) && Half(0x7ffff) == 0x3ffff && Low(0x7ffff)
    ensures Half(0x3ffff) == 0x1ffff && Low(0x3ffff) && Half(0x1ffff) == 0xffff && Low(0x1ffff)
    ensures Half(0xffff) == 0x7fff && Low(0xffff) && Half(0x7fff) == 0x3fff && Low(0x7fff)
    ensures Half(0x3fff) == 0x1fff && Low(0x3fff) && Half(0x1fff) == 0xfff && Low(0x1fff)
    ensures Half(0xfff) == 0x7ff && Low(0xfff) && Half(0x7ff) == 0x3ff && Low(0x7ff)
    ensures Half(0x3ff) == 0x1ff && Low(0x3ff) && Half(0x1ff) == 0xff && Low(0x1ff)
    ensures Half(0xff) == 0x7f && Low(0xff) && Half(0x7f) == 0x3f && Low(0x7f)
    ensures Half(0x3f) == 0x1f && Low(0x3f) && Half(0x1f) == 0xf && Low(0x1f)
    ensures Half(0xf) == 0x7 && Low(0xf) && Half(0x7) == 0x3 && Low(0x7)
    ensures Half(0x3) == 0x1 && Low(0x3) && Half(0x1) == 0x0 && Low(0x1)
  {
  }

  /** The register begins as 32 ones. */
  lemma OnesBits(j: int)
    ensures RegisterBit(0xffffffff, j) == (0 <= j < 32)
  {
    hide Half, Low, RegisterBit;
    HalvingsOnes();
    Read(0xffffffff, j - 0); Read(0x7fffffff, j - 1); Read(0x3fffffff, j - 2); Read(0x1fffffff, j - 3);
    Read(0xfffffff, j - 4); Read(0x7ffffff, j - 5); Read(0x3ffffff, j - 6); Read(0x1ffffff, j - 7);
    Read(0xffffff, j - 8); Read(0x7fffff, j - 9); Read(0x3fffff, j - 10); Read(0x1fffff, j - 11);
    Read(0xfffff, j - 12); Read(0x7ffff, j - 13); Read(0x3ffff, j - 14); Read(0x1ffff, j - 15);
    Read(0xffff, j - 16); Read(0x7fff, j - 17); Read(0x3fff, j - 18); Read(0x1fff, j - 19);
    Read(0xfff, j - 20); Read(0x7ff, j - 21); Read(0x3ff, j - 22); Read(0x1ff, j - 23);
    Read(0xff, j - 24); Read(0x7f, j - 25); Read(0x3f, j - 26); Read(0x1f, j - 27);
    Read(0xf, j - 28); Read(0x7, j - 29); Read(0x3, j - 30); Read(0x1, j - 31);
    NoBits(j - 32);
  }

  lemma MixByParts(c: bv32, d: bv32)
    ensures Half(Mix(c, d)) == Mix(Half(c), Half(d)) && Low(Mix(c, d)) == (Low(c) != Low(d))
  {
  }

  lemma {:induction false} BitsOfMix(c: bv32, d: bv32, j: int)
    ensures RegisterBit(Mix(c, d), j) == (RegisterBit(c, j) != RegisterBit(d, j))
    decreases j
  {
    hide Half, Low, Mix;
    MixByParts(c, d);
    if j > 0 { BitsOfMix(Half(c), Half(d), j - 1); }
  }

  // ----- one bit of the message -----

  function Word(b: bool): bv32 { if b then 1 else 0 }

  lemma HalvingWord(b: bool)
    ensures Half(Word(b)) == 0 && Low(Word(b)) == b
  {
  }

  lemma BitsOfWord(b: bool, j: int)
    ensures RegisterBit(Word(b), j) == (b && j == 0)
  {
    hide Half, Low, Word;
    HalvingWord(b);
    NoBits(j - 1);
  }

  /** The register after one more message bit. */
  function BitIn(c: bv32, b: bool): bv32 {
    Bit(Mix(c, Word(b)))
  }

  /** The bit that leaves the register then. */
  predicate Top(c: bv32, b: bool) {
    RegisterBit(c, 0) != b
  }

  lemma TurnByParts(c: bv32)
    ensures Bit(c) == Mix(Half(c), if Low(c) then 0xedb88320 else 0)
  {
    if Low(c) { assert c & 1 == 1; } else { assert c & 1 == 0; }
  }

  lemma Shifted(c: bv32, b: bool, j: int)
    ensures RegisterBit(BitIn(c, b), j) == (j >= 0 && RegisterBit(c, j + 1) != (Top(c, b) && Generator(j + 1)))
  {
    hide Half, Low, Bit, Mix, Word, Power, RegisterBit;
    var d := Mix(c, Word(b));
    TurnByParts(d);
    BitsOfMix(Half(d), if Low(d) then 0xedb88320 else 0, j);
    PolynomialBits(j);
    NoBits(j);
    Read(d, j + 1);
    Read(d, 0);
    Read(BitIn(c, b), j);
    BitsOfMix(c, Word(b), 0);
    BitsOfMix(c, Word(b), j + 1);
    BitsOfWord(b, 0);
    BitsOfWord(b, j + 1);
  }

  /**
   * The message bits `m`, 32 zeroes behind them and 32 ones added in front, are
   * `q` times the generator plus the register.
   */
  ghost predicate Divided(m: seq<bool>, q: seq<bool>, c: bv32) {
    && |q| == |m|
    && (forall j :: j >= 32 ==> !RegisterBit(c, j))
    && forall k: nat :: Product(q, k) == (((k < |m| && m[k]) != (k < 32)) != RegisterBit(c, k - |m|))
  }

  lemma NothingYet()
    ensures Divided([], [], 0xffff_ffff)
  {
    hide RegisterBit;
    forall j: int ensures RegisterBit(0xffff_ffff, j) == (0 <= j < 32) {
      OnesBits(j);
    }
  }

  lemma ProductOfMore(q: seq<bool>, b: bool, k: int)
    ensures Product(q + [b], k) == (Product(q, k) != (b && Generator(k - |q|)))
  {
    hide Power;
    assert (q + [b])[..|q|] == q;
  }

  /** One step of the division. */
  lemma DividedOn(m: seq<bool>, q: seq<bool>, c: bv32, b: bool)
    requires Divided(m, q, c)
    ensures Divided(m + [b], q + [Top(c, b)], BitIn(c, b))
  {
    hide BitIn, RegisterBit, Power, Product, Half, Low;
    var n, top := |m|, Top(c, b);
    forall j | j >= 32 ensures !RegisterBit(BitIn(c, b), j) {
      Shifted(c, b, j);
      GeneratorEnds(j + 1);
    }
    forall k: nat
      ensures Product(q + [top], k) == (((k < n + 1 && (m + [b])[k]) != (k < 32)) != RegisterBit(BitIn(c, b), k - (n + 1)))
    {
      assert Product(q, k) == (((k < n && m[k]) != (k < 32)) != RegisterBit(c, k - n));
      ProductOfMore(q, top, k);
      Shifted(c, b, k - (n + 1));
      Read(c, k - n);
      GeneratorEnds(k - n);
    }
  }

  lemma GeneratorEnds(j: int)
    ensures (j < 0 || j > 32 ==> !Generator(j)) && Generator(0)
  {
  }

  // ----- bytes -----

  function ByteBits(b: byte): (r: seq<bool>)
    ensures |r| == 8
  {
    [ByteBit(b, 0), ByteBit(b, 1), ByteBit(b, 2), ByteBit(b, 3), ByteBit(b, 4), ByteBit(b, 5), ByteBit(b, 6), ByteBit(b, 7)]
  }

  lemma ByteBitsAre(b: byte, j: nat)
    requires j < 8
    ensures ByteBits(b)[j] == ByteBit(b, j)
  {
    hide ByteBit;
  }

  function BitsOf(s: seq<byte>): (m: seq<bool>)
    ensures |m| == 8 * |s|
  {
    if s == [] then [] else BitsOf(s[..|s| - 1]) + ByteBits(s[|s| - 1])
  }

  lemma {:induction false} BitsAre(s: seq<byte>, k: nat)
    requires k < 8 * |s|
    ensures BitsOf(s)[k] == MessageBit(s, k)
  {
    hide ByteBits, ByteBit;
    var n := |s| - 1;
    if k < 8 * n {
      BitsAre(s[..n], k);
    } else {
      var j := k - 8 * n;
      assert k / 8 == n && k % 8 == j;
      ByteBitsAre(s[n], j);
    }
  }

  /** The register after several message bits. */
  function In(c: bv32, r: seq<bool>): bv32
    decreases |r|
  {
    if r == [] then c else In(BitIn(c, r[0]), r[1..])
  }

  /** A turn takes in the lowest bit and leaves the others for later. */
  lemma OneTurn(c: bv32, w: bv32)
    ensures Bit(Mix(c, w)) == Mix(BitIn(c, Low(w)), Half(w))
  {
    hide Half, Low, Bit, Mix, Word;
    var d, e := Mix(c, w), Mix(c, Word(Low(w)));
    TurnByParts(d);
    TurnByParts(e);
    MixByParts(c, w);
    MixByParts(c, Word(Low(w)));
    HalvingWord(Low(w));
    MixNothing(Half(c));
    MixSwaps(Half(c), Half(w), if Low(d) then 0xedb88320 else 0);
  }

  lemma MixNothing(c: bv32)
    ensures Mix(c, 0) == c
  {
  }

  lemma MixSwaps(x: bv32, y: bv32, k: bv32)
    ensures Mix(Mix(x, y), k) == Mix(Mix(x, k), y)
  {
    hide Mix;
    MixAssociates(x, y, k);
    MixCommutes(y, k);
    MixAssociates(x, k, y);
  }

  lemma MixAssociates(x: bv32, y: bv32, z: bv32)
    ensures Mix(Mix(x, y), z) == Mix(x, Mix(y, z))
  {
  }

  lemma MixCommutes(x: bv32, y: bv32)
    ensures Mix(x, y) == Mix(y, x)
  {
  }

  /** The bits of a word, all of them, are those from `k` on. */
  ghost predicate Spells(w: bv32, r: seq<bool>, k: nat)
    decreases |r| - k
  {
    if k >= |r| then w == 0 else Low(w) == r[k] && Spells(Half(w), r, k + 1)
  }

  lemma {:induction false} TurnFirst(c: bv32, n: nat)
    ensures Turns(Bit(c), n) == Bit(Turns(c, n))
  {
    hide Bit;
    if n > 0 { TurnFirst(c, n - 1); }
  }

  /** Turning a word that was mixed in takes in its bits one by one. */
  lemma {:induction false} TurnsTakeInTheBits(c: bv32, w: bv32, r: seq<bool>, k: nat)
    requires k <= |r| && Spells(w, r, k)
    ensures Turns(Mix(c, w), |r| - k) == In(c, r[k..])
    decreases |r| - k
  {
    hide Half, Low, Bit, BitIn, Mix;
    if k == |r| {
      MixNothing(c);
    } else {
      TurnFirst(Mix(c, w), |r| - k - 1);
      OneTurn(c, w);
      TurnsTakeInTheBits(BitIn(c, r[k]), Half(w), r, k + 1);
      assert r[k..][1..] == r[k + 1..];
    }
  }

  function Widened(b0: bool, b1: bool, b2: bool, b3: bool, b4: bool, b5: bool, b6: bool, b7: bool): bv32 {
    OfBits(b0, b1, b2, b3, b4, b5, b6, b7) as bv32
  }

  lemma ByteByParts(b0: bool, b1: bool, b2: bool, b3: bool, b4: bool, b5: bool, b6: bool, b7: bool)
    ensures var w := Widened(b0, b1, b2, b3, b4, b5, b6, b7);
            Low(w) == b0 && Half(w) == Widened(b1, b2, b3, b4, b5, b6, b7, false)
  {
  }

  lemma EmptyByte()
    ensures Widened(false, false, false, false, false, false, false, false) == 0
  {
  }

  lemma OneBitMore(r: seq<bool>, k: nat, b0: bool, b1: bool, b2: bool, b3: bool, b4: bool, b5: bool, b6: bool, b7: bool)
    requires k < |r| && r[k] == b0 && Spells(Widened(b1, b2, b3, b4, b5, b6, b7, false), r, k + 1)
    ensures Spells(Widened(b0, b1, b2, b3, b4, b5, b6, b7), r, k)
  {
    hide Half, Low, Widened;
    ByteByParts(b0, b1, b2, b3, b4, b5, b6, b7);
  }

  lemma WordSpells(r: seq<bool>)
    requires |r| == 8
    ensures Spells(Widened(r[0], r[1], r[2], r[3], r[4], r[5], r[6], r[7]), r, 0)
  {
    hide Widened, Spells;
    EmptyByte();
    NothingSpells(r);
    OneBitMore(r, 7, r[7], false, false, false, false, false, false, false);
    OneBitMore(r, 6, r[6], r[7], false, false, false, false, false, false);
    OneBitMore(r, 5, r[5], r[6], r[7], false, false, false, false, false);
    OneBitMore(r, 4, r[4], r[5], r[6], r[7], false, false, false, false);
    OneBitMore(r, 3, r[3], r[4], r[5], r[6], r[7], false, false, false);
    OneBitMore(r, 2, r[2], r[3], r[4], r[5], r[6], r[7], false, false);
    OneBitMore(r, 1, r[1], r[2], r[3], r[4], r[5], r[6], r[7], false);
    OneBitMore(r, 0, r[0], r[1], r[2], r[3], r[4], r[5], r[6], r[7]);
  }

  lemma NothingSpells(r: seq<bool>)
    ensures Spells(0, r, |r|)
  {
  }

  lemma WideSpells(b: byte)
    ensures Spells(Wide(b), ByteBits(b), 0)
  {
    hide Spells, Wide, Widened, ByteBit;
    Narrows(b);
    WordSpells(ByteBits(b));
  }

  lemma HighestBit(b: byte)
    ensures ByteBit(b, 7) == (b / 128 == 1)
  {
  }

  lemma Narrows(b: byte)
    ensures Wide(b) == Widened(ByteBit(b, 0), ByteBit(b, 1), ByteBit(b, 2), ByteBit(b, 3),
                               ByteBit(b, 4), ByteBit(b, 5), ByteBit(b, 6), ByteBit(b, 7))
  {
    hide OfBits;
    HighestBit(b);
  }

  lemma StepTakesInTheBits(c: bv32, b: byte)
    ensures Step(c, b) == In(c, ByteBits(b))
  {
    hide Eight, Turns, In, Mix, Wide, ByteBits, Spells;
    WideSpells(b);
    TurnsTakeInTheBits(c, Wide(b), ByteBits(b), 0);
    assert ByteBits(b)[0..] == ByteBits(b);
    TurnsIsEight(Mix(c, Wide(b)));
  }

  lemma {:induction false} DividedBits(m: seq<bool>, q: seq<bool>, c: bv32, r: seq<bool>) returns (t: seq<bool>)
    requires Divided(m, q, c)
    ensures Divided(m + r, t, In(c, r))
    decreases |r|
  {
    hide Divided, BitIn, Top;
    if r == [] {
      t := q;
      assert m + r == m;
    } else {
      DividedOn(m, q, c, r[0]);
      t := DividedBits(m + [r[0]], q + [Top(c, r[0])], BitIn(c, r[0]), r[1..]);
      assert m + [r[0]] + r[1..] == m + r;
    }
  }

  lemma {:induction false} RunDivides(s: seq<byte>) returns (q: seq<bool>)
    ensures Divided(BitsOf(s), q, Run(0xffff_ffff, s))
  {
    hide Divided, Step, In, ByteBits;
    if s == [] {
      NothingYet();
      q := [];
    } else {
      var n := |s| - 1;
      var t := RunDivides(s[..n]);
      q := DividedBits(BitsOf(s[..n]), t, Run(0xffff_ffff, s[..n]), ByteBits(s[n]));
      StepTakesInTheBits(Run(0xffff_ffff, s[..n]), s[n]);
    }
  }

  // ----- the checksum -----

  lemma ComplementIsMix(c: bv32)
    ensures !c == Mix(c, 0xffff_ffff)
  {
  }

  lemma ComplementBit(c: bv32, d: bv32, j: int)
    requires d == !c
    ensures RegisterBit(d, j) == (RegisterBit(c, j) != (0 <= j < 32))
  {
    hide RegisterBit, Mix;
    ComplementIsMix(c);
    BitsOfMix(c, 0xffff_ffff, j);
    OnesBits(j);
  }

  lemma Coefficient(s: seq<byte>, q: seq<bool>, c: bv32, d: bv32, k: nat)
    requires Divided(BitsOf(s), q, c) && d == !c
    ensures Product(q, k) == ((MessageBit(s, k) != (k < 32)) != (8 * |s| <= k < 8 * |s| + 32 && !RegisterBit(d, k - 8 * |s|)))
  {
    hide Product, RegisterBit, BitsOf, ByteBit;
    if k < 8 * |s| {
      BitsAre(s, k);
    }
    Read(c, k - 8 * |s|);
    ComplementBit(c, d, k - 8 * |s|);
  }

  /** Coefficient by coefficient, from the highest power: message plus complemented ones. */
  ghost predicate RemainderOf(s: seq<byte>, q: seq<bool>, d: bv32) {
    forall k: nat :: Product(q, k) ==
      ((MessageBit(s, k) != (k < 32)) != (8 * |s| <= k < 8 * |s| + 32 && !RegisterBit(d, k - 8 * |s|)))
  }

  lemma Coefficients(s: seq<byte>, q: seq<bool>, c: bv32, d: bv32)
    requires Divided(BitsOf(s), q, c) && d == !c
    ensures RemainderOf(s, q, d)
  {
    hide Product, RegisterBit, MessageBit, Divided;
    forall k: nat
      ensures Product(q, k) ==
              ((MessageBit(s, k) != (k < 32)) != (8 * |s| <= k < 8 * |s| + 32 && !RegisterBit(d, k - 8 * |s|)))
    {
      Coefficient(s, q, c, d, k);
    }
  }

  /**
   * There is a quotient `q` for which, power by power, the message (32 powers
   * up, its 32 highest coefficients complemented) is `q` times the generator
   * plus the complement of the checksum: the checksum is the complemented
   * remainder.
   */
  lemma ChecksumIsTheRemainder(s: seq<byte>) returns (q: seq<bool>)
    ensures |q| == 8 * |s| && RemainderOf(s, q, Crc(s) as bv32)
  {
    hide Crc, Run, RemainderOf, Product;
    q := RunDivides(s);
    CrcAsWord(s, Run(0xffff_ffff, s), Crc(s) as bv32);
    Coefficients(s, q, Run(0xffff_ffff, s), Crc(s) as bv32);
  }

  lemma CrcAsWord(s: seq<byte>, c: bv32, d: bv32)
    requires c == Run(0xffff_ffff, s) && d == Crc(s) as bv32
    ensures d == !c
  {
    hide Run;
    ThereAndBack(c);
  }

  lemma ThereAndBack(c: bv32)
    ensures ((!c) as int) as bv32 == !c
  {
  }
}
