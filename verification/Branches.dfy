/**
 * The branches written over vendor code: the ARM `BL` of `branch_instruction`
 * in nightvision.c and the Thumb-2 `B.W` of `initialize` in
 * motion_iva_y28ga.c, against how the processor reads them.
 */
module Branches {
  datatype Code<T> = Placed(code: T) | OutOfReach

  /** A field of `n` values read as two's complement. */
  function Signed(field: int, n: int): (r: int)
    requires n > 0 && 0 <= field < n
  {
    if 2 * field >= n then field - n else field
  }

  // ----- ARM -----

  const BL := 0xeb00_0000

  /** `branch_instruction`; the shift keeps the sign, the mask keeps 24 bits. */
  function ArmCall(site: int, target: int): Code<int> {
    var offset := target - site - 8;
    if offset % 4 != 0 || offset < -33554432 || offset > 33554428 then OutOfReach
    else Placed(BL + offset / 4 % 0x100_0000)
  }

  /** Where the processor goes from `site` on a `BL` word. */
  function ArmTarget(site: int, word: int): int {
    site + 8 + 4 * Signed(word % 0x100_0000, 0x100_0000)
  }

  /** The call placed goes to the target; and none is placed only where no `BL` word would get there. */
  lemma ArmCallReachesItsTarget(site: int, target: int)
    ensures ArmCall(site, target).Placed? ==>
              BL <= ArmCall(site, target).code < BL + 0x100_0000
              && ArmTarget(site, ArmCall(site, target).code) == target
    ensures ArmCall(site, target).OutOfReach? ==>
              forall word :: BL <= word < BL + 0x100_0000 ==> ArmTarget(site, word) != target
  {
    var offset := target - site - 8;
    if ArmCall(site, target).Placed? {
      var q := offset / 4;
      assert offset == 4 * q && -0x80_0000 <= q < 0x80_0000;
      var field := q % 0x100_0000;
      assert field == if q < 0 then q + 0x100_0000 else q;
      assert (BL + field) % 0x100_0000 == field;
    } else {
      forall word | BL <= word < BL + 0x100_0000 ensures ArmTarget(site, word) != target {
        var s := Signed(word % 0x100_0000, 0x100_0000);
        assert -0x80_0000 <= s < 0x80_0000;
        assert (4 * s) % 4 == 0;
      }
    }
  }

  // ----- Thumb-2 -----

  datatype Halves = Halves(first: int, second: int)

  function Xor(a: int, b: int): (r: int)
    requires 0 <= a < 2 && 0 <= b < 2
    ensures 0 <= r < 2
  {
    (a + b) % 2
  }

  /** The two half-words `initialize` writes; the fields do not overlap, so joining them is adding them. */
  function ThumbBranch(site: int, target: int): Code<Halves> {
    var displacement := target - site - 4;
    if displacement % 2 != 0 || displacement < -16777216 || displacement > 16777214 then OutOfReach
    else
      var immediate := displacement % 0x200_0000;
      var s := immediate / 0x100_0000;
      Placed(Halves(
        0xf000 + s * 0x400 + immediate / 0x1000 % 0x400,
        0x9000 + Xor(Xor(1, immediate / 0x80_0000 % 2), s) * 0x2000
               + Xor(Xor(1, immediate / 0x40_0000 % 2), s) * 0x800
               + immediate / 2 % 0x800))
  }

  predicate IsBranch(h: Halves) {
    && 0xf000 <= h.first < 0xf800
    && 0x9000 <= h.second < 0xc000 && h.second / 0x1000 % 2 == 1
  }

  /** Where the processor goes from `site` on a `B.W`: sign, two inverted bits, ten bits and eleven. */
  function ThumbTarget(site: int, h: Halves): int
    requires IsBranch(h)
  {
    var s := h.first / 0x400 % 2;
    var i1 := Xor(1, Xor(h.second / 0x2000 % 2, s));
    var i2 := Xor(1, Xor(h.second / 0x800 % 2, s));
    site + 4 + Signed(Immediate(s, i1, i2, h.first % 0x400, h.second % 0x800), 0x200_0000)
  }

  function Immediate(s: int, i1: int, i2: int, ten: int, eleven: int): (r: int)
    requires 0 <= s < 2 && 0 <= i1 < 2 && 0 <= i2 < 2 && 0 <= ten < 0x400 && 0 <= eleven < 0x800
    ensures 0 <= r < 0x200_0000
  {
    s * 0x100_0000 + i1 * 0x80_0000 + i2 * 0x40_0000 + ten * 0x1000 + eleven * 2
  }

  /** An even 25-bit number is put together from its fields. */
  lemma FieldsOfImmediate(v: int)
    requires 0 <= v < 0x200_0000 && v % 2 == 0
    ensures v == Immediate(v / 0x100_0000, v / 0x80_0000 % 2, v / 0x40_0000 % 2, v / 0x1000 % 0x400, v / 2 % 0x800)
  {
    assert v / 0x80_0000 == 2 * (v / 0x100_0000) + v / 0x80_0000 % 2;
    assert v / 0x40_0000 == 2 * (v / 0x80_0000) + v / 0x40_0000 % 2;
    assert v / 0x1000 == 0x400 * (v / 0x40_0000) + v / 0x1000 % 0x400;
    assert v / 2 == 0x800 * (v / 0x1000) + v / 2 % 0x800;
  }

  lemma FirstHalf(s: int, ten: int)
    requires 0 <= s < 2 && 0 <= ten < 0x400
    ensures var f := 0xf000 + s * 0x400 + ten; f / 0x400 % 2 == s && f % 0x400 == ten && 0xf000 <= f < 0xf800
  {
    assert (0xf000 + s * 0x400 + ten) / 0x400 == 60 + s;
  }

  lemma SecondHalf(j1: int, j2: int, eleven: int)
    requires 0 <= j1 < 2 && 0 <= j2 < 2 && 0 <= eleven < 0x800
    ensures var f := 0x9000 + j1 * 0x2000 + j2 * 0x800 + eleven;
            && f / 0x2000 % 2 == j1 && f / 0x800 % 2 == j2 && f % 0x800 == eleven
            && f / 0x1000 % 2 == 1 && 0x9000 <= f < 0xc000
  {
    var f := 0x9000 + j1 * 0x2000 + j2 * 0x800 + eleven;
    assert f / 0x800 == 18 + 4 * j1 + j2;
    assert f / 0x1000 == 9 + 2 * j1;
    assert f / 0x2000 == 4 + j1;
  }

  lemma XorUndone(i: int, s: int)
    requires 0 <= i < 2 && 0 <= s < 2
    ensures Xor(1, Xor(Xor(Xor(1, i), s), s)) == i
  {
  }

  /** The half-words that hold an immediate make the processor add it, with its sign. */
  lemma BranchOfImmediate(site: int, v: int, h: Halves)
    requires 0 <= v < 0x200_0000 && v % 2 == 0
    requires var s := v / 0x100_0000;
             h == Halves(0xf000 + s * 0x400 + v / 0x1000 % 0x400,
                         0x9000 + Xor(Xor(1, v / 0x80_0000 % 2), s) * 0x2000 + Xor(Xor(1, v / 0x40_0000 % 2), s) * 0x800
                         + v / 2 % 0x800)
    ensures IsBranch(h) && ThumbTarget(site, h) == site + 4 + Signed(v, 0x200_0000)
  {
    hide Immediate, Xor, Signed;
    var s, i1, i2 := v / 0x100_0000, v / 0x80_0000 % 2, v / 0x40_0000 % 2;
    FieldsOfImmediate(v);
    FirstHalf(s, v / 0x1000 % 0x400);
    SecondHalf(Xor(Xor(1, i1), s), Xor(Xor(1, i2), s), v / 2 % 0x800);
    XorUndone(i1, s);
    XorUndone(i2, s);
  }

  /** A displacement in range is the signed reading of its 25 bits. */
  lemma SignedField(d: int)
    requires -0x100_0000 <= d < 0x100_0000
    ensures 0 <= d % 0x200_0000 < 0x200_0000 && Signed(d % 0x200_0000, 0x200_0000) == d
    ensures d % 2 == 0 ==> d % 0x200_0000 % 2 == 0
  {
    assert d % 0x200_0000 == if d < 0 then d + 0x200_0000 else d;
  }

  lemma ImmediateIsEven(s: int, i1: int, i2: int, ten: int, eleven: int)
    requires 0 <= s < 2 && 0 <= i1 < 2 && 0 <= i2 < 2 && 0 <= ten < 0x400 && 0 <= eleven < 0x800
    ensures Immediate(s, i1, i2, ten, eleven) % 2 == 0
  {
    var half := s * 0x80_0000 + i1 * 0x40_0000 + i2 * 0x20_0000 + ten * 0x800 + eleven;
    assert Immediate(s, i1, i2, ten, eleven) == 2 * half;
  }

  lemma NoBranchReaches(site: int, target: int, h: Halves)
    requires ThumbBranch(site, target).OutOfReach? && IsBranch(h)
    ensures ThumbTarget(site, h) != target
  {
    hide Immediate, Xor;
    var s := h.first / 0x400 % 2;
    var i1, i2 := Xor(1, Xor(h.second / 0x2000 % 2, s)), Xor(1, Xor(h.second / 0x800 % 2, s));
    ImmediateIsEven(s, i1, i2, h.first % 0x400, h.second % 0x800);
  }

  /** The branch placed goes to the target; and none is placed only where no `B.W` would get there. */
  lemma ThumbBranchReachesItsTarget(site: int, target: int)
    ensures ThumbBranch(site, target).Placed? ==>
              IsBranch(ThumbBranch(site, target).code)
              && ThumbTarget(site, ThumbBranch(site, target).code) == target
    ensures ThumbBranch(site, target).OutOfReach? ==>
              forall h :: IsBranch(h) ==> ThumbTarget(site, h) != target
  {
    hide Immediate, Xor, ThumbTarget;
    if ThumbBranch(site, target).Placed? {
      var d := target - site - 4;
      SignedField(d);
      BranchOfImmediate(site, d % 0x200_0000, ThumbBranch(site, target).code);
    } else {
      forall h | IsBranch(h) ensures ThumbTarget(site, h) != target {
        NoBranchReaches(site, target, h);
      }
    }
  }
}
