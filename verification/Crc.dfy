/** The CRC24 that protects frame headers.
    The register is modelled as a natural number; `Crc24InRange` shows it never leaves 24
    bits, so the i32 arithmetic of the source cannot overflow. */
module Crc {
  import opened Bits
  import opened Bytes
  import opened Polynomials

  const CRC24_POLY: nat := 0x1974f0b
  const CRC24_INIT: nat := 0x875060
  /** Bits per byte absorbed, and bytes per checksum. */
  const CRC24_ROUNDS: nat := 8
  const CRC24_LENGTH: nat := 3

  /** One round of the inner loop: shift left, and reduce when bit 24 comes up. */
  function Shift(crc: nat): nat {
    var shifted := Shl(crc, 1);
    if And(shifted, 0x100_0000) != 0 then Xor(shifted, CRC24_POLY) else shifted
  }

  function Shifts(crc: nat, n: nat): nat {
    if n == 0 then crc else Shift(Shifts(crc, n - 1))
  }

  /** One step of the fold over the input. */
  function Absorb(crc: nat, b: byte): nat {
    Shifts(Xor(crc, Shl(b, 16)), CRC24_ROUNDS)
  }

  function Fold(crc: nat, s: bytes): nat
    decreases |s|
  {
    if s == [] then crc else Fold(Absorb(crc, s[0]), s[1..])
  }

  function Crc24(s: bytes): nat { Fold(CRC24_INIT, s) }

  method ComputeCrc24(s: bytes) returns (crc: nat)
    ensures crc == Crc24(s) && crc < 0x100_0000
    ensures IsRemainder(Xor(Shl(0x875060, 8 * |s|), Shl(FromBigEndian(s), 24)), 0x1974f0b, crc, 24)
  {
    crc := CRC24_INIT;
    for i := 0 to |s|
      invariant Fold(crc, s[i..]) == Crc24(s)
      invariant crc < 0x100_0000
    {
      ghost var before := crc;
      assert s[i..][1..] == s[i + 1..];
      crc := Xor(crc, Shl(s[i], 16));
      ghost var mixed := crc;
      for k := 0 to CRC24_ROUNDS
        invariant crc == Shifts(mixed, k)
      {
        crc := Shl(crc, 1);
        if And(crc, 0x100_0000) != 0 {
          crc := Xor(crc, CRC24_POLY);
        }
      }
      AbsorbInRange(before, s[i]);
    }
    Crc24IsRemainder(s, crc);
  }

  lemma ShiftInRange(crc: nat)
    requires crc < 0x100_0000
    ensures Shift(crc) < 0x100_0000
    ensures Shift(crc) == if 2 * crc >= 0x100_0000 then Xor(2 * crc, CRC24_POLY) else 2 * crc
  {
    hide And, Xor, Pow2, Shl;
    ShlOne(crc);
    Pow2Literals();
    Pow2Double(25);
    AndBit(2 * crc, 24);
    if 2 * crc >= 0x100_0000 {
      XorTopCancels(2 * crc, CRC24_POLY, 24);
    }
  }

  lemma ShlOne(crc: nat)
    ensures Shl(crc, 1) == 2 * crc
  {
    assert Pow2(1) == 2;
  }

  lemma ShiftsInRange(crc: nat, n: nat)
    requires crc < 0x100_0000
    ensures Shifts(crc, n) < 0x100_0000
  {
    if n > 0 {
      ShiftsInRange(crc, n - 1);
      ShiftInRange(Shifts(crc, n - 1));
    }
  }

  lemma MixInRange(crc: nat, b: byte)
    requires crc < 0x100_0000
    ensures Xor(crc, Shl(b, 16)) < 0x100_0000
  {
    hide Xor, Pow2;
    Pow2Literals();
    XorBound(crc, Shl(b, 16), 24);
  }

  lemma AbsorbInRange(crc: nat, b: byte)
    requires crc < 0x100_0000
    ensures Absorb(crc, b) < 0x100_0000
  {
    MixInRange(crc, b);
    ShiftsInRange(Xor(crc, Shl(b, 16)), CRC24_ROUNDS);
  }

  lemma {:induction false} FoldInRange(crc: nat, s: bytes)
    requires crc < 0x100_0000
    ensures Fold(crc, s) < 0x100_0000
    decreases |s|
  {
    if s != [] {
      AbsorbInRange(crc, s[0]);
      FoldInRange(Absorb(crc, s[0]), s[1..]);
    }
  }

  /** The checksum always fits the three header bytes reserved for it. */
  lemma Crc24InRange(s: bytes)
    ensures Crc24(s) < 0x100_0000
  {
    FoldInRange(CRC24_INIT, s);
  }

  /** A round loses no information: the polynomial is odd, so the low bit of the result
      tells whether the reduction happened. */
  lemma ShiftInjective(a: nat, b: nat)
    requires a < 0x100_0000 && b < 0x100_0000 && Shift(a) == Shift(b)
    ensures a == b
  {
    hide Xor, Shift;
    ShiftInRange(a);
    ShiftInRange(b);
    XorParity(2 * a, CRC24_POLY);
    XorParity(2 * b, CRC24_POLY);
    if 2 * a >= 0x100_0000 {
      XorInjective(2 * a, 2 * b, CRC24_POLY);
    }
  }

  lemma ShiftsInjective(a: nat, b: nat, n: nat)
    requires a < 0x100_0000 && b < 0x100_0000 && Shifts(a, n) == Shifts(b, n)
    ensures a == b
  {
    if n > 0 {
      ShiftsInRange(a, n - 1);
      ShiftsInRange(b, n - 1);
      ShiftInjective(Shifts(a, n - 1), Shifts(b, n - 1));
      ShiftsInjective(a, b, n - 1);
    }
  }

  lemma AbsorbMixes(a: nat, x: byte, b: nat, y: byte)
    requires a < 0x100_0000 && b < 0x100_0000 && Absorb(a, x) == Absorb(b, y)
    ensures Xor(a, Shl(x, 16)) == Xor(b, Shl(y, 16))
  {
    MixInRange(a, x);
    MixInRange(b, y);
    ShiftsInjective(Xor(a, Shl(x, 16)), Xor(b, Shl(y, 16)), CRC24_ROUNDS);
  }

  lemma MixInjective(a: nat, x: byte, y: byte)
    requires Xor(a, Shl(x, 16)) == Xor(a, Shl(y, 16))
    ensures x == y
  {
    hide Xor, Pow2;
    XorCommutes(a, Shl(x, 16));
    XorCommutes(a, Shl(y, 16));
    XorInjective(Shl(x, 16), Shl(y, 16), a);
    Pow2Literals();
  }

  /** Absorbing one byte is injective in the register, and in the byte. */
  lemma AbsorbInjective(a: nat, x: byte, b: nat, y: byte)
    requires a < 0x100_0000 && b < 0x100_0000 && Absorb(a, x) == Absorb(b, y)
    requires a == b || x == y
    ensures a == b && x == y
  {
    hide Absorb, Xor;
    AbsorbMixes(a, x, b, y);
    if x == y {
      XorInjective(a, b, Shl(x, 16));
    } else {
      MixInjective(a, x, y);
    }
  }

  lemma {:induction false} FoldInjective(a: nat, b: nat, s: bytes)
    requires a < 0x100_0000 && b < 0x100_0000 && Fold(a, s) == Fold(b, s)
    ensures a == b
    decreases |s|
  {
    if s != [] {
      hide Absorb;
      AbsorbInRange(a, s[0]);
      AbsorbInRange(b, s[0]);
      FoldInjective(Absorb(a, s[0]), Absorb(b, s[0]), s[1..]);
      AbsorbInjective(a, s[0], b, s[0]);
    }
  }

  /** Changing exactly one byte of the input always changes the checksum. */
  lemma {:induction false} FoldDetectsOneByte(crc: nat, s: bytes, i: nat, b: byte)
    requires crc < 0x100_0000 && i < |s| && b != s[i]
    ensures Fold(crc, s[i := b]) != Fold(crc, s)
    decreases |s|
  {
    hide Absorb;
    var t := s[i := b];
    AbsorbInRange(crc, s[0]);
    AbsorbInRange(crc, t[0]);
    if i == 0 {
      assert t[1..] == s[1..];
      if Fold(crc, t) == Fold(crc, s) {
        FoldInjective(Absorb(crc, t[0]), Absorb(crc, s[0]), s[1..]);
        AbsorbInjective(crc, t[0], crc, s[0]);
      }
    } else {
      assert t[1..] == s[1..][i - 1 := b];
      FoldDetectsOneByte(Absorb(crc, s[0]), s[1..], i - 1, b);
    }
  }

  lemma Crc24DetectsOneByte(s: bytes, i: nat, b: byte)
    requires i < |s| && b != s[i]
    ensures Crc24(s[i := b]) != Crc24(s)
  {
    FoldDetectsOneByte(CRC24_INIT, s, i, b);
  }

  //
  // What the checksum is
  //

  lemma ShiftCongruent(crc: nat)
    requires crc < 0x100_0000
    ensures Congruent(Shl(crc, 1), Shift(crc), CRC24_POLY)
  {
    hide Xor, Times, Shift;
    ShlOne(crc);
    ShiftInRange(crc);
    var p := CRC24_POLY;
    if 2 * crc >= 0x100_0000 {
      XorAssoc(2 * crc, 2 * crc, p);
      XorSelf(2 * crc);
      XorSelf(p);
      TimesOne(p);
      assert Xor(2 * crc, Shift(crc)) == Times(1, p);
    } else {
      CongruentSelf(2 * crc, p);
    }
  }

  lemma {:induction false} ShiftsCongruent(crc: nat, n: nat)
    requires crc < 0x100_0000
    ensures Congruent(Shl(crc, n), Shifts(crc, n), CRC24_POLY)
  {
    hide Xor, Times, Shift, Congruent, Shl;
    if n == 0 {
      ShlNothing(crc);
      CongruentSelf(crc, CRC24_POLY);
    } else {
      var before := Shifts(crc, n - 1);
      ShiftsInRange(crc, n - 1);
      ShiftsCongruent(crc, n - 1);
      CongruentScaled(Shl(crc, n - 1), before, 1, CRC24_POLY);
      ShlAdd(crc, n - 1, 1);
      ShiftCongruent(before);
      CongruentTrans(Shl(crc, n), Shl(before, 1), Shift(before), CRC24_POLY);
    }
  }

  lemma AbsorbCongruent(crc: nat, b: byte)
    requires crc < 0x100_0000
    ensures Congruent(Xor(Shl(crc, 8), Shl(b, 24)), Absorb(crc, b), CRC24_POLY)
  {
    hide Xor, Times, Shifts, Congruent, Shl;
    MixInRange(crc, b);
    ShiftsCongruent(Xor(crc, Shl(b, 16)), CRC24_ROUNDS);
    XorScaled(crc, Shl(b, 16), 8);
    ShlAdd(b, 16, 8);
  }

  lemma {:induction false} FoldSnoc(crc: nat, s: bytes, b: byte)
    ensures Fold(crc, s + [b]) == Absorb(Fold(crc, s), b)
    decreases |s|
  {
    hide Absorb;
    if s == [] {
      assert (s + [b])[1..] == [];
    } else {
      assert (s + [b])[1..] == s[1..] + [b];
      FoldSnoc(Absorb(crc, s[0]), s[1..], b);
    }
  }

  /** The register started with `crc`, followed by the message, with 24 zero bits appended. */
  function Dividend(crc: nat, s: bytes): nat { Xor(Shl(crc, 8 * |s|), Shl(FromBigEndian(s), 24)) }

  lemma DividendSnoc(crc: nat, s: bytes, b: byte)
    ensures Dividend(crc, s + [b]) == Xor(Shl(Dividend(crc, s), 8), Shl(b, 24))
  {
    hide Xor, Shl;
    var m := FromBigEndian(s);
    assert (s + [b])[..|s|] == s;
    assert FromBigEndian(s + [b]) == 256 * m + b;
    assert 8 * |s + [b]| == 8 * |s| + 8;
    XorScaled(Shl(crc, 8 * |s|), Shl(m, 24), 8);
    ShlAdd(crc, 8 * |s|, 8);
    ShlAdd(m, 24, 8);
    ShlAdd(m, 8, 24);
    XorScaled(Shl(m, 8), b, 24);
    ByteBelow(m, b);
    XorAssoc(Shl(crc, 8 * |s| + 8), Shl(m, 32), Shl(b, 24));
  }

  lemma ByteBelow(m: nat, b: byte)
    ensures Xor(Shl(m, 8), b) == 256 * m + b
  {
    hide Xor, Pow2;
    Pow2Literals();
    var v := 256 * m;
    XorHigh(v, b, 8);
    XorLow(v, b, 8);
    XorNeutral(m);
    XorNeutral(b);
    DivModUnique(v, 256, m, 0);
    DivModUnique(b, 256, 0, b);
    assert Xor(v, b) == Xor(v, b) / 256 * 256 + Xor(v, b) % 256;
  }

  lemma {:induction false} FoldCongruent(crc: nat, s: bytes)
    requires crc < 0x100_0000
    ensures Congruent(Dividend(crc, s), Fold(crc, s), CRC24_POLY)
    decreases |s|
  {
    hide Xor, Times, Absorb, Congruent, Shl, Dividend;
    if s == [] {
      NothingDivided(crc);
      CongruentSelf(crc, CRC24_POLY);
    } else {
      var front, b := s[..|s| - 1], s[|s| - 1];
      assert s == front + [b];
      FoldCongruent(crc, front);
      FoldInRange(crc, front);
      FoldSnoc(crc, front, b);
      DividendSnoc(crc, front, b);
      var before := Fold(crc, front);
      CongruentScaled(Dividend(crc, front), before, 8, CRC24_POLY);
      CongruentSum(Shl(Dividend(crc, front), 8), Shl(before, 8), Shl(b, 24), CRC24_POLY);
      AbsorbCongruent(before, b);
      CongruentTrans(Dividend(crc, s), Xor(Shl(before, 8), Shl(b, 24)), Fold(crc, s), CRC24_POLY);
    }
  }

  lemma NothingDivided(crc: nat)
    ensures Dividend(crc, []) == crc
  {
    ShlNothing(crc);
    XorSelf(crc);
  }

  /** The checksum is the remainder of a polynomial division: the start value 0x875060 in front
      of the message and 24 zero bits behind it, divided by the polynomial 0x1974f0b. There is
      only one such remainder. */
  lemma Crc24IsRemainder(s: bytes, r: nat)
    ensures IsRemainder(Xor(Shl(0x875060, 8 * |s|), Shl(FromBigEndian(s), 24)), 0x1974f0b, r, 24) <==> r == Crc24(s)
  {
    hide Xor, Times, Fold, Congruent, Shl, Pow2, FromBigEndian;
    Pow2Literals();
    FoldCongruent(CRC24_INIT, s);
    FoldInRange(CRC24_INIT, s);
    if IsRemainder(Dividend(CRC24_INIT, s), 0x1974f0b, r, 24) {
      RemainderUnique(Dividend(CRC24_INIT, s), 0x1974f0b, 24, r, Crc24(s));
    }
  }
}
