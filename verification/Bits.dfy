/** Bitwise operators on natural numbers, defined bit by bit.
    Frame headers pack several fields into one 64-bit word with shifts and ORs; these
    definitions keep that packing explicit while the rest of the model stays in integer
    arithmetic. The lemmas translate each idiom used by the code (OR of disjoint fields,
    AND with a mask, test of one bit) into arithmetic. */
module Bits {

  function Pow2(k: nat): (r: nat)
    ensures r > 0
  {
    if k == 0 then 1 else 2 * Pow2(k - 1)
  }

  function And(a: nat, b: nat): nat {
    if a == 0 || b == 0 then 0 else 2 * And(a / 2, b / 2) + (a % 2) * (b % 2)
  }

  function Or(a: nat, b: nat): nat {
    if a == 0 then b else if b == 0 then a
    else 2 * Or(a / 2, b / 2) + (if a % 2 == 1 || b % 2 == 1 then 1 else 0)
  }

  function Xor(a: nat, b: nat): nat {
    if a == 0 then b else if b == 0 then a
    else 2 * Xor(a / 2, b / 2) + (a + b) % 2
  }

  function Shl(a: nat, k: nat): nat { a * Pow2(k) }

  function Shr(a: nat, k: nat): nat {
    QuotientNonNegative(a, Pow2(k));
    a / Pow2(k)
  }

  lemma QuotientNonNegative(a: nat, m: nat)
    requires m > 0
    ensures a / m >= 0
  {
  }

  /** The powers of two that appear as literals in the frame format. */
  lemma Pow2Literals()
    ensures Pow2(8) == 0x100 && Pow2(16) == 0x1_0000 && Pow2(17) == 0x2_0000
    ensures Pow2(24) == 0x100_0000 && Pow2(25) == 0x200_0000
    ensures Pow2(34) == 0x4_0000_0000 && Pow2(40) == 0x100_0000_0000
  {
    Pow2Add(8, 8);
    Pow2Add(16, 1);
    Pow2Add(16, 8);
    Pow2Add(24, 1);
    Pow2Add(17, 17);
    Pow2Add(24, 16);
  }

  lemma Pow2Add(j: nat, k: nat)
    ensures Pow2(j + k) == Pow2(j) * Pow2(k)
  {
    if k == 0 {
    } else {
      Pow2Add(j, k - 1);
      assert Pow2(j) * (2 * Pow2(k - 1)) == 2 * (Pow2(j) * Pow2(k - 1));
    }
  }

  /** One more byte of width. */
  lemma Pow2Byte(n: nat)
    requires n > 0
    ensures Pow2(8 * n) == 256 * Pow2(8 * (n - 1))
  {
    Pow2Literals();
    Pow2Add(8, 8 * (n - 1));
  }

  /** Halving commutes with scaling by a positive power of two. */
  lemma HalfOfScaled(b: nat, k: nat)
    requires k > 0
    ensures b * Pow2(k) == 2 * (b * Pow2(k - 1))
    ensures (b * Pow2(k)) / 2 == b * Pow2(k - 1) && (b * Pow2(k)) % 2 == 0
  {
    assert b * (2 * Pow2(k - 1)) == 2 * (b * Pow2(k - 1));
  }

  lemma OrStep(a: nat, b: nat)
    ensures Or(a, b) == 2 * Or(a / 2, b / 2) + (if a % 2 == 1 || b % 2 == 1 then 1 else 0)
  {
  }

  /** OR of two fields that do not overlap is their sum. */
  lemma {:induction false} OrDisjoint(a: nat, b: nat, k: nat)
    requires a < Pow2(k)
    ensures Or(a, b * Pow2(k)) == a + b * Pow2(k)
    decreases k
  {
    if k > 0 {
      HalfOfScaled(b, k);
      if a > 0 && b * Pow2(k) > 0 {
        OrDisjoint(a / 2, b, k - 1);
        OrStep(a, b * Pow2(k));
      }
    }
  }

  lemma AndStep(a: nat, b: nat)
    ensures And(a, b) == 2 * And(a / 2, b / 2) + (a % 2) * (b % 2)
  {
  }

  lemma HalfOdd(m: int)
    ensures (2 * m - 1) / 2 == m - 1 && (2 * m - 1) % 2 == 1
  {
  }

  /** AND with a low mask is the remainder. */
  lemma {:induction false} AndMask(x: nat, k: nat)
    ensures And(x, Pow2(k) - 1) == x % Pow2(k)
    decreases k
  {
    if k > 0 {
      var m := Pow2(k - 1);
      calc {
        And(x, 2 * m - 1);
        { AndStep(x, 2 * m - 1); HalfOdd(m); }
        2 * And(x / 2, m - 1) + x % 2;
        { AndMask(x / 2, k - 1); }
        2 * ((x / 2) % m) + x % 2;
        { ModDouble(x, m); }
        x % (2 * m);
      }
    }
  }

  lemma ModDouble(x: nat, m: nat)
    requires m > 0
    ensures x % (2 * m) == 2 * ((x / 2) % m) + x % 2
  {
    var q := (x / 2) / m;
    var r := 2 * ((x / 2) % m) + x % 2;
    assert x == q * (2 * m) + r by {
      assert x / 2 == q * m + (x / 2) % m;
      assert 2 * (q * m) == q * (2 * m);
    }
    DivModUnique(x, 2 * m, q, r);
  }

  lemma DivModUnique(x: int, m: int, q: int, r: int)
    requires m > 0 && x == q * m + r && 0 <= r < m
    ensures x / m == q && x % m == r
  {
    var q', r' := x / m, x % m;
    assert x == q' * m + r';
    assert (q - q') * m == r' - r;
    MultipleBelow(q - q', m);
  }

  /** The only multiple of `m` strictly between -m and m is zero. */
  lemma MultipleBelow(d: int, m: int)
    requires m > 0 && -m < d * m < m
    ensures d == 0
  {
    if d > 0 {
      AtLeastOnce(d, m);
    } else if d < 0 {
      assert (-d) * m == -(d * m);
      AtLeastOnce(-d, m);
    }
  }

  lemma AtLeastOnce(d: int, m: int)
    requires d > 0 && m > 0
    ensures d * m >= m
  {
    if d > 1 {
      AtLeastOnce(d - 1, m);
      assert d * m == (d - 1) * m + m;
    }
  }

  /** Dividing by a doubled modulus halves first. */
  lemma DivDouble(x: nat, m: nat)
    requires m > 0
    ensures x / (2 * m) == (x / 2) / m
  {
    var q, r := (x / 2) / m, (x / 2) % m;
    assert x / 2 == q * m + r;
    assert 2 * (q * m) == q * (2 * m);
    DivModUnique(x, 2 * m, q, 2 * r + x % 2);
  }

  /** AND with a single bit tests that bit. */
  lemma {:induction false} AndBit(x: nat, k: nat)
    ensures And(x, Pow2(k)) != 0 <==> (x / Pow2(k)) % 2 == 1
    decreases k
  {
    if k == 0 {
      AndStep(x, 1);
      assert Pow2(0) == 1 && x / 1 == x;
    } else {
      var m := Pow2(k - 1);
      AndStep(x, 2 * m);
      assert (2 * m) / 2 == m && (2 * m) % 2 == 0;
      AndBit(x / 2, k - 1);
      DivDouble(x, m);
    }
  }

  /** XOR stays within the width of its operands. */
  lemma {:induction false} XorBound(a: nat, b: nat, k: nat)
    requires a < Pow2(k) && b < Pow2(k)
    ensures Xor(a, b) < Pow2(k)
    decreases k
  {
    if k > 0 && a > 0 && b > 0 {
      XorBound(a / 2, b / 2, k - 1);
    }
  }

  /** XOR of two words with the same top bit clears it. */
  lemma {:induction false} XorTopCancels(a: nat, b: nat, k: nat)
    requires Pow2(k) <= a < Pow2(k + 1) && Pow2(k) <= b < Pow2(k + 1)
    ensures Xor(a, b) < Pow2(k)
    decreases k
  {
    if k > 0 {
      XorTopCancels(a / 2, b / 2, k - 1);
    }
  }

  /** The lowest bit of an XOR. */
  lemma XorParity(a: nat, b: nat)
    ensures Xor(a, b) % 2 == (a + b) % 2
  {
  }

  /** XOR with a fixed word is injective. */
  lemma {:induction false} XorInjective(a: nat, b: nat, c: nat)
    requires Xor(a, c) == Xor(b, c)
    ensures a == b
    decreases c
  {
    if c > 0 {
      hide Xor;
      XorHalves(a, c);
      XorHalves(b, c);
      XorInjective(a / 2, b / 2, c / 2);
      SameHalves(a, b, c);
    }
  }

  lemma SameHalves(a: nat, b: nat, c: nat)
    requires a / 2 == b / 2 && (a + c) % 2 == (b + c) % 2
    ensures a == b
  {
  }

  lemma XorHalves(a: nat, c: nat)
    ensures Xor(a, c) / 2 == Xor(a / 2, c / 2) && Xor(a, c) % 2 == (a + c) % 2
  {
  }

  lemma XorCommutes(a: nat, b: nat)
    ensures Xor(a, b) == Xor(b, a)
  {
  }

  /** XOR with the same word twice changes nothing. */
  lemma {:induction false} XorTwice(a: nat, c: nat)
    ensures Xor(Xor(a, c), c) == a
    decreases c
  {
    if c > 0 {
      hide Xor;
      var x := Xor(a, c);
      XorHalves(a, c);
      XorHalves(x, c);
      XorTwice(a / 2, c / 2);
      ParityTwice(a, c, x, Xor(x, c));
    }
  }

  lemma ParityTwice(a: nat, c: nat, x: nat, y: nat)
    requires x % 2 == (a + c) % 2 && y % 2 == (x + c) % 2 && y / 2 == a / 2
    ensures y == a
  {
  }

  lemma XorCons(p: nat, q: nat, i: nat, j: nat)
    requires i < 2 && j < 2
    ensures Xor(2 * p + i, 2 * q + j) == 2 * Xor(p, q) + (i + j) % 2
  {
    hide Xor;
    XorHalves(2 * p + i, 2 * q + j);
    assert (2 * p + i) / 2 == p && (2 * q + j) / 2 == q;
  }

  /** XOR works on the high and the low part of its operands separately. */
  lemma {:induction false} XorHigh(a: nat, b: nat, k: nat)
    ensures Shr(Xor(a, b), k) == Xor(Shr(a, k), Shr(b, k))
    decreases k
  {
    hide Xor;
    if k == 0 {
      ShrNothing(a);
      ShrNothing(b);
      ShrNothing(Xor(a, b));
    } else {
      hide Shr;
      XorHalves(a, b);
      XorHigh(a / 2, b / 2, k - 1);
      ShrStep(a, k);
      ShrStep(b, k);
      ShrStep(Xor(a, b), k);
    }
  }

  /** Bit `i` of an XOR is set exactly when it is set in one operand only. */
  lemma XorBit(a: nat, b: nat, i: nat)
    ensures Shr(Xor(a, b), i) % 2 == 1 <==> (Shr(a, i) % 2 == 1) != (Shr(b, i) % 2 == 1)
  {
    hide Xor, Shr;
    XorHigh(a, b, i);
    XorHalves(Shr(a, i), Shr(b, i));
  }

  lemma ShrNothing(a: nat)
    ensures Shr(a, 0) == a
  {
    assert a / 1 == a;
  }

  lemma ShrStep(a: nat, k: nat)
    requires k > 0
    ensures Shr(a, k) == Shr(a / 2, k - 1)
  {
    DivDouble(a, Pow2(k - 1));
  }

  function Low(a: nat, k: nat): nat { a % Pow2(k) }

  lemma {:induction false} XorLow(a: nat, b: nat, k: nat)
    ensures Low(Xor(a, b), k) == Xor(Low(a, k), Low(b, k))
    decreases k
  {
    hide Xor, Low;
    if k == 0 {
      LowNothing(a);
      LowNothing(b);
      LowNothing(Xor(a, b));
    } else {
      XorHalves(a, b);
      XorLow(a / 2, b / 2, k - 1);
      LowStep(a, k);
      LowStep(b, k);
      LowStep(Xor(a, b), k);
      XorCons(Low(a / 2, k - 1), Low(b / 2, k - 1), a % 2, b % 2);
    }
  }

  lemma LowNothing(a: nat)
    ensures Low(a, 0) == 0 && Xor(0, 0) == 0
  {
  }

  lemma LowStep(a: nat, k: nat)
    requires k > 0
    ensures Low(a, k) == 2 * Low(a / 2, k - 1) + a % 2
  {
    ModDouble(a, Pow2(k - 1));
  }
}
