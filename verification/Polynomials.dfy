/** Polynomials over the two-element field, held as numbers whose bits are the coefficients:
    addition is XOR. Division with remainder is what a cyclic redundancy check computes. */
module Polynomials {
  import opened Bits

  /** The carry-less product. */
  function Times(a: nat, b: nat): nat {
    if a == 0 then 0 else Xor(if a % 2 == 1 then b else 0, 2 * Times(a / 2, b))
  }

  /** `v` is a multiple of `p` plus `r`, and `r` has a lower degree than `p`. */
  ghost predicate IsRemainder(v: nat, p: nat, r: nat, degree: nat) {
    r < Pow2(degree) && Congruent(v, r, p)
  }

  /** The two differ by a multiple of `p`. */
  ghost predicate Congruent(a: nat, b: nat, p: nat) {
    exists q: nat :: Xor(a, b) == Times(q, p)
  }

  //
  // XOR as addition
  //

  lemma {:induction false} XorAssoc(a: nat, b: nat, c: nat)
    ensures Xor(Xor(a, b), c) == Xor(a, Xor(b, c))
    decreases a + b + c
  {
    hide Xor;
    if a == 0 || b == 0 || c == 0 {
      XorZeros(a, b, c);
    } else {
      XorHalves(a, b);
      XorHalves(Xor(a, b), c);
      XorHalves(b, c);
      XorHalves(a, Xor(b, c));
      XorAssoc(a / 2, b / 2, c / 2);
      SameParity(a, b, c, Xor(a, b), Xor(b, c), Xor(Xor(a, b), c), Xor(a, Xor(b, c)));
    }
  }

  lemma XorZeros(a: nat, b: nat, c: nat)
    requires a == 0 || b == 0 || c == 0
    ensures Xor(Xor(a, b), c) == Xor(a, Xor(b, c))
  {
  }

  lemma SameParity(a: nat, b: nat, c: nat, ab: nat, bc: nat, x: nat, y: nat)
    requires ab % 2 == (a + b) % 2 && bc % 2 == (b + c) % 2
    requires x % 2 == (ab + c) % 2 && y % 2 == (a + bc) % 2 && x / 2 == y / 2
    ensures x == y
  {
  }

  lemma XorSelf(a: nat)
    ensures Xor(a, a) == 0 && Xor(a, 0) == a && Xor(0, a) == a
  {
    XorNeutral(a);
    hide Xor;
    XorTwice(0, a);
  }

  lemma XorNeutral(a: nat)
    ensures Xor(a, 0) == a && Xor(0, a) == a
  {
  }

  /** (a + b) + (c + d) == (a + c) + (b + d). */
  lemma XorExchange(a: nat, b: nat, c: nat, d: nat)
    ensures Xor(Xor(a, b), Xor(c, d)) == Xor(Xor(a, c), Xor(b, d))
  {
    hide Xor;
    XorAssoc(a, b, Xor(c, d));
    XorAssoc(b, c, d);
    XorCommutes(b, c);
    XorAssoc(c, b, d);
    XorAssoc(a, c, Xor(b, d));
  }

  /** Shifting distributes over addition. */
  lemma {:induction false} XorScaled(a: nat, b: nat, k: nat)
    ensures Xor(Shl(a, k), Shl(b, k)) == Shl(Xor(a, b), k)
    decreases k
  {
    hide Xor;
    if k == 0 {
      ShlNothing(a);
      ShlNothing(b);
      ShlNothing(Xor(a, b));
    } else {
      hide Shl;
      ShlStep(a, k);
      ShlStep(b, k);
      ShlStep(Xor(a, b), k);
      XorScaled(a, b, k - 1);
      XorCons(Shl(a, k - 1), Shl(b, k - 1), 0, 0);
    }
  }

  lemma ShlNothing(a: nat)
    ensures Shl(a, 0) == a
  {
  }

  lemma ShlStep(a: nat, k: nat)
    requires k > 0
    ensures Shl(a, k) == 2 * Shl(a, k - 1)
  {
    HalfOfScaled(a, k);
  }

  lemma ShlAdd(a: nat, j: nat, k: nat)
    ensures Shl(Shl(a, j), k) == Shl(a, j + k)
  {
    Pow2Add(j, k);
    assert (a * Pow2(j)) * Pow2(k) == a * (Pow2(j) * Pow2(k));
  }

  //
  // Products
  //

  lemma TimesOne(b: nat)
    ensures Times(1, b) == b && Times(0, b) == 0
  {
    XorSelf(b);
  }

  lemma TimesStep(a: nat, b: nat)
    ensures Times(a, b) == Xor(if a % 2 == 1 then b else 0, 2 * Times(a / 2, b))
  {
    XorSelf(0);
  }

  lemma TimesDouble(a: nat, b: nat)
    ensures Times(2 * a, b) == 2 * Times(a, b)
  {
    hide Xor;
    TimesStep(2 * a, b);
    XorSelf(2 * Times(a, b));
  }

  lemma {:induction false} TimesDistributes(a: nat, c: nat, b: nat)
    ensures Times(Xor(a, c), b) == Xor(Times(a, b), Times(c, b))
    decreases a + c
  {
    if a == 0 || c == 0 {
      XorNeutral(a);
      XorNeutral(c);
      XorNeutral(Times(a, b));
      XorNeutral(Times(c, b));
      TimesOne(b);
      hide Times, Xor;
    } else {
      hide Xor, Times;
      var x := Xor(a, c);
      XorHalves(a, c);
      TimesDistributes(a / 2, c / 2, b);
      TimesStep(a, b);
      TimesStep(c, b);
      TimesStep(x, b);
      var i, j := if a % 2 == 1 then b else 0, if c % 2 == 1 then b else 0;
      XorCons(Times(a / 2, b), Times(c / 2, b), 0, 0);
      XorExchange(i, 2 * Times(a / 2, b), j, 2 * Times(c / 2, b));
      assert Xor(i, j) == if x % 2 == 1 then b else 0 by {
        XorSelf(b);
        XorSelf(0);
      }
    }
  }

  /** The leading terms multiply. */
  lemma {:induction false} TimesTop(a: nat, k: nat, p: nat, degree: nat)
    requires Pow2(k) <= a < Pow2(k + 1) && Pow2(degree) <= p < Pow2(degree + 1)
    ensures Pow2(k + degree) <= Times(a, p) < Pow2(k + degree + 1)
    decreases k
  {
    hide Xor;
    if k == 0 {
      assert a == 1;
      TimesOne(p);
    } else {
      hide Times;
      TimesTop(a / 2, k - 1, p, degree);
      TimesStep(a, p);
      hide Pow2;
      Pow2Double(k + degree);
      Pow2Double(k + degree + 1);
      Pow2Grows(degree + 1, k + degree);
      var low := if a % 2 == 1 then p else 0;
      XorCommutes(low, 2 * Times(a / 2, p));
      TopKept(2 * Times(a / 2, p), low, k + degree);
    }
  }

  lemma Pow2Double(k: nat)
    requires k > 0
    ensures Pow2(k) == 2 * Pow2(k - 1)
  {
  }

  lemma Pow2Grows(j: nat, k: nat)
    requires j <= k
    ensures Pow2(j) <= Pow2(k)
  {
    if j < k {
      Pow2Grows(j, k - 1);
    }
  }

  lemma TopKept(a: nat, b: nat, m: nat)
    requires Pow2(m) <= a < Pow2(m + 1) && b < Pow2(m)
    ensures Pow2(m) <= Xor(a, b) < Pow2(m + 1)
  {
    XorHigh(a, b, m);
    Pow2Double(m + 1);
    XorBound(a, b, m + 1);
    hide Pow2, Xor;
    DivModUnique(a, Pow2(m), 1, a - Pow2(m));
    DivModUnique(b, Pow2(m), 0, b);
    XorNeutral(1);
    if Xor(a, b) < Pow2(m) {
      DivModUnique(Xor(a, b), Pow2(m), 0, Xor(a, b));
    }
  }

  function TopBit(a: nat): (k: nat)
    requires a > 0
    ensures Pow2(k) <= a < Pow2(k + 1)
  {
    if a == 1 then 0 else 1 + TopBit(a / 2)
  }

  //
  // Congruence and division
  //

  lemma CongruentSelf(a: nat, p: nat)
    ensures Congruent(a, a, p)
  {
    hide Xor, Times;
    XorSelf(a);
    TimesOne(p);
    assert Xor(a, a) == Times(0, p);
  }

  lemma CongruentTrans(a: nat, b: nat, c: nat, p: nat)
    requires Congruent(a, b, p) && Congruent(b, c, p)
    ensures Congruent(a, c, p)
  {
    hide Xor, Times;
    var q: nat :| Xor(a, b) == Times(q, p);
    var r: nat :| Xor(b, c) == Times(r, p);
    TimesDistributes(q, r, p);
    XorAssoc(a, b, Xor(b, c));
    XorAssoc(b, b, c);
    XorSelf(b);
    XorSelf(c);
    assert Xor(a, c) == Times(Xor(q, r), p);
  }

  lemma CongruentSum(a: nat, b: nat, c: nat, p: nat)
    requires Congruent(a, b, p)
    ensures Congruent(Xor(a, c), Xor(b, c), p)
  {
    hide Xor, Times;
    var q: nat :| Xor(a, b) == Times(q, p);
    XorExchange(a, c, b, c);
    XorSelf(c);
    XorSelf(Xor(a, b));
    assert Xor(Xor(a, c), Xor(b, c)) == Times(q, p);
  }

  lemma {:induction false} CongruentScaled(a: nat, b: nat, k: nat, p: nat)
    requires Congruent(a, b, p)
    ensures Congruent(Shl(a, k), Shl(b, k), p)
    decreases k
  {
    hide Xor, Times;
    if k == 0 {
      ShlNothing(a);
      ShlNothing(b);
    } else {
      hide Shl;
      CongruentScaled(a, b, k - 1, p);
      var q: nat :| Xor(Shl(a, k - 1), Shl(b, k - 1)) == Times(q, p);
      ShlStep(a, k);
      ShlStep(b, k);
      XorCons(Shl(a, k - 1), Shl(b, k - 1), 0, 0);
      TimesDouble(q, p);
      assert Xor(Shl(a, k), Shl(b, k)) == Times(2 * q, p);
    }
  }

  /** Division leaves one remainder only. */
  lemma RemainderUnique(v: nat, p: nat, degree: nat, r: nat, r': nat)
    requires Pow2(degree) <= p < Pow2(degree + 1)
    requires IsRemainder(v, p, r, degree) && IsRemainder(v, p, r', degree)
    ensures r == r'
  {
    hide Xor, Times, Pow2;
    var q: nat :| Xor(v, r) == Times(q, p);
    var q': nat :| Xor(v, r') == Times(q', p);
    TimesDistributes(q, q', p);
    XorExchange(v, r, v, r');
    XorSelf(v);
    XorSelf(Xor(r, r'));
    XorBound(r, r', degree);
    var d := Xor(q, q');
    assert Xor(r, r') == Times(d, p);
    if d == 0 {
      TimesOne(p);
      XorTwice(r, r');
      XorSelf(r');
    } else {
      TimesTop(d, TopBit(d), p, degree);
      Pow2Grows(degree, TopBit(d) + degree);
    }
  }
}
