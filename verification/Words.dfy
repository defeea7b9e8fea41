/** 64-bit words with wrapping arithmetic (`Wrapping<i64>`), held as the unsigned number
    with the same bits, and the inverse of each operation the hash mixes with. */
module Words {
  import opened Bits
  import opened Bytes

  const WIDTH: nat := 64
  const WORD: nat := 0x1_0000_0000_0000_0000

  type word = v: nat | v < 0x1_0000_0000_0000_0000

  function Wrap(v: int): word { v % WORD }

  function Add(a: word, b: word): word { Wrap(a + b) }
  function Sub(a: word, b: word): word { Wrap(a - b) }
  function Mul(a: word, b: word): word { Wrap(a * b) }

  lemma WordIsPow2()
    ensures Pow2(WIDTH) == WORD
  {
    IntegerWidths();
  }

  lemma XorWithin(a: word, b: word)
    ensures Xor(a, b) < WORD
  {
    WordIsPow2();
    hide Pow2;
    XorBound(a, b, WIDTH);
  }

  function XorWord(a: word, b: word): word {
    XorWithin(a, b);
    Xor(a, b)
  }

  /** The number an `i64` with these bits denotes. */
  function Signed(v: word): int { if 2 * v < WORD then v else v - WORD }

  lemma AddInverse(a: word, b: word)
    ensures Sub(Add(a, b), b) == a && Add(Sub(a, b), b) == a
  {
    assert Add(a, b) == if a + b < WORD then a + b else a + b - WORD;
    assert Sub(a, b) == if a >= b then a - b else a - b + WORD;
  }

  lemma XorWordTwice(a: word, b: word)
    ensures XorWord(XorWord(a, b), b) == a
  {
    XorTwice(a, b);
  }

  lemma XorWordCommutes(a: word, b: word)
    ensures XorWord(a, b) == XorWord(b, a)
  {
    XorCommutes(a, b);
  }

  /** Multiplying by an odd constant is undone by multiplying by its inverse. */
  lemma MulInverse(k: word, c: word, d: word)
    requires (c * d) % WORD == 1
    ensures Mul(Mul(k, c), d) == k
  {
    var q := (c * d) / WORD;
    var q', r := (k * c) / WORD, (k * c) % WORD;
    assert k * c == q' * WORD + r;
    Rearranged(k, c, d, q, q', r, WORD);
    DivModUnique(r * d, WORD, k * q - q' * d, k);
  }

  lemma Rearranged(k: int, c: int, d: int, q: int, q': int, r: int, w: int)
    requires c * d == q * w + 1 && k * c == q' * w + r
    ensures r * d == (k * q - q' * d) * w + k
  {
    calc {
      r * d;
      (k * c - q' * w) * d;
      (k * c) * d - (q' * w) * d;
      { assert (k * c) * d == k * (c * d); }
      k * (q * w + 1) - (q' * w) * d;
      { assert (q' * w) * d == (q' * d) * w; assert k * (q * w + 1) == (k * q) * w + k; }
      (k * q) * w + k - (q' * d) * w;
      (k * q - q' * d) * w + k;
    }
  }

  //
  // Rotation
  //

  /** The bits shifted out at the top come back at the bottom. */
  function Rotl64(v: word, n: nat): word
    requires 0 < n < WIDTH
  {
    RotlWithin(v, n);
    Or(Shr(v, WIDTH - n), Shl(v, n) % WORD)
  }

  /** Rotation swaps the high `n` bits and the rest. */
  lemma RotlParts(hi: nat, lo: nat, n: nat)
    requires 0 < n < WIDTH && hi < Pow2(n) && lo < Pow2(WIDTH - n)
    ensures var v := hi * Pow2(WIDTH - n) + lo;
            v < WORD && Shr(v, WIDTH - n) == hi && Shl(v, n) % WORD == lo * Pow2(n)
            && Or(hi, lo * Pow2(n)) == lo * Pow2(n) + hi < WORD
  {
    OrDisjoint(hi, lo, n);
    hide Or, Pow2;
    WordIsPow2();
    Pow2Add(n, WIDTH - n);
    PartsSwapped(hi, lo, Pow2(n), Pow2(WIDTH - n), WORD);
  }

  lemma PartsSwapped(hi: nat, lo: nat, p: nat, m: nat, w: nat)
    requires hi < p && lo < m && p * m == w
    ensures var v := hi * m + lo;
            v < w && v / m == hi && (v * p) % w == lo * p && lo * p + hi < w
  {
    SplitWithin(hi, lo, p, m);
    SplitWithin(lo, hi, m, p);
    DivModUnique(hi * m + lo, m, hi, lo);
    Distributed(hi, lo, p, m);
    DivModUnique((hi * m + lo) * p, w, hi, lo * p);
  }

  lemma Distributed(hi: nat, lo: nat, p: nat, m: nat)
    ensures (hi * m + lo) * p == hi * (p * m) + lo * p
  {
    assert (hi * m) * p == hi * (p * m);
  }

  lemma SplitWithin(hi: nat, lo: nat, p: nat, m: nat)
    requires hi < p && lo < m
    ensures hi * m + lo < p * m && hi * m >= 0
  {
    assert (hi + 1) * m <= p * m;
  }

  lemma RotlWithin(v: word, n: nat)
    requires 0 < n < WIDTH
    ensures Or(Shr(v, WIDTH - n), Shl(v, n) % WORD) < WORD
  {
    WordParts(v, n);
    RotlParts(v / Pow2(WIDTH - n), v % Pow2(WIDTH - n), n);
  }

  lemma WordParts(v: word, n: nat)
    requires 0 < n < WIDTH
    ensures var m := Pow2(WIDTH - n);
            0 <= v / m < Pow2(n) && v == (v / m) * m + v % m
  {
    hide Pow2;
    var p, m := Pow2(n), Pow2(WIDTH - n);
    WordIsPow2();
    Pow2Add(n, WIDTH - n);
    QuotientNonNegative(v, m);
    QuotientBelow(v, p, m);
  }

  lemma QuotientBelow(v: nat, p: nat, m: nat)
    requires m > 0 && v < p * m
    ensures v / m < p
  {
  }

  /** Rotating by the complementary distance undoes a rotation. */
  lemma RotlInverse(v: word, n: nat)
    requires 0 < n < WIDTH
    ensures Rotl64(Rotl64(v, n), WIDTH - n) == v
  {
    hide Or, Pow2, Shr, Shl;
    var hi, lo := v / Pow2(WIDTH - n), v % Pow2(WIDTH - n);
    WordParts(v, n);
    RotlParts(hi, lo, n);
    RotlParts(lo, hi, WIDTH - n);
  }

  //
  // XOR with the own high bits
  //

  function XorShift(k: word): word { XorWord(k, ShrWord(k)) }

  const SHIFT: nat := 33

  function ShrWord(k: word): word {
    ShrWithin(k);
    Shr(k, SHIFT)
  }

  lemma ShrWithin(k: word)
    ensures Shr(k, SHIFT) <= k
  {
    hide Pow2;
    QuotientAtMost(k, Pow2(SHIFT));
  }

  lemma QuotientAtMost(v: nat, m: nat)
    requires m > 0
    ensures v / m <= v
  {
    QuotientNonNegative(v, m);
    var q := v / m;
    if q > 0 {
      AtLeastOnce(m, q);
      assert v == m * q + v % m;
    }
  }

  lemma ShrTwice(k: word)
    ensures Shr(Shr(k, SHIFT), SHIFT) == 0
  {
    Pow2Literals();
    assert Pow2(SHIFT) * 2 == Pow2(34);
    hide Pow2;
  }

  /** Applying it twice changes nothing, since 33 is more than half the width. */
  lemma XorShiftTwice(k: word)
    ensures XorShift(XorShift(k)) == k
  {
    hide Xor, Shr;
    var h := ShrWord(k);
    XorHigh(k, h, SHIFT);
    ShrTwice(k);
    XorNothing(h);
    XorWordTwice(k, h);
  }

  lemma XorNothing(a: nat)
    ensures Xor(a, 0) == a
  {
  }
}
