/** The Murmur3 routing hash, in the variant Cassandra uses: bytes of the last, partial
    block are sign-extended. */
module Murmur3 {
  import opened Bits
  import opened Bytes
  import opened Words
  import opened RoutingToken

  const C1: word := 0x87c3_7b91_1142_53d5
  const C2: word := 0x4cf5_ad43_2745_937f
  const C1_INVERSE: word := 0xa984_09e8_82ce_4d7d
  const C2_INVERSE: word := 0xa81e_14ed_d9de_2c7f

  const F1: word := 0xff51_afd7_ed55_8ccd
  const F2: word := 0xc4ce_b9fe_1a85_ec53
  const F1_INVERSE: word := 0x4f74_430c_22a5_4005
  const F2_INVERSE: word := 0x9cb4_b2f8_1293_37db

  const FIVE: word := 5
  const FIVE_INVERSE: word := 0xcccc_cccc_cccc_cccd

  const BLOCK: nat := 16
  const HALF: nat := 8

  lemma Inverses()
    ensures (C1 * C1_INVERSE) % WORD == 1 && (C1_INVERSE * C1) % WORD == 1
    ensures (C2 * C2_INVERSE) % WORD == 1 && (C2_INVERSE * C2) % WORD == 1
    ensures (F1 * F1_INVERSE) % WORD == 1 && (F1_INVERSE * F1) % WORD == 1
    ensures (F2 * F2_INVERSE) % WORD == 1 && (F2_INVERSE * F2) % WORD == 1
    ensures (FIVE * FIVE_INVERSE) % WORD == 1 && (FIVE_INVERSE * FIVE) % WORD == 1
  {
  }

  //
  // Finalization mix
  //

  function Fmix(k: word): word {
    XorShift(Mul(XorShift(Mul(XorShift(k), F1)), F2))
  }

  function FmixInverse(k: word): word {
    XorShift(Mul(XorShift(Mul(XorShift(k), F2_INVERSE)), F1_INVERSE))
  }

  /** `fmix` is a bijection on words. */
  lemma FmixBijective(k: word)
    ensures FmixInverse(Fmix(k)) == k && Fmix(FmixInverse(k)) == k
  {
    Inverses();
    hide XorShift, Mul;
    var a := XorShift(k);
    var b := XorShift(Mul(a, F1));
    XorShiftTwice(k);
    XorShiftTwice(Mul(a, F1));
    XorShiftTwice(Mul(b, F2));
    MulInverse(a, F1, F1_INVERSE);
    MulInverse(b, F2, F2_INVERSE);
    var c := XorShift(Mul(a, F2_INVERSE));
    XorShiftTwice(Mul(a, F2_INVERSE));
    XorShiftTwice(Mul(c, F1_INVERSE));
    MulInverse(a, F2_INVERSE, F2);
    MulInverse(c, F1_INVERSE, F1);
  }

  //
  // One half of a round: a key word is scrambled and folded into a state word
  //

  function MixKey(k: word, c: word, r: nat, d: word): word
    requires 0 < r < WIDTH
  {
    Mul(Rotl64(Mul(k, c), r), d)
  }

  lemma MixKeyInjective(k: word, k': word, c: word, c': word, r: nat, d: word, d': word)
    requires 0 < r < WIDTH && (c * c') % WORD == 1 && (d * d') % WORD == 1
    requires MixKey(k, c, r, d) == MixKey(k', c, r, d)
    ensures k == k'
  {
    hide Mul, Rotl64;
    MulInverse(Rotl64(Mul(k, c), r), d, d');
    MulInverse(Rotl64(Mul(k', c), r), d, d');
    RotlInverse(Mul(k, c), r);
    RotlInverse(Mul(k', c), r);
    MulInverse(k, c, c');
    MulInverse(k', c, c');
  }

  function FirstKey(k: word): word { MixKey(k, C1, 31, C2) }
  function SecondKey(k: word): word { MixKey(k, C2, 33, C1) }

  lemma KeysInjective(k: word, k': word)
    ensures FirstKey(k) == FirstKey(k') ==> k == k'
    ensures SecondKey(k) == SecondKey(k') ==> k == k'
  {
    Inverses();
    hide MixKey;
    if FirstKey(k) == FirstKey(k') {
      MixKeyInjective(k, k', C1, C1_INVERSE, 31, C2, C2_INVERSE);
    }
    if SecondKey(k) == SecondKey(k') {
      MixKeyInjective(k, k', C2, C2_INVERSE, 33, C1, C1_INVERSE);
    }
  }

  function Fold(h: word, m: word, r: nat, other: word, c: word): word
    requires 0 < r < WIDTH
  {
    Add(Mul(Add(Rotl64(XorWord(h, m), r), other), FIVE), c)
  }

  function Unfold(v: word, m: word, r: nat, other: word, c: word): word
    requires 0 < r < WIDTH
  {
    XorWord(Rotl64(Sub(Mul(Sub(v, c), FIVE_INVERSE), other), WIDTH - r), m)
  }

  lemma FoldInverse(h: word, m: word, r: nat, other: word, c: word)
    requires 0 < r < WIDTH
    ensures Unfold(Fold(h, m, r, other, c), m, r, other, c) == h
    ensures Fold(Unfold(h, m, r, other, c), m, r, other, c) == h
  {
    Inverses();
    hide Add, Sub, Mul, Rotl64, XorWord;
    var x := XorWord(h, m);
    var y := Add(Rotl64(x, r), other);
    AddInverse(Mul(y, FIVE), c);
    MulInverse(y, FIVE, FIVE_INVERSE);
    AddInverse(Rotl64(x, r), other);
    RotlInverse(x, r);
    XorWordTwice(h, m);
    var s := Sub(h, c);
    var t := Mul(s, FIVE_INVERSE);
    var u := Sub(t, other);
    XorWordTwice(Rotl64(u, WIDTH - r), m);
    RotlInverse(u, WIDTH - r);
    AddInverse(t, other);
    MulInverse(s, FIVE_INVERSE, FIVE);
    AddInverse(h, c);
  }

  /** Different key words are never folded into the same result. */
  lemma FoldKeyInjective(h: word, m: word, m': word, r: nat, other: word, c: word)
    requires 0 < r < WIDTH && Fold(h, m, r, other, c) == Fold(h, m', r, other, c)
    ensures m == m'
  {
    hide Add, Mul, Rotl64, XorWord, Unfold;
    XorWordCommutes(h, m);
    XorWordCommutes(h, m');
    FoldInverse(m, h, r, other, c);
    FoldInverse(m', h, r, other, c);
  }

  //
  // Rounds
  //

  datatype State = State(h1: word, h2: word)

  const A1: word := 0x52dc_e729
  const A2: word := 0x3849_5ab5

  function Round(s: State, k1: word, k2: word): State {
    var h1 := Fold(s.h1, FirstKey(k1), 27, s.h2, A1);
    State(h1, Fold(s.h2, SecondKey(k2), 31, h1, A2))
  }

  function Unround(s: State, k1: word, k2: word): State {
    var h2 := Unfold(s.h2, SecondKey(k2), 31, s.h1, A2);
    State(Unfold(s.h1, FirstKey(k1), 27, h2, A1), h2)
  }

  /** For a fixed block, a round is a bijection on the 128-bit state. */
  lemma RoundBijective(s: State, k1: word, k2: word)
    ensures Unround(Round(s, k1, k2), k1, k2) == s
    ensures Round(Unround(s, k1, k2), k1, k2) == s
  {
    hide Fold, Unfold, FirstKey, SecondKey;
    var h1 := Fold(s.h1, FirstKey(k1), 27, s.h2, A1);
    FoldInverse(s.h1, FirstKey(k1), 27, s.h2, A1);
    FoldInverse(s.h2, SecondKey(k2), 31, h1, A2);
    var h2 := Unfold(s.h2, SecondKey(k2), 31, s.h1, A2);
    FoldInverse(s.h2, SecondKey(k2), 31, s.h1, A2);
    FoldInverse(s.h1, FirstKey(k1), 27, h2, A1);
  }

  /** For a fixed state, different blocks lead to different states. */
  lemma RoundKeyInjective(s: State, k1: word, k2: word, k1': word, k2': word)
    requires Round(s, k1, k2) == Round(s, k1', k2')
    ensures k1 == k1' && k2 == k2'
  {
    hide Fold, FirstKey, SecondKey;
    FoldKeyInjective(s.h1, FirstKey(k1), FirstKey(k1'), 27, s.h2, A1);
    KeysInjective(k1, k1');
    FoldKeyInjective(s.h2, SecondKey(k2), SecondKey(k2'), 31, Round(s, k1, k2).h1, A2);
    KeysInjective(k2, k2');
  }

  //
  // Key words: whole ones are little-endian, partial ones are XORs of sign-extended bytes
  //

  function KeyWord(s: bytes): word
    requires |s| == HALF
  {
    KeyWordWithin(s);
    FromLittleEndian(s)
  }

  lemma KeyWordWithin(s: bytes)
    requires |s| == HALF
    ensures FromLittleEndian(s) < WORD
  {
    hide FromLittleEndian;
    FromLittleEndianRange(s);
    IntegerWidths();
  }

  lemma KeyWordInjective(s: bytes, t: bytes)
    requires |s| == |t| == HALF && KeyWord(s) == KeyWord(t)
    ensures s == t
  {
    hide FromLittleEndian, LittleEndian;
    LittleEndianOfBytes(s);
    LittleEndianOfBytes(t);
  }

  function SignExtended(b: byte): word { if b < 128 then b else WORD - 256 + b }

  function TailTerm(b: byte, i: nat): word { Wrap(Shl(SignExtended(b), 8 * i)) }

  /** What the loop has accumulated when it has come down to byte `i`. */
  function TailFrom(s: bytes, i: nat): word
    requires i <= |s|
    decreases |s| - i
  {
    if i == |s| then 0 else XorWord(TailFrom(s, i + 1), TailTerm(s[i], i))
  }

  lemma ModOfMod(x: nat, m: nat, c: nat)
    requires m > 0 && c > 0
    ensures m * c > 0 && (x % (m * c)) % m == x % m
  {
    ModSplit(x, m, c);
    var q := (x / m) % c;
    assert m * q == q * m;
    DivModUnique(x % (m * c), m, q, x % m);
  }

  lemma LowOfLow(x: nat, j: nat, k: nat)
    ensures Low(Low(x, j + k), j) == Low(x, j)
  {
    hide Pow2;
    Pow2Add(j, k);
    ModOfMod(x, Pow2(j), Pow2(k));
  }

  lemma SignExtendedLow(b: byte)
    ensures exists t: nat :: SignExtended(b) == t * 256 + b
  {
    if b < 128 {
      assert SignExtended(b) == 0 * 256 + b;
    } else {
      assert SignExtended(b) == 0xff_ffff_ffff_ffff * 256 + b;
    }
  }

  /** Byte `i` of a term is the input byte itself, and the bytes below it are zero. */
  lemma TailTermLow(b: byte, i: nat)
    requires i < HALF
    ensures Low(TailTerm(b, i), 8 * i + 8) == b * Pow2(8 * i) && Low(TailTerm(b, i), 8 * i) == 0
  {
    hide Pow2, Wrap, SignExtended;
    SignExtendedLow(b);
    var t: nat :| SignExtended(b) == t * 256 + b;
    var p := Pow2(8 * i);
    var x := Shl(SignExtended(b), 8 * i);
    assert TailTerm(b, i) == Low(x, WIDTH) by { WrapIsLow(x); }
    hide TailTerm;
    LowOfLow(x, 8 * i + 8, WIDTH - 8 * i - 8);
    LowOfLow(x, 8 * i, WIDTH - 8 * i);
    Pow2Add(8 * i, 8);
    Pow2Literals();
    ScaledByte(t, b, p);
  }

  lemma WrapIsLow(x: nat)
    ensures Wrap(x) == Low(x, WIDTH)
  {
    WordIsPow2();
  }

  lemma ScaledByte(t: nat, b: byte, p: nat)
    requires p > 0
    ensures ((t * 256 + b) * p) % (p * 256) == b * p && ((t * 256 + b) * p) % p == 0
  {
    var x := (t * 256 + b) * p;
    assert x == t * (p * 256) + b * p by {
      assert (t * 256) * p == t * (p * 256);
    }
    assert 0 <= b * p < 256 * p;
    DivModUnique(x, p * 256, t, b * p);
    DivModUnique(x, p, t * 256 + b, 0);
  }

  lemma {:induction false} TailLow(s: bytes, i: nat)
    requires i <= |s| <= HALF
    ensures Low(TailFrom(s, i), 8 * i) == 0
    ensures i < |s| ==> Low(TailFrom(s, i), 8 * i + 8) == s[i] * Pow2(8 * i)
    decreases |s| - i
  {
    hide Xor, Pow2, TailTerm, Low;
    if i < |s| {
      var rest, term := TailFrom(s, i + 1), TailTerm(s[i], i);
      TailLow(s, i + 1);
      assert 8 * (i + 1) == 8 * i + 8;
      TailTermLow(s[i], i);
      XorLow(rest, term, 8 * i + 8);
      XorZero(Low(term, 8 * i + 8));
      XorLow(rest, term, 8 * i);
      LowOfLow(rest, 8 * i, 8);
      LowZero(8 * i);
      XorZero(0);
    } else {
      LowZero(8 * i);
    }
  }

  lemma LowZero(k: nat)
    ensures Low(0, k) == 0
  {
  }

  lemma XorZero(a: nat)
    ensures Xor(0, a) == a
  {
  }

  /** Partial words lose nothing either, in spite of the sign extension. */
  lemma {:induction false} TailInjective(s: bytes, t: bytes, i: nat)
    requires i <= |s| == |t| <= HALF && TailFrom(s, i) == TailFrom(t, i)
    ensures s[i..] == t[i..]
    decreases |s| - i
  {
    hide Xor, Pow2, TailTerm, Low;
    if i < |s| {
      TailLow(s, i);
      TailLow(t, i);
      SameFactor(s[i], t[i], Pow2(8 * i));
      XorInjective(TailFrom(s, i + 1), TailFrom(t, i + 1), TailTerm(s[i], i));
      TailInjective(s, t, i + 1);
      assert s[i..] == [s[i]] + s[i + 1..] && t[i..] == [t[i]] + t[i + 1..];
    }
  }

  lemma SameFactor(a: int, b: int, p: nat)
    requires p > 0 && a * p == b * p
    ensures a == b
  {
    assert (a - b) * p == 0;
    MultipleBelow(a - b, p);
  }

  //
  // The whole hash
  //

  function Block(s: State, key: bytes): State
    requires |key| >= BLOCK
  {
    Round(s, KeyWord(key[..HALF]), KeyWord(key[HALF..BLOCK]))
  }

  /** The last, partial block. */
  function Absorb(s: State, tail: bytes): State
    requires |tail| < BLOCK
  {
    var h2 := if |tail| > HALF then XorWord(s.h2, SecondKey(TailFrom(tail[HALF..], 0))) else s.h2;
    var h1 := if tail != [] then XorWord(s.h1, FirstKey(TailFrom(Front(tail), 0))) else s.h1;
    State(h1, h2)
  }

  function Front(tail: bytes): bytes { if |tail| > HALF then tail[..HALF] else tail }

  function Finalize(s: State, length: word): State {
    var a1, a2 := XorWord(s.h1, length), XorWord(s.h2, length);
    var b1 := Add(a1, a2);
    var b2 := Add(a2, b1);
    var c1, c2 := Fmix(b1), Fmix(b2);
    State(Add(c1, c2), c2)
  }

  function Hash(s: State, key: bytes, length: word): State
    decreases |key|
  {
    if |key| < BLOCK then Finalize(Absorb(s, key), length)
    else Hash(Block(s, key), key[BLOCK..], length)
  }

  /** The 128-bit state after all mixing; the token is its first word. */
  function Hash128(key: bytes): State { Hash(State(0, 0), key, Wrap(|key|)) }

  /** One partial word, from its last byte down to its first. */
  method AccumulateTail(s: bytes) returns (k: word)
    ensures k == TailFrom(s, 0)
  {
    hide XorWord, TailTerm;
    k := 0;
    var i: nat := |s|;
    while i > 0
      invariant i <= |s| && k == TailFrom(s, i)
    {
      i := i - 1;
      k := XorWord(k, TailTerm(s[i], i));
    }
  }

  method Generate(key: bytes) returns (token: int)
    ensures token == Signed(Hash128(key).h1) && token == Token(key)
  {
    hide Round, Fmix, XorWord, Add, MixKey, TailFrom, KeyWord, Wrap, Rotl64, Mul, Token;
    var length := Wrap(|key|);
    var h1: word, h2: word := 0, 0;
    var rest := key;
    while |rest| >= BLOCK
      invariant Hash128(key) == Hash(State(h1, h2), rest, length)
    {
      var k1, k2 := KeyWord(rest[..HALF]), KeyWord(rest[HALF..BLOCK]);
      var m1 := FirstKey(k1);
      var g1 := Add(Mul(Add(Rotl64(XorWord(h1, m1), 27), h2), FIVE), A1);
      var m2 := SecondKey(k2);
      var g2 := Add(Mul(Add(Rotl64(XorWord(h2, m2), 31), g1), FIVE), A2);
      assert State(g1, g2) == Round(State(h1, h2), k1, k2) by { RoundSteps(h1, h2, k1, k2); }
      h1, h2 := g1, g2;
      rest := rest[BLOCK..];
    }
    ghost var before := State(h1, h2);
    if |rest| > HALF {
      var k2 := AccumulateTail(rest[HALF..]);
      h2 := XorWord(h2, SecondKey(k2));
    }
    if rest != [] {
      var k1 := AccumulateTail(Front(rest));
      h1 := XorWord(h1, FirstKey(k1));
    }
    assert State(h1, h2) == Absorb(before, rest);
    h1, h2 := XorWord(h1, length), XorWord(h2, length);
    h1 := Add(h1, h2);
    h2 := Add(h2, h1);
    h1, h2 := Fmix(h1), Fmix(h2);
    h1 := Add(h1, h2);
    HashIsToken(key);
    return Signed(h1);
  }

  lemma RoundSteps(h1: word, h2: word, k1: word, k2: word)
    ensures var g1 := Add(Mul(Add(Rotl64(XorWord(h1, FirstKey(k1)), 27), h2), FIVE), A1);
            State(g1, Add(Mul(Add(Rotl64(XorWord(h2, SecondKey(k2)), 31), g1), FIVE), A2))
            == Round(State(h1, h2), k1, k2)
  {
    hide Add, Mul, Rotl64, XorWord, MixKey;
  }

  //
  // No information is lost before the cut to 64 bits
  //

  lemma FinalizeInjective(s: State, t: State, length: word)
    requires Finalize(s, length) == Finalize(t, length)
    ensures s == t
  {
    hide Fmix, FmixInverse, Add, Sub, XorWord;
    FinalizeUndone(s, length);
    FinalizeUndone(t, length);
  }

  /** The state before finalization, computed back from the one after it. */
  function Unfinalize(s: State, length: word): State {
    var c1 := Sub(s.h1, s.h2);
    var b1, b2 := FmixInverse(c1), FmixInverse(s.h2);
    var a2 := Sub(b2, b1);
    State(XorWord(Sub(b1, a2), length), XorWord(a2, length))
  }

  lemma FinalizeUndone(s: State, length: word)
    ensures Unfinalize(Finalize(s, length), length) == s
  {
    hide Fmix, FmixInverse, Add, Sub, XorWord;
    var a1, a2 := XorWord(s.h1, length), XorWord(s.h2, length);
    var b1 := Add(a1, a2);
    var b2 := Add(a2, b1);
    AddInverse(Fmix(b1), Fmix(b2));
    FmixBijective(b1);
    FmixBijective(b2);
    AddInverse(a2, b1);
    AddInverse(a1, a2);
    XorWordTwice(s.h1, length);
    XorWordTwice(s.h2, length);
  }

  lemma SameXor(a: word, b: word, m: word)
    requires XorWord(a, m) == XorWord(b, m)
    ensures a == b
  {
    hide Xor;
    XorInjective(a, b, m);
  }

  lemma SameXorKey(h: word, m: word, m': word)
    requires XorWord(h, m) == XorWord(h, m')
    ensures m == m'
  {
    XorWordCommutes(h, m);
    XorWordCommutes(h, m');
    SameXor(m, m', h);
  }

  lemma AbsorbInjective(s: State, t: State, tail: bytes)
    requires |tail| < BLOCK && Absorb(s, tail) == Absorb(t, tail)
    ensures s == t
  {
    hide XorWord, MixKey, TailFrom;
    if |tail| > HALF {
      SameXor(s.h2, t.h2, SecondKey(TailFrom(tail[HALF..], 0)));
    }
    if tail != [] {
      SameXor(s.h1, t.h1, FirstKey(TailFrom(Front(tail), 0)));
    }
  }

  lemma AbsorbTailInjective(s: State, a: bytes, b: bytes)
    requires |a| == |b| < BLOCK && Absorb(s, a) == Absorb(s, b)
    ensures a == b
  {
    hide XorWord, MixKey, TailFrom;
    if a != [] {
      var x, y := TailFrom(Front(a), 0), TailFrom(Front(b), 0);
      SameXorKey(s.h1, FirstKey(x), FirstKey(y));
      KeysInjective(x, y);
      TailInjective(Front(a), Front(b), 0);
      assert Front(a)[0..] == Front(a) && Front(b)[0..] == Front(b);
    }
    if |a| > HALF {
      var x, y := TailFrom(a[HALF..], 0), TailFrom(b[HALF..], 0);
      SameXorKey(s.h2, SecondKey(x), SecondKey(y));
      KeysInjective(x, y);
      TailInjective(a[HALF..], b[HALF..], 0);
      assert a == a[..HALF] + a[HALF..][0..] && b == b[..HALF] + b[HALF..][0..];
    }
  }

  lemma BlockInjective(s: State, a: bytes, b: bytes)
    requires |a| >= BLOCK && |b| >= BLOCK && Block(s, a) == Block(s, b)
    ensures a[..BLOCK] == b[..BLOCK]
  {
    hide Round, KeyWord;
    RoundKeyInjective(s, KeyWord(a[..HALF]), KeyWord(a[HALF..BLOCK]), KeyWord(b[..HALF]), KeyWord(b[HALF..BLOCK]));
    KeyWordInjective(a[..HALF], b[..HALF]);
    KeyWordInjective(a[HALF..BLOCK], b[HALF..BLOCK]);
    assert a[..BLOCK] == a[..HALF] + a[HALF..BLOCK] && b[..BLOCK] == b[..HALF] + b[HALF..BLOCK];
  }

  /** Different states never meet again while the same bytes are hashed. */
  lemma {:induction false} StatesStayApart(s: State, t: State, key: bytes, length: word)
    requires Hash(s, key, length) == Hash(t, key, length)
    ensures s == t
    decreases |key|
  {
    hide Finalize, Absorb, Round, KeyWord;
    if |key| < BLOCK {
      FinalizeInjective(Absorb(s, key), Absorb(t, key), length);
      AbsorbInjective(s, t, key);
    } else {
      StatesStayApart(Block(s, key), Block(t, key), key[BLOCK..], length);
      var k1, k2 := KeyWord(key[..HALF]), KeyWord(key[HALF..BLOCK]);
      RoundBijective(s, k1, k2);
      RoundBijective(t, k1, k2);
    }
  }

  /** The keys agree outside block `i`, which may be the partial one at the end. */
  predicate AgreeOutside(a: bytes, b: bytes, i: nat) {
    && |a| == |b| && BLOCK * i <= |a| && a[..BLOCK * i] == b[..BLOCK * i]
    && (BLOCK * i + BLOCK <= |a| ==> a[BLOCK * i + BLOCK..] == b[BLOCK * i + BLOCK..])
  }

  lemma AgreeAfterFirst(a: bytes, b: bytes, i: nat)
    requires AgreeOutside(a, b, i) && i > 0
    ensures |a| >= BLOCK && a[..BLOCK] == b[..BLOCK] && AgreeOutside(a[BLOCK..], b[BLOCK..], i - 1)
  {
    assert BLOCK * i == BLOCK * (i - 1) + BLOCK;
    var n := BLOCK * (i - 1);
    assert a[..BLOCK] == a[..BLOCK * i][..BLOCK] && b[..BLOCK] == b[..BLOCK * i][..BLOCK];
    assert a[BLOCK..][..n] == a[..BLOCK * i][BLOCK..] && b[BLOCK..][..n] == b[..BLOCK * i][BLOCK..];
    if n + BLOCK <= |a| - BLOCK {
      assert a[BLOCK..][n + BLOCK..] == a[BLOCK * i + BLOCK..];
      assert b[BLOCK..][n + BLOCK..] == b[BLOCK * i + BLOCK..];
    }
  }

  lemma SameBlock(s: State, a: bytes, b: bytes)
    requires |a| >= BLOCK && |b| >= BLOCK && a[..BLOCK] == b[..BLOCK]
    ensures Block(s, a) == Block(s, b)
  {
    assert a[..HALF] == a[..BLOCK][..HALF] && b[..HALF] == b[..BLOCK][..HALF];
    assert a[HALF..BLOCK] == a[..BLOCK][HALF..] && b[HALF..BLOCK] == b[..BLOCK][HALF..];
  }

  lemma {:induction false} OneBlock(s: State, a: bytes, b: bytes, i: nat, length: word)
    requires AgreeOutside(a, b, i) && Hash(s, a, length) == Hash(s, b, length)
    ensures a == b
    decreases i
  {
    hide Finalize, Absorb, Block;
    if i > 0 {
      hide AgreeOutside;
      AgreeAfterFirst(a, b, i);
      SameBlock(s, a, b);
      assert |a| == |b| by { SameLength(a, b, i); }
      OneBlock(Block(s, a), a[BLOCK..], b[BLOCK..], i - 1, length);
      assert a == a[..BLOCK] + a[BLOCK..] && b == b[..BLOCK] + b[BLOCK..];
    } else if |a| < BLOCK {
      FinalizeInjective(Absorb(s, a), Absorb(s, b), length);
      AbsorbTailInjective(s, a, b);
    } else {
      StatesStayApart(Block(s, a), Block(s, b), a[BLOCK..], length);
      BlockInjective(s, a, b);
      assert a == a[..BLOCK] + a[BLOCK..] && b == b[..BLOCK] + b[BLOCK..];
    }
  }

  lemma SameLength(a: bytes, b: bytes, i: nat)
    requires AgreeOutside(a, b, i)
    ensures |a| == |b|
  {
  }

  /** Equal-length keys that differ in exactly one block, whole or partial, always end in
      different 128-bit states. */
  lemma OneBlockDiffers(a: bytes, b: bytes, i: nat)
    requires AgreeOutside(a, b, i) && a != b
    ensures Hash128(a) != Hash128(b)
  {
    hide Hash;
    if Hash128(a) == Hash128(b) {
      OneBlock(State(0, 0), a, b, i, Wrap(|a|));
    }
  }

  //
  // The hash computes the token as it is written out
  //

  lemma RotationLiterals()
    ensures Pow2(27) == 0x800_0000 && Pow2(37) == 0x20_0000_0000
    ensures Pow2(31) == 0x8000_0000 && Pow2(33) == 0x2_0000_0000
  {
    Pow2Literals();
    Pow2Add(25, 2);
    Pow2Add(34, 3);
    Pow2Add(24, 7);
    Pow2Add(16, 17);
    assert Pow2(2) == 4 && Pow2(3) == 8 && Pow2(7) == 128;
  }

  lemma Rotations(v: word)
    ensures Rotl64(v, 27) == Rot27(v) && Rotl64(v, 31) == Rot31(v) && Rotl64(v, 33) == Rot33(v)
  {
    RotationLiterals();
    hide Pow2, Or, Shl, Shr;
    Rotation(v, 27);
    Rotation(v, 31);
    Rotation(v, 33);
  }

  lemma Rotation(v: word, n: nat)
    requires 0 < n < WIDTH
    ensures Rotl64(v, n) == v % Pow2(WIDTH - n) * Pow2(n) + v / Pow2(WIDTH - n)
  {
    hide Pow2, Or, Shl;
    WordParts(v, n);
    RotlParts(v / Pow2(WIDTH - n), v % Pow2(WIDTH - n), n);
  }

  lemma KeyMixes(k: word)
    ensures FirstKey(k) == FirstMix(k) && SecondKey(k) == SecondMix(k)
  {
    hide Rotl64, Rot31, Rot33;
    Rotations(Mul(k, C1));
    Rotations(Mul(k, C2));
  }

  lemma Shifted(k: word)
    ensures XorShift(k) == Xor(k, k / 0x2_0000_0000)
  {
    RotationLiterals();
    hide Pow2, Xor;
  }

  lemma Avalanches(k: word)
    ensures Fmix(k) == Avalanche(k)
  {
    hide XorShift, Xor;
    var a := Mul(XorShift(k), F1);
    var b := Mul(XorShift(a), F2);
    Shifted(k);
    Shifted(a);
    Shifted(b);
  }

  lemma LongIsKeyWord(key: bytes, i: nat)
    requires i + 8 <= |key|
    ensures KeyWord(key[i..i + 8]) == LongAt(key, i)
  {
    var s := key[i..i + 8];
    hide FromLittleEndian;
    LittleStep(s);
    LittleStep(s[1..]);
    LittleStep(s[2..]);
    LittleStep(s[3..]);
    LittleStep(s[4..]);
    LittleStep(s[5..]);
    LittleStep(s[6..]);
    LittleStep(s[7..]);
    assert s[1..][1..] == s[2..] && s[2..][1..] == s[3..] && s[3..][1..] == s[4..] && s[4..][1..] == s[5..];
    assert s[5..][1..] == s[6..] && s[6..][1..] == s[7..] && s[7..][1..] == [];
    LittleNothing();
  }

  lemma LittleStep(s: bytes)
    requires s != []
    ensures FromLittleEndian(s) == s[0] + 256 * FromLittleEndian(s[1..])
  {
  }

  lemma LittleNothing()
    ensures FromLittleEndian([]) == 0
  {
  }

  lemma FoldLiteral(h: word, m: word, other: word)
    ensures Fold(h, m, 27, other, A1)
            == ((Rot27(Xor(h, m)) + other) * 5 + 0x52dc_e729) % 0x1_0000_0000_0000_0000
    ensures Fold(h, m, 31, other, A2)
            == ((Rot31(Xor(h, m)) + other) * 5 + 0x3849_5ab5) % 0x1_0000_0000_0000_0000
  {
    hide Rotl64, Rot27, Rot31, Rot33, Xor;
    Rotations(XorWord(h, m));
    Wrapped(Rotl64(XorWord(h, m), 27), other, 0x52dc_e729);
    Wrapped(Rotl64(XorWord(h, m), 31), other, 0x3849_5ab5);
  }

  /** Wrapping after every step is wrapping once at the end. */
  lemma Wrapped(a: word, b: word, c: word)
    ensures Add(Mul(Add(a, b), 5), c) == ((a + b) * 5 + c) % WORD
  {
    var s := if a + b < WORD then a + b else a + b - WORD;
    assert Add(a, b) == s;
    assert (s * 5) % WORD == s * 5 - (s * 5) / WORD * WORD;
    var k := (s * 5) / WORD;
    var t := s * 5 - k * WORD;
    assert Mul(s, 5) == t;
    var u := if t + c < WORD then t + c else t + c - WORD;
    assert Add(t, c) == u;
    var j := (if a + b < WORD then 0 else 5) + k + (if t + c < WORD then 0 else 1);
    DivModUnique((a + b) * 5 + c, WORD, j, u);
  }

  ghost predicate IsState(s: State, p: (nat, nat)) { s.h1 == p.0 && s.h2 == p.1 }

  lemma BlockAgrees(s: State, key: bytes, n: nat)
    requires 16 * n + 16 <= |key| && IsState(s, AfterBlocks(key, n))
    ensures IsState(Block(s, key[16 * n..]), AfterBlocks(key, n + 1))
  {
    hide LongAt, KeyWord, FirstKey, SecondKey, FirstMix, SecondMix, Fold, Rot27, Rot31, Xor;
    var rest := key[16 * n..];
    assert rest[..8] == key[16 * n..16 * n + 8] && rest[8..16] == key[16 * n + 8..16 * n + 8 + 8];
    LongIsKeyWord(key, 16 * n);
    LongIsKeyWord(key, 16 * n + 8);
    var k1, k2 := KeyWord(rest[..8]), KeyWord(rest[8..16]);
    KeyMixes(k1);
    KeyMixes(k2);
    FoldLiteral(s.h1, FirstKey(k1), s.h2);
    FoldLiteral(s.h2, SecondKey(k2), Round(s, k1, k2).h1);
    assert 16 * (n + 1) - 16 == 16 * n && 16 * (n + 1) - 8 == 16 * n + 8;
  }

  lemma {:induction false} TailAgrees(s: bytes, i: nat, key: bytes, from: nat)
    requires i <= |s| && from + |s| <= |key| && s == key[from..from + |s|]
    ensures TailFrom(s, i) == SignedBytes(key, from + i, from + |s|, Pow2(8 * i))
    decreases |s| - i
  {
    hide Xor, Pow2;
    if i < |s| {
      TailAgrees(s, i + 1, key, from);
      Pow2Add(8 * i, 8);
      Pow2Literals();
      assert 8 * (i + 1) == 8 * i + 8;
      assert s[i] == key[from + i];
      TermAgrees(s[i], i);
      XorCommutes(TailFrom(s, i + 1), TailTerm(s[i], i));
    }
  }

  lemma TermAgrees(b: byte, i: nat)
    ensures TailTerm(b, i) == (if b < 128 then b else b - 256) * Pow2(8 * i) % 0x1_0000_0000_0000_0000
  {
    hide Pow2;
    var p := Pow2(8 * i);
    if b >= 128 {
      var x := (b - 256) * p;
      assert (WORD - 256 + b) * p == p * WORD + x;
      SameRemainder(x, p, WORD);
    }
  }

  lemma SameRemainder(x: int, p: int, w: int)
    requires w > 0
    ensures (p * w + x) % w == x % w
  {
    assert x == (x / w) * w + x % w;
    assert p * w + x == (p + x / w) * w + x % w;
    DivModUnique(p * w + x, w, p + x / w, x % w);
  }

  lemma TailIsSigned(s: bytes, key: bytes, from: nat)
    requires from + |s| <= |key| && s == key[from..from + |s|]
    ensures TailFrom(s, 0) == SignedBytes(key, from, from + |s|, 1)
  {
    hide TailFrom, SignedBytes;
    TailAgrees(s, 0, key, from);
    assert Pow2(0) == 1;
  }

  lemma AbsorbAgrees(s: State, key: bytes, n: nat)
    requires 16 * n <= |key| < 16 * n + 16
    ensures var left := |key| - 16 * n;
      var t := Absorb(s, key[16 * n..]);
      && t.h2 == (if left > 8 then Xor(s.h2, SecondMix(SignedBytes(key, 16 * n + 8, |key|, 1))) else s.h2)
      && t.h1 == (if left > 8 then Xor(s.h1, FirstMix(SignedBytes(key, 16 * n, 16 * n + 8, 1)))
                  else if left > 0 then Xor(s.h1, FirstMix(SignedBytes(key, 16 * n, |key|, 1))) else s.h1)
  {
    hide Xor, TailFrom, SignedBytes, FirstKey, SecondKey, FirstMix, SecondMix;
    var tail := key[16 * n..];
    if |tail| > 8 {
      assert tail[8..] == key[16 * n + 8..16 * n + 8 + (|key| - 16 * n - 8)] && tail[..8] == key[16 * n..16 * n + 8];
      TailIsSigned(tail[8..], key, 16 * n + 8);
      TailIsSigned(tail[..8], key, 16 * n);
      KeyMixes(TailFrom(tail[8..], 0));
      KeyMixes(TailFrom(tail[..8], 0));
    } else if tail != [] {
      assert tail == key[16 * n..16 * n + |tail|];
      TailIsSigned(tail, key, 16 * n);
      KeyMixes(TailFrom(tail, 0));
    }
  }

  lemma FinishAgrees(s: State, length: word)
    ensures Signed(Finalize(s, length).h1) == Finish(s.h1, s.h2, length)
  {
    hide Xor, Avalanche, Fmix;
    var a := Add(XorWord(s.h1, length), XorWord(s.h2, length));
    Avalanches(a);
    Avalanches(Add(XorWord(s.h2, length), a));
  }

  lemma {:induction false} HashAgrees(s: State, key: bytes, n: nat)
    requires 16 * n <= |key| && IsState(s, AfterBlocks(key, n))
    ensures Signed(Hash(s, key[16 * n..], Wrap(|key|)).h1) == Token(key)
    decreases |key| - 16 * n
  {
    hide Xor, Block, AfterBlocks;
    var rest := key[16 * n..];
    if |rest| < 16 {
      hide SignedBytes, FirstMix, SecondMix, Absorb, Finish, Finalize, Signed;
      assert |key| / 16 == n;
      AbsorbAgrees(s, key, n);
      FinishAgrees(Absorb(s, rest), Wrap(|key|));
    } else {
      BlockAgrees(s, key, n);
      assert rest[16..] == key[16 * (n + 1)..];
      HashAgrees(Block(s, rest), key, n + 1);
    }
  }

  /** The step-by-step hash of every key is the token as written out here. */
  lemma HashIsToken(key: bytes)
    ensures Signed(Hash128(key).h1) == Token(key)
  {
    hide Hash, Token;
    assert key[16 * 0..] == key;
    HashAgrees(State(0, 0), key, 0);
  }
}
