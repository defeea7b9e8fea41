/** Bytes, and the fixed-width integer encodings used on the wire.
    Multi-byte protocol fields are big-endian; frame headers and checksums are
    little-endian. */
module Bytes {
  import opened Bits

  type byte = b: int | 0 <= b < 256
  type bytes = seq<byte>

  /** The `n` low-order bytes of `v`, least significant first (`to_le_bytes()[..n]`). */
  function LittleEndian(v: nat, n: nat): (r: bytes)
    ensures |r| == n
  {
    if n == 0 then [] else [v % 256] + LittleEndian(v / 256, n - 1)
  }

  function FromLittleEndian(s: bytes): (v: nat) {
    if s == [] then 0 else s[0] + 256 * FromLittleEndian(s[1..])
  }

  /** The two's-complement big-endian encoding of `v` in `n` bytes (`to_be_bytes`); wider
      values are truncated, as the `as` casts of the source do. */
  function BigEndian(v: int, n: nat): (r: bytes)
    ensures |r| == n
    decreases n
  {
    if n == 0 then [] else BigEndian(v / 256, n - 1) + [v % 256]
  }

  function FromBigEndian(s: bytes): (v: nat) {
    if s == [] then 0 else 256 * FromBigEndian(s[..|s| - 1]) + s[|s| - 1]
  }

  /** Reads a word of `|s|` bytes as a signed number (`i16::from_be_bytes` and friends). */
  function SignedBigEndian(s: bytes): int {
    var v := FromBigEndian(s);
    if 2 * v < Pow2(8 * |s|) then v else v - Pow2(8 * |s|)
  }

  lemma {:induction false} FromLittleEndianRange(s: bytes)
    ensures FromLittleEndian(s) < Pow2(8 * |s|)
  {
    if s != [] {
      hide Pow2;
      FromLittleEndianRange(s[1..]);
      Pow2Byte(|s|);
    }
  }

  /** Decoding little-endian bytes gives back the value, cut to the width. */
  lemma {:induction false} LittleEndianRoundTrip(v: nat, n: nat)
    ensures FromLittleEndian(LittleEndian(v, n)) == v % Pow2(8 * n)
  {
    if n > 0 {
      hide Pow2;
      var s := LittleEndian(v, n);
      assert s[1..] == LittleEndian(v / 256, n - 1);
      LittleEndianRoundTrip(v / 256, n - 1);
      Pow2Byte(n);
      ModSplit(v, 256, Pow2(8 * (n - 1)));
    }
  }

  /** Little-endian bytes are determined by the value they decode to. */
  lemma {:induction false} LittleEndianOfBytes(s: bytes)
    ensures LittleEndian(FromLittleEndian(s), |s|) == s
  {
    if s != [] {
      LittleEndianOfBytes(s[1..]);
      FirstDigit(s[0], FromLittleEndian(s[1..]));
      assert s == [s[0]] + s[1..];
    }
  }

  lemma FirstDigit(b: byte, v: nat)
    ensures (b + 256 * v) % 256 == b && (b + 256 * v) / 256 == v
  {
  }

  /** A longer little-endian read is the shorter one plus the scaled high bytes. */
  lemma {:induction false} LittleEndianSplit(s: bytes, k: nat)
    requires k <= |s|
    ensures FromLittleEndian(s) == FromLittleEndian(s[..k]) + Pow2(8 * k) * FromLittleEndian(s[k..])
  {
    if k > 0 {
      hide Pow2;
      LittleEndianSplit(s[1..], k - 1);
      assert s[1..][..k - 1] == s[..k][1..];
      assert s[1..][k - 1..] == s[k..];
      Pow2Byte(k);
      Scaled(Pow2(8 * (k - 1)), FromLittleEndian(s[k..]));
    } else {
      assert s[0..] == s;
      assert s[..0] == [];
    }
  }

  lemma Scaled(p: nat, hi: nat)
    ensures (256 * p) * hi == 256 * (p * hi)
  {
  }

  lemma ModSplit(v: nat, a: nat, b: nat)
    requires a > 0 && b > 0
    ensures a * b > 0 && v % (a * b) == v % a + a * ((v / a) % b)
  {
    var q := (v / a) / b;
    var r := v % a + a * ((v / a) % b);
    assert v / a == q * b + (v / a) % b;
    assert a * (q * b) == q * (a * b);
    assert a * ((v / a) % b) <= a * (b - 1) == a * b - a;
    DivModUnique(v, a * b, q, r);
  }

  lemma {:induction false} FromBigEndianRange(s: bytes)
    ensures FromBigEndian(s) < Pow2(8 * |s|)
  {
    if s != [] {
      hide Pow2;
      FromBigEndianRange(s[..|s| - 1]);
      Pow2Byte(|s|);
    }
  }

  lemma {:induction false} BigEndianModular(v: int, n: nat)
    ensures FromBigEndian(BigEndian(v, n)) == v % Pow2(8 * n)
    decreases n
  {
    if n > 0 {
      hide Pow2;
      var s := BigEndian(v, n);
      assert s[..|s| - 1] == BigEndian(v / 256, n - 1);
      BigEndianModular(v / 256, n - 1);
      Pow2Byte(n);
      ModNested(v, Pow2(8 * (n - 1)));
    }
  }

  lemma ModNested(v: int, b: nat)
    requires b > 0
    ensures v % (256 * b) == 256 * ((v / 256) % b) + v % 256
  {
    var q, r := (v / 256) / b, (v / 256) % b;
    assert v / 256 == q * b + r;
    assert 256 * (q * b) == q * (256 * b);
    DivModUnique(v, 256 * b, q, 256 * r + v % 256);
  }

  /** Every signed value of the field's width survives the wire. */
  lemma BigEndianRoundTrip(v: int, n: nat)
    requires n > 0 && 0 <= 2 * v + Pow2(8 * n) && 2 * v < Pow2(8 * n)
    ensures SignedBigEndian(BigEndian(v, n)) == v
  {
    hide Pow2;
    BigEndianModular(v, n);
    var m := Pow2(8 * n);
    if v >= 0 {
      DivModUnique(v, m, 0, v);
    } else {
      DivModUnique(v, m, -1, v + m);
    }
  }

  /** Widths of the protocol's integer types. */
  lemma IntegerWidths()
    ensures Pow2(16) == 0x1_0000 && Pow2(32) == 0x1_0000_0000 && Pow2(64) == 0x1_0000_0000_0000_0000
  {
    Pow2Literals();
    Pow2Add(16, 16);
    Pow2Add(32, 32);
  }

  /** The two- and four-byte fields, written out. */
  lemma ShortBytes(v: int)
    ensures BigEndian(v, 2) == [v / 256 % 256, v % 256]
  {
    assert BigEndian(v / 256, 1) == [] + [v / 256 % 256];
  }

  lemma WordBytes(v: int)
    ensures BigEndian(v, 4) == [v / 0x100_0000 % 256, v / 0x1_0000 % 256, v / 256 % 256, v % 256]
  {
    ShortBytes(v / 0x1_0000);
    assert v / 256 / 256 == v / 0x1_0000 && v / 0x1_0000 / 256 == v / 0x100_0000;
    assert BigEndian(v / 256, 3) == BigEndian(v / 0x1_0000, 2) + [v / 256 % 256];
  }

  //
  // Sequences of bytes put together and patched
  //

  lemma Assoc<T>(a: seq<T>, b: seq<T>, c: seq<T>)
    ensures a + b + c == a + (b + c)
  {
  }

  lemma ThreeAssoc(a: bytes, b: bytes, c: bytes, d: bytes)
    ensures a + b + c + d == a + (b + (c + d))
  {
  }

  lemma FourAssoc(a: bytes, b: bytes, c: bytes, d: bytes, e: bytes)
    ensures a + b + c + d + e == a + (b + (c + (d + e)))
  {
  }

  lemma EmptyNeutral(a: bytes)
    ensures a + [] == a && [] + a == a
  {
  }

  /** All parts one after the other. */
  function Join(parts: seq<bytes>): bytes {
    if parts == [] then [] else Join(parts[..|parts| - 1]) + parts[|parts| - 1]
  }

  lemma JoinNothing()
    ensures Join([]) == []
  {
  }

  lemma JoinAppend(parts: seq<bytes>, x: bytes)
    ensures Join(parts + [x]) == Join(parts) + x
  {
    assert (parts + [x])[..|parts|] == parts;
  }

  lemma {:induction false} JoinConcat(a: seq<bytes>, b: seq<bytes>)
    ensures Join(a + b) == Join(a) + Join(b)
    decreases |b|
  {
    if b == [] {
      assert a + b == a;
      EmptyNeutral(Join(a));
    } else {
      var n := |b| - 1;
      assert a + b == (a + b[..n]) + [b[n]];
      JoinAppend(a + b[..n], b[n]);
      JoinConcat(a, b[..n]);
      Assoc(Join(a), Join(b[..n]), b[n]);
    }
  }

  lemma JoinOne(x: bytes)
    ensures Join([x]) == x
  {
    assert [x][..0] == [];
    EmptyNeutral(x);
  }

  lemma JoinCons(parts: seq<bytes>)
    requires parts != []
    ensures Join(parts) == parts[0] + Join(parts[1..])
  {
    assert parts == [parts[0]] + parts[1..];
    JoinConcat([parts[0]], parts[1..]);
    JoinOne(parts[0]);
  }

  function Zeros(n: nat): (r: bytes)
    ensures |r| == n
  {
    seq(n, i => 0)
  }

  /** `s` written over `b` from position `at` on; a gap before it is filled with zeros. */
  function Overwritten(b: bytes, at: nat, s: bytes): (r: bytes)
    ensures |r| == if at + |s| > |b| then at + |s| else |b|
    ensures at + |s| <= |b| ==> r[..at] == b[..at] && r[at..at + |s|] == s && r[at + |s|..] == b[at + |s|..]
  {
    var padded := if at > |b| then b + Zeros(at - |b|) else b;
    var end := if at + |s| < |padded| then at + |s| else |padded|;
    padded[..at] + s + padded[end..]
  }

  /** Byte by byte: the written range holds the data, everything else is as before. */
  lemma OverwrittenBytes(b: bytes, at: nat, s: bytes)
    ensures var r := Overwritten(b, at, s);
      forall i :: 0 <= i < |r| ==>
        r[i] == if at <= i < at + |s| then s[i - at] else if i < |b| then b[i] else 0
  {
  }
}
