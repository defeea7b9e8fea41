/** The routing token written out a second time, as one reads it off Cassandra's variant of
    Murmur3: literal constants, indexes into the key and plain arithmetic modulo 2^64. It
    shares nothing with the step-by-step hash but the XOR of numbers. */
module RoutingToken {
  import opened Bits
  import opened Bytes

  function Rot27(v: nat): nat { v % 0x20_0000_0000 * 0x800_0000 + v / 0x20_0000_0000 }
  function Rot31(v: nat): nat { v % 0x2_0000_0000 * 0x8000_0000 + v / 0x2_0000_0000 }
  function Rot33(v: nat): nat { v % 0x8000_0000 * 0x2_0000_0000 + v / 0x8000_0000 }

  function FirstMix(k: nat): nat {
    Rot31(k * 0x87c3_7b91_1142_53d5 % 0x1_0000_0000_0000_0000) * 0x4cf5_ad43_2745_937f % 0x1_0000_0000_0000_0000
  }

  function SecondMix(k: nat): nat {
    Rot33(k * 0x4cf5_ad43_2745_937f % 0x1_0000_0000_0000_0000) * 0x87c3_7b91_1142_53d5 % 0x1_0000_0000_0000_0000
  }

  function Avalanche(k: nat): nat {
    var a := Xor(k, k / 0x2_0000_0000) * 0xff51_afd7_ed55_8ccd % 0x1_0000_0000_0000_0000;
    var b := Xor(a, a / 0x2_0000_0000) * 0xc4ce_b9fe_1a85_ec53 % 0x1_0000_0000_0000_0000;
    Xor(b, b / 0x2_0000_0000)
  }

  /** Eight bytes of the key, least significant first. */
  function LongAt(key: bytes, i: nat): nat
    requires i + 8 <= |key|
  {
    var k: seq<nat> := key[i..i + 8];
    k[0] + 0x100 * k[1] + 0x1_0000 * k[2] + 0x100_0000 * k[3] + 0x1_0000_0000 * k[4]
    + 0x100_0000_0000 * k[5] + 0x1_0000_0000_0000 * k[6] + 0x100_0000_0000_0000 * k[7]
  }

  /** Both halves of the state after `n` blocks of sixteen bytes. */
  function AfterBlocks(key: bytes, n: nat): (nat, nat)
    requires 16 * n <= |key|
  {
    if n == 0 then (0, 0)
    else
      var (x, y) := AfterBlocks(key, n - 1);
      var x' := ((Rot27(Xor(x, FirstMix(LongAt(key, 16 * n - 16)))) + y) * 5 + 0x52dc_e729) % 0x1_0000_0000_0000_0000;
      (x', ((Rot31(Xor(y, SecondMix(LongAt(key, 16 * n - 8)))) + x') * 5 + 0x3849_5ab5) % 0x1_0000_0000_0000_0000)
  }

  /** The bytes from `i` up to `end` as signed numbers with growing weights, combined by XOR. */
  function SignedBytes(key: bytes, i: nat, end: nat, weight: nat): nat
    requires i <= end <= |key|
    decreases end - i
  {
    if i == end then 0
    else
      var signed: int := if key[i] < 128 then key[i] else key[i] as int - 256;
      Xor(signed * weight % 0x1_0000_0000_0000_0000, SignedBytes(key, i + 1, end, 256 * weight))
  }

  function Token(key: bytes): int {
    var n := |key| / 16;
    var (x, y) := AfterBlocks(key, n);
    var left := |key| - 16 * n;
    var y1 := if left > 8 then Xor(y, SecondMix(SignedBytes(key, 16 * n + 8, |key|, 1))) else y;
    var x1 := if left > 8 then Xor(x, FirstMix(SignedBytes(key, 16 * n, 16 * n + 8, 1)))
              else if left > 0 then Xor(x, FirstMix(SignedBytes(key, 16 * n, |key|, 1))) else x;
    Finish(x1, y1, |key| % 0x1_0000_0000_0000_0000)
  }

  function Finish(x: nat, y: nat, length: nat): int {
    var a := (Xor(x, length) + Xor(y, length)) % 0x1_0000_0000_0000_0000;
    var b := (Xor(y, length) + a) % 0x1_0000_0000_0000_0000;
    var token := (Avalanche(a) + Avalanche(b)) % 0x1_0000_0000_0000_0000;
    if token < 0x8000_0000_0000_0000 then token else token - 0x1_0000_0000_0000_0000
  }
}
