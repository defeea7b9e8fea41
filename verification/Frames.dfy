/** The v5 frame format (section 2 of the Cassandra native protocol v5 specification):
    what one encoded frame looks like and what decoding the front of a buffer means.
    The encoder and decoder classes are proved against these definitions. */
module Frames {
  import opened Options
  import opened Bits
  import opened Bytes
  import opened Crc

  /** The two post-v5 frame formats. */
  datatype Format = Uncompressed | Lz4

  /** Library code the frame layer calls: the payload checksum and the lz4 block codec. */
  datatype Library = Library(
    crc32: bytes -> nat,
    compress: bytes -> bytes,
    decompress: (bytes, nat) -> Option<bytes>,
    maxOutput: nat -> nat)

  /** What the frame layer relies on from that library code. */
  ghost predicate Lawful(lib: Library) {
    && (forall s: bytes :: lib.crc32(s) < 0x1_0000_0000)
    && (forall s: bytes :: lib.decompress(lib.compress(s), |s|) == Some(s))
    && (forall s: bytes :: |lib.compress(s)| <= lib.maxOutput(|s|))
    && (forall n: nat :: n <= lib.maxOutput(n))
  }

  /** The requirements can be met together, for instance by storing payloads as they are. */
  lemma LawfulLibraryExists()
    ensures exists lib: Library :: Lawful(lib)
  {
    var lib := Library(s => 0, s => s, (s, n) => Some(s), n => n);
    assert Lawful(lib);
  }

  const PAYLOAD_SIZE_LIMIT: nat := 0x2_0000
  const FRAME_TRAILER_LENGTH: nat := 4

  function HeaderLength(f: Format): (n: nat)
    ensures n == 6 || n == 8
  {
    if f.Uncompressed? then 6 else 8
  }

  /** Number of header bytes covered by the CRC24. */
  function Covered(f: Format): (n: nat)
    ensures n + 3 == HeaderLength(f)
  {
    if f.Uncompressed? then 3 else 5
  }

  /** Position of the self-contained bit in the header word. */
  function FlagBit(f: Format): nat { if f.Uncompressed? then 17 else 34 }

  //
  // Encoding
  //

  /** The header word before its checksum is added. */
  function HeaderWord(f: Format, stored: nat, uncompressed: nat, selfContained: bool): nat {
    var lengths := if f.Uncompressed? then stored else Or(stored, Shl(uncompressed, 17));
    if selfContained then Or(lengths, Shl(1, FlagBit(f))) else lengths
  }

  function Header(f: Format, stored: nat, uncompressed: nat, selfContained: bool): (h: bytes)
    ensures |h| == HeaderLength(f)
  {
    var covered := LittleEndian(HeaderWord(f, stored, uncompressed, selfContained), Covered(f));
    covered + LittleEndian(Crc24(covered), CRC24_LENGTH)
  }

  /** A complete frame around an already stored (possibly compressed) payload. */
  function RawFrame(f: Format, lib: Library, stored: bytes, uncompressed: nat, selfContained: bool): bytes {
    Header(f, |stored|, uncompressed, selfContained) + stored + LittleEndian(lib.crc32(stored), FRAME_TRAILER_LENGTH)
  }

  /** A self-contained frame holding `payload`. */
  function SelfContainedFrame(f: Format, lib: Library, payload: bytes): bytes {
    match f
    case Uncompressed => RawFrame(f, lib, payload, 0, true)
    case Lz4 => RawFrame(f, lib, lib.compress(payload), |payload|, true)
  }

  /** One fragment of a large envelope. lz4 output that reaches the payload limit is dropped
      and the fragment is stored as it is, announced by an uncompressed length of zero. */
  function FragmentFrame(f: Format, lib: Library, payload: bytes): bytes {
    if f.Uncompressed? then RawFrame(f, lib, payload, 0, false)
    else if |lib.compress(payload)| >= PAYLOAD_SIZE_LIMIT then RawFrame(f, lib, payload, 0, false)
    else RawFrame(f, lib, lib.compress(payload), |payload|, false)
  }

  //
  // Decoding
  //

  datatype FrameError = HeaderCrcMismatch | PayloadCrcMismatch | DecompressionFailed

  datatype Decoded =
    | Incomplete
    | Corrupt(error: FrameError)
    | Frame(selfContained: bool, payload: bytes, rest: bytes)

  function StoredLength(word: nat): nat { And(word, 0x1ffff) }

  function UncompressedLength(word: nat): nat { And(Shr(word, 17), 0x1ffff) }

  /** The verdict on a complete frame with an intact header and trailer. */
  function Opened(f: Format, lib: Library, word: nat, stored: bytes, rest: bytes): Decoded {
    var selfContained := And(word, Shl(1, FlagBit(f))) != 0;
    if f.Uncompressed? || UncompressedLength(word) == 0 then Frame(selfContained, stored, rest)
    else
      match lib.decompress(stored, UncompressedLength(word))
      case Some(payload) => Frame(selfContained, payload, rest)
      case None => Corrupt(DecompressionFailed)
  }

  /** What `try_decode_frame` makes of the bytes at the front of `b`. */
  function Decode(f: Format, lib: Library, b: bytes): Decoded {
    if |b| < HeaderLength(f) then Incomplete
    else
      var word := FromLittleEndian(b[..HeaderLength(f)]);
      if And(Shr(word, 8 * Covered(f)), 0xffffff) != Crc24(LittleEndian(word, Covered(f))) then
        Corrupt(HeaderCrcMismatch)
      else
        var payloadEnd := HeaderLength(f) + StoredLength(word);
        var frameEnd := payloadEnd + FRAME_TRAILER_LENGTH;
        if |b| < frameEnd then Incomplete
        else
          var stored := b[HeaderLength(f)..payloadEnd];
          if FromLittleEndian(b[payloadEnd..frameEnd]) != lib.crc32(stored) then
            Corrupt(PayloadCrcMismatch)
          else
            Opened(f, lib, word, stored, b[frameEnd..])
  }

  //
  // Header facts
  //

  /** The first bytes of a word are the bytes it was read from. */
  lemma {:induction false} LittleEndianPrefix(s: bytes, n: nat)
    requires n <= |s|
    ensures LittleEndian(FromLittleEndian(s), n) == s[..n]
  {
    if n > 0 {
      FirstDigit(s[0], FromLittleEndian(s[1..]));
      LittleEndianPrefix(s[1..], n - 1);
      assert s[..n] == [s[0]] + s[1..][..n - 1];
    }
  }

  /** The high bytes of a word, isolated by shift and mask. */
  lemma ChecksumField(s: bytes, n: nat)
    requires |s| == n + 3
    ensures And(Shr(FromLittleEndian(s), 8 * n), 0xffffff) == FromLittleEndian(s[n..])
  {
    hide Pow2, And, FromLittleEndian;
    Pow2Literals();
    LittleEndianSplit(s, n);
    FromLittleEndianRange(s[..n]);
    FromLittleEndianRange(s[n..]);
    var hi := FromLittleEndian(s[n..]);
    Commute(Pow2(8 * n), hi);
    DivModUnique(FromLittleEndian(s), Pow2(8 * n), hi, FromLittleEndian(s[..n]));
    AndMask(hi, 24);
    SmallMod(hi, Pow2(24));
  }

  /** The header check compares the CRC of the covered bytes with the bytes after them. */
  lemma HeaderCheck(f: Format, b: bytes)
    requires |b| >= HeaderLength(f)
    ensures var word := FromLittleEndian(b[..HeaderLength(f)]);
      (And(Shr(word, 8 * Covered(f)), 0xffffff) == Crc24(LittleEndian(word, Covered(f)))
       <==> FromLittleEndian(b[Covered(f)..HeaderLength(f)]) == Crc24(b[..Covered(f)]))
  {
    hide Crc24, And, Shr, FromLittleEndian, LittleEndian;
    var h := b[..HeaderLength(f)];
    ChecksumField(h, Covered(f));
    LittleEndianPrefix(h, Covered(f));
    assert h[Covered(f)..] == b[Covered(f)..HeaderLength(f)];
    assert h[..Covered(f)] == b[..Covered(f)];
  }

  /** The packed fields occupy disjoint bits, so the word is their weighted sum. */
  lemma HeaderWordSum(f: Format, stored: nat, uncompressed: nat, selfContained: bool)
    requires stored < PAYLOAD_SIZE_LIMIT && uncompressed < PAYLOAD_SIZE_LIMIT
    ensures var flag := if selfContained then 1 else 0;
      HeaderWord(f, stored, uncompressed, selfContained)
      == if f.Uncompressed? then stored + flag * 0x2_0000
         else stored + uncompressed * 0x2_0000 + flag * 0x4_0000_0000
  {
    hide Pow2, Or;
    Pow2Literals();
    OrDisjoint(stored, uncompressed, 17);
    if f.Uncompressed? {
      OrDisjoint(stored, 1, 17);
    } else {
      OrDisjoint(stored + uncompressed * 0x2_0000, 1, 34);
    }
  }

  lemma LittleEndianValue(v: nat, n: nat)
    requires v < Pow2(8 * n)
    ensures FromLittleEndian(LittleEndian(v, n)) == v
  {
    LittleEndianRoundTrip(v, n);
    SmallMod(v, Pow2(8 * n));
  }

  /** Two little-endian fields side by side read as a weighted sum. */
  lemma TwoFields(lo: nat, n: nat, hi: nat, m: nat)
    requires lo < Pow2(8 * n) && hi < Pow2(8 * m)
    ensures FromLittleEndian(LittleEndian(lo, n) + LittleEndian(hi, m)) == lo + Pow2(8 * n) * hi
  {
    hide Pow2, LittleEndian, FromLittleEndian;
    var h := LittleEndian(lo, n) + LittleEndian(hi, m);
    assert h[..n] == LittleEndian(lo, n) && h[n..] == LittleEndian(hi, m);
    LittleEndianSplit(h, n);
    LittleEndianValue(lo, n);
    LittleEndianValue(hi, m);
  }

  /** Weight of the checksum in the header word. */
  function ChecksumWeight(f: Format): nat { if f.Uncompressed? then 0x100_0000 else 0x100_0000_0000 }

  lemma Weights(f: Format)
    ensures Pow2(8 * Covered(f)) == ChecksumWeight(f) && Pow2(8 * CRC24_LENGTH) == 0x100_0000
  {
    Pow2Literals();
  }

  lemma HeaderValue(f: Format, stored: nat, uncompressed: nat, selfContained: bool)
    requires stored < PAYLOAD_SIZE_LIMIT && uncompressed < PAYLOAD_SIZE_LIMIT
    ensures var w := HeaderWord(f, stored, uncompressed, selfContained);
      FromLittleEndian(Header(f, stored, uncompressed, selfContained))
      == w + ChecksumWeight(f) * Crc24(LittleEndian(w, Covered(f)))
  {
    hide Crc24, LittleEndian, FromLittleEndian, HeaderWord, Pow2;
    var w := HeaderWord(f, stored, uncompressed, selfContained);
    HeaderWordSum(f, stored, uncompressed, selfContained);
    Weights(f);
    Crc24InRange(LittleEndian(w, Covered(f)));
    TwoFields(w, Covered(f), Crc24(LittleEndian(w, Covered(f))), CRC24_LENGTH);
  }

  lemma Commute(a: nat, b: nat)
    ensures a * b == b * a
  {
  }

  lemma SmallMod(x: nat, m: nat)
    requires x < m
    ensures x % m == x
  {
  }

  /** The masks and bit tests of the header, with their literal weights. */
  lemma LengthMask(word: nat)
    ensures And(word, 0x1ffff) == word % 0x2_0000
  {
    hide And, Pow2;
    Pow2Literals();
    AndMask(word, 17);
  }

  lemma FlagTest(word: nat, bit: nat, weight: nat)
    requires Pow2(bit) == weight && weight > 0
    ensures And(word, Shl(1, bit)) != 0 <==> (word / weight) % 2 == 1
  {
    hide And, Pow2;
    AndBit(word, bit);
  }

  lemma UnpackUncompressed(word: nat, stored: nat, flag: nat, crc: nat)
    requires stored < 0x2_0000 && flag < 2 && word == stored + flag * 0x2_0000 + 0x100_0000 * crc
    ensures And(word, 0x1ffff) == stored && (And(word, Shl(1, 17)) != 0 <==> flag == 1)
  {
    hide And, Pow2, Shl;
    LengthMask(word);
    Pow2Literals();
    FlagTest(word, 17, 0x2_0000);
    SplitAt(word, 0x2_0000, flag + 128 * crc, stored);
    LowBit(flag, 64 * crc);
  }

  lemma UnpackLz4(word: nat, stored: nat, uncompressed: nat, flag: nat, crc: nat)
    requires stored < 0x2_0000 && uncompressed < 0x2_0000 && flag < 2
    requires word == stored + uncompressed * 0x2_0000 + flag * 0x4_0000_0000 + 0x100_0000_0000 * crc
    ensures And(word, 0x1ffff) == stored && And(Shr(word, 17), 0x1ffff) == uncompressed
    ensures And(word, Shl(1, 34)) != 0 <==> flag == 1
  {
    hide And, Pow2, Shl, Shr;
    LengthMask(word);
    Pow2Literals();
    FlagTest(word, 34, 0x4_0000_0000);
    SplitAt(word, 0x4_0000_0000, flag + 64 * crc, stored + uncompressed * 0x2_0000);
    LowBit(flag, 32 * crc);
    var hi := uncompressed + 0x2_0000 * (flag + 64 * crc);
    SplitAt(word, 0x2_0000, hi, stored);
    ShiftedWord(word, hi);
    LengthMask(hi);
    SplitAt(hi, 0x2_0000, flag + 64 * crc, uncompressed);
  }

  lemma SplitAt(word: nat, weight: nat, hi: nat, lo: nat)
    requires word == lo + weight * hi && lo < weight
    ensures word % weight == lo && word / weight == hi
  {
    Commute(weight, hi);
    DivModUnique(word, weight, hi, lo);
  }

  lemma LowBit(flag: nat, x: nat)
    requires flag < 2
    ensures (flag + 2 * x) % 2 == flag
  {
  }

  lemma ShiftedWord(word: nat, hi: nat)
    requires word / 0x2_0000 == hi
    ensures Shr(word, 17) == hi
  {
    hide Pow2;
    Pow2Literals();
  }

  /** Every field of an encoded header is read back as it was written. */
  lemma HeaderFields(f: Format, stored: nat, uncompressed: nat, selfContained: bool)
    requires stored < PAYLOAD_SIZE_LIMIT && uncompressed < PAYLOAD_SIZE_LIMIT
    ensures var word := FromLittleEndian(Header(f, stored, uncompressed, selfContained));
      && StoredLength(word) == stored
      && (f.Lz4? ==> UncompressedLength(word) == uncompressed)
      && (And(word, Shl(1, FlagBit(f))) != 0 <==> selfContained)
  {
    hide Crc24, LittleEndian, FromLittleEndian, HeaderWord, And, Header;
    var w := HeaderWord(f, stored, uncompressed, selfContained);
    var word := FromLittleEndian(Header(f, stored, uncompressed, selfContained));
    var crc := Crc24(LittleEndian(w, Covered(f)));
    var flag := if selfContained then 1 else 0;
    HeaderValue(f, stored, uncompressed, selfContained);
    HeaderWordSum(f, stored, uncompressed, selfContained);
    if f.Uncompressed? {
      UnpackUncompressed(word, stored, flag, crc);
    } else {
      UnpackLz4(word, stored, uncompressed, flag, crc);
    }
  }

  /** Covered bytes followed by their checksum pass the header check. */
  lemma ChecksumAccepted(covered: bytes)
    ensures var word := FromLittleEndian(covered + LittleEndian(Crc24(covered), CRC24_LENGTH));
      And(Shr(word, 8 * |covered|), 0xffffff) == Crc24(LittleEndian(word, |covered|))
  {
    hide Crc24, LittleEndian, FromLittleEndian, And, Shr, Pow2;
    var crc := LittleEndian(Crc24(covered), CRC24_LENGTH);
    var h := covered + crc;
    assert h[..|covered|] == covered && h[|covered|..] == crc;
    ChecksumField(h, |covered|);
    LittleEndianPrefix(h, |covered|);
    Crc24InRange(covered);
    Weights(Uncompressed);
    LittleEndianValue(Crc24(covered), CRC24_LENGTH);
  }

  /** The checksum of an encoded header matches. */
  lemma HeaderAccepted(f: Format, stored: nat, uncompressed: nat, selfContained: bool)
    ensures var word := FromLittleEndian(Header(f, stored, uncompressed, selfContained));
      And(Shr(word, 8 * Covered(f)), 0xffffff) == Crc24(LittleEndian(word, Covered(f)))
  {
    hide Crc24, LittleEndian, FromLittleEndian, And, Shr, HeaderWord;
    ChecksumAccepted(LittleEndian(HeaderWord(f, stored, uncompressed, selfContained), Covered(f)));
  }

  //
  // Round trip
  //

  lemma FromLittleEndianCrc(lib: Library, s: bytes)
    requires Lawful(lib)
    ensures FromLittleEndian(LittleEndian(lib.crc32(s), FRAME_TRAILER_LENGTH)) == lib.crc32(s)
  {
    hide LittleEndian, FromLittleEndian, Pow2;
    Pow2Add(16, 16);
    Pow2Literals();
    LittleEndianRoundTrip(lib.crc32(s), FRAME_TRAILER_LENGTH);
    SmallMod(lib.crc32(s), Pow2(32));
  }

  lemma DecodeIntact(f: Format, lib: Library, h: bytes, stored: bytes, trailer: bytes, rest: bytes, word: nat)
    requires |h| == HeaderLength(f) && word == FromLittleEndian(h) && StoredLength(word) == |stored|
    requires And(Shr(word, 8 * Covered(f)), 0xffffff) == Crc24(LittleEndian(word, Covered(f)))
    requires |trailer| == FRAME_TRAILER_LENGTH && FromLittleEndian(trailer) == lib.crc32(stored)
    ensures Decode(f, lib, h + stored + trailer + rest) == Opened(f, lib, word, stored, rest)
  {
    hide Crc24, LittleEndian, FromLittleEndian, And, Shr, Opened;
    FrameSlices(h, stored, trailer, rest);
  }

  lemma FrameSlices(h: bytes, stored: bytes, trailer: bytes, rest: bytes)
    ensures var b := h + stored + trailer + rest;
      var payloadEnd := |h| + |stored|;
      var frameEnd := payloadEnd + |trailer|;
      b[..|h|] == h && b[|h|..payloadEnd] == stored
      && b[payloadEnd..frameEnd] == trailer && b[frameEnd..] == rest
  {
  }

  /** The decoder accepts every encoded frame, whatever follows it, and hands back the
      stored payload, expanded when the header announces an uncompressed length. */
  lemma DecodeRawFrame(f: Format, lib: Library, stored: bytes, uncompressed: nat, selfContained: bool, rest: bytes)
    requires Lawful(lib)
    requires |stored| < PAYLOAD_SIZE_LIMIT && uncompressed < PAYLOAD_SIZE_LIMIT
    ensures Decode(f, lib, RawFrame(f, lib, stored, uncompressed, selfContained) + rest)
            == if f.Uncompressed? || uncompressed == 0 then Frame(selfContained, stored, rest)
               else match lib.decompress(stored, uncompressed)
                    case Some(payload) => Frame(selfContained, payload, rest)
                    case None => Corrupt(DecompressionFailed)
  {
    hide Crc24, LittleEndian, FromLittleEndian, And, Shr, Header, Decode;
    var h := Header(f, |stored|, uncompressed, selfContained);
    var trailer := LittleEndian(lib.crc32(stored), FRAME_TRAILER_LENGTH);
    HeaderFields(f, |stored|, uncompressed, selfContained);
    HeaderAccepted(f, |stored|, uncompressed, selfContained);
    FromLittleEndianCrc(lib, stored);
    DecodeIntact(f, lib, h, stored, trailer, rest, FromLittleEndian(h));
  }

  /** Self-contained frames round-trip, for any trailing bytes. The lz4 format cannot
      represent an empty payload: an uncompressed length of zero means "stored as it is",
      so the decoder hands out the compressor's output for it. */
  lemma SelfContainedRoundTrip(f: Format, lib: Library, payload: bytes, rest: bytes)
    requires Lawful(lib)
    requires if f.Uncompressed? then |payload| < PAYLOAD_SIZE_LIMIT
             else lib.maxOutput(|payload|) < PAYLOAD_SIZE_LIMIT
    ensures Decode(f, lib, SelfContainedFrame(f, lib, payload) + rest)
            == Frame(true, if f.Lz4? && payload == [] then lib.compress([]) else payload, rest)
  {
    hide Decode, RawFrame;
    if f.Uncompressed? {
      DecodeRawFrame(f, lib, payload, 0, true, rest);
    } else {
      assert |lib.compress(payload)| <= lib.maxOutput(|payload|);
      DecodeRawFrame(f, lib, lib.compress(payload), |payload|, true, rest);
    }
  }

  /** Fragments round-trip, including those that lz4 stores as they are. */
  lemma FragmentRoundTrip(f: Format, lib: Library, payload: bytes, rest: bytes)
    requires Lawful(lib)
    requires 0 < |payload| < PAYLOAD_SIZE_LIMIT
    ensures Decode(f, lib, FragmentFrame(f, lib, payload) + rest) == Frame(false, payload, rest)
  {
    hide Decode, RawFrame;
    if f.Uncompressed? || |lib.compress(payload)| >= PAYLOAD_SIZE_LIMIT {
      DecodeRawFrame(f, lib, payload, 0, false, rest);
    } else {
      DecodeRawFrame(f, lib, lib.compress(payload), |payload|, false, rest);
    }
  }

  //
  // Stability: the verdict on the front of a buffer survives appended bytes
  //

  lemma DecodeStable(f: Format, lib: Library, b: bytes, more: bytes)
    ensures Decode(f, lib, b).Corrupt? ==> Decode(f, lib, b + more) == Decode(f, lib, b)
    ensures Decode(f, lib, b).Frame? ==>
              Decode(f, lib, b + more) == Decode(f, lib, b).(rest := Decode(f, lib, b).rest + more)
  {
    hide Crc24, LittleEndian, FromLittleEndian, And, Shr;
    if |b| >= HeaderLength(f) {
      var n := HeaderLength(f);
      assert (b + more)[..n] == b[..n];
      var payloadEnd := n + StoredLength(FromLittleEndian(b[..n]));
      var frameEnd := payloadEnd + FRAME_TRAILER_LENGTH;
      if |b| >= frameEnd {
        assert (b + more)[n..payloadEnd] == b[n..payloadEnd];
        assert (b + more)[payloadEnd..frameEnd] == b[payloadEnd..frameEnd];
        assert (b + more)[frameEnd..] == b[frameEnd..] + more;
      }
    }
  }

  /** A decoded frame takes at least a header and a trailer off the buffer. */
  lemma DecodeShrinks(f: Format, lib: Library, b: bytes)
    requires Decode(f, lib, b).Frame?
    ensures |Decode(f, lib, b).rest| + HeaderLength(f) + FRAME_TRAILER_LENGTH <= |b|
  {
    hide Crc24, LittleEndian, FromLittleEndian, And, Shr;
  }

  /** Damage to any single header byte of a frame is always reported. */
  lemma CorruptHeaderByteDetected(f: Format, lib: Library, b: bytes, i: nat, x: byte)
    requires |b| >= HeaderLength(f) && Decode(f, lib, b) != Corrupt(HeaderCrcMismatch)
    requires i < HeaderLength(f) && x != b[i]
    ensures Decode(f, lib, b[i := x]) == Corrupt(HeaderCrcMismatch)
  {
    hide Crc24, LittleEndian, FromLittleEndian, And, Shr, Opened;
    var n, k := HeaderLength(f), Covered(f);
    var d := b[i := x];
    HeaderCheck(f, b);
    HeaderCheck(f, d);
    if i < k {
      assert d[k..n] == b[k..n];
      assert d[..k] == b[..k][i := x];
      Crc24DetectsOneByte(b[..k], i, x);
    } else {
      assert d[..k] == b[..k];
      LittleEndianOfBytes(b[k..n]);
      LittleEndianOfBytes(d[k..n]);
      assert d[k..n][i - k] == x && b[k..n][i - k] == b[i];
    }
  }

  //
  // What an accepted frame is, byte by byte
  //

  /** A frame laid out as the format says: a header of six or eight bytes whose last three are
      the checksum of the others and whose low 17 bits are the stored length, the stored bytes,
      and four bytes with their crc32. */
  ghost predicate IntactFrame(f: Format, lib: Library, h: bytes, stored: bytes, trailer: bytes) {
    var n := if f.Uncompressed? then 3 else 5;
    && |h| == n + 3 && |trailer| == 4
    && FromLittleEndian(h) % 0x2_0000 == |stored|
    && FromLittleEndian(h[n..]) == Crc24(h[..n])
    && FromLittleEndian(trailer) == lib.crc32(stored)
  }

  /** What the header word says about the stored bytes: bit 17 (34 for lz4) marks a
      self-contained frame, and an lz4 frame has its uncompressed length, zero for none, in the
      17 bits above the stored length. */
  ghost predicate Announces(f: Format, lib: Library, word: nat, stored: bytes, selfContained: bool, payload: bytes) {
    match f
    case Uncompressed => (selfContained <==> word / 0x2_0000 % 2 == 1) && payload == stored
    case Lz4 =>
      var n := word / 0x2_0000 % 0x2_0000;
      && (selfContained <==> word / 0x4_0000_0000 % 2 == 1)
      && if n == 0 then payload == stored else lib.decompress(stored, n) == Some(payload)
  }

  lemma OpenedIff(f: Format, lib: Library, word: nat, stored: bytes, rest: bytes, selfContained: bool, payload: bytes)
    ensures Opened(f, lib, word, stored, rest) == Frame(selfContained, payload, rest)
            <==> Announces(f, lib, word, stored, selfContained, payload)
  {
    hide And, Pow2, Shl, Shr;
    Pow2Literals();
    FlagTest(word, 17, 0x2_0000);
    FlagTest(word, 34, 0x4_0000_0000);
    ShiftedWord(word, word / 0x2_0000);
    LengthMask(word / 0x2_0000);
  }

  lemma IntactIff(f: Format, lib: Library, h: bytes, stored: bytes, trailer: bytes)
    requires |h| == HeaderLength(f)
    ensures IntactFrame(f, lib, h, stored, trailer) <==>
      var word := FromLittleEndian(h);
      && |trailer| == FRAME_TRAILER_LENGTH && StoredLength(word) == |stored|
      && And(Shr(word, 8 * Covered(f)), 0xffffff) == Crc24(LittleEndian(word, Covered(f)))
      && FromLittleEndian(trailer) == lib.crc32(stored)
  {
    hide And, Shr, Crc24, FromLittleEndian, LittleEndian;
    LengthMask(FromLittleEndian(h));
    HeaderCheck(f, h);
    assert h[..HeaderLength(f)] == h && h[Covered(f)..HeaderLength(f)] == h[Covered(f)..];
  }

  /** A frame is accepted exactly when the buffer starts with an intact one, and then what
      comes out is what its header announces. */
  lemma AcceptedIff(f: Format, lib: Library, b: bytes, selfContained: bool, payload: bytes, rest: bytes)
    ensures Decode(f, lib, b) == Frame(selfContained, payload, rest) <==>
      exists h: bytes, stored: bytes, trailer: bytes ::
        && b == h + stored + trailer + rest && IntactFrame(f, lib, h, stored, trailer)
        && Announces(f, lib, FromLittleEndian(h), stored, selfContained, payload)
  {
    if Decode(f, lib, b) == Frame(selfContained, payload, rest) {
      AcceptedIsIntact(f, lib, b, selfContained, payload, rest);
    }
    if h: bytes, stored: bytes, trailer: bytes :|
      && b == h + stored + trailer + rest && IntactFrame(f, lib, h, stored, trailer)
      && Announces(f, lib, FromLittleEndian(h), stored, selfContained, payload) {
      IntactIff(f, lib, h, stored, trailer);
      OpenedIff(f, lib, FromLittleEndian(h), stored, rest, selfContained, payload);
      hide Decode, Opened, IntactFrame, Announces;
      DecodeIntact(f, lib, h, stored, trailer, rest, FromLittleEndian(h));
    }
  }

  lemma AcceptedIsIntact(f: Format, lib: Library, b: bytes, selfContained: bool, payload: bytes, rest: bytes)
    requires Decode(f, lib, b) == Frame(selfContained, payload, rest)
    ensures exists h: bytes, stored: bytes, trailer: bytes ::
        && b == h + stored + trailer + rest && IntactFrame(f, lib, h, stored, trailer)
        && Announces(f, lib, FromLittleEndian(h), stored, selfContained, payload)
  {
    hide And, Shr, Crc24, FromLittleEndian, LittleEndian, Opened;
    var n := HeaderLength(f);
    var word := FromLittleEndian(b[..n]);
    var payloadEnd := n + StoredLength(word);
    var frameEnd := payloadEnd + FRAME_TRAILER_LENGTH;
    var h, stored, trailer := b[..n], b[n..payloadEnd], b[payloadEnd..frameEnd];
    OpenedRest(f, lib, word, stored, b[frameEnd..]);
    IntactIff(f, lib, h, stored, trailer);
    OpenedIff(f, lib, word, stored, rest, selfContained, payload);
    hide Decode, IntactFrame, Announces;
    assert b == h + stored + trailer + rest;
  }

  lemma OpenedRest(f: Format, lib: Library, word: nat, stored: bytes, rest: bytes)
    ensures Opened(f, lib, word, stored, rest).Frame? ==> Opened(f, lib, word, stored, rest).rest == rest
  {
  }

  /** What lies between header and trailer: the payload itself, or its compression. A fragment is
      stored as it is only when its compression would reach 2^17 bytes. */
  lemma StoredBytes(lib: Library, payload: bytes)
    ensures var b := SelfContainedFrame(Uncompressed, lib, payload);
      |b| == 6 + |payload| + 4 && b[6..6 + |payload|] == payload
    ensures var b, s := SelfContainedFrame(Lz4, lib, payload), lib.compress(payload);
      |b| == 8 + |s| + 4 && b[8..8 + |s|] == s
    ensures var b := FragmentFrame(Uncompressed, lib, payload);
      |b| == 6 + |payload| + 4 && b[6..6 + |payload|] == payload
    ensures var b, s := FragmentFrame(Lz4, lib, payload),
        if |lib.compress(payload)| < 0x2_0000 then lib.compress(payload) else payload;
      |b| == 8 + |s| + 4 && b[8..8 + |s|] == s
  {
    StoredIn(Uncompressed, lib, payload, 0, true);
    StoredIn(Lz4, lib, lib.compress(payload), |payload|, true);
    StoredIn(Uncompressed, lib, payload, 0, false);
    StoredIn(Lz4, lib, lib.compress(payload), |payload|, false);
    StoredIn(Lz4, lib, payload, 0, false);
    hide RawFrame;
  }

  lemma StoredIn(f: Format, lib: Library, stored: bytes, uncompressed: nat, selfContained: bool)
    ensures var b, n := RawFrame(f, lib, stored, uncompressed, selfContained), HeaderLength(f);
      |b| == n + |stored| + FRAME_TRAILER_LENGTH && b[n..n + |stored|] == stored
  {
    hide Header, LittleEndian;
  }
}
