/** The frame encoders: a buffer that starts with room for a header, collects envelopes and
    is sealed in place into a frame. */
module FrameEncoder {
  import opened Bits
  import opened Bytes
  import opened Crc
  import opened Frames

  /** Which implementation sits behind the encoder interface. */
  datatype Encoding = Legacy | InFrames(format: Format)

  /** Position of the checksum in the 64-bit lz4 header. */
  const CHECKSUM_SHIFT: nat := 40

  function Reserved(k: Encoding): nat {
    match k
    case Legacy => 0
    case InFrames(f) => HeaderLength(f)
  }

  /** Whether `more` bytes can join a frame that already holds `held` bytes. The lz4
      encoder assumes the worst compression ratio. */
  predicate FitsFrame(k: Encoding, lib: Library, held: nat, more: nat) {
    match k
    case Legacy => held == 0
    case InFrames(Uncompressed) => held + more < PAYLOAD_SIZE_LIMIT
    case InFrames(Lz4) => lib.maxOutput(held + more) < PAYLOAD_SIZE_LIMIT
  }

  /** A frame holds 131071 payload bytes at most. */
  lemma FrameLimit(lib: Library, held: nat, more: nat)
    ensures FitsFrame(InFrames(Uncompressed), lib, held, more) <==> held + more <= 131071
    ensures FitsFrame(InFrames(Lz4), lib, held, more) <==> lib.maxOutput(held + more) <= 131071
  {
  }

  /** The bytes sent for a self-contained payload. */
  function Sealed(k: Encoding, lib: Library, payload: bytes): bytes {
    match k
    case Legacy => payload
    case InFrames(f) => SelfContainedFrame(f, lib, payload)
  }

  function FragmentSize(k: Encoding, n: nat): nat {
    if k.Legacy? || n < PAYLOAD_SIZE_LIMIT then n else PAYLOAD_SIZE_LIMIT - 1
  }

  function Fragment(k: Encoding, lib: Library, piece: bytes): bytes {
    match k
    case Legacy => piece
    case InFrames(f) => FragmentFrame(f, lib, piece)
  }

  function Truncated(b: bytes, n: nat): bytes { if |b| <= n then b else b[..n] }

  function Resized(b: bytes, n: nat): (r: bytes)
    ensures |r| == n
    ensures r[..if n < |b| then n else |b|] == b[..if n < |b| then n else |b|]
  {
    if n <= |b| then b[..n] else b + Zeros(n - |b|)
  }

  class FrameEncoder {
    const kind: Encoding
    const lib: Library
    var buffer: bytes

    ghost predicate Valid()
      reads this
    {
      |buffer| >= Reserved(kind)
    }

    /** The envelopes collected so far. */
    ghost function Payload(): bytes
      requires Valid()
      reads this
    {
      buffer[Reserved(kind)..]
    }

    constructor (kind: Encoding, lib: Library)
      ensures this.kind == kind && this.lib == lib && Valid() && Payload() == []
    {
      this.kind, this.lib := kind, lib;
      buffer := Zeros(Reserved(kind));
    }

    predicate CanFit(len: nat)
      requires Valid()
      reads this
      ensures CanFit(len) <==> FitsFrame(kind, lib, |Payload()|, len)
    {
      match kind
      case Legacy => buffer == []
      case InFrames(Uncompressed) => |buffer| - HeaderLength(Uncompressed) + len < PAYLOAD_SIZE_LIMIT
      case InFrames(Lz4) => lib.maxOutput(|buffer| - HeaderLength(Lz4) + len) < PAYLOAD_SIZE_LIMIT
    }

    predicate HasEnvelopes()
      requires Valid()
      reads this
      ensures HasEnvelopes() <==> Payload() != []
    {
      |buffer| > Reserved(kind)
    }

    method Reset()
      requires Valid()
      modifies this
      ensures Valid() && Payload() == []
    {
      buffer := Truncated(buffer, Reserved(kind));
    }

    /** The legacy encoder replaces its buffer, the others append. */
    method AddEnvelope(envelope: bytes)
      requires Valid() && (kind.Legacy? ==> Payload() == [])
      modifies this
      ensures Valid() && Payload() == old(Payload()) + envelope
    {
      buffer := if kind.Legacy? then envelope else buffer + envelope;
    }

    /** Checksum of everything after the header, appended to the buffer. */
    method AddTrailer()
      requires Valid()
      modifies this
      ensures Valid() && buffer == old(buffer) + LittleEndian(lib.crc32(old(Payload())), FRAME_TRAILER_LENGTH)
    {
      buffer := buffer + LittleEndian(lib.crc32(buffer[Reserved(kind)..]), FRAME_TRAILER_LENGTH);
    }

    method WriteUncompressedHeader(selfContained: bool)
      requires Valid() && kind == InFrames(Uncompressed) && |Payload()| < PAYLOAD_SIZE_LIMIT
      modifies this
      ensures Valid() && Payload() == old(Payload())
      ensures buffer == Header(Uncompressed, |Payload()|, 0, selfContained) + Payload()
    {
      hide LittleEndian, Crc24, Or, Shl;
      ghost var payload := Payload();
      var f := kind.format;
      var len := |buffer| - HeaderLength(f);
      if selfContained {
        len := Or(len, Shl(1, 17));
      }
      var covered := LittleEndian(len, Covered(f));
      buffer := Overwritten(buffer, 0, covered);
      var crc := ComputeCrc24(covered);
      buffer := Overwritten(buffer, Covered(f), LittleEndian(crc, CRC24_LENGTH));
      Patched(buffer, covered, LittleEndian(crc, CRC24_LENGTH), payload);
    }

    method WriteLz4Header(uncompressed: nat, selfContained: bool)
      requires Valid() && kind == InFrames(Lz4)
      requires |Payload()| < PAYLOAD_SIZE_LIMIT && uncompressed < PAYLOAD_SIZE_LIMIT
      modifies this
      ensures Valid() && Payload() == old(Payload())
      ensures buffer == Header(Lz4, |Payload()|, uncompressed, selfContained) + Payload()
    {
      hide LittleEndian, Crc24, Or, Shl;
      ghost var payload := Payload();
      var f := kind.format;
      var header := Or(|buffer| - HeaderLength(f), Shl(uncompressed, 17));
      if selfContained {
        header := Or(header, Shl(1, 34));
      }
      var crc := ComputeCrc24(LittleEndian(header, Covered(f)));
      Lz4HeaderBytes(f, |payload|, uncompressed, selfContained);
      var word := Or(header, Shl(crc, CHECKSUM_SHIFT));
      buffer := Overwritten(buffer, 0, LittleEndian(word, HeaderLength(f)));
      Split(buffer, HeaderLength(f));
    }

    method SealUncompressed(selfContained: bool)
      requires Valid() && kind == InFrames(Uncompressed) && |Payload()| < PAYLOAD_SIZE_LIMIT
      modifies this
      ensures Valid() && buffer == RawFrame(kind.format, lib, old(Payload()), 0, selfContained)
    {
      hide Header, LittleEndian;
      WriteUncompressedHeader(selfContained);
      AddTrailer();
    }

    method SealLz4(uncompressed: nat, selfContained: bool)
      requires Valid() && kind == InFrames(Lz4)
      requires |Payload()| < PAYLOAD_SIZE_LIMIT && uncompressed < PAYLOAD_SIZE_LIMIT
      modifies this
      ensures Valid() && buffer == RawFrame(kind.format, lib, old(Payload()), uncompressed, selfContained)
    {
      hide Header, LittleEndian;
      WriteLz4Header(uncompressed, selfContained);
      AddTrailer();
    }

    method CompressPayload() returns (uncompressed: nat)
      requires Valid() && kind == InFrames(Lz4)
      modifies this
      ensures Valid() && uncompressed == |old(Payload())| && Payload() == lib.compress(old(Payload()))
    {
      uncompressed := |buffer| - HeaderLength(kind.format);
      var compressed := lib.compress(buffer[HeaderLength(kind.format)..]);
      buffer := Truncated(buffer, HeaderLength(kind.format));
      buffer := buffer + compressed;
    }

    method FinalizeSelfContained() returns (frame: bytes)
      requires Valid() && Lawful(lib) && FitsFrame(kind, lib, 0, |Payload()|)
      modifies this
      ensures Valid() && frame == buffer == Sealed(kind, lib, old(Payload()))
    {
      hide RawFrame, Lawful;
      CompressorRoom(lib, Payload());
      if kind.Legacy? {
        assert buffer[0..] == buffer;
      } else if kind.format.Uncompressed? {
        SealUncompressed(true);
      } else {
        var uncompressed := CompressPayload();
        SealLz4(uncompressed, true);
      }
      return buffer;
    }

    /** Takes as much of a large envelope as one frame can hold. */
    method FinalizeNonSelfContained(envelope: bytes) returns (taken: nat, frame: bytes)
      requires Valid() && Payload() == [] && Lawful(lib)
      modifies this
      ensures Valid() && taken == FragmentSize(kind, |envelope|)
      ensures frame == buffer == Fragment(kind, lib, envelope[..taken])
    {
      hide FragmentFrame, Lawful;
      taken := FragmentSize(kind, |envelope|);
      var piece := envelope[..taken];
      if kind.Legacy? {
        buffer := piece;
      } else if kind.format.Uncompressed? {
        SealUncompressedPiece(piece);
      } else {
        SealLz4Piece(piece);
      }
      return taken, buffer;
    }

    method SealUncompressedPiece(piece: bytes)
      requires Valid() && Payload() == [] && kind == InFrames(Uncompressed) && |piece| < PAYLOAD_SIZE_LIMIT
      modifies this
      ensures Valid() && buffer == FragmentFrame(kind.format, lib, piece)
    {
      hide RawFrame;
      buffer := buffer + piece;
      assert Payload() == piece;
      SealUncompressed(false);
    }

    method SealLz4Piece(piece: bytes)
      requires Valid() && kind == InFrames(Lz4) && Lawful(lib) && |piece| < PAYLOAD_SIZE_LIMIT
      modifies this
      ensures Valid() && buffer == FragmentFrame(kind.format, lib, piece)
    {
      hide RawFrame;
      CompressorRoom(lib, piece);
      hide Lawful;
      var uncompressed := CompressInto(piece);
      SealLz4(uncompressed, false);
    }

    /** Compresses into the resized buffer; output that reaches the payload limit is
        replaced by the piece itself, announced by returning zero. */
    method CompressInto(piece: bytes) returns (uncompressed: nat)
      requires Valid() && kind == InFrames(Lz4) && |piece| < PAYLOAD_SIZE_LIMIT
      requires |lib.compress(piece)| <= lib.maxOutput(|piece|) && |piece| <= lib.maxOutput(|piece|)
      modifies this
      ensures Valid() && |Payload()| < PAYLOAD_SIZE_LIMIT
      ensures if |lib.compress(piece)| >= PAYLOAD_SIZE_LIMIT
              then Payload() == piece && uncompressed == 0
              else Payload() == lib.compress(piece) && uncompressed == |piece|
    {
      var h := HeaderLength(kind.format);
      uncompressed := |piece|;
      buffer := Resized(buffer, lib.maxOutput(|piece|) + h + FRAME_TRAILER_LENGTH);
      var compressed := lib.compress(piece);
      buffer := Overwritten(buffer, h, compressed);
      var size := |compressed|;
      if size >= PAYLOAD_SIZE_LIMIT {
        buffer := Overwritten(buffer, h, piece);
        size, uncompressed := |piece|, 0;
      }
      ghost var written := buffer[h..h + size];
      buffer := Truncated(buffer, h + size);
      assert buffer[h..] == written;
    }
  }

  lemma CompressorRoom(lib: Library, piece: bytes)
    requires Lawful(lib)
    ensures |lib.compress(piece)| <= lib.maxOutput(|piece|) && |piece| <= lib.maxOutput(|piece|)
  {
  }

  lemma Patched(b: bytes, covered: bytes, crc: bytes, payload: bytes)
    requires |b| == |covered| + |crc| + |payload|
    requires b[..|covered|] == covered && b[|covered|..|covered| + |crc|] == crc
    requires b[|covered| + |crc|..] == payload
    ensures b == covered + crc + payload
  {
  }

  lemma Split(b: bytes, n: nat)
    requires n <= |b|
    ensures b == b[..n] + b[n..]
  {
  }

  /** A word below 2^8n with another field above it splits into the bytes of both. */
  lemma {:induction false} LittleEndianConcat(lo: nat, n: nat, hi: nat, m: nat)
    requires lo < Pow2(8 * n)
    ensures LittleEndian(lo + Pow2(8 * n) * hi, n + m) == LittleEndian(lo, n) + LittleEndian(hi, m)
    decreases n
  {
    if n > 0 {
      hide Pow2;
      var p := Pow2(8 * (n - 1));
      Pow2Byte(n);
      Scaled(p, hi);
      LowByte(lo, p * hi);
      QuotientBelow(lo, p);
      LittleEndianConcat(lo / 256, n - 1, hi, m);
    }
  }

  lemma LowByte(lo: nat, x: nat)
    ensures (lo + 256 * x) % 256 == lo % 256 && (lo + 256 * x) / 256 == lo / 256 + x
  {
  }

  lemma QuotientBelow(lo: nat, p: nat)
    requires lo < 256 * p
    ensures lo / 256 < p
  {
  }

  /** Writing the lz4 header as one 64-bit word gives the same bytes as writing the covered
      part and its checksum separately. */
  lemma Lz4HeaderBytes(f: Format, stored: nat, uncompressed: nat, selfContained: bool)
    requires f.Lz4? && stored < PAYLOAD_SIZE_LIMIT && uncompressed < PAYLOAD_SIZE_LIMIT
    ensures var w := HeaderWord(f, stored, uncompressed, selfContained);
      LittleEndian(Or(w, Shl(Crc24(LittleEndian(w, Covered(f))), CHECKSUM_SHIFT)), HeaderLength(f))
      == Header(f, stored, uncompressed, selfContained)
  {
    hide Crc24, LittleEndian, HeaderWord, Or, Pow2;
    var w := HeaderWord(f, stored, uncompressed, selfContained);
    HeaderWordSum(f, stored, uncompressed, selfContained);
    Weights(f);
    HeaderWordBytes(w, Covered(f), Crc24(LittleEndian(w, Covered(f))));
  }

  lemma HeaderWordBytes(w: nat, n: nat, crc: nat)
    requires n == 5 && w < Pow2(8 * n)
    ensures LittleEndian(Or(w, Shl(crc, CHECKSUM_SHIFT)), n + CRC24_LENGTH) == LittleEndian(w, n) + LittleEndian(crc, CRC24_LENGTH)
  {
    hide Or, Pow2, LittleEndian;
    ChecksumAbove(w, n, crc);
    LittleEndianConcat(w, n, crc, CRC24_LENGTH);
  }

  lemma ChecksumAbove(w: nat, n: nat, crc: nat)
    requires n == 5 && w < Pow2(8 * n)
    ensures Or(w, Shl(crc, CHECKSUM_SHIFT)) == w + Pow2(8 * n) * crc
  {
    hide Or, Pow2;
    assert 8 * n == CHECKSUM_SHIFT;
    OrDisjoint(w, crc, CHECKSUM_SHIFT);
    Commute(crc, Pow2(CHECKSUM_SHIFT));
  }
}
