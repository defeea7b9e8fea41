/** The streaming decoders: pre-v5 envelopes straight off the wire, and v5 frames that
    carry whole envelopes or fragments of a large one. */
module FrameDecoder {
  import opened Options
  import opened Bits
  import opened Bytes
  import opened Crc
  import opened Frames
  import opened Envelopes

  datatype DecodeError =
    | FrameFault(frame: FrameError)
    | EnvelopeFault(envelope: EnvelopeError)
    | UnexpectedSelfContained

  datatype Result<+T> = Success(value: T) | Failure(error: DecodeError)

  //
  // Envelopes in a buffer
  //

  datatype Extracted = Extracted(envelopes: seq<Envelope>, rest: bytes) | Broken(error: EnvelopeError)

  /** Every complete envelope at the front of `b`, and the bytes after them. */
  function Extract(b: bytes, c: Compression): (r: Extracted)
    ensures r.Extracted? ==> |r.rest| <= |b|
    decreases |b|
  {
    match FromBuffer(b, c)
    case NotEnoughBytes => Extracted([], b)
    case Failed(error) => Broken(error)
    case Parsed(n, e) =>
      FromBufferProgress(b, c);
      Found([e], Extract(b[n..], c))
  }

  function Found(envelopes: seq<Envelope>, r: Extracted): Extracted {
    match r
    case Broken(error) => Broken(error)
    case Extracted(later, rest) => Extracted(envelopes + later, rest)
  }

  lemma FoundNone(r: Extracted)
    ensures Found([], r) == r
  {
    if r.Extracted? {
      assert [] + r.envelopes == r.envelopes;
    }
  }

  lemma FoundTwice(a: seq<Envelope>, b: seq<Envelope>, r: Extracted)
    ensures Found(a, Found(b, r)) == Found(a + b, r)
  {
    if r.Extracted? {
      assert a + (b + r.envelopes) == (a + b) + r.envelopes;
    }
  }

  /** The extraction loop, which moves a position through the buffer. */
  method ExtractEnvelopes(b: bytes, c: Compression) returns (r: Extracted)
    ensures r == Extract(b, c)
  {
    hide FromBuffer;
    var pos := 0;
    var envelopes := [];
    assert b[0..] == b;
    FoundNone(Extract(b, c));
    var next := FromBuffer(b, c);
    while next.Parsed?
      invariant 0 <= pos <= |b| && next == FromBuffer(b[pos..], c)
      invariant Extract(b, c) == Found(envelopes, Extract(b[pos..], c))
      decreases |b| - pos
    {
      ParsedStep(b, pos, c);
      FoundTwice(envelopes, [next.envelope], Extract(b[pos + next.length..], c));
      envelopes := envelopes + [next.envelope];
      pos := pos + next.length;
      next := FromBuffer(b[pos..], c);
    }
    if next.Failed? {
      return Broken(next.error);
    }
    assert envelopes + [] == envelopes;
    return Extracted(envelopes, b[pos..]);
  }

  lemma ParsedStep(b: bytes, pos: nat, c: Compression)
    requires pos <= |b| && FromBuffer(b[pos..], c).Parsed?
    ensures var next := FromBuffer(b[pos..], c);
      0 < next.length <= |b| - pos
      && Extract(b[pos..], c) == Found([next.envelope], Extract(b[pos + next.length..], c))
  {
    hide FromBuffer;
    FromBufferProgress(b[pos..], c);
    assert b[pos..][FromBuffer(b[pos..], c).length..] == b[pos + FromBuffer(b[pos..], c).length..];
  }

  /** One parsing step is not affected by bytes behind it. */
  lemma ParseStepAppend(b: bytes, more: bytes, c: Compression)
    requires FromBuffer(b, c).Parsed?
    ensures var n := FromBuffer(b, c).length;
      && 0 < n <= |b| && FromBuffer(b + more, c) == FromBuffer(b, c)
      && (b + more)[n..] == b[n..] + more
  {
    hide FromBuffer;
    FromBufferStable(b, more, c);
    FromBufferProgress(b, c);
  }

  /** Extraction can be interrupted: what is left over plus later bytes continues it. */
  lemma {:induction false} ExtractAppend(b: bytes, more: bytes, c: Compression)
    ensures Extract(b + more, c) ==
      match Extract(b, c)
      case Broken(error) => Broken(error)
      case Extracted(envelopes, rest) => Found(envelopes, Extract(rest + more, c))
    decreases |b|
  {
    var next := FromBuffer(b, c);
    if next.NotEnoughBytes? {
      FoundNone(Extract(b + more, c));
    } else if next.Failed? {
      FromBufferStable(b, more, c);
    } else {
      ParseStepAppend(b, more, c);
      ExtractAppend(b[next.length..], more, c);
      var tail := Extract(b[next.length..], c);
      if tail.Extracted? {
        FoundTwice([next.envelope], tail.envelopes, Extract(tail.rest + more, c));
      }
    }
  }

  /** Extraction leaves no complete envelope behind. */
  lemma {:induction false} ExtractSettles(b: bytes, c: Compression)
    requires Extract(b, c).Extracted?
    ensures FromBuffer(Extract(b, c).rest, c).NotEnoughBytes?
    decreases |b|
  {
    if FromBuffer(b, c).Parsed? {
      FromBufferProgress(b, c);
      ExtractSettles(b[FromBuffer(b, c).length..], c);
    }
  }

  //
  // Pre-v5 decoder
  //

  /** Outcome of feeding bytes to a decoder: envelopes and the next state, or an error. */
  datatype Outcome<+S> = Delivered(envelopes: seq<Envelope>, state: S) | Stopped(error: DecodeError)

  function Preceded<S>(envelopes: seq<Envelope>, o: Outcome<S>): Outcome<S> {
    match o
    case Delivered(later, state) => Delivered(envelopes + later, state)
    case Stopped(error) => Stopped(error)
  }

  lemma PrecededByNone<S>(o: Outcome<S>)
    ensures Preceded([], o) == o
  {
    if o.Delivered? {
      assert [] + o.envelopes == o.envelopes;
    }
  }

  lemma PrecededTwice<S>(a: seq<Envelope>, b: seq<Envelope>, o: Outcome<S>)
    ensures Preceded(a, Preceded(b, o)) == Preceded(a + b, o)
  {
    if o.Delivered? {
      assert a + (b + o.envelopes) == (a + b) + o.envelopes;
    }
  }

  /** Meaning of one call of the legacy decoder with `buffer` left from earlier calls. */
  function LegacyConsume(c: Compression, buffer: bytes, data: bytes): Outcome<bytes> {
    match Extract(buffer + data, c)
    case Broken(error) => Stopped(EnvelopeFault(error))
    case Extracted(envelopes, rest) => Delivered(envelopes, rest)
  }

  class LegacyFrameDecoder {
    var buffer: bytes

    constructor ()
      ensures buffer == []
    {
      buffer := [];
    }

    method Consume(data: bytes, c: Compression) returns (r: Result<seq<Envelope>>)
      modifies this
      ensures match LegacyConsume(c, old(buffer), data)
              case Delivered(envelopes, state) => r == Success(envelopes) && buffer == state
              case Stopped(error) => r == Failure(error)
    {
      if buffer == [] {
        assert buffer + data == data;
        var extracted := ExtractEnvelopes(data, c);
        if extracted.Broken? { return Failure(EnvelopeFault(extracted.error)); }
        buffer := extracted.rest;
        return Success(extracted.envelopes);
      }
      buffer := buffer + data;
      var extracted := ExtractEnvelopes(buffer, c);
      if extracted.Broken? { return Failure(EnvelopeFault(extracted.error)); }
      buffer := extracted.rest;
      return Success(extracted.envelopes);
    }
  }

  /** Feeding chunk after chunk, stopping at the first error as the reader does. */
  function LegacyConsumeAll(c: Compression, buffer: bytes, chunks: seq<bytes>): Outcome<bytes>
    decreases |chunks|
  {
    if chunks == [] then Delivered([], buffer)
    else
      match LegacyConsume(c, buffer, chunks[0])
      case Stopped(error) => Stopped(error)
      case Delivered(envelopes, state) => Preceded(envelopes, LegacyConsumeAll(c, state, chunks[1..]))
  }

  /** A buffer that holds no complete envelope: the state between two calls. */
  predicate Settled(c: Compression, buffer: bytes) { FromBuffer(buffer, c).NotEnoughBytes? }

  lemma LegacyConsumeAppend(c: Compression, buffer: bytes, first: bytes, more: bytes)
    ensures LegacyConsume(c, buffer, first + more) ==
      match LegacyConsume(c, buffer, first)
      case Stopped(error) => Stopped(error)
      case Delivered(envelopes, state) => Preceded(envelopes, LegacyConsume(c, state, more))
  {
    assert buffer + (first + more) == (buffer + first) + more;
    ExtractAppend(buffer + first, more, c);
  }

  /** Chunking does not matter to the legacy decoder: from any state between two calls,
      cutting a stream into reads in any way gives the same envelopes in the same order and
      the same state, and fails exactly when (and as) the uncut stream fails. */
  lemma {:induction false} LegacyChunkingInvariance(c: Compression, buffer: bytes, chunks: seq<bytes>)
    requires Settled(c, buffer)
    ensures LegacyConsumeAll(c, buffer, chunks) == LegacyConsume(c, buffer, Join(chunks))
    decreases |chunks|
  {
    if chunks == [] {
      assert buffer + [] == buffer;
    } else {
      var head := LegacyConsume(c, buffer, chunks[0]);
      JoinCons(chunks);
      LegacyConsumeAppend(c, buffer, chunks[0], Join(chunks[1..]));
      if head.Delivered? {
        ExtractSettles(buffer + chunks[0], c);
        LegacyChunkingInvariance(c, head.state, chunks[1..]);
      }
    }
  }

  //
  // Reading one frame
  //

  /** Reading six header bytes one by one, or masking an eight-byte word, gives the same. */
  lemma MaskedWord(b: bytes)
    requires |b| >= 8
    ensures And(FromLittleEndian(b[..8]), 0xffff_ffff_ffff) == FromLittleEndian(b[..6])
  {
    var w := b[..8];
    LittleEndianSplit(w, 6);
    assert w[..6] == b[..6];
    FromLittleEndianRange(b[..6]);
    AndMask(FromLittleEndian(w), 48);
    Pow2Literals();
    Pow2Add(24, 24);
    var hi := FromLittleEndian(w[6..]);
    assert Pow2(48) * hi == hi * Pow2(48);
    DivModUnique(FromLittleEndian(w), Pow2(48), hi, FromLittleEndian(b[..6]));
  }

  lemma NextByte(b: bytes, i: nat)
    requires i < |b|
    ensures Or(FromLittleEndian(b[..i]), Shl(b[i], 8 * i)) == FromLittleEndian(b[..i + 1])
  {
    OneMoreByte(b[..i], b[i]);
    assert b[..i + 1] == b[..i] + [b[i]];
    FromLittleEndianRange(b[..i]);
    OrDisjoint(FromLittleEndian(b[..i]), b[i], 8 * i);
  }

  lemma OneMoreByte(s: bytes, x: byte)
    ensures FromLittleEndian(s + [x]) == FromLittleEndian(s) + x * Pow2(8 * |s|)
  {
    LittleEndianSplit(s + [x], |s|);
    assert (s + [x])[..|s|] == s && (s + [x])[|s|..] == [x];
    assert FromLittleEndian([x]) == x by { assert [x][1..] == []; }
    Commute(Pow2(8 * |s|), x);
  }

  method ReadUncompressedHeader(b: bytes) returns (word: nat)
    requires |b| >= 6
    ensures word == FromLittleEndian(b[..6])
  {
    if |b| >= 8 {
      MaskedWord(b);
      word := And(FromLittleEndian(b[..8]), 0xffff_ffff_ffff);
    } else {
      word := 0;
      for i := 0 to 6
        invariant word == FromLittleEndian(b[..i])
      {
        NextByte(b, i);
        word := Or(word, Shl(b[i], 8 * i));
      }
    }
  }

  /** `UncompressedFrameDecoder::try_decode_frame`. */
  method TryDecodeUncompressed(lib: Library, b: bytes) returns (d: Decoded)
    ensures d == Decode(Uncompressed, lib, b)
  {
    hide And, Shr, Shl, Crc24, LittleEndian, FromLittleEndian;
    var f := Format.Uncompressed;
    if |b| < HeaderLength(f) { return Incomplete; }
    var word := ReadUncompressedHeader(b);
    var headerCrc := And(Shr(word, 8 * Covered(f)), 0xffffff);
    var computed := ComputeCrc24(LittleEndian(word, Covered(f)));
    if headerCrc != computed { return Corrupt(HeaderCrcMismatch); }
    var payloadEnd := HeaderLength(f) + StoredLength(word);
    var frameEnd := payloadEnd + FRAME_TRAILER_LENGTH;
    if |b| < frameEnd { return Incomplete; }
    var payload := b[HeaderLength(f)..payloadEnd];
    if FromLittleEndian(b[payloadEnd..frameEnd]) != lib.crc32(payload) { return Corrupt(PayloadCrcMismatch); }
    return Frame(And(word, Shl(1, FlagBit(f))) != 0, payload, b[frameEnd..]);
  }

  /** `Lz4FrameDecoder::try_decode_frame`. */
  method TryDecodeLz4(lib: Library, b: bytes) returns (d: Decoded)
    ensures d == Decode(Lz4, lib, b)
  {
    hide And, Shr, Crc24, LittleEndian, FromLittleEndian, Opened;
    var f := Format.Lz4;
    if |b| < HeaderLength(f) { return Incomplete; }
    var word := FromLittleEndian(b[..HeaderLength(f)]);
    var headerCrc := And(Shr(word, 8 * Covered(f)), 0xffffff);
    var computed := ComputeCrc24(LittleEndian(word, Covered(f)));
    if headerCrc != computed { return Corrupt(HeaderCrcMismatch); }
    var payloadEnd := HeaderLength(f) + StoredLength(word);
    var frameEnd := payloadEnd + FRAME_TRAILER_LENGTH;
    if |b| < frameEnd { return Incomplete; }
    var stored := b[HeaderLength(f)..payloadEnd];
    if FromLittleEndian(b[payloadEnd..frameEnd]) != lib.crc32(stored) { return Corrupt(PayloadCrcMismatch); }
    d := Expand(lib, word, stored, b[frameEnd..]);
  }

  /** An uncompressed length of zero means the payload is used as it is. */
  method Expand(lib: Library, word: nat, stored: bytes, rest: bytes) returns (d: Decoded)
    ensures d == Opened(Lz4, lib, word, stored, rest)
  {
    var selfContained := And(word, Shl(1, FlagBit(Lz4))) != 0;
    var uncompressed := UncompressedLength(word);
    if uncompressed == 0 { return Frame(selfContained, stored, rest); }
    var payload := lib.decompress(stored, uncompressed);
    if payload.None? { return Corrupt(DecompressionFailed); }
    return Frame(selfContained, payload.value, rest);
  }

  method TryDecode(f: Format, lib: Library, b: bytes) returns (d: Decoded)
    ensures d == Decode(f, lib, b)
  {
    if f.Uncompressed? {
      d := TryDecodeUncompressed(lib, b);
    } else {
      d := TryDecodeLz4(lib, b);
    }
  }

  //
  // v5 decoder
  //

  /** Bytes of an unfinished frame, fragments of an unfinished envelope, and the body length
      read from the first fragments. The length is kept after the envelope is complete. */
  datatype State = State(frames: bytes, payload: bytes, expected: Option<int>)

  const FRESH: State := State([], [], None)

  /** The body length in a fragment buffer, once its header is there. */
  function BodyLength(payload: bytes): Option<int> {
    if |payload| < ENVELOPE_HEADER_LEN then None else Some(AsUsize(HeaderLengthField(payload)))
  }

  function HeaderLengthField(payload: bytes): int
    requires |payload| >= ENVELOPE_HEADER_LEN
  {
    SignedBigEndian(payload[5..9])
  }

  /** What the fragments collected so far yield. */
  function Reassemble(frames: bytes, payload: bytes, expected: Option<int>): (r: Outcome<State>)
    ensures r.Delivered? ==> r.state.frames == frames
  {
    var expected' := if expected.Some? then expected else BodyLength(payload);
    if expected'.None? || |payload| < expected'.value then Delivered([], State(frames, payload, expected'))
    else
      match Extract(payload, NoCompression)
      case Broken(error) => Stopped(EnvelopeFault(error))
      case Extracted(envelopes, _) => Delivered(envelopes, State(frames, [], expected'))
  }

  /** One decoded frame; `s.frames` holds the bytes after it. */
  function HandleFrame(s: State, selfContained: bool, frame: bytes): (r: Outcome<State>)
    ensures r.Delivered? ==> r.state.frames == s.frames
  {
    if selfContained then
      if s.payload != [] then Stopped(UnexpectedSelfContained)
      else
        match Extract(frame, NoCompression)
        case Broken(error) => Stopped(EnvelopeFault(error))
        case Extracted(envelopes, _) => Delivered(envelopes, s)
    else Reassemble(s.frames, s.payload + frame, s.expected)
  }

  /** All complete frames in the buffer, one after the other. */
  function Drain(f: Format, lib: Library, s: State): Outcome<State>
    decreases |s.frames|
  {
    match Decode(f, lib, s.frames)
    case Incomplete => Delivered([], s)
    case Corrupt(error) => Stopped(FrameFault(error))
    case Frame(selfContained, frame, rest) =>
      DecodeShrinks(f, lib, s.frames);
      match HandleFrame(s.(frames := rest), selfContained, frame)
      case Stopped(error) => Stopped(error)
      case Delivered(envelopes, s') =>
        Preceded(envelopes, Drain(f, lib, s'))
  }

  /** Meaning of one call of the v5 decoder. */
  function Consume(f: Format, lib: Library, s: State, data: bytes): Outcome<State> {
    Drain(f, lib, s.(frames := s.frames + data))
  }

  class GenericFrameDecoder {
    const format: Format
    const lib: Library
    var frameBuffer: bytes
    var payloadBuffer: bytes
    var expectedPayloadLen: Option<int>

    constructor (format: Format, lib: Library)
      ensures this.format == format && this.lib == lib && Value() == FRESH
    {
      this.format, this.lib := format, lib;
      frameBuffer, payloadBuffer, expectedPayloadLen := [], [], None;
    }

    ghost function Value(): State
      reads this
    {
      State(frameBuffer, payloadBuffer, expectedPayloadLen)
    }

    method ExtractNonSelfContained() returns (r: Result<seq<Envelope>>)
      modifies this
      ensures frameBuffer == old(frameBuffer)
      ensures match Reassemble(frameBuffer, old(payloadBuffer), old(expectedPayloadLen))
              case Delivered(envelopes, s) => r == Success(envelopes) && Value() == s
              case Stopped(error) => r == Failure(error)
    {
      if expectedPayloadLen.None? {
        expectedPayloadLen := BodyLength(payloadBuffer);
        if expectedPayloadLen.None? { return Success([]); }
      }
      if |payloadBuffer| < expectedPayloadLen.value { return Success([]); }
      var extracted := ExtractEnvelopes(payloadBuffer, NoCompression);
      if extracted.Broken? { return Failure(EnvelopeFault(extracted.error)); }
      payloadBuffer := [];
      return Success(extracted.envelopes);
    }

    method Handle(selfContained: bool, frame: bytes) returns (r: Result<seq<Envelope>>)
      modifies this
      ensures frameBuffer == old(frameBuffer)
      ensures match HandleFrame(old(Value()), selfContained, frame)
              case Delivered(envelopes, s) => r == Success(envelopes) && Value() == s
              case Stopped(error) => r == Failure(error)
    {
      if selfContained {
        if payloadBuffer != [] { return Failure(UnexpectedSelfContained); }
        var extracted := ExtractEnvelopes(frame, NoCompression);
        if extracted.Broken? { return Failure(EnvelopeFault(extracted.error)); }
        return Success(extracted.envelopes);
      }
      payloadBuffer := payloadBuffer + frame;
      r := ExtractNonSelfContained();
    }

    /** Frames are decoded straight from `data` while nothing is buffered, and from the
        frame buffer otherwise. */
    method ConsumeData(data: bytes) returns (r: Result<seq<Envelope>>)
      modifies this
      ensures match Consume(format, lib, old(Value()), data)
              case Delivered(envelopes, s) => r == Success(envelopes) && Value() == s
              case Stopped(error) => r == Failure(error)
    {
      if frameBuffer == [] {
        assert frameBuffer + data == data;
        r := DrainData(data);
      } else {
        frameBuffer := frameBuffer + data;
        r := DrainBuffer();
      }
    }

    method DrainData(data: bytes) returns (r: Result<seq<Envelope>>)
      requires frameBuffer == []
      modifies this
      ensures match Drain(format, lib, old(Value()).(frames := data))
              case Delivered(envelopes, s) => r == Success(envelopes) && Value() == s
              case Stopped(error) => r == Failure(error)
    {
      ghost var start := Value().(frames := data);
      PrecededByNone(Drain(format, lib, start));
      var envelopes, data' := [], data;
      while data' != []
        invariant frameBuffer == []
        invariant Drain(format, lib, start)
                  == Preceded(envelopes, Drain(format, lib, Value().(frames := data')))
        decreases |data'|
      {
        var d := TryDecode(format, lib, data');
        if d.Corrupt? { return Failure(FrameFault(d.error)); }
        if d.Incomplete? {
          frameBuffer := data';
          break;
        }
        DecodeShrinks(format, lib, data');
        HandleIgnoresFrames(Value(), d.rest, d.selfContained, d.payload);
        var handled := Handle(d.selfContained, d.payload);
        if handled.Failure? { return Failure(handled.error); }
        PrecededTwice(envelopes, handled.value, Drain(format, lib, Value().(frames := d.rest)));
        envelopes, data' := envelopes + handled.value, d.rest;
      }
      assert envelopes + [] == envelopes;
      return Success(envelopes);
    }

    method DrainBuffer() returns (r: Result<seq<Envelope>>)
      modifies this
      ensures match Drain(format, lib, old(Value()))
              case Delivered(envelopes, s) => r == Success(envelopes) && Value() == s
              case Stopped(error) => r == Failure(error)
    {
      ghost var start := Value();
      PrecededByNone(Drain(format, lib, start));
      var envelopes := [];
      while frameBuffer != []
        invariant Drain(format, lib, start) == Preceded(envelopes, Drain(format, lib, Value()))
        decreases |frameBuffer|
      {
        var d := TryDecode(format, lib, frameBuffer);
        if d.Corrupt? { return Failure(FrameFault(d.error)); }
        if d.Incomplete? { break; }
        DecodeShrinks(format, lib, frameBuffer);
        frameBuffer := d.rest;
        var handled := Handle(d.selfContained, d.payload);
        if handled.Failure? { return Failure(handled.error); }
        PrecededTwice(envelopes, handled.value, Drain(format, lib, Value()));
        envelopes := envelopes + handled.value;
      }
      assert envelopes + [] == envelopes;
      return Success(envelopes);
    }
  }

  /** Handling a frame neither looks at nor changes the bytes behind it. */
  lemma HandleIgnoresFrames(s: State, frames: bytes, selfContained: bool, frame: bytes)
    ensures HandleFrame(s.(frames := frames), selfContained, frame) ==
      match HandleFrame(s, selfContained, frame)
      case Stopped(error) => Stopped(error)
      case Delivered(envelopes, s') => Delivered(envelopes, s'.(frames := frames))
  {
  }

  //
  // Chunking
  //

  /** Feeding chunk after chunk, stopping at the first error as the reader does. */
  function ConsumeAll(f: Format, lib: Library, s: State, chunks: seq<bytes>): Outcome<State>
    decreases |chunks|
  {
    if chunks == [] then Delivered([], s)
    else
      match Consume(f, lib, s, chunks[0])
      case Stopped(error) => Stopped(error)
      case Delivered(envelopes, s') => Preceded(envelopes, ConsumeAll(f, lib, s', chunks[1..]))
  }

  lemma {:induction false} DrainAppend(f: Format, lib: Library, s: State, more: bytes)
    ensures Drain(f, lib, s.(frames := s.frames + more)) ==
      match Drain(f, lib, s)
      case Stopped(error) => Stopped(error)
      case Delivered(envelopes, s') =>
        Preceded(envelopes, Drain(f, lib, s'.(frames := s'.frames + more)))
    decreases |s.frames|
  {
    match Decode(f, lib, s.frames)
    case Incomplete =>
      PrecededByNone(Drain(f, lib, s.(frames := s.frames + more)));
    case Corrupt(_) =>
      DecodeStable(f, lib, s.frames, more);
    case Frame(selfContained, frame, rest) =>
      DecodeStable(f, lib, s.frames, more);
      DecodeShrinks(f, lib, s.frames);
      HandleIgnoresFrames(s, rest, selfContained, frame);
      HandleIgnoresFrames(s, rest + more, selfContained, frame);
      var handled := HandleFrame(s, selfContained, frame);
      if handled.Delivered? {
        var next := handled.state.(frames := rest);
        DrainAppend(f, lib, next, more);
        var tail := Drain(f, lib, next);
        if tail.Delivered? {
          PrecededTwice(handled.envelopes, tail.envelopes,
                        Drain(f, lib, tail.state.(frames := tail.state.frames + more)));
        }
      }
  }

  /** A state between two calls: no complete frame is waiting. */
  predicate Idle(f: Format, lib: Library, s: State) { Decode(f, lib, s.frames).Incomplete? }

  lemma {:induction false} DrainIdles(f: Format, lib: Library, s: State)
    requires Drain(f, lib, s).Delivered?
    ensures Idle(f, lib, Drain(f, lib, s).state)
    decreases |s.frames|
  {
    match Decode(f, lib, s.frames)
    case Incomplete =>
    case Frame(selfContained, frame, rest) =>
      DecodeShrinks(f, lib, s.frames);
      HandleIgnoresFrames(s, rest, selfContained, frame);
      DrainIdles(f, lib, HandleFrame(s.(frames := rest), selfContained, frame).state);
  }

  /** Chunking does not matter to the v5 decoder: from any state between two calls, every
      way of cutting a stream into reads gives the same envelopes in the same order and the
      same final state, and fails exactly when (and as) the uncut stream fails. */
  lemma {:induction false} ChunkingInvariance(f: Format, lib: Library, s: State, chunks: seq<bytes>)
    requires Idle(f, lib, s)
    ensures ConsumeAll(f, lib, s, chunks) == Consume(f, lib, s, Join(chunks))
    decreases |chunks|
  {
    if chunks == [] {
      assert s.frames + [] == s.frames;
    } else {
      var first := s.(frames := s.frames + chunks[0]);
      JoinCons(chunks);
      assert s.frames + Join(chunks) == first.frames + Join(chunks[1..]);
      DrainAppend(f, lib, first, Join(chunks[1..]));
      var head := Consume(f, lib, s, chunks[0]);
      if head.Delivered? {
        DrainIdles(f, lib, first);
        ChunkingInvariance(f, lib, head.state, chunks[1..]);
      }
    }
  }
}
