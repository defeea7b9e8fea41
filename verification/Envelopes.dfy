/** Envelopes (section 2 of the Cassandra native protocol v4 specification): encoding,
    parsing the front of a buffer, and the size pre-check. */
module Envelopes {
  import opened Options
  import opened Bytes
  import opened Wire

  const ENVELOPE_HEADER_LEN: nat := 9
  const UUID_LEN: nat := 16

  datatype Version = V3 | V4 | V5

  datatype Direction = Request | Response

  datatype Flags = Flags(compression: bool, tracing: bool, customPayload: bool, warning: bool, beta: bool)

  datatype Opcode =
    | Error | Startup | Ready | Authenticate | Options | Supported | Query | Result
    | Prepare | Execute | Register | Event | Batch | AuthChallenge | AuthResponse | AuthSuccess

  datatype Envelope = Envelope(
    version: Version,
    direction: Direction,
    flags: Flags,
    opcode: Opcode,
    streamId: int,
    body: bytes,
    tracingId: Option<bytes>,
    warnings: seq<bytes>)

  /** A body compressor: either step may fail. */
  datatype Compression =
    | NoCompression
    | Compressor(encode: bytes -> Option<bytes>, decode: bytes -> Option<bytes>)

  /** Decompression undoes compression. */
  ghost predicate Inverts(c: Compression) {
    c.Compressor? ==>
      forall s: bytes :: c.encode(s).Some? ==> c.decode(c.encode(s).value) == Some(s)
  }

  //
  // Codes
  //

  function VersionCode(v: Version): byte {
    match v case V3 => 3 case V4 => 4 case V5 => 5
  }

  /** The version is in the low seven bits of the first byte ... */
  function ReadVersion(b: byte): Option<Version> {
    var code := b % 0x80;
    if code == 3 then Some(V3) else if code == 4 then Some(V4) else if code == 5 then Some(V5) else None
  }

  /** ... and the direction in the high bit. */
  function ReadDirection(b: byte): Direction {
    if b < 0x80 then Request else Response
  }

  function VersionByte(e: Envelope): byte {
    VersionCode(e.version) + if e.direction.Response? then 0x80 else 0
  }

  function Bit(b: bool, weight: nat): nat { if b then weight else 0 }

  function FlagByte(f: Flags): byte {
    Bit(f.compression, 1) + Bit(f.tracing, 2) + Bit(f.customPayload, 4) + Bit(f.warning, 8) + Bit(f.beta, 16)
  }

  /** `Flags::from_bits_truncate`: the three high bits are dropped. */
  function ReadFlags(b: byte): Flags {
    Flags(b % 2 == 1, (b / 2) % 2 == 1, (b / 4) % 2 == 1, (b / 8) % 2 == 1, (b / 16) % 2 == 1)
  }

  function OpcodeCode(o: Opcode): byte {
    match o
    case Error => 0x00 case Startup => 0x01 case Ready => 0x02 case Authenticate => 0x03
    case Options => 0x05 case Supported => 0x06 case Query => 0x07 case Result => 0x08
    case Prepare => 0x09 case Execute => 0x0A case Register => 0x0B case Event => 0x0C
    case Batch => 0x0D case AuthChallenge => 0x0E case AuthResponse => 0x0F case AuthSuccess => 0x10
  }

  function ReadOpcode(b: byte): Option<Opcode> {
    if b == 0x00 then Some(Error) else if b == 0x01 then Some(Startup) else if b == 0x02 then Some(Ready)
    else if b == 0x03 then Some(Authenticate) else if b == 0x05 then Some(Options)
    else if b == 0x06 then Some(Supported) else if b == 0x07 then Some(Query) else if b == 0x08 then Some(Result)
    else if b == 0x09 then Some(Prepare) else if b == 0x0A then Some(Execute) else if b == 0x0B then Some(Register)
    else if b == 0x0C then Some(Event) else if b == 0x0D then Some(Batch) else if b == 0x0E then Some(AuthChallenge)
    else if b == 0x0F then Some(AuthResponse) else if b == 0x10 then Some(AuthSuccess) else None
  }

  /** The three code bytes of the header lose nothing. */
  lemma CodesRoundTrip(e: Envelope)
    ensures ReadVersion(VersionByte(e)) == Some(e.version)
    ensures ReadDirection(VersionByte(e)) == e.direction
    ensures ReadFlags(FlagByte(e.flags)) == e.flags
    ensures ReadOpcode(OpcodeCode(e.opcode)) == Some(e.opcode)
  {
    FlagsRoundTrip(e.flags);
    OpcodeRoundTrip(e.opcode);
    hide FlagByte, ReadFlags, OpcodeCode, ReadOpcode;
  }

  lemma FlagsRoundTrip(f: Flags)
    ensures ReadFlags(FlagByte(f)) == f
  {
  }

  lemma OpcodeRoundTrip(o: Opcode)
    ensures ReadOpcode(OpcodeCode(o)) == Some(o)
  {
  }

  //
  // Encoding
  //

  datatype EncodeError = MissingTracingId | CompressionFailed

  datatype EncodeResult = Encoded(data: bytes) | NotEncoded(error: EncodeError)

  predicate IsCompressed(e: Envelope, c: Compression) { !e.version.V5? && c.Compressor? }

  /** The flags as sent: COMPRESSION says whether the body was compressed. */
  function SentFlags(e: Envelope, c: Compression): Flags {
    e.flags.(compression := IsCompressed(e, c))
  }

  predicate CarriesTracing(e: Envelope) { e.flags.tracing && e.direction.Response? }

  predicate CarriesWarnings(e: Envelope) { e.flags.warning && e.direction.Response? }

  /** Tracing id and warnings, which precede the body. */
  function Extras(e: Envelope): bytes
    requires CarriesTracing(e) ==> e.tracingId.Some?
  {
    (if CarriesTracing(e) then e.tracingId.value else [])
    + (if CarriesWarnings(e) then StrList(e.warnings) else [])
  }

  function EnvelopeHeader(e: Envelope, flags: Flags, bodyLen: nat): (h: bytes)
    ensures |h| == ENVELOPE_HEADER_LEN
  {
    [VersionByte(e), FlagByte(flags)] + BigEndian(e.streamId, SHORT_LEN) + ([OpcodeCode(e.opcode)] + BigEndian(bodyLen, INT_LEN))
  }

  function EncodeWith(e: Envelope, c: Compression): EncodeResult {
    if CarriesTracing(e) && e.tracingId.None? then NotEncoded(MissingTracingId)
    else
      var full := Extras(e) + e.body;
      var sent := if IsCompressed(e, c) then c.encode(full) else Some(full);
      match sent
      case None => NotEncoded(CompressionFailed)
      case Some(body) => Encoded(EnvelopeHeader(e, SentFlags(e, c), |body|) + body)
  }

  /** Appends the warnings, each with its length. */
  method AppendWarnings(start: bytes, warnings: seq<bytes>) returns (buffer: bytes)
    ensures buffer == start + StrList(warnings)
  {
    buffer := start + BigEndian(|warnings|, SHORT_LEN);
    for i := 0 to |warnings|
      invariant buffer + Strs(warnings[i..]) == start + StrList(warnings)
    {
      assert warnings[i..][1..] == warnings[i + 1..];
      ghost var before := buffer;
      buffer := buffer + BigEndian(|warnings[i]|, SHORT_LEN);
      buffer := buffer + warnings[i];
      assert buffer == before + Str(warnings[i]);
    }
    assert buffer + Strs([]) == buffer;
  }

  /** `Envelope::encode_with`, which grows one buffer for the header and one for the fields
      that precede the body. */
  method EncodeEnvelope(e: Envelope, c: Compression) returns (r: EncodeResult)
    ensures r == EncodeWith(e, c)
  {
    hide VersionByte, FlagByte, OpcodeCode, BigEndian, StrList;
    var v: bytes := [VersionByte(e), FlagByte(SentFlags(e, c))];
    v := v + BigEndian(e.streamId, SHORT_LEN);
    v := v + [OpcodeCode(e.opcode)];
    var buffer: bytes := [];
    if CarriesTracing(e) {
      if e.tracingId.None? { return NotEncoded(MissingTracingId); }
      buffer := buffer + e.tracingId.value;
    }
    if CarriesWarnings(e) {
      buffer := AppendWarnings(buffer, e.warnings);
    }
    assert buffer == Extras(e) by { EmptyNeutral(buffer); }
    var body := buffer + e.body;
    if IsCompressed(e, c) {
      var encoded := c.encode(body);
      if encoded.None? { return NotEncoded(CompressionFailed); }
      body := encoded.value;
    }
    Assoc([VersionByte(e), FlagByte(SentFlags(e, c))] + BigEndian(e.streamId, SHORT_LEN),
          [OpcodeCode(e.opcode)], BigEndian(|body|, INT_LEN));
    v := v + BigEndian(|body|, INT_LEN);
    return Encoded(v + body);
  }

  //
  // Parsing
  //

  datatype EnvelopeError =
    | UnsupportedVersion(version: nat)
    | UnsupportedOpcode(opcode: byte)
    | DecompressionError
    | InvalidWarnings(warnings: WireError)
    | Panicked

  datatype ParseResult =
    | Parsed(length: nat, envelope: Envelope)
    | NotEnoughBytes
    | Failed(error: EnvelopeError)

  /** An i32 cast to usize on a 64-bit platform. */
  function AsUsize(v: int): int { if v < 0 then v + 0x1_0000_0000_0000_0000 else v }

  /** Total length announced by a header; the addition wraps as release builds do. */
  function AnnouncedLength(data: bytes): (n: nat)
    requires |data| >= ENVELOPE_HEADER_LEN
  {
    (ENVELOPE_HEADER_LEN + AsUsize(SignedBigEndian(data[5..9]))) % 0x1_0000_0000_0000_0000
  }

  /** Splits a plain body into tracing id, warnings and payload. */
  function ReadBody(e: Envelope, length: nat, full: bytes): ParseResult {
    if CarriesTracing(e) && |full| < UUID_LEN then Failed(Panicked)
    else
      var tracingId := if CarriesTracing(e) then Some(full[..UUID_LEN]) else None;
      var rest := if CarriesTracing(e) then full[UUID_LEN..] else full;
      if e.flags.warning then
        match ReadStrList(rest)
        case Ok(warnings, body) => Parsed(length, e.(tracingId := tracingId, warnings := warnings, body := body))
        case Err(error) => Failed(if error.Panic? then Panicked else InvalidWarnings(error))
      else
        Parsed(length, e.(tracingId := tracingId, warnings := [], body := rest))
  }

  function FromBuffer(data: bytes, c: Compression): ParseResult {
    if |data| < ENVELOPE_HEADER_LEN then NotEnoughBytes
    else
      var length := AnnouncedLength(data);
      if |data| < length then NotEnoughBytes
      else if ReadVersion(data[0]).None? then Failed(UnsupportedVersion(data[0] % 0x80))
      else if ReadOpcode(data[4]).None? then Failed(UnsupportedOpcode(data[4]))
      else if length < ENVELOPE_HEADER_LEN then Failed(Panicked)
      else
        var e := Envelope(ReadVersion(data[0]).value, ReadDirection(data[0]), ReadFlags(data[1]),
                          ReadOpcode(data[4]).value, SignedBigEndian(data[2..4]), [], None, []);
        var body := data[ENVELOPE_HEADER_LEN..length];
        var full := if e.flags.compression && c.Compressor? then c.decode(body) else Some(body);
        if full.None? then Failed(DecompressionError) else ReadBody(e, length, full.value)
  }

  datatype SizeResult = Size(length: nat) | SizeNotEnoughBytes | SizeUnsupportedVersion(version: nat)

  function CheckEnvelopeSize(data: bytes): SizeResult {
    if |data| < ENVELOPE_HEADER_LEN then SizeNotEnoughBytes
    else
      var length := AnnouncedLength(data);
      if |data| < length then SizeNotEnoughBytes
      else if ReadVersion(data[0]).None? then SizeUnsupportedVersion(data[0] % 0x80)
      else Size(length)
  }

  /** The size pre-check agrees with the parser on every buffer: both wait for more bytes
      together, reject the same versions, and announce the length that is consumed. */
  lemma SizeCheckAgrees(data: bytes, c: Compression)
    ensures FromBuffer(data, c).NotEnoughBytes? <==> CheckEnvelopeSize(data).SizeNotEnoughBytes?
    ensures FromBuffer(data, c).Parsed? ==> CheckEnvelopeSize(data) == Size(FromBuffer(data, c).length)
    ensures forall v :: FromBuffer(data, c) == Failed(UnsupportedVersion(v)) <==> CheckEnvelopeSize(data) == SizeUnsupportedVersion(v)
  {
    hide ReadVersion, ReadOpcode, ReadFlags, ReadDirection, AnnouncedLength, SignedBigEndian, ReadStrList;
  }

  //
  // Round trip
  //

  /** Optional fields present exactly when the flags announce them, and every length within
      its integer field. */
  predicate Consistent(e: Envelope) {
    && -0x8000 <= e.streamId < 0x8000
    && (if CarriesTracing(e) then e.tracingId.Some? && |e.tracingId.value| == UUID_LEN else e.tracingId.None?)
    && (if CarriesWarnings(e) then ShortTexts(e.warnings) else e.warnings == [])
  }

  lemma HeaderFieldsRead(e: Envelope, flags: Flags, bodyLen: nat, tail: bytes)
    requires -0x8000 <= e.streamId < 0x8000 && bodyLen < 0x8000_0000
    ensures var data := EnvelopeHeader(e, flags, bodyLen) + tail;
      && data[0] == VersionByte(e) && data[1] == FlagByte(flags) && data[4] == OpcodeCode(e.opcode)
      && SignedBigEndian(data[2..4]) == e.streamId
      && AnnouncedLength(data) == ENVELOPE_HEADER_LEN + bodyLen
  {
    hide BigEndian, SignedBigEndian, VersionByte, FlagByte, OpcodeCode;
    var data := EnvelopeHeader(e, flags, bodyLen) + tail;
    assert data[2..4] == BigEndian(e.streamId, SHORT_LEN);
    assert data[5..9] == BigEndian(bodyLen, INT_LEN);
    FitsShort(e.streamId);
    FitsInt(bodyLen);
    BigEndianRoundTrip(e.streamId, SHORT_LEN);
    BigEndianRoundTrip(bodyLen, INT_LEN);
  }

  /** Body fields of a consistent envelope are recovered, unless it is a request with the
      WARNING flag: the encoder writes warnings for responses only, the parser expects them
      in both directions. */
  lemma BodyRoundTrip(e: Envelope, plain: Envelope, length: nat)
    requires Consistent(e) && (e.direction.Request? ==> !e.flags.warning)
    requires plain.flags.(compression := e.flags.compression) == e.flags
    requires plain == e.(flags := plain.flags, body := [], tracingId := None, warnings := [])
    ensures ReadBody(plain, length, Extras(e) + e.body) == Parsed(length, e.(flags := plain.flags))
  {
    hide StrList, ReadStrList, ShortTexts;
    var warnings := if CarriesWarnings(e) then StrList(e.warnings) else [];
    var full := Extras(e) + e.body;
    if CarriesTracing(e) {
      assert full[..UUID_LEN] == e.tracingId.value;
      assert full[UUID_LEN..] == warnings + e.body;
    } else {
      assert full == warnings + e.body;
    }
    if CarriesWarnings(e) {
      StrListRoundTrip(e.warnings, e.body);
    } else {
      assert warnings + e.body == e.body;
    }
  }

  /** What the parser sees of an envelope before it looks into the body. */
  function Bare(e: Envelope, flags: Flags): Envelope {
    e.(flags := flags, body := [], tracingId := None, warnings := [])
  }

  lemma HeaderParsed(e: Envelope, flags: Flags, data: bytes, c: Compression, length: nat)
    requires ENVELOPE_HEADER_LEN <= length <= |data| && AnnouncedLength(data) == length
    requires data[0] == VersionByte(e) && data[1] == FlagByte(flags) && data[4] == OpcodeCode(e.opcode)
    requires SignedBigEndian(data[2..4]) == e.streamId
    ensures FromBuffer(data, c) ==
      var body := data[ENVELOPE_HEADER_LEN..length];
      var full := if flags.compression && c.Compressor? then c.decode(body) else Some(body);
      if full.None? then Failed(DecompressionError) else ReadBody(Bare(e, flags), length, full.value)
  {
    hide VersionByte, FlagByte, OpcodeCode, ReadVersion, ReadDirection, ReadFlags, ReadOpcode, ReadBody, AnnouncedLength, SignedBigEndian;
    CodesRoundTrip(e);
    CodesRoundTrip(e.(flags := flags));
  }

  lemma BodyDelimited(e: Envelope, flags: Flags, body: bytes, rest: bytes, c: Compression)
    requires -0x8000 <= e.streamId < 0x8000 && |body| < 0x8000_0000
    ensures FromBuffer(EnvelopeHeader(e, flags, |body|) + body + rest, c) ==
      var full := if flags.compression && c.Compressor? then c.decode(body) else Some(body);
      if full.None? then Failed(DecompressionError)
      else ReadBody(Bare(e, flags), ENVELOPE_HEADER_LEN + |body|, full.value)
  {
    hide FromBuffer, ReadBody, AnnouncedLength, EnvelopeHeader;
    var h := EnvelopeHeader(e, flags, |body|);
    assert h + body + rest == h + (body + rest);
    HeaderFieldsRead(e, flags, |body|, body + rest);
    var data := h + (body + rest);
    assert data[ENVELOPE_HEADER_LEN..ENVELOPE_HEADER_LEN + |body|] == body;
    HeaderParsed(e, flags, data, c, ENVELOPE_HEADER_LEN + |body|);
  }

  /** Parsing an encoded envelope followed by any bytes gives the envelope back, with
      COMPRESSION set exactly when its body was compressed, and consumes exactly the
      encoding. */
  lemma EnvelopeRoundTrip(e: Envelope, c: Compression, rest: bytes)
    requires Inverts(c) && Consistent(e) && (e.direction.Request? ==> !e.flags.warning)
    requires EncodeWith(e, c).Encoded? && |EncodeWith(e, c).data| < ENVELOPE_HEADER_LEN + 0x8000_0000
    ensures var data := EncodeWith(e, c).data;
      && FromBuffer(data + rest, c) == Parsed(|data|, e.(flags := SentFlags(e, c)))
      && CheckEnvelopeSize(data + rest) == Size(|data|)
  {
    hide FromBuffer, ReadBody, EnvelopeHeader, Extras, CheckEnvelopeSize;
    var full := Extras(e) + e.body;
    var body := if IsCompressed(e, c) then c.encode(full).value else full;
    BodyDelimited(e, SentFlags(e, c), body, rest, c);
    BodyRoundTrip(e, Bare(e, SentFlags(e, c)), ENVELOPE_HEADER_LEN + |body|);
    SizeCheckAgrees(EncodeWith(e, c).data + rest, c);
  }

  /** The excluded case is a real one: no request with the WARNING flag survives. */
  lemma WarningRequestLost(e: Envelope, c: Compression, rest: bytes)
    requires Inverts(c) && Consistent(e) && e.direction.Request? && e.flags.warning
    requires EncodeWith(e, c).Encoded? && |EncodeWith(e, c).data| < ENVELOPE_HEADER_LEN + 0x8000_0000
    ensures var data := EncodeWith(e, c).data;
      FromBuffer(data + rest, c) != Parsed(|data|, e.(flags := SentFlags(e, c)))
  {
    hide FromBuffer, EnvelopeHeader, ReadStrList;
    assert Extras(e) + e.body == e.body;
    var body := if IsCompressed(e, c) then c.encode(e.body).value else e.body;
    BodyDelimited(e, SentFlags(e, c), body, rest, c);
    if ReadStrList(e.body).Ok? {
      ReadStrListShrinks(e.body);
    }
  }

  lemma {:induction false} ReadStrsShrinks(s: bytes, n: nat)
    requires ReadStrs(s, n).Ok?
    ensures |ReadStrs(s, n).rest| <= |s|
    decreases n
  {
    if n > 0 {
      ReadStrsShrinks(ReadStr(s).rest, n - 1);
    }
  }

  lemma ReadStrListShrinks(s: bytes)
    requires ReadStrList(s).Ok?
    ensures |ReadStrList(s).rest| + 2 <= |s|
  {
    ReadStrsShrinks(ReadInt(s, SHORT_LEN).rest, ReadInt(s, SHORT_LEN).value);
  }

  //
  // Stability and stream ids
  //

  /** A verdict other than "not enough bytes" is not changed by later bytes. */
  lemma FromBufferStable(data: bytes, more: bytes, c: Compression)
    requires !FromBuffer(data, c).NotEnoughBytes?
    ensures FromBuffer(data + more, c) == FromBuffer(data, c)
  {
    hide ReadBody, ReadVersion, ReadOpcode, ReadFlags, ReadDirection, SignedBigEndian;
    assert (data + more)[5..9] == data[5..9];
    assert (data + more)[2..4] == data[2..4];
    var length := AnnouncedLength(data);
    if ENVELOPE_HEADER_LEN <= length {
      assert (data + more)[ENVELOPE_HEADER_LEN..length] == data[ENVELOPE_HEADER_LEN..length];
    }
  }

  /** A parsed envelope takes at least its header off the buffer. */
  lemma FromBufferProgress(data: bytes, c: Compression)
    requires FromBuffer(data, c).Parsed?
    ensures ENVELOPE_HEADER_LEN <= FromBuffer(data, c).length <= |data|
  {
    hide ReadVersion, ReadOpcode, ReadFlags, ReadDirection, SignedBigEndian, ReadStrList;
  }

  /** `Request::set_stream_id`: patches two bytes of an encoded envelope. */
  function SetStreamId(data: bytes, id: int): (r: bytes)
    requires |data| >= 4
    ensures |r| == |data|
  {
    data[..2] + BigEndian(id, SHORT_LEN) + data[4..]
  }

  /** Patching the encoding is the same as encoding with that stream id. */
  lemma SetStreamIdIsEncoding(e: Envelope, c: Compression, id: int)
    requires EncodeWith(e, c).Encoded?
    ensures |EncodeWith(e, c).data| >= ENVELOPE_HEADER_LEN
    ensures EncodeWith(e.(streamId := id), c) == Encoded(SetStreamId(EncodeWith(e, c).data, id))
  {
    hide BigEndian, FlagByte, OpcodeCode, SetStreamId;
    var full := Extras(e) + e.body;
    var body := if IsCompressed(e, c) then c.encode(full).value else full;
    PatchMiddle([VersionByte(e), FlagByte(SentFlags(e, c))], BigEndian(e.streamId, SHORT_LEN),
                [OpcodeCode(e.opcode)] + BigEndian(|body|, INT_LEN), body, id);
  }

  lemma PatchMiddle(a: bytes, old_id: bytes, b: bytes, body: bytes, id: int)
    requires |a| == 2 && |old_id| == SHORT_LEN
    ensures SetStreamId(a + old_id + b + body, id) == a + BigEndian(id, SHORT_LEN) + b + body
  {
    hide BigEndian;
  }
}
