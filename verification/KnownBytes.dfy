/** The codes and layouts of the wire formats as literal values, so that encoder and decoder
    cannot agree on different ones: the tables of the protocol, header fields by position, and
    whole encodings of known messages. */
module KnownBytes {
  import opened Options
  import opened Bytes
  import opened Wire
  import opened Envelopes
  import TypeDescriptors
  import QueryParams

  //
  // Envelopes
  //

  lemma VersionCodes()
    ensures VersionCode(V3) == 0x03 && VersionCode(V4) == 0x04 && VersionCode(V5) == 0x05
    ensures forall b: byte :: ReadDirection(b).Response? <==> b >= 0x80
  {
  }

  /** Opcodes are numbered from 0 to 16 in this order, and there is none with number 4. */
  lemma OpcodeCodes(i: nat)
    requires i < 16
    ensures var order := [Opcode.Error, Startup, Ready, Authenticate, Opcode.Options, Supported, Query, Result, Prepare,
                          Execute, Register, Event, Batch, AuthChallenge, AuthResponse, AuthSuccess];
      OpcodeCode(order[i]) == if i < 4 then i else i + 1
  {
  }

  /** No other byte is an opcode or a version. */
  lemma KnownCodes(b: byte)
    ensures ReadOpcode(b).Some? <==> b <= 16 && b != 4
    ensures ReadVersion(b).Some? <==> b % 0x80 == 3 || b % 0x80 == 4 || b % 0x80 == 5
  {
  }

  /** Every field of the header by position, for all envelopes. */
  lemma EnvelopeFields(e: Envelope, c: Compression)
    requires EncodeWith(e, c).Encoded?
    ensures var data, compressed := EncodeWith(e, c).data, !e.version.V5? && c.Compressor?;
      && |data| >= 9
      && data[0] == (match e.version case V3 => 3 case V4 => 4 case V5 => 5) + (if e.direction.Response? then 0x80 else 0)
      && data[1] == Bit(compressed, 0x01) + Bit(e.flags.tracing, 0x02) + Bit(e.flags.customPayload, 0x04)
                    + Bit(e.flags.warning, 0x08) + Bit(e.flags.beta, 0x10)
      && data[2] == e.streamId / 256 % 256 && data[3] == e.streamId % 256
      && data[4] == OpcodeCode(e.opcode)
      && data[5..9] == BigEndian(|data| - 9, 4)
  {
    hide BigEndian, Extras;
    ShortBytes(e.streamId);
    var data := EncodeWith(e, c).data;
    assert data[5..9] == BigEndian(|data| - 9, INT_LEN);
  }

  /** A response carries its tracing id, then its warnings, before the body. */
  lemma EnvelopeBody(e: Envelope)
    requires e.direction.Response? && e.flags.tracing && e.flags.warning && e.tracingId.Some?
    ensures EncodeWith(e, NoCompression).Encoded?
    ensures EncodeWith(e, NoCompression).data[9..] == e.tracingId.value + StrList(e.warnings) + e.body
  {
    hide BigEndian, StrList;
    var data := EncodeWith(e, NoCompression).data;
    assert data[9..] == Extras(e) + e.body;
  }

  lemma ReadyBytes()
    ensures EncodeWith(Envelope(V4, Direction.Request, Flags(false, false, false, false, false), Ready, 0, [], None, []),
                       NoCompression) == Encoded([4, 0, 0, 0, 2, 0, 0, 0, 0])
  {
    ShortBytes(0);
    WordBytes(0);
    hide BigEndian;
  }

  //
  // Type descriptors
  //

  /** The simple types are numbered from 0 in this order, and there is none with number 10. */
  lemma SimpleTypeCodes(i: nat)
    requires i < 21
    ensures var order := [TypeDescriptors.Custom, TypeDescriptors.Ascii, TypeDescriptors.Bigint, TypeDescriptors.Blob,
                          TypeDescriptors.Boolean, TypeDescriptors.Counter, TypeDescriptors.Decimal,
                          TypeDescriptors.Double, TypeDescriptors.Float, TypeDescriptors.Int, TypeDescriptors.Timestamp,
                          TypeDescriptors.Uuid, TypeDescriptors.Varchar, TypeDescriptors.Varint,
                          TypeDescriptors.Timeuuid, TypeDescriptors.Inet, TypeDescriptors.Date, TypeDescriptors.Time,
                          TypeDescriptors.Smallint, TypeDescriptors.Tinyint, TypeDescriptors.Duration];
      TypeDescriptors.ColTypeCode(order[i]) == if i < 10 then i else i + 1
  {
  }

  lemma CompoundTypeCodes()
    ensures TypeDescriptors.ColTypeCode(TypeDescriptors.List) == 0x20
    ensures TypeDescriptors.ColTypeCode(TypeDescriptors.Map) == 0x21
    ensures TypeDescriptors.ColTypeCode(TypeDescriptors.Set) == 0x22
    ensures TypeDescriptors.ColTypeCode(TypeDescriptors.Udt) == 0x30
    ensures TypeDescriptors.ColTypeCode(TypeDescriptors.Tuple) == 0x31
    ensures TypeDescriptors.ColTypeOf(0x80) == Some(TypeDescriptors.Varchar)
  {
  }

  /** No other number is a type. */
  lemma KnownTypes(code: int)
    ensures TypeDescriptors.ColTypeOf(code).Some? <==>
      || (0 <= code <= 0x15 && code != 0x0A)
      || code == 0x20 || code == 0x21 || code == 0x22 || code == 0x30 || code == 0x31 || code == 0x80
  {
  }

  const INT_TYPE: TypeDescriptors.Descriptor := TypeDescriptors.Descriptor(TypeDescriptors.Int, None)

  lemma IntTypeBytes()
    ensures TypeDescriptors.SerType(INT_TYPE) == [0, 9]
  {
    ShortBytes(9);
    hide BigEndian;
  }

  lemma MapTypeBytes()
    ensures TypeDescriptors.SerType(TypeDescriptors.Descriptor(TypeDescriptors.Map, Some(TypeDescriptors.CMap(INT_TYPE, INT_TYPE))))
            == [0, 33, 0, 9, 0, 9]
  {
    IntTypeBytes();
    ShortBytes(33);
    hide BigEndian;
  }

  lemma TupleTypeBytes()
    ensures TypeDescriptors.SerValue(TypeDescriptors.TupleType([INT_TYPE, INT_TYPE, INT_TYPE])) == [0, 3, 0, 9, 0, 9, 0, 9]
  {
    IntTypeBytes();
    ShortBytes(3);
    hide BigEndian, TypeDescriptors.SerType;
    hide TypeDescriptors.SerTypes;
    TypesCons(INT_TYPE, []);
    TypesCons(INT_TYPE, [INT_TYPE]);
    TypesCons(INT_TYPE, [INT_TYPE, INT_TYPE]);
    assert [INT_TYPE] + [INT_TYPE, INT_TYPE] == [INT_TYPE, INT_TYPE, INT_TYPE];
    assert [INT_TYPE] + [INT_TYPE] == [INT_TYPE, INT_TYPE] && [INT_TYPE] + [] == [INT_TYPE];
    NoTypes();
  }

  lemma TypesCons(t: TypeDescriptors.Descriptor, types: seq<TypeDescriptors.Descriptor>)
    ensures TypeDescriptors.SerTypes([t] + types) == TypeDescriptors.SerType(t) + TypeDescriptors.SerTypes(types)
  {
    hide TypeDescriptors.SerType;
    assert ([t] + types)[1..] == types;
  }

  lemma NoTypes()
    ensures TypeDescriptors.SerTypes([]) == [] && TypeDescriptors.SerFields([]) == []
  {
  }

  lemma FieldsCons(f: TypeDescriptors.Field, fields: seq<TypeDescriptors.Field>)
    ensures TypeDescriptors.SerFields([f] + fields)
            == Str(f.name) + TypeDescriptors.SerType(f.ty) + TypeDescriptors.SerFields(fields)
  {
    hide TypeDescriptors.SerType, Str;
    assert ([f] + fields)[1..] == fields;
  }

  const BAR: bytes := [98, 97, 114]
  const FOO: bytes := [102, 111, 111]
  const FIELDS: seq<TypeDescriptors.Field> := [TypeDescriptors.Field(BAR, INT_TYPE), TypeDescriptors.Field(FOO, INT_TYPE)]

  lemma NameBytes()
    ensures Str(BAR) == [0, 3, 98, 97, 114] && Str(FOO) == [0, 3, 102, 111, 111]
  {
    ShortBytes(3);
    hide BigEndian;
  }

  lemma FieldBytes()
    ensures TypeDescriptors.SerFields(FIELDS) == [0, 3, 98, 97, 114, 0, 9] + [0, 3, 102, 111, 111, 0, 9]
  {
    IntTypeBytes();
    NameBytes();
    hide TypeDescriptors.SerType, TypeDescriptors.SerFields, Str;
    FieldsCons(FIELDS[1], []);
    FieldsCons(FIELDS[0], [FIELDS[1]]);
    assert [FIELDS[0]] + [FIELDS[1]] == FIELDS && [FIELDS[1]] + [] == [FIELDS[1]];
    NoTypes();
  }

  /** A user type `foo` of keyspace `bar` with the integer fields `bar` and `foo`. */
  lemma UdtTypeBytes()
    ensures TypeDescriptors.SerValue(TypeDescriptors.UdtType(BAR, FOO, FIELDS))
            == [0, 3, 98, 97, 114] + [0, 3, 102, 111, 111] + [0, 2]
               + ([0, 3, 98, 97, 114, 0, 9] + [0, 3, 102, 111, 111, 0, 9])
  {
    NameBytes();
    FieldBytes();
    ShortBytes(2);
    hide BigEndian, TypeDescriptors.SerFields, Str;
  }

  const TABLE: Option<TypeDescriptors.TableSpec> := Some(TypeDescriptors.TableSpec(BAR, FOO))
  const COLUMN: TypeDescriptors.ColSpec := TypeDescriptors.ColSpec(None, FOO, INT_TYPE)

  lemma ColumnBytes()
    ensures TypeDescriptors.SerTable(TABLE) == [0, 3, 98, 97, 114] + [0, 3, 102, 111, 111]
    ensures TypeDescriptors.SerColSpecs([COLUMN]) == [0, 3, 102, 111, 111, 0, 9]
  {
    NameBytes();
    IntTypeBytes();
    hide Str, TypeDescriptors.SerType;
    assert [COLUMN][1..] == [];
  }

  /** A column named with its own table. */
  lemma QualifiedColumnBytes()
    ensures TypeDescriptors.SerColSpecs([COLUMN.(tableSpec := TABLE)])
            == [0, 3, 98, 97, 114] + [0, 3, 102, 111, 111] + [0, 3, 102, 111, 111] + [0, 9]
  {
    NameBytes();
    IntTypeBytes();
    hide Str, TypeDescriptors.SerType;
    assert [COLUMN.(tableSpec := TABLE)][1..] == [];
  }

  /** Rows metadata with everything in it: flags 1, 2 and 8, the column count, a paging state, a
      new metadata id, the table and the column. */
  lemma RowsBytes()
    ensures TypeDescriptors.SerRows(
              TypeDescriptors.RowsMetadata(TypeDescriptors.RowsFlags(true, true, false, true), 1, Some(MaybeBytes.Bytes([5])),
                                           Some(MaybeBytes.Bytes([1])), TABLE, [COLUMN]))
            == Some([0, 0, 0, 11] + [0, 0, 0, 1] + [0, 0, 0, 1, 5] + [0, 1, 1]
                    + ([0, 3, 98, 97, 114] + [0, 3, 102, 111, 111]) + [0, 3, 102, 111, 111, 0, 9])
  {
    ColumnBytes();
    BlobBytes();
    WordBytes(11);
    WordBytes(1);
    hide BigEndian, TypeDescriptors.SerTable, TypeDescriptors.SerColSpecs, SerBlob;
  }

  lemma BlobBytes()
    ensures SerBlob(MaybeBytes.Bytes([5]), INT_LEN) == [0, 0, 0, 1, 5] && SerBlob(MaybeBytes.Bytes([1]), SHORT_LEN) == [0, 1, 1]
    ensures SerBlob(Null, INT_LEN) == [255, 255, 255, 255]
  {
    WordBytes(1);
    WordBytes(-1);
    ShortBytes(1);
    hide BigEndian;
  }

  /** The flag of each optional part of rows metadata. */
  lemma RowsFlagWeights(f: TypeDescriptors.RowsFlags)
    ensures TypeDescriptors.RowsFlagBits(f) == Bit(f.globalTableSpace, 0x1) + Bit(f.hasMorePages, 0x2)
                                               + Bit(f.noMetadata, 0x4) + Bit(f.metadataChanged, 0x8)
  {
  }

  /** Prepared metadata: flag, column count, primary key count and indexes, table, columns. */
  lemma PreparedBytes()
    ensures TypeDescriptors.SerPrepared(TypeDescriptors.PreparedMetadata([0, 258], TABLE, [COLUMN]))
            == [0, 0, 0, 1] + [0, 0, 0, 1] + [0, 0, 0, 2] + ([0, 0] + [1, 2])
               + ([0, 3, 98, 97, 114] + [0, 3, 102, 111, 111]) + [0, 3, 102, 111, 111, 0, 9]
  {
    ColumnBytes();
    KeyIndexBytes();
    WordBytes(1);
    WordBytes(2);
    hide BigEndian, TypeDescriptors.SerTable, TypeDescriptors.SerColSpecs, TypeDescriptors.SerShorts;
  }

  lemma KeyIndexBytes()
    ensures TypeDescriptors.SerShorts([0, 258]) == [0, 0] + [1, 2]
  {
    ShortBytes(0);
    ShortBytes(258);
    hide BigEndian;
    assert [0, 258][1..] == [258] && [258][1..] == [];
  }

  //
  // Query parameters
  //

  lemma ConsistencyCodes(i: nat)
    requires i < 11
    ensures var order := [QueryParams.Any, QueryParams.One, QueryParams.Two, QueryParams.Three, QueryParams.Quorum,
                          QueryParams.All, QueryParams.LocalQuorum, QueryParams.EachQuorum, QueryParams.Serial,
                          QueryParams.LocalSerial, QueryParams.LocalOne];
      QueryParams.ConsistencyCode(order[i]) == i
  {
  }

  /** What a value length means: bytes if positive, null for -1, unset for -2, and an error for
      zero and everything else. */
  lemma ValueLengths(s: bytes)
    requires ReadInt(s, INT_LEN).Ok?
    ensures var n, r := ReadInt(s, INT_LEN).value, QueryParams.ReadQueryValue(s);
      && (n > 0 ==> if |s| < 4 + n then r == Err(UnexpectedEof) else r == Ok(QueryParams.Present(s[4..4 + n]), s[4 + n..]))
      && (n == -1 ==> r == Ok(QueryParams.NullValue, s[4..]))
      && (n == -2 ==> r == Ok(QueryParams.NotSet, s[4..]))
      && (n == 0 || n < -2 ==> r == Err(BadValueLength))
  {
    hide SignedBigEndian;
    var n := ReadInt(s, INT_LEN).value;
    if 0 < n <= |s| - 4 {
      assert s[4..][..n] == s[4..4 + n] && s[4..][n..] == s[4 + n..];
    }
  }

  /** The weight of every flag. */
  lemma QueryFlagWeights(flags: set<QueryParams.QueryFlag>)
    ensures QueryParams.FlagBits(flags, QueryParams.QUERY_FLAGS)
            == Bit(QueryParams.Value in flags, 0x001) + Bit(QueryParams.SkipMetadata in flags, 0x002)
               + Bit(QueryParams.PageSize in flags, 0x004) + Bit(QueryParams.PagingState in flags, 0x008)
               + Bit(QueryParams.SerialConsistency in flags, 0x010) + Bit(QueryParams.DefaultTimestamp in flags, 0x020)
               + Bit(QueryParams.NamesForValues in flags, 0x040) + Bit(QueryParams.Keyspace in flags, 0x080)
               + Bit(QueryParams.NowInSeconds in flags, 0x100)
  {
    hide QueryParams.FlagBits, Bit;
    FlagOrder();
    var o8 := [QueryParams.NowInSeconds] + [];
    var o7 := [QueryParams.Keyspace] + o8;
    var o6 := [QueryParams.NamesForValues] + o7;
    var o5 := [QueryParams.DefaultTimestamp] + o6;
    var o4 := [QueryParams.SerialConsistency] + o5;
    FlagCons(flags, QueryParams.NowInSeconds, []);
    FlagCons(flags, QueryParams.Keyspace, o8);
    FlagCons(flags, QueryParams.NamesForValues, o7);
    FlagCons(flags, QueryParams.DefaultTimestamp, o6);
    FlagCons(flags, QueryParams.SerialConsistency, o5);
    var o3 := [QueryParams.PagingState] + o4;
    var o2 := [QueryParams.PageSize] + o3;
    var o1 := [QueryParams.SkipMetadata] + o2;
    FlagCons(flags, QueryParams.PagingState, o4);
    FlagCons(flags, QueryParams.PageSize, o3);
    FlagCons(flags, QueryParams.SkipMetadata, o2);
    FlagCons(flags, QueryParams.Value, o1);
    NoFlagBits(flags);
    Weights(flags);
  }

  lemma FlagOrder()
    ensures QueryParams.QUERY_FLAGS
            == [QueryParams.Value] + ([QueryParams.SkipMetadata] + ([QueryParams.PageSize] + ([QueryParams.PagingState]
               + ([QueryParams.SerialConsistency] + ([QueryParams.DefaultTimestamp] + ([QueryParams.NamesForValues]
               + ([QueryParams.Keyspace] + ([QueryParams.NowInSeconds] + []))))))))
  {
  }

  lemma Weights(flags: set<QueryParams.QueryFlag>)
    ensures forall f: QueryParams.QueryFlag, w: nat :: Bit(f in flags, w) == w * Bit(f in flags, 1)
  {
    forall f: QueryParams.QueryFlag, w: nat
      ensures Bit(f in flags, w) == w * Bit(f in flags, 1)
    {
      Weight(f in flags, w);
    }
  }

  lemma Weight(b: bool, w: nat)
    ensures Bit(b, w) == w * Bit(b, 1)
  {
  }

  lemma FlagCons(flags: set<QueryParams.QueryFlag>, f: QueryParams.QueryFlag, rest: seq<QueryParams.QueryFlag>)
    ensures QueryParams.FlagBits(flags, [f] + rest) == Bit(f in flags, 1) + 2 * QueryParams.FlagBits(flags, rest)
  {
    assert ([f] + rest)[1..] == rest;
  }

  lemma NoFlagBits(flags: set<QueryParams.QueryFlag>)
    ensures QueryParams.FlagBits(flags, []) == 0
  {
  }

  /** Serial consistency and the two values [1, 2, 3] and null, before v5. */
  lemma SimpleValuesBytes()
    ensures QueryParams.SerParams(TWO_VALUES, V4, []) == [0, 8, 1, 0, 2, 0, 0, 0, 3, 1, 2, 3, 255, 255, 255, 255]
  {
    TwoValuesParts();
    hide QueryParams.SerParams;
  }

  const TWO_VALUES: QueryParams.QueryParams :=
    QueryParams.QueryParams(
      QueryParams.Serial, false, Some(QueryParams.SimpleValues([QueryParams.Present([1, 2, 3]), QueryParams.NullValue])),
      None, None, None, None, None, None)

  lemma TwoValuesParts()
    ensures QueryParams.SerParams(TWO_VALUES, V4, [])
            == [0, 8] + [1] + ([0, 2] + [0, 0, 0, 3, 1, 2, 3, 255, 255, 255, 255]) + []
  {
    hide BigEndian, QueryParams.SerSimple, QueryParams.SerFlags, QueryParams.FlagsFor, QueryParams.SerPaging,
      QueryParams.SerTimes, QueryParams.SerConsistency;
    OneFlagByte(TWO_VALUES);
    SerialBytes();
    ValuesOnly(TWO_VALUES, [QueryParams.Present([1, 2, 3]), QueryParams.NullValue]);
    ValueListBytes();
  }

  lemma SerialBytes()
    ensures QueryParams.SerConsistency(QueryParams.Serial) == [0, 8]
  {
    ShortBytes(8);
    hide BigEndian;
  }

  lemma ValuesOnly(p: QueryParams.QueryParams, list: seq<QueryParams.QueryValue>)
    requires p.values == Some(QueryParams.SimpleValues(list)) && |list| == 2
    requires p.pageSize.None? && p.pagingState.None? && p.serialConsistency.None?
    requires p.timestamp.None? && p.keyspace.None? && p.nowInSeconds.None?
    ensures QueryParams.SerPaging(p, []) == [0, 2] + QueryParams.SerSimple(list) && QueryParams.SerTimes(p) == []
  {
    ShortBytes(2);
    hide BigEndian, QueryParams.SerSimple;
  }

  lemma ValueListBytes()
    ensures QueryParams.SerSimple([QueryParams.Present([1, 2, 3]), QueryParams.NullValue])
            == [0, 0, 0, 3, 1, 2, 3, 255, 255, 255, 255]
  {
    var list := [QueryParams.Present([1, 2, 3]), QueryParams.NullValue];
    WordBytes(3);
    WordBytes(-1);
    hide BigEndian;
    assert list[1..] == [QueryParams.NullValue] && list[1..][1..] == [];
  }

  lemma OneFlagByte(p: QueryParams.QueryParams)
    requires p.values.Some? && !p.withNames && p.pageSize.None? && p.pagingState.None? && p.serialConsistency.None?
    requires p.timestamp.None? && p.keyspace.None? && p.nowInSeconds.None?
    ensures QueryParams.SerFlags(QueryParams.FlagsFor(p), V4) == [1]
  {
    QueryParams.FlagsAnnounced(p);
    QueryFlagWeights(QueryParams.FlagsFor(p));
    hide QueryParams.FlagsFor, QueryParams.FlagBits;
    assert QueryParams.FlagBits(QueryParams.FlagsFor(p), QueryParams.QUERY_FLAGS) == 1;
    assert BigEndian(1, 1) == [] + [1];
  }

  const ALL_FIELDS: QueryParams.QueryParams :=
    QueryParams.QueryParams(
      QueryParams.One, false, None, Some(4), Some(MaybeBytes.Bytes([5])), Some(QueryParams.Serial), Some(-1), Some(FOO), Some(7))

  /** Page size 4, paging state [5], serial consistency, timestamp -1, keyspace `foo` and now 7,
      in v5. */
  lemma AllFieldsBytes()
    ensures QueryParams.SerParams(ALL_FIELDS, V5, [])
            == [0, 1] + [0, 0, 1, 188] + ([] + [0, 0, 0, 4] + [0, 0, 0, 1, 5])
               + ([0, 8] + [255, 255, 255, 255, 255, 255, 255, 255] + [0, 3, 102, 111, 111] + [0, 0, 0, 7])
  {
    AllFlagBytes();
    FieldParts();
    ShortBytes(1);
    assert QueryParams.SerConsistency(QueryParams.One) == [0, 1];
    hide BigEndian, QueryParams.SerFlags, QueryParams.FlagsFor, QueryParams.SerPaging, QueryParams.SerTimes,
      QueryParams.SerConsistency;
  }

  lemma FieldParts()
    ensures QueryParams.SerPaging(ALL_FIELDS, []) == [] + [0, 0, 0, 4] + [0, 0, 0, 1, 5]
    ensures QueryParams.SerTimes(ALL_FIELDS)
            == [0, 8] + [255, 255, 255, 255, 255, 255, 255, 255] + [0, 3, 102, 111, 111] + [0, 0, 0, 7]
  {
    BlobBytes();
    NameBytes();
    SerialBytes();
    WordBytes(4);
    WordBytes(7);
    MinusOneBytes();
    hide BigEndian, SerBlob, Str, QueryParams.SerConsistency;
  }

  lemma MinusOneBytes()
    ensures BigEndian(-1, LONG_LEN) == [255, 255, 255, 255, 255, 255, 255, 255]
  {
    WordBytes(-1);
    var n := LONG_LEN;
    MinusOneStep(n);
    MinusOneStep(n - 1);
    MinusOneStep(n - 2);
    MinusOneStep(n - 3);
    hide BigEndian;
    assert n - 4 == 4;
  }

  lemma MinusOneStep(n: nat)
    requires n > 0
    ensures BigEndian(-1, n) == BigEndian(-1, n - 1) + [255]
  {
  }

  lemma AllFlagBytes()
    ensures QueryParams.SerFlags(QueryParams.FlagsFor(ALL_FIELDS), V5) == [0, 0, 1, 188]
  {
    QueryParams.FlagsAnnounced(ALL_FIELDS);
    QueryFlagWeights(QueryParams.FlagsFor(ALL_FIELDS));
    WordBytes(0x1bc);
    hide QueryParams.FlagsFor, QueryParams.FlagBits, BigEndian;
    assert QueryParams.FlagBits(QueryParams.FlagsFor(ALL_FIELDS), QueryParams.QUERY_FLAGS) == 0x1bc;
  }
}
