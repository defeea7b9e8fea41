/** Column type descriptors and result metadata (sections 4.2.5.2 and 4.2.5.4 of the
    Cassandra native protocol v4 specification): mutually recursive serializers and
    parsers. */
module TypeDescriptors {
  import opened Options
  import opened Bytes
  import opened Wire
  import opened Envelopes

  datatype ColType =
    | Custom | Ascii | Bigint | Blob | Boolean | Counter | Decimal | Double | Float | Int
    | Timestamp | Uuid | Varchar | Varint | Timeuuid | Inet | Date | Time | Smallint
    | Tinyint | Duration | List | Map | Set | Udt | Tuple

  function ColTypeCode(t: ColType): int {
    match t
    case Custom => 0x00 case Ascii => 0x01 case Bigint => 0x02 case Blob => 0x03 case Boolean => 0x04
    case Counter => 0x05 case Decimal => 0x06 case Double => 0x07 case Float => 0x08 case Int => 0x09
    case Timestamp => 0x0B case Uuid => 0x0C case Varchar => 0x0D case Varint => 0x0E case Timeuuid => 0x0F
    case Inet => 0x10 case Date => 0x11 case Time => 0x12 case Smallint => 0x13 case Tinyint => 0x14
    case Duration => 0x15 case List => 0x20 case Map => 0x21 case Set => 0x22 case Udt => 0x30 case Tuple => 0x31
  }

  /** 0x80 is a second code for Varchar. */
  function ColTypeOf(code: int): Option<ColType> {
    if code == 0x00 then Some(Custom) else if code == 0x01 then Some(Ascii) else if code == 0x02 then Some(Bigint)
    else if code == 0x03 then Some(Blob) else if code == 0x04 then Some(Boolean) else if code == 0x05 then Some(Counter)
    else if code == 0x06 then Some(Decimal) else if code == 0x07 then Some(Double) else if code == 0x08 then Some(Float)
    else if code == 0x09 then Some(Int) else if code == 0x0B then Some(Timestamp) else if code == 0x0C then Some(Uuid)
    else if code == 0x0D then Some(Varchar) else if code == 0x0E then Some(Varint) else if code == 0x0F then Some(Timeuuid)
    else if code == 0x10 then Some(Inet) else if code == 0x11 then Some(Date) else if code == 0x12 then Some(Time)
    else if code == 0x13 then Some(Smallint) else if code == 0x14 then Some(Tinyint) else if code == 0x15 then Some(Duration)
    else if code == 0x20 then Some(List) else if code == 0x21 then Some(Map) else if code == 0x22 then Some(Set)
    else if code == 0x30 then Some(Udt) else if code == 0x31 then Some(Tuple) else if code == 0x80 then Some(Varchar)
    else None
  }

  lemma ColTypeCodes(t: ColType)
    ensures ColTypeOf(ColTypeCode(t)) == Some(t) && 0 <= ColTypeCode(t) < 0x8000
  {
  }

  datatype Descriptor = Descriptor(id: ColType, value: Option<Value>)

  datatype Value =
    | CString(text: bytes)
    | CColType(colType: ColType)
    | CSet(element: Descriptor)
    | CList(element: Descriptor)
    | CMap(key: Descriptor, val: Descriptor)
    | UdtType(keyspace: bytes, name: bytes, fields: seq<Field>)
    | TupleType(types: seq<Descriptor>)

  datatype Field = Field(name: bytes, ty: Descriptor)

  //
  // Serialization
  //

  function SerType(t: Descriptor): bytes
    decreases t, 1
  {
    BigEndian(ColTypeCode(t.id), SHORT_LEN) + (if t.value.Some? then SerValue(t.value.value) else [])
  }

  function SerValue(v: Value): bytes
    decreases v, 0
  {
    match v
    case CString(text) => Str(text)
    case CColType(c) => BigEndian(ColTypeCode(c), SHORT_LEN)
    case CSet(element) => SerType(element)
    case CList(element) => SerType(element)
    case CMap(key, val) => SerType(key) + SerType(val)
    case UdtType(keyspace, name, fields) =>
      Str(keyspace) + Str(name) + BigEndian(|fields|, SHORT_LEN) + SerFields(fields)
    case TupleType(types) => BigEndian(|types|, SHORT_LEN) + SerTypes(types)
  }

  function SerTypes(types: seq<Descriptor>): bytes
    decreases types, 0
  {
    if types == [] then [] else SerType(types[0]) + SerTypes(types[1..])
  }

  function SerFields(fields: seq<Field>): bytes
    decreases fields, 0
  {
    if fields == [] then [] else Str(fields[0].name) + SerType(fields[0].ty) + SerFields(fields[1..])
  }

  //
  // Parsing: each descriptor takes at least two bytes off the input
  //

  function ReadType(s: bytes): (r: Parsed<Descriptor>)
    ensures r.Ok? ==> |r.rest| + SHORT_LEN <= |s|
    decreases |s|, 0
  {
    var (code, rest) :- ReadInt(s, SHORT_LEN);
    match ColTypeOf(code)
    case None => Err(UnexpectedColumnType(code))
    case Some(id) => ReadValue(id, rest)
  }

  function ReadValue(id: ColType, s: bytes): (r: Parsed<Descriptor>)
    ensures r.Ok? ==> |r.rest| <= |s|
    decreases |s|, 1
  {
    match id
    case Custom =>
      var (text, rest) :- ReadStr(s);
      Ok(Descriptor(id, Some(CString(text))), rest)
    case Set =>
      var (element, rest) :- ReadType(s);
      Ok(Descriptor(id, Some(CSet(element))), rest)
    case List =>
      var (element, rest) :- ReadType(s);
      Ok(Descriptor(id, Some(CList(element))), rest)
    case Udt =>
      var (keyspace, rest) :- ReadStr(s);
      var (name, rest') :- ReadStr(rest);
      var (n, rest'') :- ReadInt(rest', SHORT_LEN);
      if n < 0 then Err(Panic)
      else
        var (fields, end) :- ReadFields(rest'', n);
        Ok(Descriptor(id, Some(UdtType(keyspace, name, fields))), end)
    case Tuple =>
      var (n, rest) :- ReadInt(s, SHORT_LEN);
      if n < 0 then Err(Panic)
      else
        var (types, end) :- ReadTypes(rest, n);
        Ok(Descriptor(id, Some(TupleType(types))), end)
    case Map =>
      var (key, rest) :- ReadType(s);
      var (val, rest') :- ReadType(rest);
      Ok(Descriptor(id, Some(CMap(key, val))), rest')
    case _ => Ok(Descriptor(id, None), s)
  }

  function ReadTypes(s: bytes, n: nat): (r: Parsed<seq<Descriptor>>)
    ensures r.Ok? ==> |r.rest| <= |s| && |r.value| == n
    decreases |s|, 2
  {
    if n == 0 then Ok([], s)
    else
      var (head, rest) :- ReadType(s);
      Prepended([head], ReadTypes(rest, n - 1))
  }

  function ReadFields(s: bytes, n: nat): (r: Parsed<seq<Field>>)
    ensures r.Ok? ==> |r.rest| <= |s| && |r.value| == n
    decreases |s|, 2
  {
    if n == 0 then Ok([], s)
    else
      var (name, rest) :- ReadStr(s);
      var (ty, rest') :- ReadType(rest);
      Prepended([Field(name, ty)], ReadFields(rest', n - 1))
  }

  /** `CTuple::from_cursor`, with its loop over the element types. */
  method ParseTuple(s: bytes) returns (r: Parsed<Descriptor>)
    ensures r == ReadValue(Tuple, s)
  {
    var n := ReadInt(s, SHORT_LEN);
    if n.Err? { return Err(n.error); }
    if n.value < 0 { return Err(Panic); }
    var types, rest := [], n.rest;
    PrependedNothing(ReadTypes(rest, n.value));
    for i := 0 to n.value
      invariant |types| == i
      invariant ReadTypes(n.rest, n.value) == Prepended(types, ReadTypes(rest, n.value - i))
    {
      var head := ReadType(rest);
      if head.Err? { return Err(head.error); }
      PrependedTwice(types, head.value, ReadTypes(head.rest, n.value - i - 1));
      types, rest := types + [head.value], head.rest;
    }
    assert types + [] == types;
    return Ok(Descriptor(Tuple, Some(TupleType(types))), rest);
  }

  /** `CUdt::from_cursor`, with its loop over the fields. */
  method ParseUdt(s: bytes) returns (r: Parsed<Descriptor>)
    ensures r == ReadValue(Udt, s)
  {
    hide ReadStr;
    var keyspace := ReadStr(s);
    if keyspace.Err? { return Err(keyspace.error); }
    var name := ReadStr(keyspace.rest);
    if name.Err? { return Err(name.error); }
    var n := ReadInt(name.rest, SHORT_LEN);
    if n.Err? { return Err(n.error); }
    if n.value < 0 { return Err(Panic); }
    var fields, rest := [], n.rest;
    PrependedNothing(ReadFields(rest, n.value));
    for i := 0 to n.value
      invariant |fields| == i
      invariant ReadFields(n.rest, n.value) == Prepended(fields, ReadFields(rest, n.value - i))
    {
      var fieldName := ReadStr(rest);
      if fieldName.Err? { return Err(fieldName.error); }
      var ty := ReadType(fieldName.rest);
      if ty.Err? { return Err(ty.error); }
      PrependedTwice(fields, Field(fieldName.value, ty.value), ReadFields(ty.rest, n.value - i - 1));
      fields, rest := fields + [Field(fieldName.value, ty.value)], ty.rest;
    }
    assert fields + [] == fields;
    return Ok(Descriptor(Udt, Some(UdtType(keyspace.value, name.value, fields))), rest);
  }

  //
  // Round trip
  //

  predicate IsParameterized(id: ColType) {
    id.Custom? || id.Set? || id.List? || id.Map? || id.Udt? || id.Tuple?
  }

  /** The value kind matches the type code, texts and counts fit their signed short. */
  predicate WellFormed(t: Descriptor)
    decreases t, 1
  {
    if !IsParameterized(t.id) then t.value.None?
    else t.value.Some? && WellFormedValue(t.id, t.value.value)
  }

  predicate WellFormedValue(id: ColType, v: Value)
    decreases v, 0
  {
    match v
    case CString(text) => id.Custom? && ShortText(text)
    case CColType(_) => false
    case CSet(element) => id.Set? && WellFormed(element)
    case CList(element) => id.List? && WellFormed(element)
    case CMap(key, val) => id.Map? && WellFormed(key) && WellFormed(val)
    case UdtType(keyspace, name, fields) =>
      id.Udt? && ShortText(keyspace) && ShortText(name) && |fields| < 0x8000 && WellFormedFields(fields)
    case TupleType(types) => id.Tuple? && |types| < 0x8000 && WellFormedTypes(types)
  }

  predicate WellFormedTypes(types: seq<Descriptor>)
    decreases types, 0
  {
    types != [] ==> WellFormed(types[0]) && WellFormedTypes(types[1..])
  }

  predicate WellFormedFields(fields: seq<Field>)
    decreases fields, 0
  {
    fields != [] ==> ShortText(fields[0].name) && WellFormed(fields[0].ty) && WellFormedFields(fields[1..])
  }

  /** Parsing a serialized descriptor of any nesting, followed by any bytes, gives back the
      descriptor and exactly those bytes. */
  lemma {:induction false} TypeRoundTrip(t: Descriptor, rest: bytes)
    requires WellFormed(t)
    ensures ReadType(SerType(t) + rest) == Ok(t, rest)
    decreases t, 2
  {
    hide ReadInt, BigEndian, ReadValue, ColTypeOf, ColTypeCode, SerValue, WellFormedValue;
    ColTypeCodes(t.id);
    var code := BigEndian(ColTypeCode(t.id), SHORT_LEN);
    var tail := if t.value.Some? then SerValue(t.value.value) else [];
    Assoc(code, tail, rest);
    ShortRoundTrip(ColTypeCode(t.id), tail + rest);
    if t.value.Some? {
      ValueRoundTrip(t.id, t.value.value, rest);
    } else {
      assert [] + rest == rest;
      SimpleType(t.id, rest);
    }
  }

  lemma SimpleType(id: ColType, s: bytes)
    requires !IsParameterized(id)
    ensures ReadValue(id, s) == Ok(Descriptor(id, None), s)
  {
  }

  lemma {:induction false} ValueRoundTrip(id: ColType, v: Value, rest: bytes)
    requires WellFormedValue(id, v)
    ensures ReadValue(id, SerValue(v) + rest) == Ok(Descriptor(id, Some(v)), rest)
    decreases v, 1
  {
    hide ReadInt, BigEndian, ReadType, ReadStr, Str, SerType, ShortText, WellFormed, ReadTypes, ReadFields, SerTypes, SerFields, WellFormedTypes, WellFormedFields;
    match v
    case CString(text) => StrRoundTrip(text, rest);
    case CSet(element) => TypeRoundTrip(element, rest);
    case CList(element) => TypeRoundTrip(element, rest);
    case CMap(key, val) =>
      Assoc(SerType(key), SerType(val), rest);
      TypeRoundTrip(key, SerType(val) + rest);
      TypeRoundTrip(val, rest);
    case UdtType(keyspace, name, fields) =>
      FieldsRoundTrip(fields, rest);
      UdtRead(keyspace, name, fields, rest);
    case TupleType(types) =>
      Assoc(BigEndian(|types|, SHORT_LEN), SerTypes(types), rest);
      ShortRoundTrip(|types|, SerTypes(types) + rest);
      TypesRoundTrip(types, rest);
  }

  lemma UdtRead(keyspace: bytes, name: bytes, fields: seq<Field>, rest: bytes)
    requires ShortText(keyspace) && ShortText(name) && |fields| < 0x8000
    requires ReadFields(SerFields(fields) + rest, |fields|) == Ok(fields, rest)
    ensures ReadValue(Udt, SerValue(UdtType(keyspace, name, fields)) + rest)
            == Ok(Descriptor(Udt, Some(UdtType(keyspace, name, fields))), rest)
  {
    hide ReadInt, BigEndian, ReadStr, Str, ShortText, ReadFields, SerFields;
    var count := BigEndian(|fields|, SHORT_LEN);
    FourAssoc(Str(keyspace), Str(name), count, SerFields(fields), rest);
    StrRoundTrip(keyspace, Str(name) + (count + (SerFields(fields) + rest)));
    StrRoundTrip(name, count + (SerFields(fields) + rest));
    ShortRoundTrip(|fields|, SerFields(fields) + rest);
  }

  lemma {:induction false} TypesRoundTrip(types: seq<Descriptor>, rest: bytes)
    requires WellFormedTypes(types)
    ensures ReadTypes(SerTypes(types) + rest, |types|) == Ok(types, rest)
    decreases types, 1
  {
    hide ReadType, SerType, WellFormed;
    if types == [] {
      assert [] + rest == rest;
    } else {
      Assoc(SerType(types[0]), SerTypes(types[1..]), rest);
      TypeRoundTrip(types[0], SerTypes(types[1..]) + rest);
      TypesRoundTrip(types[1..], rest);
      assert [types[0]] + types[1..] == types;
    }
  }

  lemma {:induction false} FieldsRoundTrip(fields: seq<Field>, rest: bytes)
    requires WellFormedFields(fields)
    ensures ReadFields(SerFields(fields) + rest, |fields|) == Ok(fields, rest)
    decreases fields, 1
  {
    hide ReadType, SerType, WellFormed, ReadStr, Str, ShortText;
    if fields == [] {
      assert [] + rest == rest;
    } else {
      var tail := SerFields(fields[1..]) + rest;
      assert SerFields(fields) + rest == Str(fields[0].name) + (SerType(fields[0].ty) + tail);
      StrRoundTrip(fields[0].name, SerType(fields[0].ty) + tail);
      TypeRoundTrip(fields[0].ty, tail);
      FieldsRoundTrip(fields[1..], rest);
      assert [fields[0]] + fields[1..] == fields;
    }
  }

  //
  // Column specifications
  //

  datatype TableSpec = TableSpec(keyspace: bytes, table: bytes)

  datatype ColSpec = ColSpec(tableSpec: Option<TableSpec>, name: bytes, colType: Descriptor)

  function SerTable(t: Option<TableSpec>): bytes {
    if t.Some? then Str(t.value.keyspace) + Str(t.value.table) else []
  }

  function ReadTable(s: bytes, present: bool): (r: Parsed<Option<TableSpec>>)
    ensures r.Ok? ==> |r.rest| <= |s|
  {
    if !present then Ok(None, s)
    else
      var (keyspace, rest) :- ReadStr(s);
      var (table, rest') :- ReadStr(rest);
      Ok(Some(TableSpec(keyspace, table)), rest')
  }

  function SerColSpecs(specs: seq<ColSpec>): bytes {
    if specs == [] then []
    else SerTable(specs[0].tableSpec) + Str(specs[0].name) + SerType(specs[0].colType) + SerColSpecs(specs[1..])
  }

  function ReadColSpecs(s: bytes, n: nat, hasGlobal: bool): (r: Parsed<seq<ColSpec>>)
    ensures r.Ok? ==> |r.rest| <= |s|
    decreases n
  {
    if n == 0 then Ok([], s)
    else
      var (table, rest) :- ReadTable(s, !hasGlobal);
      var (name, rest') :- ReadStr(rest);
      var (ty, end) :- ReadType(rest');
      Prepended([ColSpec(table, name, ty)], ReadColSpecs(end, n - 1, hasGlobal))
  }

  predicate TableFits(t: Option<TableSpec>) {
    t.Some? ==> ShortText(t.value.keyspace) && ShortText(t.value.table)
  }

  /** Columns name their table exactly when there is no global one. */
  predicate ColSpecsFit(specs: seq<ColSpec>, hasGlobal: bool) {
    forall i :: 0 <= i < |specs| ==> ColSpecFits(specs[i], hasGlobal)
  }

  predicate ColSpecFits(c: ColSpec, hasGlobal: bool) {
    (c.tableSpec.Some? <==> !hasGlobal) && TableFits(c.tableSpec) && ShortText(c.name) && WellFormed(c.colType)
  }

  lemma TableRoundTrip(t: Option<TableSpec>, rest: bytes)
    requires TableFits(t)
    ensures ReadTable(SerTable(t) + rest, t.Some?) == Ok(t, rest)
  {
    hide ReadStr, Str, ShortText;
    if t.Some? {
      Assoc(Str(t.value.keyspace), Str(t.value.table), rest);
      StrRoundTrip(t.value.keyspace, Str(t.value.table) + rest);
      StrRoundTrip(t.value.table, rest);
    } else {
      assert [] + rest == rest;
    }
  }

  lemma {:induction false} ColSpecsRoundTrip(specs: seq<ColSpec>, hasGlobal: bool, rest: bytes)
    requires ColSpecsFit(specs, hasGlobal)
    ensures ReadColSpecs(SerColSpecs(specs) + rest, |specs|, hasGlobal) == Ok(specs, rest)
    decreases |specs|
  {
    hide ReadStr, Str, ShortText, ReadType, SerType, WellFormed, ReadTable, SerTable, TableFits;
    if specs == [] {
      assert [] + rest == rest;
    } else {
      var c := specs[0];
      assert ColSpecFits(c, hasGlobal);
      var tail := SerColSpecs(specs[1..]) + rest;
      FourAssoc(SerTable(c.tableSpec), Str(c.name), SerType(c.colType), SerColSpecs(specs[1..]), rest);
      TableRoundTrip(c.tableSpec, Str(c.name) + (SerType(c.colType) + tail));
      StrRoundTrip(c.name, SerType(c.colType) + tail);
      TypeRoundTrip(c.colType, tail);
      ColSpecsRoundTrip(specs[1..], hasGlobal, rest);
      assert [c] + specs[1..] == specs;
    }
  }

  //
  // Rows metadata
  //

  datatype RowsFlags = RowsFlags(globalTableSpace: bool, hasMorePages: bool, noMetadata: bool, metadataChanged: bool)

  datatype RowsMetadata = RowsMetadata(
    flags: RowsFlags,
    columnsCount: int,
    pagingState: Option<MaybeBytes>,
    newMetadataId: Option<MaybeBytes>,
    globalTableSpec: Option<TableSpec>,
    colSpecs: seq<ColSpec>)

  function RowsFlagBits(f: RowsFlags): int {
    Bit(f.globalTableSpace, 1) + Bit(f.hasMorePages, 2) + Bit(f.noMetadata, 4) + Bit(f.metadataChanged, 8)
  }

  /** `from_bits_truncate` of a signed word. */
  function ReadRowsFlags(b: int): RowsFlags {
    RowsFlags(b % 2 == 1, (b / 2) % 2 == 1, (b / 4) % 2 == 1, (b / 8) % 2 == 1)
  }

  /** The serializer's own assertions. */
  predicate RowsAsserts(m: RowsMetadata) {
    && m.flags.hasMorePages == m.pagingState.Some?
    && (m.flags.noMetadata ==> m.globalTableSpec.None? && m.colSpecs == [])
    && (!m.flags.noMetadata ==> m.colSpecs != [] && (!m.flags.globalTableSpace ==> m.globalTableSpec.None?))
  }

  /** `None` when the serializer's assertions fail. */
  function SerRows(m: RowsMetadata): Option<bytes> {
    if !RowsAsserts(m) then None
    else Some(BigEndian(RowsFlagBits(m.flags), INT_LEN) + BigEndian(m.columnsCount, INT_LEN)
              + OptionalBlob(m.pagingState, INT_LEN) + OptionalBlob(m.newMetadataId, SHORT_LEN)
              + SerTable(m.globalTableSpec) + SerColSpecs(m.colSpecs))
  }

  function ReadRows(s: bytes): Parsed<RowsMetadata> {
    var (bits, s1) :- ReadInt(s, INT_LEN);
    var flags := ReadRowsFlags(bits);
    var (count, s2) :- ReadInt(s1, INT_LEN);
    var (paging, s3) :- ReadOptionalBlob(s2, INT_LEN, flags.hasMorePages);
    if flags.noMetadata then Ok(RowsMetadata(flags, count, paging, None, None, []), s3)
    else
      var (id, s4) :- ReadOptionalBlob(s3, SHORT_LEN, flags.metadataChanged);
      var (global, s5) :- ReadTable(s4, flags.globalTableSpace);
      var (specs, s6) :- ReadColSpecs(s5, if count < 0 then 0 else count, flags.globalTableSpace);
      Ok(RowsMetadata(flags, count, paging, id, global, specs), s6)
  }

  /** Fields present exactly as the flags announce, sizes within their integer fields. */
  predicate RowsMatch(m: RowsMetadata) {
    && RowsAsserts(m) && -0x8000_0000 <= m.columnsCount < 0x8000_0000
    && (m.pagingState.Some? ==> BlobFits(m.pagingState.value, INT_LEN))
    && (m.newMetadataId.Some? <==> m.flags.metadataChanged && !m.flags.noMetadata)
    && (m.newMetadataId.Some? ==> BlobFits(m.newMetadataId.value, SHORT_LEN))
    && (m.globalTableSpec.Some? <==> m.flags.globalTableSpace && !m.flags.noMetadata)
    && TableFits(m.globalTableSpec)
    && (!m.flags.noMetadata ==> m.columnsCount == |m.colSpecs| && ColSpecsFit(m.colSpecs, m.flags.globalTableSpace))
  }

  lemma RowsFlagsRoundTrip(f: RowsFlags)
    ensures ReadRowsFlags(RowsFlagBits(f)) == f && 0 <= RowsFlagBits(f) < 16
  {
  }

  lemma SixAssoc(a: bytes, b: bytes, c: bytes, d: bytes, e: bytes, f: bytes, g: bytes)
    ensures a + b + c + d + e + f + g == a + (b + (c + (d + (e + (f + g)))))
  {
  }

  /** Rows metadata whose fields match its flags parses back to itself. */
  lemma RowsRoundTrip(m: RowsMetadata, rest: bytes)
    requires RowsMatch(m)
    ensures SerRows(m).Some? && ReadRows(SerRows(m).value + rest) == Ok(m, rest)
  {
    hide ReadInt, BigEndian, ReadOptionalBlob, OptionalBlob, ReadTable, SerTable, ReadColSpecs, SerColSpecs,
      BlobFits, TableFits, ColSpecsFit, ReadRowsFlags, RowsFlagBits;
    var paging, id := OptionalBlob(m.pagingState, INT_LEN), OptionalBlob(m.newMetadataId, SHORT_LEN);
    var global, specs := SerTable(m.globalTableSpec), SerColSpecs(m.colSpecs);
    SixAssoc(BigEndian(RowsFlagBits(m.flags), INT_LEN), BigEndian(m.columnsCount, INT_LEN), paging, id, global, specs, rest);
    RowsFlagsRoundTrip(m.flags);
    WordRoundTrip(RowsFlagBits(m.flags), BigEndian(m.columnsCount, INT_LEN) + (paging + (id + (global + (specs + rest)))));
    WordRoundTrip(m.columnsCount, paging + (id + (global + (specs + rest))));
    OptionalBlobRoundTrip(m.pagingState, INT_LEN, id + (global + (specs + rest)));
    if m.flags.noMetadata {
      NothingMore(m, rest);
    } else {
      OptionalBlobRoundTrip(m.newMetadataId, SHORT_LEN, global + (specs + rest));
      TableRoundTrip(m.globalTableSpec, specs + rest);
      ColSpecsRoundTrip(m.colSpecs, m.flags.globalTableSpace, rest);
    }
  }

  lemma NothingMore(m: RowsMetadata, rest: bytes)
    requires m.newMetadataId.None? && m.globalTableSpec.None? && m.colSpecs == []
    ensures OptionalBlob(m.newMetadataId, SHORT_LEN) + (SerTable(m.globalTableSpec) + (SerColSpecs(m.colSpecs) + rest)) == rest
  {
  }

  //
  // Prepared metadata
  //

  datatype PreparedMetadata = PreparedMetadata(
    pkIndexes: seq<int>, globalTableSpec: Option<TableSpec>, colSpecs: seq<ColSpec>)

  function SerShorts(v: seq<int>): bytes {
    if v == [] then [] else BigEndian(v[0], SHORT_LEN) + SerShorts(v[1..])
  }

  function ReadShorts(s: bytes, n: nat): Parsed<seq<int>>
    decreases n
  {
    if n == 0 then Ok([], s)
    else
      var (head, rest) :- ReadInt(s, SHORT_LEN);
      Prepended([head], ReadShorts(rest, n - 1))
  }

  /** The serializer writes the primary key count for every version. */
  function SerPrepared(m: PreparedMetadata): bytes {
    BigEndian(Bit(m.globalTableSpec.Some?, 1), INT_LEN) + BigEndian(|m.colSpecs|, INT_LEN)
    + BigEndian(|m.pkIndexes|, INT_LEN) + SerShorts(m.pkIndexes) + SerTable(m.globalTableSpec) + SerColSpecs(m.colSpecs)
  }

  /** The parser expects it from v4 on. */
  function ReadPrepared(s: bytes, version: Version): Parsed<PreparedMetadata> {
    var (bits, s1) :- ReadInt(s, INT_LEN);
    var hasGlobal := bits % 2 == 1;
    var (count, s2) :- ReadInt(s1, INT_LEN);
    var (pkCount, s3) :- if version.V3? then Ok(0, s2) else ReadInt(s2, INT_LEN);
    var (pk, s4) :- ReadShorts(s3, if pkCount < 0 then 0 else pkCount);
    var (global, s5) :- ReadTable(s4, hasGlobal);
    var (specs, s6) :- ReadColSpecs(s5, if count < 0 then 0 else count, hasGlobal);
    Ok(PreparedMetadata(pk, global, specs), s6)
  }

  predicate PreparedFits(m: PreparedMetadata) {
    && |m.colSpecs| < 0x8000_0000 && |m.pkIndexes| < 0x8000_0000
    && (forall i :: 0 <= i < |m.pkIndexes| ==> -0x8000 <= m.pkIndexes[i] < 0x8000)
    && TableFits(m.globalTableSpec) && ColSpecsFit(m.colSpecs, m.globalTableSpec.Some?)
  }

  lemma {:induction false} ShortsRoundTrip(v: seq<int>, rest: bytes)
    requires forall i :: 0 <= i < |v| ==> -0x8000 <= v[i] < 0x8000
    ensures ReadShorts(SerShorts(v) + rest, |v|) == Ok(v, rest)
    decreases |v|
  {
    hide ReadInt, BigEndian;
    if v == [] {
      assert [] + rest == rest;
    } else {
      Assoc(BigEndian(v[0], SHORT_LEN), SerShorts(v[1..]), rest);
      ShortRoundTrip(v[0], SerShorts(v[1..]) + rest);
      ShortsRoundTrip(v[1..], rest);
      assert [v[0]] + v[1..] == v;
    }
  }

  /** Prepared metadata parses back to itself in v4 and v5. */
  lemma PreparedRoundTrip(m: PreparedMetadata, version: Version, rest: bytes)
    requires PreparedFits(m) && !version.V3?
    ensures ReadPrepared(SerPrepared(m) + rest, version) == Ok(m, rest)
  {
    hide ReadInt, BigEndian, ReadTable, SerTable, ReadColSpecs, SerColSpecs, TableFits, ColSpecsFit, ReadShorts, SerShorts;
    var flag := Bit(m.globalTableSpec.Some?, 1);
    var n, k := BigEndian(|m.colSpecs|, INT_LEN), BigEndian(|m.pkIndexes|, INT_LEN);
    var pk, global, specs := SerShorts(m.pkIndexes), SerTable(m.globalTableSpec), SerColSpecs(m.colSpecs);
    SixAssoc(BigEndian(flag, INT_LEN), n, k, pk, global, specs, rest);
    WordRoundTrip(flag, n + (k + (pk + (global + (specs + rest)))));
    WordRoundTrip(|m.colSpecs|, k + (pk + (global + (specs + rest))));
    WordRoundTrip(|m.pkIndexes|, pk + (global + (specs + rest)));
    ShortsRoundTrip(m.pkIndexes, global + (specs + rest));
    TableRoundTrip(m.globalTableSpec, specs + rest);
    ColSpecsRoundTrip(m.colSpecs, m.globalTableSpec.Some?, rest);
  }

  //
  // What a parsed value took off the input
  //

  lemma {:induction false} TypeLength(s: bytes)
    requires ReadType(s).Ok?
    ensures |SerType(ReadType(s).value)| + |ReadType(s).rest| == |s|
    decreases |s|, 0
  {
    hide BigEndian, ColTypeCode, ColTypeOf, ReadValue, SerValue;
    var code := ReadInt(s, SHORT_LEN);
    ValueLength(ColTypeOf(code.value).value, code.rest);
    hide SerType;
    SerTypeLength(ReadType(s).value);
  }

  function OptionalValue(t: Descriptor): bytes { if t.value.Some? then SerValue(t.value.value) else [] }

  lemma SerTypeLength(t: Descriptor)
    ensures |SerType(t)| == SHORT_LEN + |OptionalValue(t)|
  {
  }

  lemma {:induction false} ValueLength(id: ColType, s: bytes)
    requires ReadValue(id, s).Ok?
    ensures |OptionalValue(ReadValue(id, s).value)| + |ReadValue(id, s).rest| == |s|
    decreases |s|, 1
  {
    hide BigEndian, ReadType, SerType, ReadTypes, ReadFields, SerTypes, SerFields;
    match id
    case Custom =>
    case Set => TypeLength(s);
    case List => TypeLength(s);
    case Map =>
      TypeLength(s);
      TypeLength(ReadType(s).rest);
    case Udt =>
      var n := ReadInt(ReadStr(ReadStr(s).rest).rest, SHORT_LEN);
      FieldsLength(n.rest, n.value);
    case Tuple =>
      var n := ReadInt(s, SHORT_LEN);
      TypesLength(n.rest, n.value);
    case _ =>
  }

  lemma {:induction false} TypesLength(s: bytes, n: nat)
    requires ReadTypes(s, n).Ok?
    ensures |SerTypes(ReadTypes(s, n).value)| + |ReadTypes(s, n).rest| == |s|
    decreases |s|, 2
  {
    hide ReadType, SerType;
    if n > 0 {
      TypeLength(s);
      var head := ReadType(s);
      TypesLength(head.rest, n - 1);
      var all := ReadTypes(s, n).value;
      assert all[0] == head.value && all[1..] == ReadTypes(head.rest, n - 1).value;
    }
  }

  lemma {:induction false} FieldsLength(s: bytes, n: nat)
    requires ReadFields(s, n).Ok?
    ensures |SerFields(ReadFields(s, n).value)| + |ReadFields(s, n).rest| == |s|
    decreases |s|, 2
  {
    hide ReadType, SerType;
    if n > 0 {
      var name := ReadStr(s);
      TypeLength(name.rest);
      var ty := ReadType(name.rest);
      FieldsLength(ty.rest, n - 1);
      var all := ReadFields(s, n).value;
      assert all[0] == Field(name.value, ty.value) && all[1..] == ReadFields(ty.rest, n - 1).value;
    }
  }

  lemma {:induction false} ColSpecsLength(s: bytes, n: nat, hasGlobal: bool)
    requires ReadColSpecs(s, n, hasGlobal).Ok?
    ensures |SerColSpecs(ReadColSpecs(s, n, hasGlobal).value)| + |ReadColSpecs(s, n, hasGlobal).rest| == |s|
    decreases n
  {
    hide ReadType, SerType, ReadStr, Str, ReadTable, SerTable;
    if n > 0 {
      var table := ReadTable(s, !hasGlobal);
      TableLength(s, !hasGlobal);
      var name := ReadStr(table.rest);
      StrLength(table.rest);
      var ty := ReadType(name.rest);
      TypeLength(name.rest);
      ColSpecsLength(ty.rest, n - 1, hasGlobal);
      var all := ReadColSpecs(s, n, hasGlobal).value;
      assert all[0] == ColSpec(table.value, name.value, ty.value);
      assert all[1..] == ReadColSpecs(ty.rest, n - 1, hasGlobal).value;
    }
  }

  lemma StrLength(s: bytes)
    requires ReadStr(s).Ok?
    ensures |Str(ReadStr(s).value)| + |ReadStr(s).rest| == |s|
  {
  }

  lemma TableLength(s: bytes, present: bool)
    requires ReadTable(s, present).Ok?
    ensures |SerTable(ReadTable(s, present).value)| + |ReadTable(s, present).rest| == |s|
  {
    if present {
      StrLength(s);
      StrLength(ReadStr(s).rest);
      hide ReadStr, Str;
    }
  }

  lemma PreparedLengthV3(s: bytes)
    requires ReadPrepared(s, V3).Ok?
    ensures var r := ReadPrepared(s, V3);
            2 * INT_LEN + |SerTable(r.value.globalTableSpec)| + |SerColSpecs(r.value.colSpecs)| + |r.rest| == |s|
  {
    hide BigEndian, SignedBigEndian, ReadTable, SerTable, ReadColSpecs, SerColSpecs;
    var flag := ReadInt(s, INT_LEN);
    var n := ReadInt(flag.rest, INT_LEN);
    var hasGlobal := flag.value % 2 == 1;
    TableLength(n.rest, hasGlobal);
    ColSpecsLength(ReadTable(n.rest, hasGlobal).rest, if n.value < 0 then 0 else n.value, hasGlobal);
  }

  /** v3 is the exact exception: there the parser does not skip the primary key count, so no
      prepared metadata parses back to itself with nothing left over. */
  lemma PreparedLostInV3(m: PreparedMetadata, rest: bytes)
    ensures ReadPrepared(SerPrepared(m) + rest, V3) != Ok(m, rest)
  {
    if ReadPrepared(SerPrepared(m) + rest, V3).Ok? {
      PreparedLengthV3(SerPrepared(m) + rest);
      hide BigEndian, ReadPrepared, SerTable, SerColSpecs, SerShorts;
    }
  }
}
