/** Query parameters (section 4.1.4 of the Cassandra native protocol v4 specification):
    a flag set announcing optional fields, and positional or named values. */
module QueryParams {
  import opened Options
  import opened Bits
  import opened Bytes
  import opened Wire
  import opened Envelopes

  datatype Consistency =
    | Any | One | Two | Three | Quorum | All | LocalQuorum | EachQuorum | Serial | LocalSerial | LocalOne

  function ConsistencyCode(c: Consistency): int {
    match c
    case Any => 0 case One => 1 case Two => 2 case Three => 3 case Quorum => 4 case All => 5
    case LocalQuorum => 6 case EachQuorum => 7 case Serial => 8 case LocalSerial => 9 case LocalOne => 10
  }

  const CONSISTENCY_LEVELS: seq<Consistency> :=
    [Any, One, Two, Three, Quorum, All, LocalQuorum, EachQuorum, Serial, LocalSerial, LocalOne]

  function SerConsistency(c: Consistency): bytes { BigEndian(ConsistencyCode(c), SHORT_LEN) }

  function ReadConsistency(s: bytes): Parsed<Consistency> {
    var (code, rest) :- ReadInt(s, SHORT_LEN);
    if 0 <= code < |CONSISTENCY_LEVELS| then Ok(CONSISTENCY_LEVELS[code], rest)
    else Err(UnknownConsistency(code))
  }

  lemma ConsistencyRoundTrip(c: Consistency, rest: bytes)
    ensures ReadConsistency(SerConsistency(c) + rest) == Ok(c, rest)
  {
    hide ReadInt, BigEndian;
    ShortRoundTrip(ConsistencyCode(c), rest);
  }

  //
  // Values
  //

  datatype QueryValue = Present(data: bytes) | NullValue | NotSet

  datatype QueryValues =
    | SimpleValues(list: seq<QueryValue>)
    | NamedValues(table: map<bytes, QueryValue>)
  {
    function Count(): nat { if SimpleValues? then |list| else |table| }
  }

  function SerQueryValue(v: QueryValue): bytes {
    match v
    case NullValue => BigEndian(-1, INT_LEN)
    case NotSet => BigEndian(-2, INT_LEN)
    case Present(data) => BigEndian(|data|, INT_LEN) + data
  }

  /** A length of zero is refused. */
  function ReadQueryValue(s: bytes): Parsed<QueryValue> {
    var (size, rest) :- ReadInt(s, INT_LEN);
    if size > 0 then
      var (data, rest') :- Take(rest, size);
      Ok(Present(data), rest')
    else if size == -1 then Ok(NullValue, rest)
    else if size == -2 then Ok(NotSet, rest)
    else Err(BadValueLength)
  }

  function SerSimple(list: seq<QueryValue>): bytes {
    if list == [] then [] else SerQueryValue(list[0]) + SerSimple(list[1..])
  }

  function SerNamed(table: map<bytes, QueryValue>, order: seq<bytes>): bytes
    requires forall k :: k in order ==> k in table
  {
    if order == [] then [] else Str(order[0]) + SerQueryValue(table[order[0]]) + SerNamed(table, order[1..])
  }

  /** `order` is a way of iterating over the table: every key once. */
  ghost predicate Enumerates(order: seq<bytes>, table: map<bytes, QueryValue>) {
    && (forall k :: k in order <==> k in table)
    && (forall i, j :: 0 <= i < j < |order| ==> order[i] != order[j])
  }

  ghost predicate Iterates(order: seq<bytes>, values: QueryValues) {
    values.NamedValues? ==> Enumerates(order, values.table)
  }

  function SerValues(values: QueryValues, order: seq<bytes>): bytes
    requires Iterates(order, values)
  {
    match values
    case SimpleValues(list) => SerSimple(list)
    case NamedValues(table) => SerNamed(table, order)
  }

  function ReadSimple(s: bytes, n: nat): Parsed<seq<QueryValue>>
    decreases n
  {
    if n == 0 then Ok([], s)
    else
      var (head, rest) :- ReadQueryValue(s);
      Prepended([head], ReadSimple(rest, n - 1))
  }

  /** Later entries replace earlier ones of the same name. */
  function ReadNamed(s: bytes, n: nat, table: map<bytes, QueryValue>): Parsed<map<bytes, QueryValue>>
    decreases n
  {
    if n == 0 then Ok(table, s)
    else
      var (name, rest) :- ReadStr(s);
      var (value, rest') :- ReadQueryValue(rest);
      ReadNamed(rest', n - 1, table[name := value])
  }

  function ReadValues(s: bytes, named: bool): Parsed<QueryValues> {
    var (n, rest) :- ReadInt(s, SHORT_LEN);
    if n < 0 then Err(Panic)
    else if named then
      var (table, end) :- ReadNamed(rest, n, map[]);
      Ok(NamedValues(table), end)
    else
      var (list, end) :- ReadSimple(rest, n);
      Ok(SimpleValues(list), end)
  }

  //
  // Flags: a bit set, least significant flag first
  //

  datatype QueryFlag =
    | Value | SkipMetadata | PageSize | PagingState | SerialConsistency
    | DefaultTimestamp | NamesForValues | Keyspace | NowInSeconds

  const QUERY_FLAGS: seq<QueryFlag> :=
    [Value, SkipMetadata, PageSize, PagingState, SerialConsistency,
     DefaultTimestamp, NamesForValues, Keyspace, NowInSeconds]

  function FlagBits(flags: set<QueryFlag>, order: seq<QueryFlag>): nat {
    if order == [] then 0 else Bit(order[0] in flags, 1) + 2 * FlagBits(flags, order[1..])
  }

  /** `from_bits_truncate`: bits beyond the known flags are dropped. */
  function FlagsOf(bits: nat, order: seq<QueryFlag>): set<QueryFlag> {
    if order == [] then {}
    else (if bits % 2 == 1 then {order[0]} else {}) + FlagsOf(bits / 2, order[1..])
  }

  /** The flag word has four bytes from v5 on, one before. */
  function FlagWidth(version: Version): nat { if version.V5? then INT_LEN else 1 }

  function SerFlags(flags: set<QueryFlag>, version: Version): bytes {
    BigEndian(FlagBits(flags, QUERY_FLAGS), FlagWidth(version))
  }

  function ReadFlags(s: bytes, version: Version): Parsed<set<QueryFlag>> {
    var (b, rest) :- Take(s, FlagWidth(version));
    Ok(FlagsOf(FromBigEndian(b), QUERY_FLAGS), rest)
  }

  /** A word of `k` bits keeps exactly the first `k` flags. */
  lemma {:induction false} FlagsSurvive(flags: set<QueryFlag>, order: seq<QueryFlag>, k: nat)
    ensures FlagsOf(FlagBits(flags, order) % Pow2(k), order)
            == set f | f in flags && f in (if k < |order| then order[..k] else order)
    decreases |order|
  {
    if order != [] {
      hide Pow2;
      var tail := FlagBits(flags, order[1..]);
      var bits := FlagBits(flags, order);
      if k == 0 {
        Pow2Literals();
        NoFlags(order);
      } else {
        Pow2Add(1, k - 1);
        Pow2Literals();
        ModDouble(bits, Pow2(k - 1));
        FlagsSurvive(flags, order[1..], k - 1);
        assert order == [order[0]] + order[1..];
        if k < |order| {
          assert order[..k] == [order[0]] + order[1..][..k - 1];
        }
      }
    }
  }

  lemma {:induction false} NoFlags(order: seq<QueryFlag>)
    ensures FlagsOf(0, order) == {}
  {
    if order != [] {
      NoFlags(order[1..]);
    }
  }

  function Surviving(flags: set<QueryFlag>, version: Version): set<QueryFlag> {
    if version.V5? then flags else flags - {NowInSeconds}
  }

  lemma FlagsRoundTrip(flags: set<QueryFlag>, version: Version, rest: bytes)
    ensures ReadFlags(SerFlags(flags, version) + rest, version) == Ok(Surviving(flags, version), rest)
  {
    hide BigEndian, Pow2, FlagBits, FlagsOf, FromBigEndian;
    var width := FlagWidth(version);
    var b := SerFlags(flags, version);
    assert (b + rest)[..width] == b && (b + rest)[width..] == rest;
    BigEndianModular(FlagBits(flags, QUERY_FLAGS), width);
    FlagsSurvive(flags, QUERY_FLAGS, 8 * width);
    assert QUERY_FLAGS[..8] + [NowInSeconds] == QUERY_FLAGS;
    forall f: QueryFlag
      ensures f in QUERY_FLAGS && (f in QUERY_FLAGS[..8] <==> f != NowInSeconds)
    {
      FlagListed(f);
    }
    if version.V5? {
      assert Surviving(flags, version) == set f | f in flags && f in QUERY_FLAGS;
    } else {
      assert Surviving(flags, version) == set f | f in flags && f in QUERY_FLAGS[..8];
    }
  }

  lemma FlagListed(f: QueryFlag)
    ensures f in QUERY_FLAGS && (f in QUERY_FLAGS[..8] <==> f != NowInSeconds)
  {
    var low := QUERY_FLAGS[..8];
    assert QUERY_FLAGS[0] == Value && QUERY_FLAGS[1] == SkipMetadata && QUERY_FLAGS[2] == PageSize;
    assert QUERY_FLAGS[3] == PagingState && QUERY_FLAGS[4] == SerialConsistency && QUERY_FLAGS[5] == DefaultTimestamp;
    assert QUERY_FLAGS[6] == NamesForValues && QUERY_FLAGS[7] == Keyspace && QUERY_FLAGS[8] == NowInSeconds;
    assert low == [Value, SkipMetadata, PageSize, PagingState, SerialConsistency, DefaultTimestamp, NamesForValues, Keyspace];
  }

  //
  // Parameters
  //

  datatype QueryParams = QueryParams(
    consistency: Consistency,
    withNames: bool,
    values: Option<QueryValues>,
    pageSize: Option<int>,
    pagingState: Option<MaybeBytes>,
    serialConsistency: Option<Consistency>,
    timestamp: Option<int>,
    keyspace: Option<bytes>,
    nowInSeconds: Option<int>)

  predicate Announces(p: QueryParams, f: QueryFlag) {
    match f
    case Value => p.values.Some?
    case SkipMetadata => false
    case PageSize => p.pageSize.Some?
    case PagingState => p.pagingState.Some?
    case SerialConsistency => p.serialConsistency.Some?
    case DefaultTimestamp => p.timestamp.Some?
    case NamesForValues => p.withNames
    case Keyspace => p.keyspace.Some?
    case NowInSeconds => p.nowInSeconds.Some?
  }

  function FlagsFor(p: QueryParams): set<QueryFlag> {
    set f | f in QUERY_FLAGS && Announces(p, f)
  }

  ghost predicate Ordered(order: seq<bytes>, p: QueryParams) { p.values.Some? ==> Iterates(order, p.values.value) }

  function OptionalValues(values: Option<QueryValues>, order: seq<bytes>): bytes
    requires values.Some? ==> Iterates(order, values.value)
  {
    if values.Some? then BigEndian(values.value.Count(), SHORT_LEN) + SerValues(values.value, order) else []
  }

  function OptionalInt(v: Option<int>, n: nat): bytes { if v.Some? then BigEndian(v.value, n) else [] }

  function OptionalConsistency(c: Option<Consistency>): bytes { if c.Some? then SerConsistency(c.value) else [] }

  function OptionalStr(t: Option<bytes>): bytes { if t.Some? then Str(t.value) else [] }

  function ReadOptionalValues(s: bytes, present: bool, named: bool): Parsed<Option<QueryValues>> {
    if !present then Ok(None, s)
    else
      var (v, rest) :- ReadValues(s, named);
      Ok(Some(v), rest)
  }

  function ReadOptionalInt(s: bytes, n: nat, present: bool): Parsed<Option<int>> {
    if !present then Ok(None, s)
    else
      var (v, rest) :- ReadInt(s, n);
      Ok(Some(v), rest)
  }

  function ReadOptionalConsistency(s: bytes, present: bool): Parsed<Option<Consistency>> {
    if !present then Ok(None, s)
    else
      var (c, rest) :- ReadConsistency(s);
      Ok(Some(c), rest)
  }

  function ReadOptionalStr(s: bytes, present: bool): Parsed<Option<bytes>> {
    if !present then Ok(None, s)
    else
      var (t, rest) :- ReadStr(s);
      Ok(Some(t), rest)
  }

  /** What follows the flags, up to the paging state, and the rest. */
  function SerPaging(p: QueryParams, order: seq<bytes>): bytes
    requires Ordered(order, p)
  {
    OptionalValues(p.values, order) + OptionalInt(p.pageSize, INT_LEN) + OptionalBlob(p.pagingState, INT_LEN)
  }

  function SerTimes(p: QueryParams): bytes {
    OptionalConsistency(p.serialConsistency) + OptionalInt(p.timestamp, LONG_LEN)
    + OptionalStr(p.keyspace) + OptionalInt(p.nowInSeconds, INT_LEN)
  }

  function SerParams(p: QueryParams, version: Version, order: seq<bytes>): bytes
    requires Ordered(order, p)
  {
    SerConsistency(p.consistency) + SerFlags(FlagsFor(p), version) + SerPaging(p, order) + SerTimes(p)
  }

  function ReadPaging(s: bytes, flags: set<QueryFlag>, c: Consistency): Parsed<QueryParams> {
    var named := NamesForValues in flags;
    var (values, s1) :- ReadOptionalValues(s, Value in flags, named);
    var (pageSize, s2) :- ReadOptionalInt(s1, INT_LEN, PageSize in flags);
    var (paging, s3) :- ReadOptionalBlob(s2, INT_LEN, PagingState in flags);
    Ok(QueryParams(c, named, values, pageSize, paging, None, None, None, None), s3)
  }

  function ReadTimes(s: bytes, flags: set<QueryFlag>, p: QueryParams): Parsed<QueryParams> {
    var (serial, s1) :- ReadOptionalConsistency(s, SerialConsistency in flags);
    var (timestamp, s2) :- ReadOptionalInt(s1, LONG_LEN, DefaultTimestamp in flags);
    var (keyspace, s3) :- ReadOptionalStr(s2, Keyspace in flags);
    var (now, s4) :- ReadOptionalInt(s3, INT_LEN, NowInSeconds in flags);
    Ok(p.(serialConsistency := serial, timestamp := timestamp, keyspace := keyspace, nowInSeconds := now), s4)
  }

  function ReadParams(s: bytes, version: Version): Parsed<QueryParams> {
    var (consistency, s1) :- ReadConsistency(s);
    var (flags, s2) :- ReadFlags(s1, version);
    var (p, s3) :- ReadPaging(s2, flags, consistency);
    ReadTimes(s3, flags, p)
  }

  //
  // The code: flags inserted one by one, fields appended to and taken off a moving cursor
  //

  method Flags(p: QueryParams) returns (flags: set<QueryFlag>)
    ensures forall f: QueryFlag :: f in flags <==> Announces(p, f)
  {
    flags := {};
    if p.values.Some? { flags := flags + {Value}; }
    if p.withNames { flags := flags + {NamesForValues}; }
    if p.pageSize.Some? { flags := flags + {PageSize}; }
    if p.pagingState.Some? { flags := flags + {PagingState}; }
    if p.serialConsistency.Some? { flags := flags + {SerialConsistency}; }
    if p.timestamp.Some? { flags := flags + {DefaultTimestamp}; }
    if p.keyspace.Some? { flags := flags + {Keyspace}; }
    if p.nowInSeconds.Some? { flags := flags + {NowInSeconds}; }
  }

  /** `order` is the order in which the hash map happens to be iterated. */
  method SerializeValues(values: QueryValues, order: seq<bytes>) returns (out: bytes)
    requires Iterates(order, values)
    ensures out == SerValues(values, order)
  {
    hide SerQueryValue, Str;
    out := [];
    match values
    case SimpleValues(list) =>
      for i := 0 to |list|
        invariant out + SerSimple(list[i..]) == SerSimple(list)
      {
        Assoc(out, SerQueryValue(list[i]), SerSimple(list[i + 1..]));
        assert list[i..][1..] == list[i + 1..];
        out := out + SerQueryValue(list[i]);
      }
      assert out + [] == out;
    case NamedValues(table) =>
      for i := 0 to |order|
        invariant out + SerNamed(table, order[i..]) == SerNamed(table, order)
      {
        var entry := Str(order[i]) + SerQueryValue(table[order[i]]);
        Assoc(out, entry, SerNamed(table, order[i + 1..]));
        assert order[i..][1..] == order[i + 1..];
        out := out + entry;
      }
      assert out + [] == out;
  }

  method Serialize(p: QueryParams, version: Version, order: seq<bytes>) returns (out: bytes)
    requires Ordered(order, p)
    ensures out == SerParams(p, version, order)
  {
    hide SerFlags, SerConsistency, SerValues, OptionalInt, OptionalBlob, OptionalConsistency, OptionalStr, BigEndian;
    out := SerConsistency(p.consistency);
    var flags := Flags(p);
    assert flags == FlagsFor(p) by { FlagsAnnounced(p); }
    out := out + SerFlags(flags, version);
    if p.values.Some? {
      var values := SerializeValues(p.values.value, order);
      out := out + (BigEndian(p.values.value.Count(), SHORT_LEN) + values);
    }
    ghost var head := SerConsistency(p.consistency) + SerFlags(flags, version);
    ghost var values := OptionalValues(p.values, order);
    assert out == head + values by { EmptyNeutral(head); }
    out := out + OptionalInt(p.pageSize, INT_LEN) + OptionalBlob(p.pagingState, INT_LEN);
    out := out + OptionalConsistency(p.serialConsistency) + OptionalInt(p.timestamp, LONG_LEN);
    out := out + OptionalStr(p.keyspace) + OptionalInt(p.nowInSeconds, INT_LEN);
    ParamsAssoc(head, values, OptionalInt(p.pageSize, INT_LEN), OptionalBlob(p.pagingState, INT_LEN),
                OptionalConsistency(p.serialConsistency), OptionalInt(p.timestamp, LONG_LEN),
                OptionalStr(p.keyspace), OptionalInt(p.nowInSeconds, INT_LEN));
  }

  lemma ParamsAssoc(h: bytes, a: bytes, b: bytes, c: bytes, d: bytes, e: bytes, f: bytes, g: bytes)
    ensures h + a + b + c + d + e + f + g == h + (a + b + c) + (d + e + f + g)
  {
  }

  lemma FlagsAnnounced(p: QueryParams)
    ensures forall f: QueryFlag :: f in FlagsFor(p) <==> Announces(p, f)
  {
    forall f: QueryFlag
      ensures f in FlagsFor(p) <==> Announces(p, f)
    {
      FlagListed(f);
    }
  }

  method ParseValues(s: bytes, named: bool) returns (r: Parsed<QueryValues>)
    ensures r == ReadValues(s, named)
  {
    hide ReadStr, ReadQueryValue;
    var n := ReadInt(s, SHORT_LEN);
    if n.Err? { return Err(n.error); }
    if n.value < 0 { return Err(Panic); }
    var rest := n.rest;
    if named {
      var table := map[];
      for i := 0 to n.value
        invariant ReadNamed(n.rest, n.value, map[]) == ReadNamed(rest, n.value - i, table)
      {
        var name := ReadStr(rest);
        if name.Err? { return Err(name.error); }
        var value := ReadQueryValue(name.rest);
        if value.Err? { return Err(value.error); }
        table, rest := table[name.value := value.value], value.rest;
      }
      return Ok(NamedValues(table), rest);
    }
    var list := [];
    PrependedNothing(ReadSimple(rest, n.value));
    for i := 0 to n.value
      invariant ReadSimple(n.rest, n.value) == Prepended(list, ReadSimple(rest, n.value - i))
    {
      var value := ReadQueryValue(rest);
      if value.Err? { return Err(value.error); }
      PrependedTwice(list, value.value, ReadSimple(value.rest, n.value - i - 1));
      list, rest := list + [value.value], value.rest;
    }
    assert list + [] == list;
    return Ok(SimpleValues(list), rest);
  }

  //
  // Round trip
  //

  predicate IsInt(v: int) { -0x8000_0000 <= v < 0x8000_0000 }

  /** What the source's types guarantee: integers of their width. */
  predicate Typed(p: QueryParams) {
    && (p.pageSize.Some? ==> IsInt(p.pageSize.value))
    && (p.nowInSeconds.Some? ==> IsInt(p.nowInSeconds.value))
    && (p.timestamp.Some? ==> Fits(p.timestamp.value, LONG_LEN))
  }

  predicate Sendable(v: QueryValue) { v.Present? ==> 0 < |v.data| < 0x8000_0000 }

  predicate ValuesSendable(values: QueryValues) {
    match values
    case SimpleValues(list) => |list| < 0x8000 && forall i :: 0 <= i < |list| ==> Sendable(list[i])
    case NamedValues(table) =>
      |table| < 0x8000 && forall k :: k in table ==> ShortText(k) && Sendable(table[k])
  }

  /** Parameters that the wire format of a version can carry. */
  predicate Carried(p: QueryParams, version: Version) {
    && (p.nowInSeconds.Some? ==> version.V5?)
    && (p.values.Some? ==> (p.values.value.NamedValues? <==> p.withNames) && ValuesSendable(p.values.value))
    && (p.pagingState.Some? ==> BlobFits(p.pagingState.value, INT_LEN))
    && (p.keyspace.Some? ==> ShortText(p.keyspace.value))
  }

  lemma QueryValueRoundTrip(v: QueryValue, rest: bytes)
    requires Sendable(v)
    ensures ReadQueryValue(SerQueryValue(v) + rest) == Ok(v, rest)
  {
    hide ReadInt, BigEndian;
    match v
    case NullValue => WordRoundTrip(-1, rest);
    case NotSet => WordRoundTrip(-2, rest);
    case Present(data) =>
      Assoc(BigEndian(|data|, INT_LEN), data, rest);
      WordRoundTrip(|data|, data + rest);
      assert (data + rest)[..|data|] == data && (data + rest)[|data|..] == rest;
  }

  lemma {:induction false} SimpleRoundTrip(list: seq<QueryValue>, rest: bytes)
    requires forall i :: 0 <= i < |list| ==> Sendable(list[i])
    ensures ReadSimple(SerSimple(list) + rest, |list|) == Ok(list, rest)
    decreases |list|
  {
    hide ReadQueryValue, SerQueryValue, Sendable;
    if list == [] {
      assert [] + rest == rest;
    } else {
      Assoc(SerQueryValue(list[0]), SerSimple(list[1..]), rest);
      QueryValueRoundTrip(list[0], SerSimple(list[1..]) + rest);
      SimpleRoundTrip(list[1..], rest);
      assert [list[0]] + list[1..] == list;
    }
  }

  function Entries(table: map<bytes, QueryValue>, order: seq<bytes>): map<bytes, QueryValue>
    requires forall k :: k in order ==> k in table
  {
    map k | k in order :: table[k]
  }

  /** Whatever the iteration order, the entries read are those of the table. */
  lemma {:induction false} NamedRoundTrip(
    table: map<bytes, QueryValue>, order: seq<bytes>, seen: map<bytes, QueryValue>, rest: bytes)
    requires forall k :: k in order ==> k in table && ShortText(k) && Sendable(table[k])
    ensures ReadNamed(SerNamed(table, order) + rest, |order|, seen) == Ok(seen + Entries(table, order), rest)
    decreases |order|
  {
    hide ReadQueryValue, SerQueryValue, Sendable, ReadStr, Str, ShortText;
    if order == [] {
      EmptyNeutral(rest);
      assert seen + Entries(table, order) == seen;
    } else {
      hide Entries;
      var name := order[0];
      assert name in order;
      var value, tail := SerQueryValue(table[name]), SerNamed(table, order[1..]);
      ThreeAssoc(Str(name), value, tail, rest);
      StrRoundTrip(name, value + (tail + rest));
      QueryValueRoundTrip(table[name], tail + rest);
      NamedRoundTrip(table, order[1..], seen[name := table[name]], rest);
      EntryAdded(table, order, seen);
    }
  }

  lemma EntryAdded(table: map<bytes, QueryValue>, order: seq<bytes>, seen: map<bytes, QueryValue>)
    requires order != [] && forall k :: k in order ==> k in table
    ensures seen[order[0] := table[order[0]]] + Entries(table, order[1..]) == seen + Entries(table, order)
  {
    assert order == [order[0]] + order[1..];
  }

  lemma KeysOf(name: bytes, tail: seq<bytes>, table: map<bytes, QueryValue>)
    requires Enumerates([name] + tail, table)
    ensures Enumerates(tail, table - {name}) && name in table
  {
    var order := [name] + tail;
    assert order[0] == name;
    forall i | 0 <= i < |tail|
      ensures tail[i] == order[i + 1] && tail[i] != name
    {
    }
    forall k
      ensures k in tail <==> k in table - {name}
    {
      assert k in order <==> k == name || k in tail;
    }
    forall i, j | 0 <= i < j < |tail|
      ensures tail[i] != tail[j]
    {
      assert order[i + 1] != order[j + 1];
    }
  }

  lemma {:induction false} EnumerationLength(order: seq<bytes>, table: map<bytes, QueryValue>)
    requires Enumerates(order, table)
    ensures |order| == |table|
    decreases |order|
  {
    if order == [] {
      assert table == map[];
    } else {
      hide Enumerates;
      var less := table - {order[0]};
      assert order == [order[0]] + order[1..];
      KeysOf(order[0], order[1..], table);
      EnumerationLength(order[1..], less);
      assert table.Keys == less.Keys + {order[0]};
    }
  }

  lemma ValuesRoundTrip(values: QueryValues, order: seq<bytes>, rest: bytes)
    requires Iterates(order, values) && ValuesSendable(values)
    ensures ReadValues(BigEndian(values.Count(), SHORT_LEN) + SerValues(values, order) + rest, values.NamedValues?)
            == Ok(values, rest)
  {
    hide ReadInt, BigEndian, ReadNamed, ReadSimple, SerNamed, SerSimple, Sendable, ShortText;
    var body := SerValues(values, order);
    Assoc(BigEndian(values.Count(), SHORT_LEN), body, rest);
    ShortRoundTrip(values.Count(), body + rest);
    match values
    case SimpleValues(list) => SimpleRoundTrip(list, rest);
    case NamedValues(table) =>
      EnumerationLength(order, table);
      NamedRoundTrip(table, order, map[], rest);
      assert map[] + Entries(table, order) == table;
  }

  lemma OptionalValuesRoundTrip(values: Option<QueryValues>, order: seq<bytes>, named: bool, rest: bytes)
    requires values.Some? ==> Iterates(order, values.value) && ValuesSendable(values.value)
    requires values.Some? ==> (values.value.NamedValues? <==> named)
    ensures ReadOptionalValues(OptionalValues(values, order) + rest, values.Some?, named) == Ok(values, rest)
  {
    hide ReadValues, SerValues, BigEndian, ValuesSendable;
    if values.Some? {
      ValuesRoundTrip(values.value, order, rest);
    } else {
      assert [] + rest == rest;
    }
  }

  lemma OptionalIntRoundTrip(v: Option<int>, n: nat, rest: bytes)
    requires n > 0 && (v.Some? ==> Fits(v.value, n))
    ensures ReadOptionalInt(OptionalInt(v, n) + rest, n, v.Some?) == Ok(v, rest)
  {
    hide ReadInt, BigEndian, Fits;
    if v.Some? {
      IntRoundTrip(v.value, n, rest);
    } else {
      assert [] + rest == rest;
    }
  }

  lemma OptionalConsistencyRoundTrip(c: Option<Consistency>, rest: bytes)
    ensures ReadOptionalConsistency(OptionalConsistency(c) + rest, c.Some?) == Ok(c, rest)
  {
    hide ReadConsistency, SerConsistency;
    if c.Some? {
      ConsistencyRoundTrip(c.value, rest);
    } else {
      assert [] + rest == rest;
    }
  }

  lemma OptionalStrRoundTrip(t: Option<bytes>, rest: bytes)
    requires t.Some? ==> ShortText(t.value)
    ensures ReadOptionalStr(OptionalStr(t) + rest, t.Some?) == Ok(t, rest)
  {
    hide ReadStr, Str, ShortText;
    if t.Some? {
      StrRoundTrip(t.value, rest);
    } else {
      assert [] + rest == rest;
    }
  }

  lemma PagingRoundTrip(p: QueryParams, version: Version, order: seq<bytes>, rest: bytes)
    requires Ordered(order, p) && Typed(p) && Carried(p, version)
    ensures ReadPaging(SerPaging(p, order) + rest, FlagsFor(p), p.consistency)
            == Ok(p.(serialConsistency := None, timestamp := None, keyspace := None, nowInSeconds := None), rest)
  {
    hide ReadOptionalValues, OptionalValues, ReadOptionalInt, OptionalInt, ReadOptionalBlob, OptionalBlob,
      ValuesSendable, BlobFits, ShortText, Iterates, FlagsFor, Fits;
    FlagsAnnounced(p);
    var a, b, c := OptionalValues(p.values, order), OptionalInt(p.pageSize, INT_LEN), OptionalBlob(p.pagingState, INT_LEN);
    ThreeAssoc(a, b, c, rest);
    OptionalValuesRoundTrip(p.values, order, p.withNames, b + (c + rest));
    if p.pageSize.Some? { FitsInt(p.pageSize.value); }
    OptionalIntRoundTrip(p.pageSize, INT_LEN, c + rest);
    OptionalBlobRoundTrip(p.pagingState, INT_LEN, rest);
  }

  lemma TimesRoundTrip(p: QueryParams, q: QueryParams, version: Version, rest: bytes)
    requires Typed(p) && Carried(p, version)
    requires q == p.(serialConsistency := None, timestamp := None, keyspace := None, nowInSeconds := None)
    ensures ReadTimes(SerTimes(p) + rest, FlagsFor(p), q) == Ok(p, rest)
  {
    hide ReadOptionalConsistency, OptionalConsistency, ReadOptionalInt, OptionalInt, ReadOptionalStr, OptionalStr,
      ValuesSendable, BlobFits, ShortText, FlagsFor, Fits;
    FlagsAnnounced(p);
    var a, b := OptionalConsistency(p.serialConsistency), OptionalInt(p.timestamp, LONG_LEN);
    var c, d := OptionalStr(p.keyspace), OptionalInt(p.nowInSeconds, INT_LEN);
    FourAssoc(a, b, c, d, rest);
    OptionalConsistencyRoundTrip(p.serialConsistency, b + (c + (d + rest)));
    OptionalIntRoundTrip(p.timestamp, LONG_LEN, c + (d + rest));
    OptionalStrRoundTrip(p.keyspace, d + rest);
    if p.nowInSeconds.Some? { FitsInt(p.nowInSeconds.value); }
    OptionalIntRoundTrip(p.nowInSeconds, INT_LEN, rest);
  }

  lemma AllFlagsSurvive(p: QueryParams, version: Version)
    requires Carried(p, version)
    ensures Surviving(FlagsFor(p), version) == FlagsFor(p)
  {
    hide ValuesSendable, BlobFits, ShortText;
    FlagsAnnounced(p);
    assert !version.V5? ==> !Announces(p, NowInSeconds);
  }

  lemma ParamsRoundTrip(p: QueryParams, version: Version, order: seq<bytes>, rest: bytes)
    requires Ordered(order, p) && Typed(p) && Carried(p, version)
    ensures ReadParams(SerParams(p, version, order) + rest, version) == Ok(p, rest)
  {
    hide ReadConsistency, SerConsistency, ReadFlags, SerFlags, ReadPaging, SerPaging, ReadTimes, SerTimes,
      FlagsFor, Carried, Typed, Ordered, Surviving;
    var c, f := SerConsistency(p.consistency), SerFlags(FlagsFor(p), version);
    var body, times := SerPaging(p, order), SerTimes(p);
    FourAssoc(c, f, body, times, rest);
    ConsistencyRoundTrip(p.consistency, f + (body + (times + rest)));
    FlagsRoundTrip(FlagsFor(p), version, body + (times + rest));
    AllFlagsSurvive(p, version);
    PagingRoundTrip(p, version, order, times + rest);
    TimesRoundTrip(p, p.(serialConsistency := None, timestamp := None, keyspace := None, nowInSeconds := None), version, rest);
  }

  //
  // What the parser can return at all
  //

  lemma IntInRange(s: bytes, n: nat)
    requires ReadInt(s, n).Ok? && n > 0
    ensures Fits(ReadInt(s, n).value, n)
  {
    FromBigEndianRange(s[..n]);
    hide FromBigEndian;
    Pow2Add(1, 8 * n - 1);
  }

  lemma TextIsShort(s: bytes)
    requires ReadStr(s).Ok?
    ensures ShortText(ReadStr(s).value)
  {
    hide ValidUtf8, SignedBigEndian, Fits;
    IntInRange(s, SHORT_LEN);
    FitsShort(ReadInt(s, SHORT_LEN).value);
  }

  lemma ParsedBlobFits(s: bytes, n: nat)
    requires ReadBlob(s, n).Ok? && n > 0
    ensures BlobFits(ReadBlob(s, n).value, n)
  {
    hide SignedBigEndian, Fits;
    IntInRange(s, n);
  }

  lemma ParsedIsSendable(s: bytes)
    requires ReadQueryValue(s).Ok?
    ensures Sendable(ReadQueryValue(s).value)
  {
    hide SignedBigEndian, Fits;
    IntInRange(s, INT_LEN);
    FitsInt(ReadInt(s, INT_LEN).value);
  }

  lemma {:induction false} SimpleAreSendable(s: bytes, n: nat)
    requires ReadSimple(s, n).Ok?
    ensures |ReadSimple(s, n).value| == n && forall i :: 0 <= i < n ==> Sendable(ReadSimple(s, n).value[i])
    decreases n
  {
    hide ReadQueryValue, Sendable;
    if n > 0 {
      ParsedIsSendable(s);
      SimpleAreSendable(ReadQueryValue(s).rest, n - 1);
    }
  }

  lemma {:induction false} NamedAreSendable(s: bytes, n: nat, table: map<bytes, QueryValue>)
    requires forall k :: k in table ==> ShortText(k) && Sendable(table[k])
    requires ReadNamed(s, n, table).Ok?
    ensures var r := ReadNamed(s, n, table).value;
            |r| <= |table| + n && forall k :: k in r ==> ShortText(k) && Sendable(r[k])
    decreases n
  {
    hide ReadQueryValue, Sendable, ReadStr, ShortText;
    if n > 0 {
      var name := ReadStr(s);
      TextIsShort(s);
      var value := ReadQueryValue(name.rest);
      ParsedIsSendable(name.rest);
      var more := table[name.value := value.value];
      AtMostOneMore(table, name.value, value.value);
      NamedAreSendable(value.rest, n - 1, more);
    }
  }

  lemma AtMostOneMore(table: map<bytes, QueryValue>, k: bytes, v: QueryValue)
    ensures |table[k := v]| <= |table| + 1
  {
    assert table[k := v].Keys == table.Keys + {k};
  }

  lemma ValuesAreSendable(s: bytes, named: bool)
    requires ReadValues(s, named).Ok?
    ensures var v := ReadValues(s, named).value;
            ValuesSendable(v) && (v.NamedValues? <==> named)
  {
    hide ReadNamed, ReadSimple, Sendable, ShortText, SignedBigEndian, Fits;
    var n := ReadInt(s, SHORT_LEN);
    IntInRange(s, SHORT_LEN);
    FitsShort(n.value);
    if named {
      NamedAreSendable(n.rest, n.value, map[]);
    } else {
      SimpleAreSendable(n.rest, n.value);
    }
  }

  lemma {:induction false} HighFlagsClear(bits: nat, order: seq<QueryFlag>, k: nat)
    requires bits < Pow2(k) && k <= |order|
    ensures forall f :: f in FlagsOf(bits, order) ==> f in order[..k]
    decreases |order|
  {
    if k == 0 {
      NoFlags(order);
    } else {
      HighFlagsClear(bits / 2, order[1..], k - 1);
      assert order[..k] == [order[0]] + order[1..][..k - 1];
    }
  }

  lemma NowNeedsV5(s: bytes, version: Version)
    requires ReadFlags(s, version).Ok? && NowInSeconds in ReadFlags(s, version).value
    ensures version.V5?
  {
    if !version.V5? {
      var b := s[..1];
      assert FromBigEndian(b) < Pow2(8) by {
        FromBigEndianRange(b);
      }
      HighFlagsClear(FromBigEndian(b), QUERY_FLAGS, 8);
      FlagListed(NowInSeconds);
    }
  }

  lemma ReadPagingCarried(s: bytes, flags: set<QueryFlag>, c: Consistency, version: Version)
    requires ReadPaging(s, flags, c).Ok?
    ensures Carried(ReadPaging(s, flags, c).value, version)
  {
    hide ReadValues, ReadBlob, ValuesSendable, BlobFits, ShortText, ReadInt;
    var named := NamesForValues in flags;
    var values := ReadOptionalValues(s, Value in flags, named);
    if Value in flags {
      ValuesAreSendable(s, named);
    }
    var pageSize := ReadOptionalInt(values.rest, INT_LEN, PageSize in flags);
    if PagingState in flags {
      ParsedBlobFits(pageSize.rest, INT_LEN);
    }
  }

  lemma ReadTimesCarried(s: bytes, flags: set<QueryFlag>, p: QueryParams, version: Version)
    requires ReadTimes(s, flags, p).Ok? && Carried(p, version)
    requires NowInSeconds in flags ==> version.V5?
    ensures Carried(ReadTimes(s, flags, p).value, version)
  {
    hide ReadConsistency, ReadStr, ReadInt, ValuesSendable, BlobFits, ShortText;
    var serial := ReadOptionalConsistency(s, SerialConsistency in flags);
    var timestamp := ReadOptionalInt(serial.rest, LONG_LEN, DefaultTimestamp in flags);
    if Keyspace in flags {
      TextIsShort(timestamp.rest);
    }
  }

  /** The parser only ever returns parameters its version can carry. */
  lemma ParsedIsCarried(s: bytes, version: Version)
    requires ReadParams(s, version).Ok?
    ensures Carried(ReadParams(s, version).value, version)
  {
    hide ReadConsistency, ReadFlags, ReadPaging, ReadTimes, Carried;
    var c := ReadConsistency(s);
    var flags := ReadFlags(c.rest, version);
    if NowInSeconds in flags.value {
      NowNeedsV5(c.rest, version);
    }
    ReadPagingCarried(flags.rest, flags.value, c.value, version);
    ReadTimesCarried(ReadPaging(flags.rest, flags.value, c.value).rest, flags.value,
                     ReadPaging(flags.rest, flags.value, c.value).value, version);
  }

  /** Parameters parse back to themselves with nothing left over, whatever the iteration order
      of named values, exactly when the version can carry them: `now_in_seconds` needs v5, the
      names flag must match the values, and every present value must be non-empty (besides
      the counts and lengths fitting their signed fields). */
  lemma RoundTripIff(p: QueryParams, version: Version, order: seq<bytes>, rest: bytes)
    requires Ordered(order, p) && Typed(p)
    ensures ReadParams(SerParams(p, version, order) + rest, version) == Ok(p, rest) <==> Carried(p, version)
  {
    hide ReadParams, SerParams, Carried, Typed, Ordered;
    if Carried(p, version) {
      ParamsRoundTrip(p, version, order, rest);
    } else if ReadParams(SerParams(p, version, order) + rest, version).Ok? {
      ParsedIsCarried(SerParams(p, version, order) + rest, version);
    }
  }
}
