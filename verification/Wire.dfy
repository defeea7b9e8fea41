/** Protocol notation: integers, byte strings and text as they appear inside envelopes.
    A reader takes the bytes still ahead of the cursor and returns a value together with
    the bytes left; what makes the source panic (slicing past the end, a negative
    capacity) is an error of its own. */
module Wire {
  import opened Options
  import opened Bits
  import opened Bytes

  const SHORT_LEN: nat := 2
  const INT_LEN: nat := 4
  const LONG_LEN: nat := 8

  datatype WireError =
    | UnexpectedEof
    | Panic
    | InvalidUtf8
    | UnexpectedColumnType(code: int)
    | UnknownConsistency(code: int)
    | BadValueLength

  datatype Parsed<+T> = Ok(value: T, rest: bytes) | Err(error: WireError) {
    predicate IsFailure() { Err? }
    function PropagateFailure<U>(): Parsed<U>
      requires Err?
    {
      Err(error)
    }
    function Extract(): (T, bytes)
      requires Ok?
    {
      (value, rest)
    }
  }

  /** `read_exact` for a fixed number of bytes. */
  function Take(s: bytes, n: nat): Parsed<bytes> {
    if |s| < n then Err(UnexpectedEof) else Ok(s[..n], s[n..])
  }

  /** A signed big-endian integer of `n` bytes. */
  function ReadInt(s: bytes, n: nat): (r: Parsed<int>)
    ensures r.Ok? ==> |r.rest| + n == |s|
  {
    var (b, rest) :- Take(s, n);
    Ok(SignedBigEndian(b), rest)
  }

  predicate Fits(v: int, n: nat) {
    0 <= 2 * v + Pow2(8 * n) && 2 * v < Pow2(8 * n)
  }

  lemma IntRoundTrip(v: int, n: nat, rest: bytes)
    requires n > 0 && Fits(v, n)
    ensures ReadInt(BigEndian(v, n) + rest, n) == Ok(v, rest)
  {
    hide BigEndian, SignedBigEndian;
    var s := BigEndian(v, n) + rest;
    assert s[..n] == BigEndian(v, n) && s[n..] == rest;
    BigEndianRoundTrip(v, n);
  }

  lemma FitsShort(v: int)
    ensures Fits(v, SHORT_LEN) <==> -0x8000 <= v < 0x8000
  {
    IntegerWidths();
  }

  lemma FitsInt(v: int)
    ensures Fits(v, INT_LEN) <==> -0x8000_0000 <= v < 0x8000_0000
  {
    IntegerWidths();
  }

  lemma ShortRoundTrip(v: int, rest: bytes)
    requires -0x8000 <= v < 0x8000
    ensures ReadInt(BigEndian(v, SHORT_LEN) + rest, SHORT_LEN) == Ok(v, rest)
  {
    FitsShort(v);
    IntRoundTrip(v, SHORT_LEN, rest);
  }

  lemma WordRoundTrip(v: int, rest: bytes)
    requires -0x8000_0000 <= v < 0x8000_0000
    ensures ReadInt(BigEndian(v, INT_LEN) + rest, INT_LEN) == Ok(v, rest)
  {
    FitsInt(v);
    IntRoundTrip(v, INT_LEN, rest);
  }

  /** `cursor_next_value_ref`: slicing past the end panics, as does a negative length
      cast to usize. */
  function TakeRef(s: bytes, n: int): Parsed<bytes> {
    if n < 0 || |s| < n then Err(Panic) else Ok(s[..n], s[n..])
  }

  //
  // Text
  //

  predicate Continuation(b: byte) { 0x80 <= b < 0xc0 }

  /** Well-formed UTF-8, as `std::str::from_utf8` accepts it. */
  predicate ValidUtf8(s: bytes) {
    if s == [] then true
    else if s[0] < 0x80 then ValidUtf8(s[1..])
    else if 0xc2 <= s[0] < 0xe0 then |s| >= 2 && Continuation(s[1]) && ValidUtf8(s[2..])
    else if 0xe0 <= s[0] < 0xf0 then
      && |s| >= 3 && Continuation(s[1]) && Continuation(s[2])
      && (s[0] == 0xe0 ==> s[1] >= 0xa0) && (s[0] == 0xed ==> s[1] < 0xa0)
      && ValidUtf8(s[3..])
    else if 0xf0 <= s[0] < 0xf5 then
      && |s| >= 4 && Continuation(s[1]) && Continuation(s[2]) && Continuation(s[3])
      && (s[0] == 0xf0 ==> s[1] >= 0x90) && (s[0] == 0xf4 ==> s[1] < 0x90)
      && ValidUtf8(s[4..])
    else false
  }

  /** A `[string]`: a two-byte length and the text. */
  function Str(s: bytes): bytes { BigEndian(|s|, SHORT_LEN) + s }

  function ReadStr(s: bytes): (r: Parsed<bytes>)
    ensures r.Ok? ==> |r.rest| + |r.value| + SHORT_LEN == |s|
  {
    var (n, rest) :- ReadInt(s, SHORT_LEN);
    var (text, rest') :- TakeRef(rest, n);
    if ValidUtf8(text) then Ok(text, rest') else Err(InvalidUtf8)
  }

  /** Text that the two-byte signed length can describe. */
  predicate ShortText(s: bytes) { |s| < 0x8000 && ValidUtf8(s) }

  lemma StrRoundTrip(s: bytes, rest: bytes)
    requires ShortText(s)
    ensures ReadStr(Str(s) + rest) == Ok(s, rest)
  {
    hide BigEndian, Fits, ReadInt;
    FitsShort(|s|);
    IntRoundTrip(|s|, SHORT_LEN, s + rest);
    assert Str(s) + rest == BigEndian(|s|, SHORT_LEN) + (s + rest);
    assert (s + rest)[..|s|] == s && (s + rest)[|s|..] == rest;
  }

  /** A `[string list]`. */
  function Strs(list: seq<bytes>): bytes {
    if list == [] then [] else Str(list[0]) + Strs(list[1..])
  }

  function StrList(list: seq<bytes>): bytes { BigEndian(|list|, SHORT_LEN) + Strs(list) }

  function ReadStrs(s: bytes, n: nat): Parsed<seq<bytes>>
    decreases n
  {
    if n == 0 then Ok([], s)
    else
      var (head, rest) :- ReadStr(s);
      var (tail, rest') :- ReadStrs(rest, n - 1);
      Ok([head] + tail, rest')
  }

  function ReadStrList(s: bytes): Parsed<seq<bytes>> {
    var (n, rest) :- ReadInt(s, SHORT_LEN);
    if n < 0 then Err(Panic) else ReadStrs(rest, n)
  }

  /** A parsed list with the elements read earlier put in front. */
  function Prepended<T>(list: seq<T>, r: Parsed<seq<T>>): Parsed<seq<T>> {
    match r
    case Ok(tail, rest) => Ok(list + tail, rest)
    case Err(e) => Err(e)
  }

  lemma PrependedNothing<T>(r: Parsed<seq<T>>)
    ensures Prepended([], r) == r
  {
    if r.Ok? {
      assert [] + r.value == r.value;
    }
  }

  lemma PrependedTwice<T>(list: seq<T>, x: T, r: Parsed<seq<T>>)
    ensures Prepended(list, Prepended([x], r)) == Prepended(list + [x], r)
  {
    if r.Ok? {
      assert list + ([x] + r.value) == (list + [x]) + r.value;
    }
  }

  /** The reading loop of `from_cursor_string_list`. */
  method ReadStringList(s: bytes) returns (r: Parsed<seq<bytes>>)
    ensures r == ReadStrList(s)
  {
    var n := ReadInt(s, SHORT_LEN);
    if n.Err? { return Err(n.error); }
    if n.value < 0 { return Err(Panic); }
    var list, rest := [], n.rest;
    PrependedNothing(ReadStrs(rest, n.value));
    for i := 0 to n.value
      invariant ReadStrList(s) == Prepended(list, ReadStrs(rest, n.value - i))
    {
      var head := ReadStr(rest);
      if head.Err? { return Err(head.error); }
      PrependedTwice(list, head.value, ReadStrs(head.rest, n.value - i - 1));
      list, rest := list + [head.value], head.rest;
    }
    assert list + [] == list;
    return Ok(list, rest);
  }

  predicate ShortTexts(list: seq<bytes>) {
    |list| < 0x8000 && forall t :: t in list ==> ShortText(t)
  }

  lemma {:induction false} StrsRoundTrip(list: seq<bytes>, rest: bytes)
    requires forall t :: t in list ==> ShortText(t)
    ensures ReadStrs(Strs(list) + rest, |list|) == Ok(list, rest)
    decreases |list|
  {
    hide ReadStr, Str, ShortText;
    if list == [] {
      assert Strs(list) + rest == rest;
    } else {
      assert Strs(list) + rest == Str(list[0]) + (Strs(list[1..]) + rest);
      StrRoundTrip(list[0], Strs(list[1..]) + rest);
      StrsRoundTrip(list[1..], rest);
      assert [list[0]] + list[1..] == list;
    }
  }

  lemma StrListRoundTrip(list: seq<bytes>, rest: bytes)
    requires ShortTexts(list)
    ensures ReadStrList(StrList(list) + rest) == Ok(list, rest)
  {
    hide BigEndian, Fits, ReadInt, Strs, ReadStrs;
    FitsShort(|list|);
    assert StrList(list) + rest == BigEndian(|list|, SHORT_LEN) + (Strs(list) + rest);
    IntRoundTrip(|list|, SHORT_LEN, Strs(list) + rest);
    StrsRoundTrip(list, rest);
  }

  //
  // Byte strings; a negative length stands for null
  //

  datatype MaybeBytes = Null | Bytes(data: bytes)

  /** `[bytes]` (n = 4) and `[short bytes]` (n = 2). */
  function SerBlob(b: MaybeBytes, n: nat): bytes {
    match b
    case Null => BigEndian(-1, n)
    case Bytes(data) => BigEndian(|data|, n) + data
  }

  function ReadBlob(s: bytes, n: nat): Parsed<MaybeBytes> {
    var (len, rest) :- ReadInt(s, n);
    if len < 0 then Ok(Null, rest)
    else
      var (data, rest') :- Take(rest, len);
      Ok(Bytes(data), rest')
  }

  predicate BlobFits(b: MaybeBytes, n: nat) { b.Bytes? ==> Fits(|b.data|, n) }

  lemma BlobRoundTrip(b: MaybeBytes, n: nat, rest: bytes)
    requires n > 0 && BlobFits(b, n)
    ensures ReadBlob(SerBlob(b, n) + rest, n) == Ok(b, rest)
  {
    match b
    case Null =>
      Pow2Add(1, 8 * n - 1);
      IntRoundTrip(-1, n, rest);
    case Bytes(data) =>
      hide BigEndian, Fits, ReadInt;
      assert SerBlob(b, n) + rest == BigEndian(|data|, n) + (data + rest);
      IntRoundTrip(|data|, n, data + rest);
      assert (data + rest)[..|data|] == data && (data + rest)[|data|..] == rest;
  }

  function OptionalBlob(b: Option<MaybeBytes>, n: nat): bytes { if b.Some? then SerBlob(b.value, n) else [] }

  function ReadOptionalBlob(s: bytes, n: nat, present: bool): Parsed<Option<MaybeBytes>> {
    if !present then Ok(None, s)
    else
      var (b, rest) :- ReadBlob(s, n);
      Ok(Some(b), rest)
  }

  lemma OptionalBlobRoundTrip(b: Option<MaybeBytes>, n: nat, rest: bytes)
    requires n > 0 && (b.Some? ==> BlobFits(b.value, n))
    ensures ReadOptionalBlob(OptionalBlob(b, n) + rest, n, b.Some?) == Ok(b, rest)
  {
    hide ReadBlob, SerBlob, BlobFits;
    if b.Some? {
      BlobRoundTrip(b.value, n, rest);
    } else {
      assert [] + rest == rest;
    }
  }
}
