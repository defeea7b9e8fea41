/** Routing keys: a single value is its own key, several values are written as components
    (length, bytes, zero) through a cursor that seeks back to patch each length. */
module RoutingKey {
  import opened Options
  import opened Bytes
  import opened Wire
  import opened QueryParams

  /** `std::io::Cursor` over a vector. */
  class Cursor {
    var buf: bytes
    var pos: nat

    constructor ()
      ensures buf == [] && pos == 0
    {
      buf, pos := [], 0;
    }

    method Write(data: bytes)
      modifies this
      ensures buf == Overwritten(old(buf), old(pos), data) && pos == old(pos) + |data|
    {
      var padded := if pos > |buf| then buf + Zeros(pos - |buf|) else buf;
      var end := if pos + |data| < |padded| then pos + |data| else |padded|;
      buf := padded[..pos] + data + padded[end..];
      pos := pos + |data|;
    }

    method SetPosition(p: nat)
      modifies this`pos
      ensures pos == p
    {
      pos := p;
    }

    /** Writes a placeholder and the value, then goes back and fills in the length. */
    method SerializeRoutingValue(value: bytes)
      modifies this
      ensures buf == Overwritten(old(buf), old(pos), Component(value))
      ensures pos == old(pos) + |Component(value)|
    {
      hide Overwritten, BigEndian;
      ghost var buf0, pos0 := buf, pos;
      var zero, size := BigEndian(0, SHORT_LEN), BigEndian(|value|, SHORT_LEN);
      Write(zero);
      var beforeValue := pos;
      Write(value);
      WriteTwice(buf0, pos0, zero, value);
      var afterValue := pos;
      SetPosition(beforeValue - SHORT_LEN);
      Write(size);
      Patched(buf0, pos0, zero, size, value);
      SetPosition(afterValue);
      Write([0]);
      WriteTwice(buf0, pos0, size + value, [0]);
    }
  }

  lemma WriteTwice(buf: bytes, pos: nat, a: bytes, b: bytes)
    ensures Overwritten(Overwritten(buf, pos, a), pos + |a|, b) == Overwritten(buf, pos, a + b)
  {
    OverwrittenBytes(buf, pos, a);
    OverwrittenBytes(Overwritten(buf, pos, a), pos + |a|, b);
    OverwrittenBytes(buf, pos, a + b);
    hide Overwritten;
  }

  /** Writing over the first part of what was just written replaces it. */
  lemma Patched(buf: bytes, pos: nat, a: bytes, b: bytes, tail: bytes)
    requires |a| == |b|
    ensures Overwritten(Overwritten(buf, pos, a + tail), pos, b) == Overwritten(buf, pos, b + tail)
  {
    OverwrittenBytes(buf, pos, a + tail);
    OverwrittenBytes(Overwritten(buf, pos, a + tail), pos, b);
    OverwrittenBytes(buf, pos, b + tail);
    hide Overwritten;
  }

  lemma Appended(buf: bytes, data: bytes)
    ensures Overwritten(buf, |buf|, data) == buf + data
  {
  }

  //
  // Reference definition
  //

  function Component(value: bytes): bytes { BigEndian(|value|, SHORT_LEN) + value + [0] }

  function Composite(parts: seq<bytes>): bytes {
    if parts == [] then [] else Component(parts[0]) + Composite(parts[1..])
  }

  /** Null and unset values leave no trace. */
  function Part(value: QueryValue): seq<bytes> { if value.Present? then [value.data] else [] }

  function Presents(values: seq<QueryValue>): seq<bytes> {
    if values == [] then [] else Part(values[0]) + Presents(values[1..])
  }

  function DirectKey(values: seq<QueryValue>): bytes {
    if |values| == 0 then []
    else if |values| == 1 then if values[0].Present? then values[0].data else []
    else Composite(Presents(values))
  }

  predicate InRange(values: seq<QueryValue>, indexes: seq<int>) {
    forall i :: 0 <= i < |indexes| ==> 0 <= indexes[i] < |values|
  }

  function Selected(values: seq<QueryValue>, indexes: seq<int>): seq<QueryValue>
    requires InRange(values, indexes)
  {
    seq(|indexes|, i requires 0 <= i < |indexes| => values[indexes[i]])
  }

  function IndexedKey(values: seq<QueryValue>, indexes: seq<int>): Option<bytes> {
    if |indexes| == 0 || !InRange(values, indexes) then None
    else if |indexes| == 1 then
      var value := values[indexes[0]];
      if value.Present? then Some(value.data) else None
    else Some(Composite(Presents(Selected(values, indexes))))
  }

  //
  // The code
  //

  lemma {:induction false} CompositeAppend(parts: seq<bytes>, part: bytes)
    ensures Composite(parts + [part]) == Composite(parts) + Component(part)
  {
    hide Component;
    if parts == [] {
      assert [part][1..] == [];
      EmptyNeutral(Component(part));
    } else {
      assert (parts + [part])[1..] == parts[1..] + [part];
      CompositeAppend(parts[1..], part);
      Assoc(Component(parts[0]), Composite(parts[1..]), Component(part));
    }
  }

  lemma {:induction false} PresentsAppend(values: seq<QueryValue>, value: QueryValue)
    ensures Presents(values + [value]) == Presents(values) + Part(value)
  {
    hide Part;
    if values == [] {
      assert [value][1..] == [];
    } else {
      assert (values + [value])[1..] == values[1..] + [value];
      PresentsAppend(values[1..], value);
      Assoc(Part(values[0]), Presents(values[1..]), Part(value));
    }
  }

  /** One more value through the cursor: null and unset ones are skipped. */
  method SerializeNext(cursor: Cursor, value: QueryValue, ghost done: seq<QueryValue>)
    requires cursor.buf == Composite(Presents(done)) && cursor.pos == |cursor.buf|
    modifies cursor
    ensures cursor.buf == Composite(Presents(done + [value])) && cursor.pos == |cursor.buf|
  {
    hide Composite, Presents, Component, Overwritten;
    PresentsAppend(done, value);
    assert Presents(done) + [] == Presents(done);
    if value.Present? {
      Appended(cursor.buf, Component(value.data));
      CompositeAppend(Presents(done), value.data);
      cursor.SerializeRoutingValue(value.data);
    }
  }

  lemma NothingWritten()
    ensures Composite(Presents([])) == []
  {
  }

  method SerializeRoutingKey(values: seq<QueryValue>) returns (key: bytes)
    ensures key == DirectKey(values)
  {
    hide Composite, Presents;
    if |values| == 0 { return []; }
    if |values| == 1 {
      return if values[0].Present? then values[0].data else [];
    }
    var cursor := new Cursor();
    NothingWritten();
    for i := 0 to |values|
      invariant cursor.buf == Composite(Presents(values[..i])) && cursor.pos == |cursor.buf|
    {
      assert values[..i + 1] == values[..i] + [values[i]];
      SerializeNext(cursor, values[i], values[..i]);
    }
    assert values[..|values|] == values;
    return cursor.buf;
  }

  /** An index out of range, negative ones included, gives no key. */
  method SerializeRoutingKeyWithIndexes(values: seq<QueryValue>, indexes: seq<int>) returns (key: Option<bytes>)
    ensures key == IndexedKey(values, indexes)
  {
    hide Composite, Presents;
    if |indexes| == 0 { return None; }
    if |indexes| == 1 {
      var index := indexes[0];
      if 0 <= index < |values| && values[index].Present? { return Some(values[index].data); }
      return None;
    }
    var cursor := new Cursor();
    NothingWritten();
    ghost var done := [];
    for i := 0 to |indexes|
      invariant InRange(values, indexes[..i]) && done == Selected(values, indexes[..i])
      invariant cursor.buf == Composite(Presents(done)) && cursor.pos == |cursor.buf|
    {
      var index := indexes[i];
      if !(0 <= index < |values|) { return None; }
      SelectedAppend(values, indexes, i);
      SerializeNext(cursor, values[index], done);
      done := done + [values[index]];
    }
    assert indexes[..|indexes|] == indexes;
    return Some(cursor.buf);
  }

  lemma SelectedAppend(values: seq<QueryValue>, indexes: seq<int>, i: nat)
    requires i < |indexes| && InRange(values, indexes[..i]) && 0 <= indexes[i] < |values|
    ensures InRange(values, indexes[..i + 1])
    ensures Selected(values, indexes[..i + 1]) == Selected(values, indexes[..i]) + [values[indexes[i]]]
  {
    assert indexes[..i + 1] == indexes[..i] + [indexes[i]];
  }

  /** The index-driven form is the direct form on the selected values exactly when every index
      is in range and there are two of them or one that selects a present value. */
  lemma IndexedIsDirectIff(values: seq<QueryValue>, indexes: seq<int>)
    ensures IndexedKey(values, indexes).Some? <==>
      && InRange(values, indexes)
      && (|indexes| >= 2 || (|indexes| == 1 && values[indexes[0]].Present?))
    ensures InRange(values, indexes) && IndexedKey(values, indexes).Some? ==>
      IndexedKey(values, indexes).value == DirectKey(Selected(values, indexes))
  {
    hide Composite, Presents;
  }

  //
  // Layout
  //

  /** Where component `k` starts: each one takes its bytes and three more. */
  function OffsetOf(parts: seq<bytes>, k: nat): nat
    requires k <= |parts|
  {
    if k == 0 then 0 else OffsetOf(parts, k - 1) + |parts[k - 1]| + 3
  }

  /** Byte by byte: the high and the low byte of the length, the bytes, and a zero. */
  predicate ComponentAt(c: bytes, i: nat, part: bytes) {
    var n := |part|;
    && i + n + 3 <= |c| && c[i] == n / 256 % 256 && c[i + 1] == n % 256
    && c[i + 2..i + 2 + n] == part && c[i + 2 + n] == 0
  }

  /** Every component is found at its offset, and nothing follows the last one. */
  lemma {:induction false} CompositeLayout(parts: seq<bytes>, k: nat)
    requires k <= |parts|
    ensures OffsetOf(parts, |parts|) == |Composite(parts)|
    ensures k < |parts| ==> ComponentAt(Composite(parts), OffsetOf(parts, k), parts[k])
    decreases |parts|
  {
    hide ComponentAt, Component;
    if parts != [] {
      var front, last := parts[..|parts| - 1], parts[|parts| - 1];
      assert parts == front + [last];
      CompositeAppend(front, last);
      CompositeLayout(front, if k < |front| then k else |front|);
      OffsetPrefix(parts, front, |front|);
      ComponentSize(last);
      hide Composite;
      if k < |front| {
        OffsetPrefix(parts, front, k);
        ComponentStays(Composite(front), Component(last), OffsetOf(parts, k), parts[k]);
      } else if k == |front| {
        ComponentAdded(Composite(front), last);
      }
    }
  }

  lemma ComponentSize(part: bytes)
    ensures |Component(part)| == |part| + 3
  {
  }

  lemma ComponentStays(c: bytes, more: bytes, i: nat, part: bytes)
    requires ComponentAt(c, i, part)
    ensures ComponentAt(c + more, i, part)
  {
    var n := |part|;
    assert (c + more)[i + 2..i + 2 + n] == c[i + 2..i + 2 + n];
  }

  lemma ComponentAdded(c: bytes, part: bytes)
    ensures ComponentAt(c + Component(part), |c|, part)
  {
    ShortBytes(|part|);
    hide BigEndian;
    var n, all := |part|, c + Component(part);
    assert all[|c|..] == Component(part);
    assert all[|c| + 2..|c| + 2 + n] == Component(part)[2..2 + n] == part;
  }

  lemma {:induction false} OffsetPrefix(parts: seq<bytes>, front: seq<bytes>, k: nat)
    requires k <= |front| <= |parts| && front == parts[..|front|]
    ensures OffsetOf(parts, k) == OffsetOf(front, k)
  {
    if k > 0 {
      OffsetPrefix(parts, front, k - 1);
    }
  }

  //
  // Injectivity
  //

  lemma LengthRecovered(n: nat)
    requires n < 0x1_0000
    ensures FromBigEndian(BigEndian(n, SHORT_LEN)) == n
  {
    BigEndianModular(n, SHORT_LEN);
    IntegerWidths();
  }

  lemma ComponentPrefix(a: bytes, b: bytes, s: bytes, t: bytes)
    requires |a| < 0x1_0000 && |b| < 0x1_0000 && Component(a) + s == Component(b) + t
    ensures a == b && s == t
  {
    hide BigEndian, FromBigEndian;
    var x, y := Component(a) + s, Component(b) + t;
    assert x[..SHORT_LEN] == BigEndian(|a|, SHORT_LEN) && y[..SHORT_LEN] == BigEndian(|b|, SHORT_LEN);
    LengthRecovered(|a|);
    LengthRecovered(|b|);
    var n := SHORT_LEN + |a|;
    assert x[SHORT_LEN..n] == a && y[SHORT_LEN..n] == b;
    assert x[n + 1..] == s && y[n + 1..] == t;
  }

  predicate ShortParts(parts: seq<bytes>) { forall i :: 0 <= i < |parts| ==> |parts[i]| < 0x1_0000 }

  lemma {:induction false} CompositeInjective(a: seq<bytes>, b: seq<bytes>)
    requires ShortParts(a) && ShortParts(b) && Composite(a) == Composite(b)
    ensures a == b
    decreases |a|
  {
    hide Component;
    if a == [] || b == [] {
      ComponentNotEmpty(a, b);
    } else {
      ComponentPrefix(a[0], b[0], Composite(a[1..]), Composite(b[1..]));
      CompositeInjective(a[1..], b[1..]);
      assert a == [a[0]] + a[1..] && b == [b[0]] + b[1..];
    }
  }

  lemma ComponentNotEmpty(a: seq<bytes>, b: seq<bytes>)
    requires Composite(a) == Composite(b) && (a == [] || b == [])
    ensures a == b
  {
    hide BigEndian;
  }

  predicate ShortValues(values: seq<QueryValue>) {
    forall i :: 0 <= i < |values| && values[i].Present? ==> |values[i].data| < 0x1_0000
  }

  lemma {:induction false} PresentsAreShort(values: seq<QueryValue>)
    requires ShortValues(values)
    ensures ShortParts(Presents(values))
  {
    if values != [] {
      PresentsAreShort(values[1..]);
    }
  }

  /** Composite keys are equal exactly when their present values are. */
  lemma CompositeKeysEqualIff(a: seq<QueryValue>, b: seq<QueryValue>)
    requires |a| >= 2 && |b| >= 2 && ShortValues(a) && ShortValues(b)
    ensures DirectKey(a) == DirectKey(b) <==> Presents(a) == Presents(b)
  {
    hide Composite, Presents;
    if DirectKey(a) == DirectKey(b) {
      PresentsAreShort(a);
      PresentsAreShort(b);
      CompositeInjective(Presents(a), Presents(b));
    }
  }

  predicate AllPresent(values: seq<QueryValue>) { forall i :: 0 <= i < |values| ==> values[i].Present? }

  lemma {:induction false} PresentsInjective(a: seq<QueryValue>, b: seq<QueryValue>)
    requires AllPresent(a) && AllPresent(b) && Presents(a) == Presents(b)
    ensures a == b
    decreases |a|
  {
    if a != [] && b != [] {
      assert Presents(a)[1..] == Presents(a[1..]) && Presents(b)[1..] == Presents(b[1..]);
      PresentsInjective(a[1..], b[1..]);
      assert a == [a[0]] + a[1..] && b == [b[0]] + b[1..];
    }
  }

  /** On lists of present values the composite key is injective. */
  lemma RoutingKeyInjective(a: seq<QueryValue>, b: seq<QueryValue>)
    requires |a| >= 2 && |b| >= 2 && AllPresent(a) && AllPresent(b) && ShortValues(a) && ShortValues(b)
    requires DirectKey(a) == DirectKey(b)
    ensures a == b
  {
    hide DirectKey, Presents;
    CompositeKeysEqualIff(a, b);
    PresentsInjective(a, b);
  }
}
