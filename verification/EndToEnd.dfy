/** From the request queue of one side to the envelopes decoded on the other: the packing
    loses nothing, large envelopes are reassembled exactly when the decoder's length rule
    allows it, and the whole path is the identity on lists of envelopes. */
module EndToEnd {
  import opened Options
  import opened Bytes
  import opened Wire
  import opened Frames
  import opened Envelopes
  import opened FrameEncoder
  import opened FrameDecoder
  import opened Writer
  import opened StreamIds

  //
  // Packing
  //

  function Carried(u: Unit): seq<bytes> {
    match u
    case Packed(envelopes) => envelopes
    case Split(envelope) => [envelope]
    case Raw(data) => [data]
  }

  function AllCarried(units: seq<Unit>): seq<bytes> {
    if units == [] then [] else Carried(units[0]) + AllCarried(units[1..])
  }

  function Datas(batch: seq<Request>): (r: seq<bytes>)
    ensures |r| == |batch|
  {
    seq(|batch|, i requires 0 <= i < |batch| => batch[i].data)
  }

  ghost predicate Framed(batch: seq<Request>) {
    forall q :: q in batch ==> !q.handshake && q.data != []
  }

  /** A unit as the v5 writer builds it: whole envelopes that together stay below the
      payload limit, or one envelope that does not fit even an empty frame. */
  ghost predicate WellPacked(k: Encoding, lib: Library, u: Unit) {
    match u
    case Packed(envelopes) => Join(envelopes) != [] && FitsFrame(k, lib, 0, |Join(envelopes)|)
    case Split(envelope) => envelope != [] && !FitsFrame(k, lib, 0, |envelope|)
    case Raw(_) => false
  }

  lemma CarriedCons(u: Unit, units: seq<Unit>)
    ensures AllCarried([u] + units) == Carried(u) + AllCarried(units)
  {
    assert ([u] + units)[1..] == units;
  }

  lemma DatasCons(batch: seq<Request>)
    requires batch != []
    ensures Datas(batch) == [batch[0].data] + Datas(batch[1..])
  {
  }

  /** The packing conserves the requests: the envelopes on the wire are the pending ones
      followed by the batch, in order, each of them whole. */
  lemma {:induction false} PackConserves(k: Encoding, lib: Library, pending: seq<bytes>, batch: seq<Request>)
    requires Framed(batch) && (pending == [] || Join(pending) != [])
    requires Holdable(k, lib, pending)
    requires k.InFrames?
    ensures AllCarried(Pack(k, lib, pending, batch)) == pending + Datas(batch)
    ensures forall u :: u in Pack(k, lib, pending, batch) ==> WellPacked(k, lib, u)
    decreases |batch|, |pending|
  {
    hide FitsFrame;
    if batch == [] {
      if pending != [] {
        assert AllCarried([Packed(pending)]) == pending + AllCarried([]);
        FullFrame(k, lib, pending);
      }
      assert pending + [] == pending;
    } else {
      var q, rest := batch[0], batch[1..];
      assert q in batch;
      DatasCons(batch);
      if FitsFrame(k, lib, |Join(pending)|, |q.data|) {
        JoinAppend(pending, q.data);
        FitsTogether(k, lib, pending, q.data);
        PackConserves(k, lib, pending + [q.data], rest);
        assert (pending + [q.data]) + Datas(rest) == pending + ([q.data] + Datas(rest));
      } else if Join(pending) != [] {
        PackConserves(k, lib, [], batch);
        CarriedCons(Packed(pending), Pack(k, lib, [], batch));
        assert [] + Datas(batch) == Datas(batch);
      } else {
        assert pending == [];
        PackConserves(k, lib, [], rest);
        CarriedCons(Split(q.data), Pack(k, lib, [], rest));
        assert [] + Datas(rest) == Datas(rest);
        assert [] + ([q.data] + Datas(rest)) == [q.data] + Datas(rest);
      }
    }
  }

  lemma FitsTogether(k: Encoding, lib: Library, pending: seq<bytes>, data: bytes)
    requires k.InFrames? && FitsFrame(k, lib, |Join(pending)|, |data|)
    ensures FitsFrame(k, lib, 0, |Join(pending + [data])|)
  {
    JoinAppend(pending, data);
  }

  /** Frame `i` was closed because the next envelope did not fit into it any more. */
  ghost predicate ClosedFull(k: Encoding, lib: Library, units: seq<Unit>, i: nat)
    requires i + 1 < |units|
  {
    units[i].Packed? ==>
      && Carried(units[i + 1]) != []
      && !FitsFrame(k, lib, |Join(units[i].envelopes)|, |Carried(units[i + 1])[0]|)
  }

  ghost predicate Greedy(k: Encoding, lib: Library, units: seq<Unit>) {
    forall i :: 0 <= i < |units| - 1 ==> ClosedFull(k, lib, units, i)
  }

  /** Packing is greedy: within a batch every frame but the last holds as many envelopes as
      fit. */
  lemma {:induction false} PackIsGreedy(k: Encoding, lib: Library, pending: seq<bytes>, batch: seq<Request>)
    requires Framed(batch) && (pending == [] || Join(pending) != []) && Holdable(k, lib, pending) && k.InFrames?
    ensures Greedy(k, lib, Pack(k, lib, pending, batch))
    decreases |batch|, |pending|
  {
    hide FitsFrame, Holdable;
    if batch != [] {
      hide Greedy;
      var q, rest := batch[0], batch[1..];
      assert q in batch;
      if FitsFrame(k, lib, |Join(pending)|, |q.data|) {
        JoinAppend(pending, q.data);
        FitsTogether(k, lib, pending, q.data);
        HoldableFrame(k, lib, pending + [q.data]);
        PackIsGreedy(k, lib, pending + [q.data], rest);
      } else {
        NothingHeld(k, lib);
        JoinNothing();
        if Join(pending) != [] {
          PackIsGreedy(k, lib, [], batch);
          var later := Pack(k, lib, [], batch);
          PackConserves(k, lib, [], batch);
          assert [] + Datas(batch) == Datas(batch) && Datas(batch)[0] == q.data;
          assert later != [] by { assert AllCarried([]) == []; }
          FirstCarried(k, lib, later);
          GreedyCons(k, lib, Packed(pending), later);
        } else {
          PackIsGreedy(k, lib, [], rest);
          GreedyCons(k, lib, Split(q.data), Pack(k, lib, [], rest));
        }
      }
    }
  }

  lemma GreedyCons(k: Encoding, lib: Library, u: Unit, units: seq<Unit>)
    requires Greedy(k, lib, units)
    requires u.Packed? && units != [] ==>
      Carried(units[0]) != [] && !FitsFrame(k, lib, |Join(u.envelopes)|, |Carried(units[0])[0]|)
    ensures Greedy(k, lib, [u] + units)
  {
    hide FitsFrame, Carried;
    var all := [u] + units;
    forall i | 0 <= i < |units|
      ensures ClosedFull(k, lib, all, i)
    {
      if i > 0 {
        assert ClosedFull(k, lib, units, i - 1);
        assert all[i] == units[i - 1] && all[i + 1] == units[i];
      }
    }
  }

  lemma FirstCarried(k: Encoding, lib: Library, units: seq<Unit>)
    requires units != [] && forall u :: u in units ==> WellPacked(k, lib, u)
    ensures Carried(units[0]) != [] && AllCarried(units) != [] && AllCarried(units)[0] == Carried(units[0])[0]
  {
    hide FitsFrame;
    assert units[0] in units;
    JoinNothing();
  }

  lemma HoldableFrame(k: Encoding, lib: Library, pending: seq<bytes>)
    requires FitsFrame(k, lib, 0, |Join(pending)|)
    ensures Holdable(k, lib, pending)
  {
  }

  lemma NothingHeld(k: Encoding, lib: Library)
    ensures Holdable(k, lib, [])
  {
  }

  /** Requests that each fit an empty frame are never split. */
  lemma {:induction false} SmallRequestsStayWhole(k: Encoding, lib: Library, pending: seq<bytes>, batch: seq<Request>)
    requires Framed(batch) && k.InFrames?
    requires forall q :: q in batch ==> FitsFrame(k, lib, 0, |q.data|)
    ensures forall u :: u in Pack(k, lib, pending, batch) ==> u.Packed?
    decreases |batch|, |pending|
  {
    hide FitsFrame;
    if batch != [] {
      assert batch[0] in batch;
      if FitsFrame(k, lib, |Join(pending)|, |batch[0].data|) {
        SmallRequestsStayWhole(k, lib, pending + [batch[0].data], batch[1..]);
      } else {
        SmallRequestsStayWhole(k, lib, [], batch);
      }
    }
  }

  //
  // Whole envelopes
  //

  /** `data` is exactly one encoded envelope. */
  predicate EncodesWith(c: Compression, data: bytes, e: Envelope) { FromBuffer(data, c) == Parsed(|data|, e) }

  predicate Encodes(data: bytes, e: Envelope) { EncodesWith(NoCompression, data, e) }

  ghost predicate AllEncodeWith(c: Compression, datas: seq<bytes>, envelopes: seq<Envelope>) {
    |datas| == |envelopes| && forall i :: 0 <= i < |datas| ==> EncodesWith(c, datas[i], envelopes[i])
  }

  ghost predicate AllEncode(datas: seq<bytes>, envelopes: seq<Envelope>) {
    AllEncodeWith(NoCompression, datas, envelopes)
  }

  /** Length of the encoding of a parsed envelope; parsing different lengths gives
      different envelopes. */
  function SizeOf(e: Envelope): nat {
    ENVELOPE_HEADER_LEN + (if e.tracingId.Some? then UUID_LEN else 0)
    + (if e.flags.warning then |StrList(e.warnings)| else 0) + |e.body|
  }

  lemma {:induction false} StrsSize(s: bytes, n: nat)
    requires ReadStrs(s, n).Ok?
    ensures |ReadStrs(s, n).value| == n
    ensures |Strs(ReadStrs(s, n).value)| + |ReadStrs(s, n).rest| == |s|
    decreases n
  {
    if n > 0 {
      var head := ReadStr(s);
      StrsSize(head.rest, n - 1);
      var list := ReadStrs(s, n).value;
      assert list[0] == head.value && list[1..] == ReadStrs(head.rest, n - 1).value;
    }
  }

  lemma ParsedSize(data: bytes, c: Compression)
    requires c.NoCompression? && FromBuffer(data, c).Parsed?
    ensures SizeOf(FromBuffer(data, c).envelope) == FromBuffer(data, c).length
  {
    FromBufferProgress(data, c);
    var length := FromBuffer(data, c).length;
    var e := Envelope(ReadVersion(data[0]).value, ReadDirection(data[0]), ReadFlags(data[1]),
                      ReadOpcode(data[4]).value, SignedBigEndian(data[2..4]), [], None, []);
    BodySize(e, length, data[ENVELOPE_HEADER_LEN..length]);
    hide ReadBody, ReadVersion, ReadDirection, ReadFlags, ReadOpcode, SignedBigEndian;
  }

  lemma BodySize(e: Envelope, length: nat, full: bytes)
    requires e.tracingId.None? && ReadBody(e, length, full).Parsed? && length == ENVELOPE_HEADER_LEN + |full|
    ensures SizeOf(ReadBody(e, length, full).envelope) == length && ReadBody(e, length, full).length == length
  {
    hide Strs, ReadStrs;
    var rest := if CarriesTracing(e) then full[UUID_LEN..] else full;
    if e.flags.warning {
      var n := ReadInt(rest, SHORT_LEN);
      StrsSize(n.rest, n.value);
    }
  }

  /** Extracting a run of whole envelopes returns them all and leaves nothing. */
  lemma {:induction false} ExtractWhole(c: Compression, datas: seq<bytes>, envelopes: seq<Envelope>)
    requires AllEncodeWith(c, datas, envelopes)
    ensures Extract(Join(datas), c) == Extracted(envelopes, [])
    decreases |datas|
  {
    hide FromBuffer;
    if datas == [] {
      NothingToParse(c);
      assert envelopes == [];
    } else {
      var n := |datas| - 1;
      ExtractWhole(c, datas[..n], envelopes[..n]);
      ExtractAppend(Join(datas[..n]), datas[n], c);
      assert [] + datas[n] == datas[n];
      assert EncodesWith(c, datas[n], envelopes[n]);
      ExtractOne(c, datas[n], envelopes[n]);
      assert envelopes == envelopes[..n] + [envelopes[n]];
    }
  }

  lemma NothingToParse(c: Compression)
    ensures FromBuffer([], c) == NotEnoughBytes
  {
  }

  lemma ExtractOne(c: Compression, data: bytes, e: Envelope)
    requires EncodesWith(c, data, e)
    ensures Extract(data, c) == Extracted([e], [])
  {
    hide FromBuffer;
    FromBufferProgress(data, c);
    NothingToParse(c);
    assert data[|data|..] == [];
    assert Extract([], c) == Extracted([], []);
    assert [e] + [] == [e];
  }

  /** A proper prefix of an encoded envelope is not an envelope. */
  lemma PrefixIncomplete(data: bytes, e: Envelope, n: nat)
    requires Encodes(data, e) && n < |data|
    ensures Extract(data[..n], NoCompression) == Extracted([], data[..n])
  {
    hide FromBuffer;
    if !FromBuffer(data[..n], NoCompression).NotEnoughBytes? {
      FromBufferStable(data[..n], data[n..], NoCompression);
      assert data[..n] + data[n..] == data;
      if FromBuffer(data[..n], NoCompression).Parsed? {
        FromBufferProgress(data[..n], NoCompression);
      }
    }
  }

  lemma AnnouncedIsConsumed(data: bytes, c: Compression)
    requires FromBuffer(data, c).Parsed?
    ensures ENVELOPE_HEADER_LEN <= |data| && AnnouncedLength(data) == FromBuffer(data, c).length
    ensures ENVELOPE_HEADER_LEN <= FromBuffer(data, c).length <= |data|
  {
    hide ReadStrList, ReadVersion, ReadDirection, ReadFlags, ReadOpcode, SignedBigEndian;
  }

  /** The length field of an encoded envelope is the length of its body. */
  lemma BodyLengthField(data: bytes, e: Envelope, n: nat)
    requires Encodes(data, e) && ENVELOPE_HEADER_LEN <= n <= |data|
    ensures BodyLength(data[..n]) == Some(|data| - ENVELOPE_HEADER_LEN)
  {
    hide FromBuffer, SignedBigEndian;
    AnnouncedIsConsumed(data, NoCompression);
    assert data[..n][5..9] == data[5..9];
    FieldRange(data[5..9]);
  }

  lemma EncodedHasHeader(data: bytes, e: Envelope)
    requires Encodes(data, e)
    ensures |data| >= ENVELOPE_HEADER_LEN && SizeOf(e) == |data|
  {
    hide FromBuffer, SizeOf;
    AnnouncedIsConsumed(data, NoCompression);
    ParsedSize(data, NoCompression);
  }

  lemma FieldRange(s: bytes)
    requires |s| == INT_LEN
    ensures -0x8000_0000 <= SignedBigEndian(s) < 0x8000_0000
  {
    hide FromBigEndian;
    IntegerWidths();
    FromBigEndianRange(s);
  }

  //
  // Large envelopes
  //

  const FRAGMENT: nat := PAYLOAD_SIZE_LIMIT - 1

  /** Where the last fragment of an envelope of `n` bytes begins. */
  function LastBoundary(n: nat): nat {
    if n <= FRAGMENT then 0 else FRAGMENT + LastBoundary(n - FRAGMENT)
  }

  lemma {:induction false} LastBoundaryClosedForm(n: nat)
    requires n > 0
    ensures LastBoundary(n) == (n - 1) / FRAGMENT * FRAGMENT && LastBoundary(n) < n
  {
    if n > FRAGMENT {
      LastBoundaryClosedForm(n - FRAGMENT);
      assert (n - 1) / FRAGMENT == (n - FRAGMENT - 1) / FRAGMENT + 1;
    }
  }

  /** The length a decoder waits for: the one recorded by the first large envelope of the
      connection, which is never cleared, or this envelope's own body length. */
  function Awaited(expected: Option<int>, n: nat): int {
    if expected.Some? then expected.value else n - ENVELOPE_HEADER_LEN
  }

  /** The decoder acts on the last fragment and not before: the awaited length is reached
      by the whole envelope but by no earlier fragment. */
  predicate Timely(n: nat, awaited: int) {
    awaited <= n && (n <= FRAGMENT || LastBoundary(n) < awaited)
  }

  /** On a fresh decoder that means: a single fragment, or a last fragment longer than the
      envelope header. */
  lemma TimelyFresh(n: nat)
    requires n >= ENVELOPE_HEADER_LEN
    ensures Timely(n, Awaited(None, n)) <==> n <= FRAGMENT || n - LastBoundary(n) > ENVELOPE_HEADER_LEN
  {
  }

  /** State after `k` bytes of a large envelope have been collected behind `held`, complete
      envelopes that are still waiting in the buffer. */
  ghost predicate Collecting(s: State, held: seq<bytes>, data: bytes, k: nat, expected: Option<int>) {
    && k < |data| && s.payload == Join(held) + data[..k]
    && s.expected == (if k == 0 then expected else Some(Awaited(expected, |data|)))
    && (held != [] ==> expected.Some?)
  }

  /** The decoder after one frame was handled. */
  function Resume(f: Format, lib: Library, o: Outcome<State>): Outcome<State> {
    match o
    case Stopped(error) => Stopped(error)
    case Delivered(envelopes, next) => Preceded(envelopes, Drain(f, lib, next))
  }

  /** One fragment decoded from the front of the frame buffer. */
  lemma FragmentDrained(f: Format, lib: Library, s: State, piece: bytes, rest: bytes)
    requires Lawful(lib) && 0 < |piece| < PAYLOAD_SIZE_LIMIT
    requires s.frames == FragmentFrame(f, lib, piece) + rest
    ensures Drain(f, lib, s) == Resume(f, lib, Reassemble(rest, s.payload + piece, s.expected))
  {
    hide Decode, FragmentFrame, Reassemble, Lawful;
    FragmentRoundTrip(f, lib, piece, rest);
  }

  lemma FragmentsStep(f: Format, lib: Library, data: bytes, rest: bytes)
    requires data != []
    ensures var n := FragmentSize(InFrames(f), |data|);
      Fragments(InFrames(f), lib, data) + rest
      == FragmentFrame(f, lib, data[..n]) + (Fragments(InFrames(f), lib, data[n..]) + rest)
  {
    hide FragmentFrame;
    var n := FragmentSize(InFrames(f), |data|);
    Assoc(FragmentFrame(f, lib, data[..n]), Fragments(InFrames(f), lib, data[n..]), rest);
  }

  /** The bytes and state left after one more fragment. */
  lemma CollectMore(f: Format, lib: Library, base: bytes, data: bytes, k: nat, s: State, rest: bytes)
    requires Lawful(lib) && k < |data| && s.payload == base + data[..k]
    requires s.frames == Fragments(InFrames(f), lib, data[k..]) + rest
    ensures var n := FragmentSize(InFrames(f), |data| - k);
      var rest' := Fragments(InFrames(f), lib, data[k + n..]) + rest;
      Drain(f, lib, s) == Resume(f, lib, Reassemble(rest', base + data[..k + n], s.expected))
  {
    hide Drain, Resume, Reassemble, Lawful, FragmentFrame, Fragments;
    var n := FragmentSize(InFrames(f), |data| - k);
    FragmentsStep(f, lib, data[k..], rest);
    assert data[k..][n..] == data[k + n..];
    assert data[..k] + data[k..][..n] == data[..k + n];
    Assoc(base, data[..k], data[k..][..n]);
    FragmentDrained(f, lib, s, data[k..][..n], Fragments(InFrames(f), lib, data[k + n..]) + rest);
  }

  /** Extracting complete envelopes followed by `m` bytes of one more. */
  lemma ExtractHeld(held: seq<bytes>, heldEnvelopes: seq<Envelope>, data: bytes, e: Envelope, m: nat)
    requires AllEncode(held, heldEnvelopes) && Encodes(data, e) && m <= |data|
    ensures Extract(Join(held) + data[..m], NoCompression)
            == if m < |data| then Extracted(heldEnvelopes, data[..m]) else Extracted(heldEnvelopes + [e], [])
  {
    hide Extract, FromBuffer, Join;
    ExtractWhole(NoCompression, held, heldEnvelopes);
    ExtractAppend(Join(held), data[..m], NoCompression);
    EmptyNeutral(data[..m]);
    if m < |data| {
      PrefixIncomplete(data, e, m);
      assert heldEnvelopes + [] == heldEnvelopes;
    } else {
      assert data[..m] == data;
      ExtractOne(NoCompression, data, e);
    }
  }

  /** The length that is awaited once `m` bytes of an envelope were collected. */
  lemma AwaitedRecorded(held: seq<bytes>, data: bytes, e: Envelope, k: nat, m: nat, expected: Option<int>, s: State)
    requires Encodes(data, e) && Collecting(s, held, data, k, expected) && k < m <= |data| && ENVELOPE_HEADER_LEN <= m
    ensures (if s.expected.Some? then s.expected else BodyLength(Join(held) + data[..m]))
            == Some(Awaited(expected, |data|))
  {
    hide BodyLength, FromBuffer;
    if s.expected.None? {
      JoinNothing();
      EmptyNeutral(data[..m]);
      BodyLengthField(data, e, m);
    }
  }

  /** What collecting `m` bytes of an envelope behind held ones yields. */
  lemma ReassembledPrefix(
    held: seq<bytes>, heldEnvelopes: seq<Envelope>, data: bytes, e: Envelope, k: nat, m: nat, expected: Option<int>,
    s: State, rest: bytes)
    requires AllEncode(held, heldEnvelopes) && Encodes(data, e) && Collecting(s, held, data, k, expected)
    requires k < m <= |data| && ENVELOPE_HEADER_LEN <= m
    ensures var awaited := Awaited(expected, |data|);
      Reassemble(rest, Join(held) + data[..m], s.expected) ==
        if |Join(held)| + m < awaited then Delivered([], State(rest, Join(held) + data[..m], Some(awaited)))
        else if m < |data| then Delivered(heldEnvelopes, State(rest, [], Some(awaited)))
        else Delivered(heldEnvelopes + [e], State(rest, [], Some(awaited)))
  {
    hide Extract, BodyLength, FromBuffer, Join;
    AwaitedRecorded(held, data, e, k, m, expected, s);
    ExtractHeld(held, heldEnvelopes, data, e, m);
  }

  /** The awaited length is reached by an earlier fragment than the last. */
  predicate TooEarly(held: nat, n: nat, awaited: int) {
    n > FRAGMENT && held + LastBoundary(n) >= awaited
  }

  /** Unless the awaited length is reached too early, the fragments of an envelope yield
      nothing until the last one; then everything held comes out with that envelope, or the
      envelope joins those held. */
  lemma {:induction false} FragmentsReassemble(
    f: Format, lib: Library, held: seq<bytes>, heldEnvelopes: seq<Envelope>, data: bytes, e: Envelope, k: nat,
    expected: Option<int>, s: State, rest: bytes)
    requires Lawful(lib) && AllEncode(held, heldEnvelopes) && Encodes(data, e)
    requires Collecting(s, held, data, k, expected)
    requires s.frames == Fragments(InFrames(f), lib, data[k..]) + rest
    requires !TooEarly(|Join(held)|, |data|, Awaited(expected, |data|))
    requires k + LastBoundary(|data| - k) == LastBoundary(|data|)
    ensures var awaited := Awaited(expected, |data|);
      Drain(f, lib, s)
      == if |Join(held)| + |data| < awaited then Drain(f, lib, State(rest, Join(held) + data, Some(awaited)))
         else Preceded(heldEnvelopes + [e], Drain(f, lib, State(rest, [], Some(awaited))))
    decreases |data| - k
  {
    hide Drain, Reassemble, FromBuffer, Lawful, Fragments, Join, EncodesWith;
    var awaited := Awaited(expected, |data|);
    var n := FragmentSize(InFrames(f), |data| - k);
    var rest' := Fragments(InFrames(f), lib, data[k + n..]) + rest;
    EncodedHasHeader(data, e);
    CollectMore(f, lib, Join(held), data, k, s, rest);
    ReassembledPrefix(held, heldEnvelopes, data, e, k, k + n, expected, s, rest');
    if k + n == |data| {
      assert data[k + n..] == [] && data[..k + n] == data;
      NoFragments(f, lib);
      EmptyNeutral(rest);
      PrecededByNone(Drain(f, lib, State(rest, Join(held) + data, Some(awaited))));
    } else {
      var s' := State(rest', Join(held) + data[..k + n], Some(awaited));
      FragmentsReassemble(f, lib, held, heldEnvelopes, data, e, k + n, expected, s', rest);
      PrecededByNone(Drain(f, lib, s'));
    }
  }

  /** Otherwise what was collected of the envelope is thrown away on the way. */
  lemma {:induction false} FragmentsDropped(
    f: Format, lib: Library, held: seq<bytes>, heldEnvelopes: seq<Envelope>, data: bytes, e: Envelope, k: nat,
    expected: Option<int>, s: State, rest: bytes)
    requires Lawful(lib) && AllEncode(held, heldEnvelopes) && Encodes(data, e)
    requires Collecting(s, held, data, k, expected)
    requires s.frames == Fragments(InFrames(f), lib, data[k..]) + rest
    requires TooEarly(|Join(held)|, |data|, Awaited(expected, |data|))
    requires k + LastBoundary(|data| - k) == LastBoundary(|data|)
    requires k > 0 ==> |Join(held)| + k < Awaited(expected, |data|)
    ensures exists m: nat :: m < |data| && Dropped(f, lib, s, heldEnvelopes, data, m, Awaited(expected, |data|), rest)
    decreases |data| - k
  {
    hide Drain, Reassemble, FromBuffer, Lawful, Fragments, Join, EncodesWith;
    var awaited := Awaited(expected, |data|);
    var n := FragmentSize(InFrames(f), |data| - k);
    var rest' := Fragments(InFrames(f), lib, data[k + n..]) + rest;
    EncodedHasHeader(data, e);
    CollectMore(f, lib, Join(held), data, k, s, rest);
    ReassembledPrefix(held, heldEnvelopes, data, e, k, k + n, expected, s, rest');
    if |Join(held)| + k + n < awaited {
      var s' := State(rest', Join(held) + data[..k + n], Some(awaited));
      FragmentsDropped(f, lib, held, heldEnvelopes, data, e, k + n, expected, s', rest);
      PrecededByNone(Drain(f, lib, s'));
      var m: nat :| m < |data| && Dropped(f, lib, s', heldEnvelopes, data, m, awaited, rest);
      assert Dropped(f, lib, s, heldEnvelopes, data, m, awaited, rest);
    } else {
      assert Dropped(f, lib, s, heldEnvelopes, data, k + n, awaited, rest);
    }
  }

  /** `m` bytes of an envelope were lost, and the decoder goes on in the middle of it. */
  ghost predicate Dropped(
    f: Format, lib: Library, s: State, heldEnvelopes: seq<Envelope>, data: bytes, m: nat, awaited: int, rest: bytes)
    requires m < |data|
  {
    m > 0 && Drain(f, lib, s)
             == Preceded(heldEnvelopes, Drain(f, lib, State(Fragments(InFrames(f), lib, data[m..]) + rest, [], Some(awaited))))
  }

  lemma NoFragments(f: Format, lib: Library)
    ensures Fragments(InFrames(f), lib, []) == []
  {
  }

  //
  // Conservation: the decoder never delivers more bytes than it was fed
  //

  function TotalSize(envelopes: seq<Envelope>): nat {
    if envelopes == [] then 0 else SizeOf(envelopes[0]) + TotalSize(envelopes[1..])
  }

  lemma {:induction false} TotalSizeConcat(a: seq<Envelope>, b: seq<Envelope>)
    ensures TotalSize(a + b) == TotalSize(a) + TotalSize(b)
    decreases |a|
  {
    hide SizeOf;
    if a == [] {
      assert a + b == b;
    } else {
      assert (a + b)[1..] == a[1..] + b;
      TotalSizeConcat(a[1..], b);
    }
  }

  lemma {:induction false} TotalSizeEncoded(datas: seq<bytes>, envelopes: seq<Envelope>)
    requires AllEncode(datas, envelopes)
    ensures TotalSize(envelopes) == |Join(datas)|
    decreases |datas|
  {
    hide EncodesWith, SizeOf, Join;
    if datas == [] {
      JoinNothing();
    } else {
      JoinCons(datas);
      assert Encodes(datas[0], envelopes[0]);
      EncodedHasHeader(datas[0], envelopes[0]);
      TotalSizeEncoded(datas[1..], envelopes[1..]);
    }
  }

  lemma {:induction false} ExtractSizes(b: bytes)
    requires Extract(b, NoCompression).Extracted?
    ensures TotalSize(Extract(b, NoCompression).envelopes) <= |b|
    decreases |b|
  {
    hide FromBuffer, SizeOf;
    if FromBuffer(b, NoCompression).Parsed? {
      var first := FromBuffer(b, NoCompression);
      FromBufferProgress(b, NoCompression);
      ParsedSize(b, NoCompression);
      ExtractSizes(b[first.length..]);
      var all := Extract(b, NoCompression).envelopes;
      assert all[0] == first.envelope && all[1..] == Extract(b[first.length..], NoCompression).envelopes;
    }
  }

  /** Payload bytes in the complete frames at the front of a buffer. */
  function Content(f: Format, lib: Library, b: bytes): nat
    decreases |b|
  {
    match Decode(f, lib, b)
    case Frame(_, payload, rest) =>
      DecodeShrinks(f, lib, b);
      |payload| + Content(f, lib, rest)
    case _ => 0
  }

  lemma HandledSizes(s: State, selfContained: bool, frame: bytes)
    requires HandleFrame(s, selfContained, frame).Delivered?
    ensures var r := HandleFrame(s, selfContained, frame);
      TotalSize(r.envelopes) + |r.state.payload| <= |s.payload| + |frame|
  {
    hide Extract, BodyLength;
    if selfContained {
      ExtractSizes(frame);
    } else if Extract(s.payload + frame, NoCompression).Extracted? {
      ExtractSizes(s.payload + frame);
    }
  }

  lemma {:induction false} DrainSizes(f: Format, lib: Library, s: State)
    requires Drain(f, lib, s).Delivered?
    ensures var o := Drain(f, lib, s);
      TotalSize(o.envelopes) + |o.state.payload| <= |s.payload| + Content(f, lib, s.frames)
    decreases |s.frames|
  {
    hide Decode, HandleFrame, TotalSize;
    match Decode(f, lib, s.frames)
    case Frame(selfContained, frame, rest) =>
      DecodeShrinks(f, lib, s.frames);
      var next := s.(frames := rest);
      HandledSizes(next, selfContained, frame);
      var r := HandleFrame(next, selfContained, frame);
      DrainSizes(f, lib, r.state);
      TotalSizeConcat(r.envelopes, Drain(f, lib, r.state).envelopes);
    case Incomplete => NoSize();
    case Corrupt(_) =>
  }

  lemma NoSize()
    ensures TotalSize([]) == 0
  {
  }

  lemma {:induction false} FragmentsContent(f: Format, lib: Library, data: bytes, rest: bytes)
    requires Lawful(lib)
    ensures Content(f, lib, Fragments(InFrames(f), lib, data) + rest) == |data| + Content(f, lib, rest)
    decreases |data|
  {
    hide Decode, Lawful, FragmentFrame;
    if data == [] {
      EmptyNeutral(rest);
    } else {
      var n := FragmentSize(InFrames(f), |data|);
      FragmentsStep(f, lib, data, rest);
      hide Fragments;
      FragmentRoundTrip(f, lib, data[..n], Fragments(InFrames(f), lib, data[n..]) + rest);
      FragmentsContent(f, lib, data[n..], rest);
    }
  }

  lemma PackedContent(f: Format, lib: Library, datas: seq<bytes>, rest: bytes)
    requires Lawful(lib) && WellPacked(InFrames(f), lib, Packed(datas))
    ensures Content(f, lib, SelfContainedFrame(f, lib, Join(datas)) + rest) == |Join(datas)| + Content(f, lib, rest)
  {
    hide Decode, SelfContainedFrame, Join, Lawful;
    SelfContainedFits(f, lib, Join(datas));
    SelfContainedRoundTrip(f, lib, Join(datas), rest);
  }

  lemma DrainNothing(f: Format, lib: Library, payload: bytes, expected: Option<int>)
    ensures Drain(f, lib, State([], payload, expected)) == Delivered([], State([], payload, expected))
  {
    NothingToDecode(f, lib);
  }

  lemma NothingToDecode(f: Format, lib: Library)
    ensures Decode(f, lib, []) == Incomplete
  {
  }

  //
  // The whole path
  //

  /** Every envelope among the units comes out: `held` is the length of complete envelopes
      still waiting in the buffer. While something waits no self-contained frame may come, no
      large envelope may reach the awaited length before its last fragment, and nothing may be
      left waiting at the end. */
  predicate Deliverable(units: seq<Unit>, held: nat, expected: Option<int>) {
    if units == [] then held == 0
    else
      match units[0]
      case Packed(_) => held == 0 && Deliverable(units[1..], 0, expected)
      case Split(data) =>
        var awaited := Awaited(expected, |data|);
        && !TooEarly(held, |data|, awaited)
        && Deliverable(units[1..], if held + |data| < awaited then held + |data| else 0, Some(awaited))
      case Raw(_) => false
  }

  lemma DeliverableSplit(data: bytes, units: seq<Unit>, held: nat, expected: Option<int>)
    ensures var awaited := Awaited(expected, |data|);
      Deliverable([Split(data)] + units, held, expected) <==>
        && !TooEarly(held, |data|, awaited)
        && Deliverable(units, if held + |data| < awaited then held + |data| else 0, Some(awaited))
  {
    hide TooEarly;
    assert ([Split(data)] + units)[1..] == units;
  }

  lemma DeliverableEnd(held: nat, expected: Option<int>)
    ensures Deliverable([], held, expected) <==> held == 0
  {
  }

  /** A connection that sends no large envelope always qualifies. */
  lemma {:induction false} NoSplitDeliverable(units: seq<Unit>, expected: Option<int>)
    requires forall u :: u in units ==> u.Packed?
    ensures Deliverable(units, 0, expected)
  {
    if units != [] {
      assert units[0] in units;
      NoSplitDeliverable(units[1..], expected);
    }
  }

  /** A unit that frames can carry. */
  ghost predicate Framable(f: Format, lib: Library, u: Unit) {
    match u
    case Packed(_) => WellPacked(InFrames(f), lib, u)
    case Split(_) => true
    case Raw(_) => false
  }

  lemma {:induction false} UnitsContent(f: Format, lib: Library, units: seq<Unit>)
    requires Lawful(lib) && forall u :: u in units ==> Framable(f, lib, u)
    ensures Content(f, lib, WireBytes(InFrames(f), lib, units)) == |Join(AllCarried(units))|
    decreases |units|
  {
    hide Lawful, Content, Join, Fragments, SelfContainedFrame;
    if units == [] {
      NothingContained(f, lib);
      JoinNothing();
    } else {
      var u, rest := units[0], WireBytes(InFrames(f), lib, units[1..]);
      assert u in units;
      UnitsContent(f, lib, units[1..]);
      JoinConcat(Carried(u), AllCarried(units[1..]));
      if u.Packed? {
        PackedContent(f, lib, u.envelopes, rest);
      } else {
        FragmentsContent(f, lib, u.envelope, rest);
        JoinOne(u.envelope);
      }
    }
  }

  lemma NothingContained(f: Format, lib: Library)
    ensures Content(f, lib, []) == 0
  {
    NothingToDecode(f, lib);
  }

  /** All envelopes, those held included, are delivered. */
  ghost predicate DeliversAll(f: Format, lib: Library, s: State, envelopes: seq<Envelope>) {
    Drain(f, lib, s).Delivered? && Drain(f, lib, s).envelopes == envelopes
  }

  /** Nothing is left in the buffers afterwards. */
  ghost predicate DeliversClean(f: Format, lib: Library, s: State, envelopes: seq<Envelope>) {
    exists expected :: Drain(f, lib, s) == Delivered(envelopes, State([], [], expected))
  }

  lemma PrecededClean(f: Format, lib: Library, s: State, s': State, a: seq<Envelope>, b: seq<Envelope>)
    requires Drain(f, lib, s) == Preceded(a, Drain(f, lib, s')) && DeliversClean(f, lib, s', b)
    ensures DeliversClean(f, lib, s, a + b)
  {
    hide Drain;
    var expected :| Drain(f, lib, s') == Delivered(b, State([], [], expected));
    assert Drain(f, lib, s) == Delivered(a + b, State([], [], expected));
  }

  lemma PrecededAll(f: Format, lib: Library, s: State, s': State, a: seq<Envelope>, b: seq<Envelope>)
    requires Drain(f, lib, s) == Preceded(a, Drain(f, lib, s')) && DeliversAll(f, lib, s, a + b)
    ensures DeliversAll(f, lib, s', b)
  {
    hide Drain;
    var rest := Drain(f, lib, s').envelopes;
    assert (a + rest)[|a|..] == rest && (a + b)[|a|..] == b;
  }

  /** State of the decoder at the front of `units`, with `held` waiting. */
  ghost predicate AtUnits(
    f: Format, lib: Library, s: State, units: seq<Unit>, envelopes: seq<Envelope>,
    held: seq<bytes>, heldEnvelopes: seq<Envelope>)
  {
    && s.frames == WireBytes(InFrames(f), lib, units) && s.payload == Join(held) && (held != [] ==> s.expected.Some?)
    && AllEncode(AllCarried(units), envelopes) && AllEncode(held, heldEnvelopes)
    && forall u :: u in units ==> Framable(f, lib, u)
  }

  lemma AtNextUnits(units: seq<Unit>, envelopes: seq<Envelope>)
    requires units != [] && AllEncode(AllCarried(units), envelopes)
    ensures var n := |Carried(units[0])|;
      && n <= |envelopes| && AllEncode(Carried(units[0]), envelopes[..n])
      && AllEncode(AllCarried(units[1..]), envelopes[n..]) && envelopes == envelopes[..n] + envelopes[n..]
  {
    hide AllEncodeWith;
    var n, all := |Carried(units[0])|, AllCarried(units);
    assert all[..n] == Carried(units[0]) && all[n..] == AllCarried(units[1..]);
    EncodeSlices(all, envelopes, n);
  }

  lemma EncodeSlices(datas: seq<bytes>, envelopes: seq<Envelope>, n: nat)
    requires AllEncode(datas, envelopes) && n <= |datas|
    ensures n <= |envelopes| && AllEncode(datas[..n], envelopes[..n]) && AllEncode(datas[n..], envelopes[n..])
    ensures envelopes == envelopes[..n] + envelopes[n..]
  {
    hide EncodesWith;
  }

  lemma EncodeFirst(datas: seq<bytes>, envelopes: seq<Envelope>)
    requires AllEncode(datas, envelopes) && datas != []
    ensures envelopes != [] && Encodes(datas[0], envelopes[0])
  {
    hide EncodesWith;
    assert EncodesWith(NoCompression, datas[0], envelopes[0]);
  }

  /** A self-contained frame while something is held is an error. */
  lemma HeldPacked(f: Format, lib: Library, s: State, payload: bytes, rest: bytes)
    requires s.payload != [] && Decode(f, lib, s.frames) == Frame(true, payload, rest)
    ensures Drain(f, lib, s).Stopped?
  {
    hide Decode;
  }

  /** When bytes of an envelope were dropped the rest cannot make up for it. */
  lemma LostForGood(
    f: Format, lib: Library, s: State, heldEnvelopes: seq<Envelope>, data: bytes, e: Envelope, m: nat, awaited: int,
    units: seq<Unit>, envelopes: seq<Envelope>)
    requires Lawful(lib) && Encodes(data, e) && m < |data|
    requires Dropped(f, lib, s, heldEnvelopes, data, m, awaited, WireBytes(InFrames(f), lib, units))
    requires AllEncode(AllCarried(units), envelopes) && forall u :: u in units ==> Framable(f, lib, u)
    ensures !DeliversAll(f, lib, s, heldEnvelopes + ([e] + envelopes))
  {
    hide Drain, Lawful, Content, Fragments, WireBytes, EncodesWith, AllCarried, TotalSize, Join, Framable, SizeOf;
    var rest := WireBytes(InFrames(f), lib, units);
    var s' := State(Fragments(InFrames(f), lib, data[m..]) + rest, [], Some(awaited));
    if DeliversAll(f, lib, s, heldEnvelopes + ([e] + envelopes)) {
      PrecededAll(f, lib, s, s', heldEnvelopes, [e] + envelopes);
      DrainSizes(f, lib, s');
      FragmentsContent(f, lib, data[m..], rest);
      UnitsContent(f, lib, units);
      TotalSizeEncoded(AllCarried(units), envelopes);
      TotalSizeConcat([e], envelopes);
      EncodedHasHeader(data, e);
      assert TotalSize([e]) == SizeOf(e) by { OneSize(e); }
    }
  }

  lemma OneSize(e: Envelope)
    ensures TotalSize([e]) == SizeOf(e)
  {
    assert [e][1..] == [];
  }

  /** The units are deliverable exactly when all envelopes come out, and then nothing stays in
      the buffers. */
  ghost predicate Exact(f: Format, lib: Library, s: State, units: seq<Unit>, held: nat, envelopes: seq<Envelope>) {
    && (Deliverable(units, held, s.expected) ==> DeliversClean(f, lib, s, envelopes))
    && (DeliversAll(f, lib, s, envelopes) ==> Deliverable(units, held, s.expected))
  }

  /** The whole connection, both directions: from any point between two units the decoder
      delivers everything held and everything still to come if and only if the units are
      deliverable, and then nothing stays in its buffers. */
  lemma {:induction false} StreamIff(
    f: Format, lib: Library, s: State, units: seq<Unit>, envelopes: seq<Envelope>,
    held: seq<bytes>, heldEnvelopes: seq<Envelope>)
    requires Lawful(lib) && AtUnits(f, lib, s, units, envelopes, held, heldEnvelopes)
    ensures Exact(f, lib, s, units, |Join(held)|, heldEnvelopes + envelopes)
    decreases |units|
  {
    hide Drain, Lawful, EncodesWith, Join, DeliversAll, DeliversClean, Exact, WireBytes, Framable;
    if units == [] {
      StreamEnds(f, lib, s, units, envelopes, held, heldEnvelopes);
    } else {
      AtNextUnits(units, envelopes);
      JoinNothing();
      var n := |Carried(units[0])|;
      var rest := WireBytes(InFrames(f), lib, units[1..]);
      assert [] + envelopes[n..] == envelopes[n..];
      if units[0].Packed? {
        StreamIff(f, lib, s.(frames := rest, payload := []), units[1..], envelopes[n..], [], []);
        PackedExact(f, lib, s, units, envelopes, held, heldEnvelopes);
      } else {
        SplitFirst(f, lib, s, units, envelopes, held, heldEnvelopes);
        var data, e, awaited := units[0].envelope, envelopes[0], Awaited(s.expected, |units[0].envelope|);
        if TooEarly(|Join(held)|, |data|, awaited) {
          SplitTooEarly(f, lib, s, units, envelopes, held, heldEnvelopes);
        } else if |Join(held)| + |data| < awaited {
          HeldMore(held, heldEnvelopes, data, e);
          JoinAppend(held, data);
          StreamIff(f, lib, State(rest, Join(held) + data, Some(awaited)), units[1..], envelopes[1..],
                    held + [data], heldEnvelopes + [e]);
          SplitKept(f, lib, s, units, envelopes, held, heldEnvelopes);
        } else {
          StreamIff(f, lib, State(rest, [], Some(awaited)), units[1..], envelopes[1..], [], []);
          SplitFlushed(f, lib, s, units, envelopes, held, heldEnvelopes);
        }
      }
    }
  }

  lemma SplitFirst(
    f: Format, lib: Library, s: State, units: seq<Unit>, envelopes: seq<Envelope>,
    held: seq<bytes>, heldEnvelopes: seq<Envelope>)
    requires AtUnits(f, lib, s, units, envelopes, held, heldEnvelopes) && units != [] && !units[0].Packed?
    ensures units[0].Split? && |envelopes| > 0 && Encodes(units[0].envelope, envelopes[0])
    ensures envelopes == [envelopes[0]] + envelopes[1..] && units == [units[0]] + units[1..]
    ensures Collecting(s, held, units[0].envelope, 0, s.expected)
    ensures s.frames == Fragments(InFrames(f), lib, units[0].envelope[0..]) + WireBytes(InFrames(f), lib, units[1..])
    ensures AllEncode(AllCarried(units[1..]), envelopes[1..]) && forall u :: u in units[1..] ==> Framable(f, lib, u)
  {
    hide EncodesWith, Fragments, Join, AllEncodeWith, Framable, AllCarried;
    assert units[0] in units;
    assert units[0].Split? by { NeverRaw(f, lib, units[0]); }
    AtNextUnits(units, envelopes);
    var data := units[0].envelope;
    EncodeFirst(Carried(units[0]), envelopes[..1]);
    EncodedHasHeader(data, envelopes[0]);
    SplitStarts(f, lib, s, held, data, WireBytes(InFrames(f), lib, units[1..]));
  }

  lemma NeverRaw(f: Format, lib: Library, u: Unit)
    requires Framable(f, lib, u)
    ensures !u.Raw?
  {
  }

  lemma SplitTooEarly(
    f: Format, lib: Library, s: State, units: seq<Unit>, envelopes: seq<Envelope>,
    held: seq<bytes>, heldEnvelopes: seq<Envelope>)
    requires Lawful(lib) && AtUnits(f, lib, s, units, envelopes, held, heldEnvelopes) && units != [] && units[0].Split?
    requires TooEarly(|Join(held)|, |units[0].envelope|, Awaited(s.expected, |units[0].envelope|))
    ensures Exact(f, lib, s, units, |Join(held)|, heldEnvelopes + envelopes)
  {
    hide Drain, Lawful, EncodesWith, Join, DeliversAll, DeliversClean, WireBytes, Framable, Fragments, TooEarly, Deliverable;
    SplitFirst(f, lib, s, units, envelopes, held, heldEnvelopes);
    var data, e, rest := units[0].envelope, envelopes[0], WireBytes(InFrames(f), lib, units[1..]);
    var awaited := Awaited(s.expected, |data|);
    DeliverableSplit(data, units[1..], |Join(held)|, s.expected);
    FragmentsDropped(f, lib, held, heldEnvelopes, data, e, 0, s.expected, s, rest);
    var m: nat :| m < |data| && Dropped(f, lib, s, heldEnvelopes, data, m, awaited, rest);
    LostForGood(f, lib, s, heldEnvelopes, data, e, m, awaited, units[1..], envelopes[1..]);
  }

  lemma SplitKept(
    f: Format, lib: Library, s: State, units: seq<Unit>, envelopes: seq<Envelope>,
    held: seq<bytes>, heldEnvelopes: seq<Envelope>)
    requires Lawful(lib) && AtUnits(f, lib, s, units, envelopes, held, heldEnvelopes) && units != [] && units[0].Split?
    requires |envelopes| > 0
    requires var (data, awaited) := (units[0].envelope, Awaited(s.expected, |units[0].envelope|));
      && !TooEarly(|Join(held)|, |data|, awaited) && |Join(held)| + |data| < awaited
      && Exact(f, lib, State(WireBytes(InFrames(f), lib, units[1..]), Join(held) + data, Some(awaited)), units[1..],
               |Join(held) + data|, heldEnvelopes + [envelopes[0]] + envelopes[1..])
    ensures Exact(f, lib, s, units, |Join(held)|, heldEnvelopes + envelopes)
  {
    hide Drain, Lawful, EncodesWith, Join, DeliversAll, DeliversClean, WireBytes, Framable, Fragments, TooEarly, Deliverable;
    SplitFirst(f, lib, s, units, envelopes, held, heldEnvelopes);
    var data, e, rest := units[0].envelope, envelopes[0], WireBytes(InFrames(f), lib, units[1..]);
    var awaited := Awaited(s.expected, |data|);
    DeliverableSplit(data, units[1..], |Join(held)|, s.expected);
    FragmentsReassemble(f, lib, held, heldEnvelopes, data, e, 0, s.expected, s, rest);
    Assoc(heldEnvelopes, [e], envelopes[1..]);
    SameDrain(f, lib, s, State(rest, Join(held) + data, Some(awaited)), heldEnvelopes + envelopes);
  }

  lemma SplitFlushed(
    f: Format, lib: Library, s: State, units: seq<Unit>, envelopes: seq<Envelope>,
    held: seq<bytes>, heldEnvelopes: seq<Envelope>)
    requires Lawful(lib) && AtUnits(f, lib, s, units, envelopes, held, heldEnvelopes) && units != [] && units[0].Split?
    requires |envelopes| > 0
    requires var (data, awaited) := (units[0].envelope, Awaited(s.expected, |units[0].envelope|));
      && !TooEarly(|Join(held)|, |data|, awaited) && |Join(held)| + |data| >= awaited
      && Exact(f, lib, State(WireBytes(InFrames(f), lib, units[1..]), [], Some(awaited)), units[1..], 0, envelopes[1..])
    ensures Exact(f, lib, s, units, |Join(held)|, heldEnvelopes + envelopes)
  {
    hide Drain, Lawful, EncodesWith, Join, DeliversAll, DeliversClean, WireBytes, Framable, Fragments, TooEarly, Deliverable;
    SplitFirst(f, lib, s, units, envelopes, held, heldEnvelopes);
    var data, e, rest := units[0].envelope, envelopes[0], WireBytes(InFrames(f), lib, units[1..]);
    var awaited := Awaited(s.expected, |data|);
    DeliverableSplit(data, units[1..], |Join(held)|, s.expected);
    FragmentsReassemble(f, lib, held, heldEnvelopes, data, e, 0, s.expected, s, rest);
    Assoc(heldEnvelopes, [e], envelopes[1..]);
    PackedStep(f, lib, s, State(rest, [], Some(awaited)), heldEnvelopes + [e], envelopes[1..]);
  }

  lemma PackedExact(
    f: Format, lib: Library, s: State, units: seq<Unit>, envelopes: seq<Envelope>,
    held: seq<bytes>, heldEnvelopes: seq<Envelope>)
    requires Lawful(lib) && AtUnits(f, lib, s, units, envelopes, held, heldEnvelopes) && units != [] && units[0].Packed?
    requires var n := |units[0].envelopes|;
      n <= |envelopes| && Exact(f, lib, s.(frames := WireBytes(InFrames(f), lib, units[1..]), payload := []), units[1..], 0, envelopes[n..])
    ensures Exact(f, lib, s, units, |Join(held)|, heldEnvelopes + envelopes)
  {
    hide Drain, Lawful, EncodesWith, Join, DeliversAll, DeliversClean, WireBytes, Framable;
    assert units[0] in units;
    var n := |units[0].envelopes|;
    StreamPacked(f, lib, s, units, envelopes, held, heldEnvelopes);
    if held == [] {
      JoinNothing();
      assert heldEnvelopes + envelopes == envelopes[..n] + envelopes[n..];
      PackedStep(f, lib, s, s.(frames := WireBytes(InFrames(f), lib, units[1..])), envelopes[..n], envelopes[n..]);
    } else {
      HeldNotEmpty(held, heldEnvelopes);
    }
  }

  lemma HeldMore(held: seq<bytes>, heldEnvelopes: seq<Envelope>, data: bytes, e: Envelope)
    requires AllEncode(held, heldEnvelopes) && Encodes(data, e)
    ensures AllEncode(held + [data], heldEnvelopes + [e])
  {
    hide EncodesWith;
    EncodeConcat(held, [data], heldEnvelopes, [e]);
  }

  lemma SameDrain(f: Format, lib: Library, s: State, s': State, envelopes: seq<Envelope>)
    requires Drain(f, lib, s) == Drain(f, lib, s')
    ensures DeliversClean(f, lib, s, envelopes) <==> DeliversClean(f, lib, s', envelopes)
    ensures DeliversAll(f, lib, s, envelopes) <==> DeliversAll(f, lib, s', envelopes)
  {
    hide Drain;
  }

  /** Delivering `a` first changes nothing about whether `b` follows. */
  lemma PackedStep(f: Format, lib: Library, s: State, s': State, a: seq<Envelope>, b: seq<Envelope>)
    requires Drain(f, lib, s) == Preceded(a, Drain(f, lib, s'))
    ensures DeliversClean(f, lib, s', b) ==> DeliversClean(f, lib, s, a + b)
    ensures DeliversAll(f, lib, s, a + b) ==> DeliversAll(f, lib, s', b)
  {
    hide Drain, DeliversClean, DeliversAll;
    if DeliversClean(f, lib, s', b) {
      PrecededClean(f, lib, s, s', a, b);
    }
    if DeliversAll(f, lib, s, a + b) {
      PrecededAll(f, lib, s, s', a, b);
    }
  }

  lemma HeldNotEmpty(held: seq<bytes>, heldEnvelopes: seq<Envelope>)
    requires AllEncode(held, heldEnvelopes) && held != []
    ensures Join(held) != []
  {
    hide EncodesWith;
    assert Encodes(held[0], heldEnvelopes[0]);
    EncodedHasHeader(held[0], heldEnvelopes[0]);
    JoinCons(held);
  }

  lemma SplitStarts(f: Format, lib: Library, s: State, held: seq<bytes>, data: bytes, rest: bytes)
    requires data != [] && s.payload == Join(held) && (held != [] ==> s.expected.Some?)
    requires s.frames == Fragments(InFrames(f), lib, data) + rest
    ensures Collecting(s, held, data, 0, s.expected)
    ensures s.frames == Fragments(InFrames(f), lib, data[0..]) + rest
  {
    hide Fragments, Join;
    assert data[0..] == data && data[..0] == [];
    EmptyNeutral(Join(held));
  }

  lemma StreamEnds(
    f: Format, lib: Library, s: State, units: seq<Unit>, envelopes: seq<Envelope>,
    held: seq<bytes>, heldEnvelopes: seq<Envelope>)
    requires AtUnits(f, lib, s, units, envelopes, held, heldEnvelopes) && units == []
    ensures Exact(f, lib, s, units, |Join(held)|, heldEnvelopes + envelopes)
  {
    hide Drain, EncodesWith, Join;
    DrainNothing(f, lib, s.payload, s.expected);
    assert heldEnvelopes + [] == heldEnvelopes;
    if held == [] {
      JoinNothing();
      assert Drain(f, lib, s) == Delivered(heldEnvelopes + envelopes, State([], [], s.expected));
    } else {
      HeldNotEmpty(held, heldEnvelopes);
    }
  }

  lemma StreamPacked(
    f: Format, lib: Library, s: State, units: seq<Unit>, envelopes: seq<Envelope>,
    held: seq<bytes>, heldEnvelopes: seq<Envelope>)
    requires Lawful(lib) && AtUnits(f, lib, s, units, envelopes, held, heldEnvelopes)
    requires units != [] && units[0].Packed? && Framable(f, lib, units[0])
    ensures held != [] ==> Drain(f, lib, s).Stopped?
    ensures held != [] ==> !DeliversAll(f, lib, s, heldEnvelopes + envelopes)
    ensures var n := |units[0].envelopes|;
      n <= |envelopes| && (held == [] ==>
        Drain(f, lib, s) == Preceded(envelopes[..n], Drain(f, lib, s.(frames := WireBytes(InFrames(f), lib, units[1..])))))
  {
    hide Drain, Lawful, EncodesWith, Join, SelfContainedFrame, Decode;
    var datas, rest := units[0].envelopes, WireBytes(InFrames(f), lib, units[1..]);
    AtNextUnits(units, envelopes);
    if held == [] {
      JoinNothing();
      PackedDrained(f, lib, datas, envelopes[..|datas|], s.expected, rest);
    } else {
      HeldNotEmpty(held, heldEnvelopes);
      SelfContainedFits(f, lib, Join(datas));
      SelfContainedRoundTrip(f, lib, Join(datas), rest);
      assert Decode(f, lib, s.frames).Frame? && Decode(f, lib, s.frames).selfContained;
      HeldPacked(f, lib, s, Decode(f, lib, s.frames).payload, rest);
    }
  }

  lemma AloneAtUnits(f: Format, lib: Library, data: bytes, e: Envelope, expected: Option<int>)
    requires Encodes(data, e)
    ensures AtUnits(f, lib, State(Fragments(InFrames(f), lib, data), [], expected), [Split(data)], [e], [], [])
  {
    hide EncodesWith, Fragments, Join;
    JoinNothing();
    var units := [Split(data)];
    assert units[1..] == [];
    assert AllCarried(units) == [data] + AllCarried([]) == [data];
    EmptyNeutral(Fragments(InFrames(f), lib, data));
    assert WireBytes(InFrames(f), lib, units) == Fragments(InFrames(f), lib, data);
    assert AllEncode([data], [e]);
  }

  /** One large envelope alone, both directions: fed its fragments with an empty payload
      buffer, the decoder delivers exactly that envelope if and only if the awaited length
      lies above the last fragment boundary and within the envelope. */
  lemma ReassemblyIff(f: Format, lib: Library, data: bytes, e: Envelope, expected: Option<int>)
    requires Lawful(lib) && Encodes(data, e)
    ensures var o := Drain(f, lib, State(Fragments(InFrames(f), lib, data), [], expected));
      (o.Delivered? && o.envelopes == [e]) <==> Timely(|data|, Awaited(expected, |data|))
  {
    hide Drain, EncodesWith, Lawful, Fragments, Join;
    var s := State(Fragments(InFrames(f), lib, data), [], expected);
    var units := [Split(data)];
    EncodedHasHeader(data, e);
    LastBoundaryClosedForm(|data|);
    JoinNothing();
    AloneAtUnits(f, lib, data, e, expected);
    StreamIff(f, lib, s, units, [e], [], []);
    assert [] + [e] == [e];
    assert [Split(data)] + [] == units;
    DeliverableSplit(data, [], 0, expected);
    var awaited := Awaited(expected, |data|);
    DeliverableEnd(if |data| < awaited then |data| else 0, Some(awaited));
    hide Deliverable;
  }

  lemma PackedDrained(f: Format, lib: Library, datas: seq<bytes>, envelopes: seq<Envelope>, expected: Option<int>, rest: bytes)
    requires Lawful(lib) && WellPacked(InFrames(f), lib, Packed(datas)) && AllEncode(datas, envelopes)
    ensures Drain(f, lib, State(SelfContainedFrame(f, lib, Join(datas)) + rest, [], expected))
            == Preceded(envelopes, Drain(f, lib, State(rest, [], expected)))
  {
    hide Decode, Extract, SelfContainedFrame, Join, FromBuffer, Drain, Lawful;
    SelfContainedFits(f, lib, Join(datas));
    SelfContainedRoundTrip(f, lib, Join(datas), rest);
    ExtractWhole(NoCompression, datas, envelopes);
    SelfContainedDrained(f, lib, State(SelfContainedFrame(f, lib, Join(datas)) + rest, [], expected),
                         Join(datas), envelopes, rest);
  }

  lemma SelfContainedDrained(f: Format, lib: Library, s: State, payload: bytes, envelopes: seq<Envelope>, rest: bytes)
    requires s.payload == [] && Decode(f, lib, s.frames) == Frame(true, payload, rest)
    requires Extract(payload, NoCompression) == Extracted(envelopes, [])
    ensures Drain(f, lib, s) == Preceded(envelopes, Drain(f, lib, s.(frames := rest)))
  {
    hide Decode, Extract, FromBuffer;
  }

  lemma SelfContainedFits(f: Format, lib: Library, payload: bytes)
    requires Lawful(lib) && FitsFrame(InFrames(f), lib, 0, |payload|)
    ensures if f.Uncompressed? then |payload| < PAYLOAD_SIZE_LIMIT else lib.maxOutput(|payload|) < PAYLOAD_SIZE_LIMIT
  {
  }

  lemma AllCarriedAppend(a: seq<Unit>, b: seq<Unit>)
    ensures AllCarried(a + b) == AllCarried(a) + AllCarried(b)
  {
    if a == [] {
      assert a + b == b;
    } else {
      assert (a + b)[1..] == a[1..] + b;
      AllCarriedAppend(a[1..], b);
    }
  }

  function AllDatas(batches: seq<seq<Request>>): seq<bytes> {
    if batches == [] then [] else Datas(batches[0]) + AllDatas(batches[1..])
  }

  lemma {:induction false} PackAllConserves(k: Encoding, lib: Library, batches: seq<seq<Request>>)
    requires k.InFrames? && forall b :: b in batches ==> Framed(b)
    ensures AllCarried(PackAll(k, lib, batches)) == AllDatas(batches)
    ensures forall u :: u in PackAll(k, lib, batches) ==> WellPacked(k, lib, u)
    decreases |batches|
  {
    if batches != [] {
      assert batches[0] in batches;
      PackConserves(k, lib, [], batches[0]);
      PackAllConserves(k, lib, batches[1..]);
      AllCarriedAppend(Pack(k, lib, [], batches[0]), PackAll(k, lib, batches[1..]));
      assert [] + Datas(batches[0]) == Datas(batches[0]);
    }
  }

  /** End to end: whatever the requests, however the queue runs empty between them, and
      however the written bytes are cut into chunks, a fresh v5 decoder returns exactly the
      envelopes that were queued, in order, and ends with empty buffers, if and only if the
      packed units are deliverable. */
  lemma WriterReaderIdentity(
    f: Format, lib: Library, batches: seq<seq<Request>>, envelopes: seq<Envelope>, chunks: seq<bytes>)
    requires Lawful(lib) && (forall b :: b in batches ==> Framed(b))
    requires AllEncode(AllDatas(batches), envelopes)
    requires Join(chunks) == WireBytes(InFrames(f), lib, PackAll(InFrames(f), lib, batches))
    ensures (exists expected :: ConsumeAll(f, lib, FRESH, chunks) == Delivered(envelopes, State([], [], expected)))
            <==> Deliverable(PackAll(InFrames(f), lib, batches), 0, None)
  {
    hide Drain, Lawful, EncodesWith, Decode, PackAll, WireBytes, Deliverable, WellPacked, AllDatas, AllCarried, ConsumeAll, Join;
    var units := PackAll(InFrames(f), lib, batches);
    PackAllConserves(InFrames(f), lib, batches);
    NothingToDecode(f, lib);
    ChunkingInvariance(f, lib, FRESH, chunks);
    EmptyNeutral(Join(chunks));
    var s := State(Join(chunks), [], None);
    assert ConsumeAll(f, lib, FRESH, chunks) == Drain(f, lib, s);
    JoinNothing();
    assert forall u :: u in units ==> Framable(f, lib, u) by {
      forall u | u in units
        ensures Framable(f, lib, u)
      {
        PackedIsFramable(f, lib, u);
      }
    }
    assert AtUnits(f, lib, s, units, envelopes, [], []);
    StreamIff(f, lib, s, units, envelopes, [], []);
    assert [] + envelopes == envelopes;
  }

  lemma PackedIsFramable(f: Format, lib: Library, u: Unit)
    requires WellPacked(InFrames(f), lib, u)
    ensures Framable(f, lib, u)
  {
    hide Join, FitsFrame;
  }

  /** In particular for requests that each fit an empty frame, with no further condition. */
  lemma SmallEnvelopesIdentity(
    f: Format, lib: Library, batches: seq<seq<Request>>, envelopes: seq<Envelope>, chunks: seq<bytes>)
    requires Lawful(lib) && (forall b :: b in batches ==> Framed(b))
    requires forall b, q :: b in batches && q in b ==> FitsFrame(InFrames(f), lib, 0, |q.data|)
    requires AllEncode(AllDatas(batches), envelopes)
    requires Join(chunks) == WireBytes(InFrames(f), lib, PackAll(InFrames(f), lib, batches))
    ensures exists expected :: ConsumeAll(f, lib, FRESH, chunks) == Delivered(envelopes, State([], [], expected))
  {
    hide Lawful, EncodesWith, PackAll, WireBytes, Deliverable, AllDatas, ConsumeAll, FitsFrame;
    AllSmall(InFrames(f), lib, batches);
    NoSplitDeliverable(PackAll(InFrames(f), lib, batches), None);
    WriterReaderIdentity(f, lib, batches, envelopes, chunks);
  }

  lemma {:induction false} AllSmall(k: Encoding, lib: Library, batches: seq<seq<Request>>)
    requires k.InFrames? && forall b :: b in batches ==> Framed(b)
    requires forall b, q :: b in batches && q in b ==> FitsFrame(k, lib, 0, |q.data|)
    ensures forall u :: u in PackAll(k, lib, batches) ==> u.Packed?
  {
    if batches != [] {
      assert batches[0] in batches;
      SmallRequestsStayWhole(k, lib, [], batches[0]);
      AllSmall(k, lib, batches[1..]);
    }
  }

  //
  // Instances
  //

  /** A request built by `encode_with` and stamped with a stream id is one encoded envelope
      carrying that id; from v5 on the compressor plays no part. */
  lemma StampedRequestEncodes(e: Envelope, c: Compression, id: StreamId)
    requires e.version.V5? && Consistent(e) && (e.direction.Request? ==> !e.flags.warning)
    requires EncodeWith(e, c).Encoded? && |EncodeWith(e, c).data| < ENVELOPE_HEADER_LEN + 0x8000_0000
    ensures |EncodeWith(e, c).data| >= ENVELOPE_HEADER_LEN
    ensures Encodes(SetStreamId(EncodeWith(e, c).data, id),
                    e.(streamId := id, flags := e.flags.(compression := false)))
  {
    hide FromBuffer, SetStreamId, Extras, EnvelopeHeader, CheckEnvelopeSize;
    SetStreamIdIsEncoding(e, c, id);
    var e' := e.(streamId := id);
    var data := EncodeWith(e', NoCompression).data;
    assert EncodeWith(e', c) == EncodeWith(e', NoCompression);
    EnvelopeRoundTrip(e', NoCompression, []);
    assert data + [] == data;
  }

  /** What `encode_with` makes of a v5 request, within the length its header can announce. */
  ghost predicate Queued(q: Request, e: Envelope, c: Compression) {
    && !q.handshake && e.version.V5? && Consistent(e) && (e.direction.Request? ==> !e.flags.warning)
    && EncodeWith(e, c) == Encoded(q.data) && |q.data| < ENVELOPE_HEADER_LEN + 0x8000_0000
  }

  /** The envelope as the other side sees it when `k` requests were sent before. */
  function Numbered(e: Envelope, k: nat): Envelope {
    e.(streamId := (k + 1) % STREAM_IDS, flags := e.flags.(compression := false))
  }

  function AllNumbered(envelopes: seq<Envelope>, k: nat): (r: seq<Envelope>)
    ensures |r| == |envelopes|
  {
    seq(|envelopes|, i requires 0 <= i < |envelopes| => Numbered(envelopes[i], k + i))
  }

  ghost predicate AllQueued(requests: seq<Request>, envelopes: seq<Envelope>, c: Compression) {
    |requests| == |envelopes| && forall i :: 0 <= i < |requests| ==> Queued(requests[i], envelopes[i], c)
  }

  lemma QueuedStamped(q: Request, e: Envelope, c: Compression, k: nat)
    requires Queued(q, e, c)
    ensures |q.data| >= ENVELOPE_HEADER_LEN
    ensures Encodes(SetStreamId(q.data, IdOf(k)), Numbered(e, k))
  {
    hide FromBuffer, SetStreamId, EncodeWith, Consistent;
    IdsAreCyclic(k);
    StampedRequestEncodes(e, c, IdOf(k));
  }

  lemma {:induction false} BatchStamped(batch: seq<Request>, envelopes: seq<Envelope>, c: Compression, k: nat)
    requires AllQueued(batch, envelopes, c) && forall q :: q in batch ==> |q.data| >= 4
    ensures var sent := Stamped(batch, Counter(k));
      Framed(sent) && AllEncode(Datas(sent), AllNumbered(envelopes, k))
    decreases |batch|
  {
    hide EncodesWith, SetStreamId, Queued, Numbered;
    if batch != [] {
      assert Queued(batch[0], envelopes[0], c);
      QueuedStamped(batch[0], envelopes[0], c, k);
      NotHandshake(batch[0], envelopes[0], c);
      BatchStamped(batch[1..], envelopes[1..], c, k + 1);
      var rest := Stamped(batch[1..], Counter(k + 1));
      var first := batch[0].(data := SetStreamId(batch[0].data, IdOf(k)));
      assert Stamped(batch, Counter(k)) == [first] + rest;
      NumberedCons(envelopes, k);
      hide AllQueued, Stamped, AllNumbered;
      SentCons(first, rest, Numbered(envelopes[0], k), AllNumbered(envelopes[1..], k + 1));
    }
  }

  lemma NumberedCons(envelopes: seq<Envelope>, k: nat)
    requires envelopes != []
    ensures AllNumbered(envelopes, k) == [Numbered(envelopes[0], k)] + AllNumbered(envelopes[1..], k + 1)
  {
    hide Numbered;
  }

  lemma SentCons(first: Request, rest: seq<Request>, e: Envelope, envelopes: seq<Envelope>)
    requires Framed(rest) && !first.handshake && first.data != [] && Encodes(first.data, e)
    requires AllEncode(Datas(rest), envelopes)
    ensures Framed([first] + rest) && AllEncode(Datas([first] + rest), [e] + envelopes)
  {
    hide EncodesWith;
    assert Datas([first] + rest) == [first.data] + Datas(rest);
  }

  lemma NotHandshake(q: Request, e: Envelope, c: Compression)
    requires Queued(q, e, c)
    ensures !q.handshake
  {
  }

  lemma {:induction false} QueueStamped(batches: seq<seq<Request>>, envelopes: seq<Envelope>, c: Compression, k: nat)
    requires AllQueued(Flatten(batches), envelopes, c) && forall b, q :: b in batches && q in b ==> |q.data| >= 4
    ensures var sent := StampedAll(batches, Counter(k));
      (forall b :: b in sent ==> Framed(b)) && AllEncode(AllDatas(sent), AllNumbered(envelopes, k))
    decreases |batches|
  {
    hide EncodesWith, Queued, Numbered, Stamped, Framed;
    if batches != [] {
      var n := |batches[0]|;
      assert batches[0] in batches;
      assert Flatten(batches)[..n] == batches[0] && Flatten(batches)[n..] == Flatten(batches[1..]);
      BatchStamped(batches[0], envelopes[..n], c, k);
      QueueStamped(batches[1..], envelopes[n..], c, k + n);
      CounterOnward(k, n);
      var first, rest := Stamped(batches[0], Counter(k)), StampedAll(batches[1..], Counter(k + n));
      assert StampedAll(batches, Counter(k)) == [first] + rest;
      NumberedConcat(envelopes, n, k);
      hide AllQueued, StampedAll, AllNumbered;
      assert ([first] + rest)[1..] == rest;
      EncodeConcat(Datas(first), AllDatas(rest), AllNumbered(envelopes[..n], k), AllNumbered(envelopes[n..], k + n));
    }
  }

  lemma NumberedConcat(envelopes: seq<Envelope>, n: nat, k: nat)
    requires n <= |envelopes|
    ensures AllNumbered(envelopes, k) == AllNumbered(envelopes[..n], k) + AllNumbered(envelopes[n..], k + n)
  {
    hide Numbered;
  }

  lemma EncodeConcat(a: seq<bytes>, b: seq<bytes>, x: seq<Envelope>, y: seq<Envelope>)
    requires AllEncode(a, x) && AllEncode(b, y)
    ensures AllEncode(a + b, x + y)
  {
    hide EncodesWith;
  }

  lemma CounterOnward(k: nat, n: nat)
    ensures CounterAfter(n, Counter(k)) == Counter(k + n)
  {
    CounterFromStart(k);
    CounterFromStart(k + n);
    CounterAfterSum(k, n, INITIAL_STREAM_ID);
  }

  /** From the queue to the decoded envelopes: of requests built by `encode_with`, what
      `StartWriting` puts on a new connection and a fresh decoder reads in any chunks are
      those envelopes in order, the k-th with stream id (k + 1) mod 32768, if and only if the
      packed units are deliverable. */
  lemma QueueToEnvelopes(
    f: Format, lib: Library, c: Compression, batches: seq<seq<Request>>, envelopes: seq<Envelope>, chunks: seq<bytes>)
    requires Lawful(lib) && AllQueued(Flatten(batches), envelopes, c)
    requires forall b, q :: b in batches && q in b ==> |q.data| >= 4
    requires Join(chunks) == WireBytes(InFrames(f), lib, PackAll(InFrames(f), lib, StampedAll(batches, INITIAL_STREAM_ID)))
    ensures (exists expected :: ConsumeAll(f, lib, FRESH, chunks) == Delivered(AllNumbered(envelopes, 0), State([], [], expected)))
            <==> Deliverable(PackAll(InFrames(f), lib, StampedAll(batches, INITIAL_STREAM_ID)), 0, None)
  {
    hide Lawful, AllQueued, AllNumbered, WireBytes, PackAll, StampedAll, Deliverable, ConsumeAll, Join, AllEncode, Framed, AllDatas;
    QueueStamped(batches, envelopes, c, 0);
    WriterReaderIdentity(f, lib, StampedAll(batches, INITIAL_STREAM_ID), AllNumbered(envelopes, 0), chunks);
  }

  /** A large envelope whose last fragment is no longer than the envelope header is lost on
      a fresh decoder: for example any v5 query with a body of 131071 bytes. */
  lemma ShortTailLost(f: Format, lib: Library, body: bytes)
    requires Lawful(lib) && |body| == 131071
    ensures var e := Envelope(V5, Direction.Request, Flags(false, false, false, false, false), Query, 1, body, None, []);
      var data := EncodeWith(e, NoCompression).data;
      var o := Drain(f, lib, State(Fragments(InFrames(f), lib, data), [], None));
      Encodes(data, e) && !(o.Delivered? && o.envelopes == [e])
  {
    hide Drain, Lawful, Fragments, FromBuffer, CheckEnvelopeSize;
    var e := Envelope(V5, Direction.Request, Flags(false, false, false, false, false), Query, 1, body, None, []);
    var data := EncodeWith(e, NoCompression).data;
    assert Extras(e) + body == body;
    EnvelopeRoundTrip(e, NoCompression, []);
    assert data + [] == data;
    assert LastBoundary(|data|) == FRAGMENT;
    ReassemblyIff(f, lib, data, e, None);
  }

  /** After a first large envelope with a body of `first` bytes, a later one that is shorter
      than `first` does not come out by its own fragments: it stays in the buffer. */
  lemma LaterLargeEnvelopeStalls(f: Format, lib: Library, data: bytes, e: Envelope, first: nat)
    requires Lawful(lib) && Encodes(data, e) && |data| < first
    ensures var o := Drain(f, lib, State(Fragments(InFrames(f), lib, data), [], Some(first)));
      !(o.Delivered? && o.envelopes == [e])
  {
    hide Drain, Lawful, Fragments, FromBuffer;
    ReassemblyIff(f, lib, data, e, Some(first));
  }

  /** It comes out together with the next large one if that one brings the buffer to `first`
      in its last fragment. */
  lemma LaterLargeEnvelopeFlushed(first: nat, second: bytes, third: bytes)
    requires 0 < |second| < first <= |second| + |third|
    requires !TooEarly(0, |second|, first) && !TooEarly(|second|, |third|, first)
    ensures Deliverable([Split(second), Split(third)], 0, Some(first))
    ensures !Deliverable([Split(second)], 0, Some(first))
  {
    hide Deliverable, TooEarly;
    assert [Split(second), Split(third)] == [Split(second)] + [Split(third)];
    assert [Split(second)] == [Split(second)] + [] && [Split(third)] == [Split(third)] + [];
    DeliverableSplit(second, [Split(third)], 0, Some(first));
    DeliverableSplit(second, [], 0, Some(first));
    DeliverableSplit(third, [], |second|, Some(first));
    DeliverableEnd(|second|, Some(first));
    DeliverableEnd(0, Some(first));
  }

  //
  // Before v5
  //

  lemma {:induction false} LegacyWire(lib: Library, pending: seq<bytes>, batch: seq<Request>)
    requires Framed(batch) && (pending == [] || Join(pending) != [])
    ensures WireBytes(Legacy, lib, Pack(Legacy, lib, pending, batch)) == Join(pending + Datas(batch))
    decreases |batch|, |pending|
  {
    if batch == [] {
      assert pending + [] == pending;
      if pending != [] {
        WireCons(Legacy, lib, Packed(pending), []);
        assert [Packed(pending)] + [] == [Packed(pending)];
        assert Join(pending) + [] == Join(pending);
      }
    } else {
      var q, rest := batch[0], batch[1..];
      assert q in batch;
      DatasCons(batch);
      if pending == [] {
        JoinAppend(pending, q.data);
        assert [] + [q.data] == [q.data];
        LegacyWire(lib, [q.data], rest);
        assert [] + ([q.data] + Datas(rest)) == [q.data] + Datas(rest);
      } else {
        LegacyWire(lib, [], batch);
        WireCons(Legacy, lib, Packed(pending), Pack(Legacy, lib, [], batch));
        JoinConcat(pending, Datas(batch));
        assert [] + Datas(batch) == Datas(batch);
      }
    }
  }

  lemma {:induction false} LegacyWireAll(lib: Library, batches: seq<seq<Request>>)
    requires forall b :: b in batches ==> Framed(b)
    ensures WireBytes(Legacy, lib, PackAll(Legacy, lib, batches)) == Join(AllDatas(batches))
  {
    if batches != [] {
      assert batches[0] in batches;
      LegacyWire(lib, [], batches[0]);
      assert [] + Datas(batches[0]) == Datas(batches[0]);
      LegacyWireAll(lib, batches[1..]);
      WireAppend(Legacy, lib, Pack(Legacy, lib, [], batches[0]), PackAll(Legacy, lib, batches[1..]));
      JoinConcat(Datas(batches[0]), AllDatas(batches[1..]));
    }
  }

  /** The same identity for the legacy encoder and decoder, which need no condition: every
      list of envelopes comes out unchanged, under any body compression. */
  lemma LegacyIdentity(
    lib: Library, c: Compression, batches: seq<seq<Request>>, envelopes: seq<Envelope>, chunks: seq<bytes>)
    requires forall b :: b in batches ==> Framed(b)
    requires AllEncodeWith(c, AllDatas(batches), envelopes)
    requires Join(chunks) == WireBytes(Legacy, lib, PackAll(Legacy, lib, batches))
    ensures LegacyConsumeAll(c, [], chunks) == Delivered(envelopes, [])
  {
    hide FromBuffer, PackAll, WireBytes, Extract, EncodesWith, LegacyConsumeAll;
    LegacyWireAll(lib, batches);
    ExtractWhole(c, AllDatas(batches), envelopes);
    NothingToParse(c);
    LegacyChunkingInvariance(c, [], chunks);
    assert [] + Join(chunks) == Join(chunks);
  }
}
