/** The connection writer: requests are stamped with a stream id, packed into frames by the
    encoder and flushed when the queue runs empty. */
module Writer {
  import opened Bytes
  import opened Frames
  import opened Envelopes
  import opened FrameEncoder
  import opened StreamIds

  datatype Request = Request(data: bytes, handler: nat, handshake: bool)

  /** One thing the writer puts on the wire. */
  datatype Unit =
    | Packed(envelopes: seq<bytes>)
    | Split(envelope: bytes)
    | Raw(data: bytes)

  /** The frames of a large envelope. */
  function Fragments(k: Encoding, lib: Library, envelope: bytes): bytes
    decreases |envelope|
  {
    if envelope == [] then []
    else
      var n := FragmentSize(k, |envelope|);
      Fragment(k, lib, envelope[..n]) + Fragments(k, lib, envelope[n..])
  }

  function UnitBytes(k: Encoding, lib: Library, u: Unit): bytes {
    match u
    case Packed(envelopes) => Sealed(k, lib, Join(envelopes))
    case Split(envelope) => Fragments(k, lib, envelope)
    case Raw(data) => data
  }

  function WireBytes(k: Encoding, lib: Library, units: seq<Unit>): bytes {
    if units == [] then [] else UnitBytes(k, lib, units[0]) + WireBytes(k, lib, units[1..])
  }

  /** How a batch of requests (those found in the queue before it runs empty) is packed,
      with `pending` envelopes already in the encoder. */
  function Pack(k: Encoding, lib: Library, pending: seq<bytes>, batch: seq<Request>): seq<Unit>
    decreases |batch|, |pending|
  {
    if batch == [] then
      if Join(pending) == [] then [] else [Packed(pending)]
    else if batch[0].handshake then
      [Raw(batch[0].data)] + Pack(k, lib, pending, batch[1..])
    else if FitsFrame(k, lib, |Join(pending)|, |batch[0].data|) then
      Pack(k, lib, pending + [batch[0].data], batch[1..])
    else if Join(pending) != [] then
      [Packed(pending)] + Pack(k, lib, [], batch)
    else
      [Split(batch[0].data)] + Pack(k, lib, [], batch[1..])
  }

  function PackAll(k: Encoding, lib: Library, batches: seq<seq<Request>>): seq<Unit> {
    if batches == [] then [] else Pack(k, lib, [], batches[0]) + PackAll(k, lib, batches[1..])
  }

  //
  // Stream ids
  //

  /** The requests as sent: stream ids patched into their bytes. */
  function Stamped(batch: seq<Request>, counter: StreamId): (r: seq<Request>)
    requires forall q :: q in batch ==> |q.data| >= 4
    ensures |r| == |batch|
    decreases |batch|
  {
    if batch == [] then []
    else
      var id := Allocated(counter);
      [batch[0].(data := SetStreamId(batch[0].data, id))] + Stamped(batch[1..], Advanced(counter))
  }

  function CounterAfter(n: nat, counter: StreamId): StreamId
    decreases n
  {
    if n == 0 then counter else CounterAfter(n - 1, Advanced(counter))
  }

  /** The handler table after a batch was registered. */
  function Registered(handlers: map<StreamId, nat>, batch: seq<Request>, counter: StreamId): map<StreamId, nat>
    decreases |batch|
  {
    if batch == [] then handlers
    else Registered(handlers[Allocated(counter) := batch[0].handler], batch[1..], Advanced(counter))
  }

  /** All requests in the order in which they are sent. */
  function Flatten(batches: seq<seq<Request>>): seq<Request> {
    if batches == [] then [] else batches[0] + Flatten(batches[1..])
  }

  lemma {:induction false} CounterAfterSum(m: nat, n: nat, counter: StreamId)
    ensures CounterAfter(n, CounterAfter(m, counter)) == CounterAfter(m + n, counter)
    decreases m
  {
    if m > 0 {
      CounterAfterSum(m - 1, n, Advanced(counter));
    }
  }

  lemma {:induction false} RegisteredConcat(
    handlers: map<StreamId, nat>, a: seq<Request>, b: seq<Request>, counter: StreamId)
    ensures Registered(handlers, a + b, counter)
            == Registered(Registered(handlers, a, counter), b, CounterAfter(|a|, counter))
    decreases |a|
  {
    if a == [] {
      assert a + b == b;
    } else {
      assert (a + b)[1..] == a[1..] + b;
      RegisteredConcat(handlers[Allocated(counter) := a[0].handler], a[1..], b, Advanced(counter));
    }
  }

  /** A counter that starts with the connection stands where the run says. */
  lemma {:induction false} CounterFromStart(k: nat)
    ensures CounterAfter(k, INITIAL_STREAM_ID) == Counter(k)
  {
    if k > 0 {
      CounterFromStart(k - 1);
      CounterAfterSum(k - 1, 1, INITIAL_STREAM_ID);
    }
  }

  /** After any number of requests each of the latest 32768 has its handler under its own id. */
  lemma {:induction false} RecentHandlersRegistered(requests: seq<Request>, k: nat)
    requires k < |requests| <= k + STREAM_IDS
    ensures var handlers := Registered(map[], requests, INITIAL_STREAM_ID);
      IdOf(k) in handlers && handlers[IdOf(k)] == requests[k].handler
    decreases |requests|
  {
    var n := |requests| - 1;
    var front, last := requests[..n], requests[n];
    assert requests == front + [last];
    RegisteredConcat(map[], front, [last], INITIAL_STREAM_ID);
    CounterFromStart(n);
    assert [last][1..] == [];
    if k < n {
      RecentHandlersRegistered(front, k);
      SameIdIff(k, n);
    }
  }

  //
  // The writing loops
  //

  lemma WireAppend(k: Encoding, lib: Library, a: seq<Unit>, b: seq<Unit>)
    ensures WireBytes(k, lib, a + b) == WireBytes(k, lib, a) + WireBytes(k, lib, b)
  {
    if a == [] {
      assert a + b == b;
    } else {
      assert (a + b)[1..] == a[1..] + b;
      WireAppend(k, lib, a[1..], b);
    }
  }

  lemma WireCons(k: Encoding, lib: Library, u: Unit, rest: seq<Unit>)
    ensures WireBytes(k, lib, [u] + rest) == UnitBytes(k, lib, u) + WireBytes(k, lib, rest)
  {
    assert ([u] + rest)[1..] == rest;
  }

  /** Writes a large envelope as a run of fragment frames. */
  method WriteFragments(encoder: FrameEncoder, data: bytes) returns (wire: bytes)
    requires encoder.Valid() && encoder.Payload() == [] && Lawful(encoder.lib)
    modifies encoder
    ensures encoder.Valid() && encoder.Payload() == []
    ensures wire == Fragments(encoder.kind, encoder.lib, data)
  {
    hide Fragment, Lawful;
    wire := [];
    var start := 0;
    assert data[0..] == data;
    while start < |data|
      invariant 0 <= start <= |data| && encoder.Valid() && encoder.Payload() == []
      invariant wire + Fragments(encoder.kind, encoder.lib, data[start..]) == Fragments(encoder.kind, encoder.lib, data)
    {
      var rest := data[start..];
      var taken, frame := encoder.FinalizeNonSelfContained(rest);
      assert rest[taken..] == data[start + taken..];
      assert wire + (frame + Fragments(encoder.kind, encoder.lib, rest[taken..]))
          == (wire + frame) + Fragments(encoder.kind, encoder.lib, rest[taken..]);
      start := start + taken;
      wire := wire + frame;
      encoder.Reset();
    }
    assert wire + [] == wire;
  }

  /** Finalizes the frame being collected and starts a new one. */
  method WriteSelfContained(encoder: FrameEncoder) returns (wire: bytes)
    requires encoder.Valid() && Lawful(encoder.lib)
    requires FitsFrame(encoder.kind, encoder.lib, 0, |encoder.Payload()|)
    modifies encoder
    ensures encoder.Valid() && encoder.Payload() == []
    ensures wire == Sealed(encoder.kind, encoder.lib, old(encoder.Payload()))
  {
    wire := encoder.FinalizeSelfContained();
    encoder.Reset();
  }

  /** What the encoder holds between two requests always fits one frame. */
  predicate Holdable(k: Encoding, lib: Library, pending: seq<bytes>) {
    k.Legacy? || pending == [] || FitsFrame(k, lib, 0, |Join(pending)|)
  }

  /** The inner loop for one post-handshake request: add it to the frame, or flush the
      frame and try again, or send it in fragments. */
  method WriteEnvelope(encoder: FrameEncoder, data: bytes, ghost pending: seq<bytes>)
    returns (wire: bytes, ghost pending': seq<bytes>, ghost units: seq<Unit>)
    requires encoder.Valid() && Lawful(encoder.lib) && |data| > 0
    requires encoder.Payload() == Join(pending) && Holdable(encoder.kind, encoder.lib, pending)
    modifies encoder
    ensures encoder.Valid() && encoder.Payload() == Join(pending') && Holdable(encoder.kind, encoder.lib, pending')
    ensures wire == WireBytes(encoder.kind, encoder.lib, units)
    ensures forall q: Request, batch: seq<Request> :: q.data == data && !q.handshake ==>
              Pack(encoder.kind, encoder.lib, pending, [q] + batch)
              == units + Pack(encoder.kind, encoder.lib, pending', batch)
  {
    hide Lawful, Sealed, Fragments, Pack;
    var k, lib := encoder.kind, encoder.lib;
    wire, units, pending' := [], [], pending;
    ghost var flushed := false;
    while true
      invariant encoder.Valid() && encoder.Payload() == Join(pending') && Holdable(k, lib, pending')
      invariant units == (if flushed then [Packed(pending)] else [])
      invariant wire == WireBytes(k, lib, units)
      invariant pending' == if flushed then [] else pending
      invariant flushed ==> Join(pending) != [] && !FitsFrame(k, lib, |Join(pending)|, |data|)
      decreases !flushed
    {
      if encoder.CanFit(|data|) {
        encoder.AddEnvelope(data);
        JoinAppend(pending', data);
        ghost var held := pending';
        pending' := pending' + [data];
        PackFits(k, lib, pending, held, units, data, flushed);
        return;
      }
      if encoder.HasEnvelopes() {
        assert !flushed;
        var frame := WriteSelfContained(encoder);
        flushed, units, pending' := true, [Packed(pending)], [];
        assert WireBytes(k, lib, []) == [];
        WireCons(k, lib, Packed(pending), []);
        assert frame + [] == frame && [Packed(pending)] + [] == [Packed(pending)];
        wire := frame;
      } else {
        var frames := WriteFragments(encoder, data);
        WireAppend(k, lib, units, [Split(data)]);
        WireCons(k, lib, Split(data), []);
        assert frames + [] == frames && [Split(data)] + [] == [Split(data)];
        wire := wire + frames;
        PackSplits(k, lib, pending, units, data, flushed);
        units, pending' := units + [Split(data)], [];
        return;
      }
    }
  }

  lemma PackFits(k: Encoding, lib: Library, pending: seq<bytes>, held: seq<bytes>, units: seq<Unit>, data: bytes, flushed: bool)
    requires units == (if flushed then [Packed(pending)] else []) && held == if flushed then [] else pending
    requires FitsFrame(k, lib, |Join(held)|, |data|)
    requires flushed ==> Join(pending) != [] && !FitsFrame(k, lib, |Join(pending)|, |data|)
    ensures forall q: Request, batch: seq<Request> :: q.data == data && !q.handshake ==>
      Pack(k, lib, pending, [q] + batch) == units + Pack(k, lib, held + [data], batch)
  {
    forall q: Request, batch: seq<Request> | q.data == data && !q.handshake
      ensures Pack(k, lib, pending, [q] + batch) == units + Pack(k, lib, held + [data], batch)
    {
      assert ([q] + batch)[0] == q && ([q] + batch)[1..] == batch;
      assert Pack(k, lib, held, [q] + batch) == Pack(k, lib, held + [data], batch);
      if !flushed {
        assert units + Pack(k, lib, held + [data], batch) == Pack(k, lib, held + [data], batch);
      }
    }
  }

  lemma PackSplits(k: Encoding, lib: Library, pending: seq<bytes>, units: seq<Unit>, data: bytes, flushed: bool)
    requires units == if flushed then [Packed(pending)] else []
    requires !FitsFrame(k, lib, 0, |data|)
    requires if flushed then Join(pending) != [] && !FitsFrame(k, lib, |Join(pending)|, |data|) else Join(pending) == []
    ensures forall q: Request, batch: seq<Request> :: q.data == data && !q.handshake ==>
      Pack(k, lib, pending, [q] + batch) == units + [Split(data)] + Pack(k, lib, [], batch)
  {
    forall q: Request, batch: seq<Request> | q.data == data && !q.handshake
      ensures Pack(k, lib, pending, [q] + batch) == units + [Split(data)] + Pack(k, lib, [], batch)
    {
      assert ([q] + batch)[0] == q && ([q] + batch)[1..] == batch;
      if flushed {
        assert Pack(k, lib, [], [q] + batch) == [Split(data)] + Pack(k, lib, [], batch);
        assert [Packed(pending)] + ([Split(data)] + Pack(k, lib, [], batch))
            == units + [Split(data)] + Pack(k, lib, [], batch);
      } else {
        assert units + [Split(data)] == [Split(data)];
      }
    }
  }

  /** Registers one request under a fresh stream id and writes it; handshake messages are
      not framed. */
  method WriteRequest(encoder: FrameEncoder, map_: ResponseHandlerMap<nat>, q: Request, ghost pending: seq<bytes>)
    returns (wire: bytes, ghost pending': seq<bytes>, ghost units: seq<Unit>)
    requires encoder.Valid() && Lawful(encoder.lib) && |q.data| >= 4
    requires encoder.Payload() == Join(pending) && Holdable(encoder.kind, encoder.lib, pending)
    modifies encoder, map_
    ensures encoder.Valid() && encoder.Payload() == Join(pending') && Holdable(encoder.kind, encoder.lib, pending')
    ensures wire == WireBytes(encoder.kind, encoder.lib, units)
    ensures var sent := q.(data := SetStreamId(q.data, Allocated(old(map_.available))));
      forall batch: seq<Request> ::
        Pack(encoder.kind, encoder.lib, pending, [sent] + batch)
        == units + Pack(encoder.kind, encoder.lib, pending', batch)
    ensures map_.available == Advanced(old(map_.available))
    ensures map_.handlers == old(map_.handlers)[Allocated(old(map_.available)) := q.handler]
  {
    hide Lawful, SetStreamId;
    var k, lib := encoder.kind, encoder.lib;
    var id := map_.NextStreamId();
    map_.AddHandler(id, q.handler);
    var data := SetStreamId(q.data, id);
    if q.handshake {
      wire, pending', units := data, pending, [Raw(data)];
      WireCons(k, lib, Raw(data), []);
      assert data + [] == data && [Raw(data)] + [] == [Raw(data)];
      PackRaw(k, lib, pending, q.(data := data));
    } else {
      hide Pack, WireBytes;
      wire, pending', units := WriteEnvelope(encoder, data, pending);
    }
  }

  lemma PackRaw(k: Encoding, lib: Library, pending: seq<bytes>, q: Request)
    requires q.handshake
    ensures forall batch: seq<Request> ::
      Pack(k, lib, pending, [q] + batch) == [Raw(q.data)] + Pack(k, lib, pending, batch)
  {
    forall batch: seq<Request>
      ensures Pack(k, lib, pending, [q] + batch) == [Raw(q.data)] + Pack(k, lib, pending, batch)
    {
      assert ([q] + batch)[0] == q && ([q] + batch)[1..] == batch;
    }
  }

  /** Sends the frame being collected, if there is one. */
  method Flush(encoder: FrameEncoder, ghost pending: seq<bytes>) returns (wire: bytes)
    requires encoder.Valid() && Lawful(encoder.lib)
    requires encoder.Payload() == Join(pending) && Holdable(encoder.kind, encoder.lib, pending)
    modifies encoder
    ensures encoder.Valid() && encoder.Payload() == []
    ensures wire == WireBytes(encoder.kind, encoder.lib, Pack(encoder.kind, encoder.lib, pending, []))
  {
    hide Lawful, Sealed;
    if encoder.HasEnvelopes() {
      WireCons(encoder.kind, encoder.lib, Packed(pending), []);
      assert [Packed(pending)] + [] == [Packed(pending)];
      FullFrame(encoder.kind, encoder.lib, pending);
      wire := WriteSelfContained(encoder);
      assert wire + [] == wire;
    } else {
      wire := [];
    }
  }

  /** One batch: every request is given an id and registered, then written; when the queue
      is empty the frame being collected is sent. */
  method WriteBatch(encoder: FrameEncoder, map_: ResponseHandlerMap<nat>, batch: seq<Request>)
    returns (wire: bytes)
    requires encoder.Valid() && encoder.Payload() == [] && Lawful(encoder.lib)
    requires forall q :: q in batch ==> |q.data| >= 4
    modifies encoder, map_
    ensures encoder.Valid() && encoder.Payload() == []
    ensures wire == WireBytes(encoder.kind, encoder.lib,
                              Pack(encoder.kind, encoder.lib, [], Stamped(batch, old(map_.available))))
    ensures map_.available == CounterAfter(|batch|, old(map_.available))
    ensures map_.handlers == Registered(old(map_.handlers), batch, old(map_.available))
  {
    hide Lawful, Pack, WireBytes, FitsFrame, SetStreamId, Join;
    var k, lib := encoder.kind, encoder.lib;
    wire := [];
    ghost var pending: seq<bytes> := [];
    JoinNothing();
    ghost var all := Pack(k, lib, [], Stamped(batch, map_.available));
    assert batch[0..] == batch;
    for i := 0 to |batch|
      invariant encoder.Valid() && encoder.Payload() == Join(pending) && Holdable(k, lib, pending)
      invariant wire + WireBytes(k, lib, Pack(k, lib, pending, Stamped(batch[i..], map_.available)))
                == WireBytes(k, lib, all)
      invariant CounterAfter(|batch| - i, map_.available) == CounterAfter(|batch|, old(map_.available))
      invariant Registered(map_.handlers, batch[i..], map_.available)
                == Registered(old(map_.handlers), batch, old(map_.available))
    {
      ghost var rest, before := batch[i..], pending;
      assert rest[0] == batch[i] && rest[1..] == batch[i + 1..];
      ghost var tail := Stamped(batch[i + 1..], Advanced(map_.available));
      ghost var units: seq<Unit>;
      var written;
      written, pending, units := WriteRequest(encoder, map_, batch[i], pending);
      WireAppend(k, lib, units, Pack(k, lib, pending, tail));
      Assoc(wire, written, WireBytes(k, lib, Pack(k, lib, pending, tail)));
      wire := wire + written;
    }
    assert Stamped(batch[|batch|..], map_.available) == [];
    var last := Flush(encoder, pending);
    wire := wire + last;
  }

  /** All batches as sent, one after the other. */
  function StampedAll(batches: seq<seq<Request>>, counter: StreamId): (r: seq<seq<Request>>)
    requires forall b, q :: b in batches && q in b ==> |q.data| >= 4
    ensures |r| == |batches|
    decreases |batches|
  {
    if batches == [] then []
    else
      assert batches[0] in batches;
      [Stamped(batches[0], counter)] + StampedAll(batches[1..], CounterAfter(|batches[0]|, counter))
  }

  /** `start_writing`: batches are the runs of requests between two moments at which the
      queue is found empty. */
  method StartWriting(encoder: FrameEncoder, map_: ResponseHandlerMap<nat>, batches: seq<seq<Request>>)
    returns (wire: bytes)
    requires encoder.Valid() && encoder.Payload() == [] && Lawful(encoder.lib)
    requires forall b, q :: b in batches && q in b ==> |q.data| >= 4
    modifies encoder, map_
    ensures encoder.Valid() && encoder.Payload() == []
    ensures wire == WireBytes(encoder.kind, encoder.lib,
                              PackAll(encoder.kind, encoder.lib, StampedAll(batches, old(map_.available))))
    ensures map_.available == CounterAfter(|Flatten(batches)|, old(map_.available))
    ensures map_.handlers == Registered(old(map_.handlers), Flatten(batches), old(map_.available))
  {
    hide Lawful, Pack, WireBytes, Stamped, Registered, CounterAfter;
    var k, lib := encoder.kind, encoder.lib;
    wire := [];
    ghost var all := PackAll(k, lib, StampedAll(batches, map_.available));
    assert batches[0..] == batches;
    for i := 0 to |batches|
      invariant encoder.Valid() && encoder.Payload() == []
      invariant wire + WireBytes(k, lib, PackAll(k, lib, StampedAll(batches[i..], map_.available)))
                == WireBytes(k, lib, all)
      invariant CounterAfter(|Flatten(batches[i..])|, map_.available)
                == CounterAfter(|Flatten(batches)|, old(map_.available))
      invariant Registered(map_.handlers, Flatten(batches[i..]), map_.available)
                == Registered(old(map_.handlers), Flatten(batches), old(map_.available))
    {
      ghost var later := Flatten(batches[i + 1..]);
      CounterAfterSum(|batches[i]|, |later|, map_.available);
      RegisteredConcat(map_.handlers, batches[i], later, map_.available);
      ghost var rest, counter := batches[i..], map_.available;
      assert rest[0] == batches[i] && rest[1..] == batches[i + 1..];
      ghost var head := Stamped(batches[i], counter);
      ghost var tail := StampedAll(batches[i + 1..], CounterAfter(|batches[i]|, counter));
      assert ([head] + tail)[1..] == tail;
      var written := WriteBatch(encoder, map_, batches[i]);
      WireAppend(k, lib, Pack(k, lib, [], head), PackAll(k, lib, tail));
      Assoc(wire, written, WireBytes(k, lib, PackAll(k, lib, tail)));
      wire := wire + written;
    }
    WireNothing(k, lib);
    NothingRegistered(map_.handlers, map_.available);
    assert wire + [] == wire;
  }

  lemma NothingRegistered(handlers: map<StreamId, nat>, counter: StreamId)
    ensures Registered(handlers, [], counter) == handlers && CounterAfter(0, counter) == counter
  {
  }

  lemma WireNothing(k: Encoding, lib: Library)
    ensures WireBytes(k, lib, []) == []
  {
  }

  lemma FullFrame(k: Encoding, lib: Library, pending: seq<bytes>)
    requires Holdable(k, lib, pending) && Join(pending) != []
    ensures FitsFrame(k, lib, 0, |Join(pending)|)
  {
  }
}
