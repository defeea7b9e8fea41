/** Stream multiplexing on one connection: allocation of 16-bit stream ids, the table of
    pending handlers, and delivery over whole runs of the connection. */
module StreamIds {
  import opened Options

  const INITIAL_STREAM_ID: StreamId := 1
  const STREAM_IDS: int := 0x8000

  /** i16. */
  type StreamId = v: int | -0x8000 <= v < 0x8000

  /** i16 increment wraps from 32767 to -32768. */
  function Next(v: StreamId): StreamId { if v == 0x7fff then -0x8000 else v + 1 }

  /** The id handed out when the counter stands at `counter`. */
  function Allocated(counter: StreamId): StreamId { if counter < 0 then 0 else counter }

  /** The counter after that allocation. */
  function Advanced(counter: StreamId): StreamId { Next(Allocated(counter)) }

  class ResponseHandlerMap<Handler> {
    var handlers: map<StreamId, Handler>
    var available: StreamId

    constructor ()
      ensures handlers == map[] && available == INITIAL_STREAM_ID
    {
      handlers := map[];
      available := INITIAL_STREAM_ID;
    }

    method AddHandler(id: StreamId, handler: Handler)
      modifies this`handlers
      ensures handlers == old(handlers)[id := handler]
    {
      handlers := handlers[id := handler];
    }

    /** Hands the response to the handler registered for the id and forgets it; `None`
        stands for the "unmatched stream id" error. */
    method SendResponse(id: StreamId) returns (handler: Option<Handler>)
      modifies this`handlers
      ensures if id in old(handlers) then handler == Some(old(handlers)[id]) else handler == None
      ensures handlers == old(handlers) - {id}
    {
      handler := if id in handlers then Some(handlers[id]) else None;
      handlers := handlers - {id};
    }

    /** Empties the table, visiting every handler exactly once in some order. */
    method SignalGeneralError() returns (notified: seq<StreamId>)
      modifies this`handlers
      ensures handlers == map[]
      ensures Visits(notified, old(handlers).Keys)
    {
      notified := [];
      var left := handlers.Keys;
      while left != {}
        invariant left <= handlers.Keys && Visits(notified, handlers.Keys - left)
        decreases left
      {
        var id :| id in left;
        notified, left := notified + [id], left - {id};
      }
      handlers := map[];
    }

    method FetchAdd() returns (before: StreamId)
      modifies this`available
      ensures before == old(available) && available == Next(before)
    {
      before := available;
      available := Next(available);
    }

    method CompareExchange(expected: StreamId, new_: StreamId) returns (ok: bool)
      modifies this`available
      ensures ok == (old(available) == expected)
      ensures available == if ok then new_ else old(available)
    {
      ok := available == expected;
      if ok { available := new_; }
    }

    /** The exchange compares with the value before the increment, so for a single writer
        it never succeeds: the loop climbs from -32768 to 0, and ids restart at 0. */
    method NextStreamId() returns (id: StreamId)
      modifies this`available
      ensures 0 <= id < STREAM_IDS
      ensures id == Allocated(old(available)) && available == Advanced(old(available))
    {
      while true
        invariant Allocated(available) == Allocated(old(available))
        decreases if available < 0 then 0 - available as int else 0
      {
        var stream := FetchAdd();
        if stream < 0 {
          var ok := CompareExchange(stream, INITIAL_STREAM_ID);
          if ok { return INITIAL_STREAM_ID; }
          continue;
        }
        return stream;
      }
    }
  }

  /** `order` lists each member of `ids` exactly once. */
  ghost predicate Visits(order: seq<StreamId>, ids: set<StreamId>) {
    && (forall id :: id in order <==> id in ids)
    && (forall i, j :: 0 <= i < j < |order| ==> order[i] != order[j])
  }

  //
  // The sequence of ids
  //

  /** Counter before the k-th allocation of a connection. */
  function Counter(k: nat): StreamId {
    if k == 0 then INITIAL_STREAM_ID else Advanced(Counter(k - 1))
  }

  function IdOf(k: nat): StreamId { Allocated(Counter(k)) }

  /** Ids run through 1, 2, ..., 32767, 0, 1, ... */
  lemma {:induction false} IdsAreCyclic(k: nat)
    ensures IdOf(k) == (k + 1) % STREAM_IDS
  {
    if k > 0 {
      IdsAreCyclic(k - 1);
    }
  }

  /** Two allocations share an id exactly when they are a multiple of 32768 apart; so any
      32768 consecutive ids are distinct. */
  lemma SameIdIff(j: nat, k: nat)
    ensures IdOf(j) == IdOf(k) <==> (k - j) % STREAM_IDS == 0
  {
    IdsAreCyclic(j);
    IdsAreCyclic(k);
    assert (k + 1) - (j + 1) == k - j;
  }

  //
  // Runs
  //

  /** Requests are numbered in the order they are sent. `lost` lists requests whose handler
      was replaced while pending. */
  datatype Connection = Connection(
    sent: nat,
    available: StreamId,
    handlers: map<StreamId, nat>,
    completed: seq<nat>,
    answered: seq<(StreamId, nat)>,
    lost: seq<nat>)

  datatype Event = Send | Respond(id: StreamId) | GeneralError(order: seq<StreamId>)

  const START: Connection := Connection(0, INITIAL_STREAM_ID, map[], [], [], [])

  ghost predicate Enabled(c: Connection, e: Event) {
    e.GeneralError? ==> Visits(e.order, c.handlers.Keys)
  }

  function HandlersOf(handlers: map<StreamId, nat>, order: seq<StreamId>): (r: seq<nat>)
    requires forall id :: id in order ==> id in handlers
    ensures |r| == |order|
  {
    seq(|order|, i requires 0 <= i < |order| => handlers[order[i]])
  }

  /** One step, as the methods of `ResponseHandlerMap` perform it. */
  ghost function Step(c: Connection, e: Event): Connection
    requires Enabled(c, e)
  {
    match e
    case Send =>
      var id := Allocated(c.available);
      c.(sent := c.sent + 1,
         available := Advanced(c.available),
         handlers := c.handlers[id := c.sent],
         lost := if id in c.handlers then c.lost + [c.handlers[id]] else c.lost)
    case Respond(id) =>
      if id in c.handlers then
        c.(handlers := c.handlers - {id},
           completed := c.completed + [c.handlers[id]],
           answered := c.answered + [(id, c.handlers[id])])
      else c
    case GeneralError(order) =>
      c.(handlers := map[], completed := c.completed + HandlersOf(c.handlers, order))
  }

  ghost predicate Represents<H>(table: ResponseHandlerMap<H>, c: Connection, number: H -> nat)
    reads table
  {
    table.available == c.available && table.handlers.Keys == c.handlers.Keys
    && forall id :: id in table.handlers ==> number(table.handlers[id]) == c.handlers[id]
  }

  /** The writer's part for one request: an id is allocated and the handler registered under
      it. The steps of a run are what the table does, here and in the two methods below. */
  method SendNext<H>(table: ResponseHandlerMap<H>, handler: H, ghost c: Connection, ghost number: H -> nat)
    returns (id: StreamId)
    requires Represents(table, c, number) && number(handler) == c.sent
    modifies table
    ensures Represents(table, Step(c, Send), number) && id == Allocated(c.available)
  {
    id := table.NextStreamId();
    table.AddHandler(id, handler);
  }

  /** The reader's part for one response: the handler it reaches is the one newly completed. */
  method DeliverResponse<H>(table: ResponseHandlerMap<H>, id: StreamId, ghost c: Connection, ghost number: H -> nat)
    returns (handler: Option<H>)
    requires Represents(table, c, number)
    modifies table
    ensures Represents(table, Step(c, Respond(id)), number)
    ensures Step(c, Respond(id)).completed == c.completed + if handler.Some? then [number(handler.value)] else []
  {
    handler := table.SendResponse(id);
    assert c.completed + [] == c.completed;
  }

  /** A general error: the order in which handlers were notified is one the step allows. */
  method FailAll<H>(table: ResponseHandlerMap<H>, ghost c: Connection, ghost number: H -> nat)
    returns (notified: seq<StreamId>)
    requires Represents(table, c, number)
    modifies table
    ensures Enabled(c, GeneralError(notified)) && Represents(table, Step(c, GeneralError(notified)), number)
  {
    notified := table.SignalGeneralError();
  }

  /** `states` is the history of a connection under `events`. */
  ghost predicate IsRun(states: seq<Connection>, events: seq<Event>) {
    && |states| == |events| + 1 && states[0] == START
    && forall i :: 0 <= i < |events| ==>
         Enabled(states[i], events[i]) && states[i + 1] == Step(states[i], events[i])
  }

  ghost predicate NoRepeats(s: seq<nat>) { forall i, j :: 0 <= i < j < |s| ==> s[i] != s[j] }

  predicate Pending(c: Connection, r: nat) { r in c.handlers.Values }

  /** Holds in every run, whatever the timing: handlers sit under their own ids, responses
      went to the request that was given the id, and no request completed twice or after it
      was lost. */
  ghost predicate Sound(c: Connection) {
    && c.available == Counter(c.sent)
    && (forall id :: id in c.handlers ==> c.handlers[id] < c.sent && id == IdOf(c.handlers[id]))
    && (forall r :: r in c.completed ==> r < c.sent && !Pending(c, r))
    && (forall r :: r in c.lost ==> r < c.sent && !Pending(c, r) && r !in c.completed)
    && (forall a :: a in c.answered ==> a.0 == IdOf(a.1) && a.1 in c.completed)
    && NoRepeats(c.completed)
  }

  /** Every request is pending, completed or lost. */
  ghost predicate Accounted(c: Connection) {
    forall r: nat :: r < c.sent ==> Pending(c, r) || r in c.completed || r in c.lost
  }

  lemma SendKeeps(c: Connection)
    requires Sound(c) && Accounted(c)
    ensures Sound(Step(c, Send)) && Accounted(Step(c, Send))
  {
    var c' := Step(c, Send);
    var id := Allocated(c.available);
    assert id == IdOf(c.sent);
    forall r | Pending(c', r)
      ensures r == c.sent || (Pending(c, r) && (id in c.handlers ==> r != c.handlers[id]))
    {
      var k :| k in c'.handlers && c'.handlers[k] == r;
      if k != id {
        assert c.handlers[k] == r;
      }
    }
    forall r: nat | r < c'.sent
      ensures Pending(c', r) || r in c'.completed || r in c'.lost
    {
      if r == c.sent {
        assert c'.handlers[id] == r;
      } else if Pending(c, r) {
        var k :| k in c.handlers && c.handlers[k] == r;
        if k != id {
          assert c'.handlers[k] == r;
        }
      }
    }
    if id in c.handlers {
      assert Pending(c, c.handlers[id]);
    }
  }

  lemma RespondKeeps(c: Connection, id: StreamId)
    requires Sound(c) && Accounted(c) && id in c.handlers
    ensures Sound(Step(c, Respond(id))) && Accounted(Step(c, Respond(id)))
  {
    var c' := Step(c, Respond(id));
    var done := c.handlers[id];
    assert Pending(c, done);
    forall r | Pending(c', r)
      ensures r != done && Pending(c, r)
    {
      var k :| k in c'.handlers && c'.handlers[k] == r;
      assert c.handlers[k] == r && k == IdOf(r);
    }
    forall r: nat | r < c'.sent && !(r in c'.completed || r in c'.lost)
      ensures Pending(c', r)
    {
      var k :| k in c.handlers && c.handlers[k] == r;
      assert k != id;
      assert c'.handlers[k] == r;
    }
  }

  lemma GeneralErrorKeeps(c: Connection, order: seq<StreamId>)
    requires Sound(c) && Accounted(c) && Visits(order, c.handlers.Keys)
    ensures Sound(Step(c, GeneralError(order))) && Accounted(Step(c, GeneralError(order)))
    ensures forall r :: !Pending(Step(c, GeneralError(order)), r)
  {
    var c' := Step(c, GeneralError(order));
    var drained := HandlersOf(c.handlers, order);
    forall i | 0 <= i < |drained|
      ensures Pending(c, drained[i]) && drained[i] < c.sent && IdOf(drained[i]) == order[i]
    {
      assert order[i] in order;
    }
    forall r: nat | Pending(c, r)
      ensures r in c'.completed
    {
      var k :| k in c.handlers && c.handlers[k] == r;
      var i :| 0 <= i < |order| && order[i] == k;
      assert drained[i] == r;
    }
  }

  /** Delivery over whole runs: in every state of every run ids and handlers match, each
      response reached the request that was given its id, no request completes twice, and
      no request disappears unless its handler was overwritten; after a general error
      nothing is pending. */
  lemma {:induction false} EveryRunIsSound(states: seq<Connection>, events: seq<Event>, n: nat)
    requires IsRun(states, events) && n <= |events|
    ensures Sound(states[n]) && Accounted(states[n])
    ensures n > 0 && events[n - 1].GeneralError? ==> forall r :: !Pending(states[n], r)
  {
    if n > 0 {
      EveryRunIsSound(states, events, n - 1);
      var b, e := states[n - 1], events[n - 1];
      assert Enabled(b, e) && states[n] == Step(b, e);
      match e
      case Send => SendKeeps(b);
      case Respond(id) => if id in b.handlers { RespondKeeps(b, id); }
      case GeneralError(order) => GeneralErrorKeeps(b, order);
    }
  }

  /** Sending replaces a live handler exactly when a request sent some multiple of 32768
      earlier is still pending. */
  lemma OverwriteIff(c: Connection)
    requires Sound(c)
    ensures Step(c, Send).lost != c.lost <==> exists r: nat :: Pending(c, r) && (c.sent - r) % STREAM_IDS == 0
  {
    var id := Allocated(c.available);
    assert id == IdOf(c.sent);
    if id in c.handlers {
      var r := c.handlers[id];
      SameIdIff(r, c.sent);
      assert Pending(c, r) && (c.sent - r) % STREAM_IDS == 0;
    }
    if r: nat :| Pending(c, r) && (c.sent - r) % STREAM_IDS == 0 {
      var k :| k in c.handlers && c.handlers[k] == r;
      SameIdIff(r, c.sent);
    }
  }

  /** No request is outstanding across 32768 later ones at any send. */
  ghost predicate Prompt(c: Connection) {
    forall r :: Pending(c, r) ==> c.sent - r < STREAM_IDS
  }

  /** While every request is answered within 32768 later ones, none is lost: each one is
      pending or has completed exactly once. */
  lemma {:induction false} PromptRunsLoseNothing(states: seq<Connection>, events: seq<Event>, n: nat)
    requires IsRun(states, events) && n <= |events|
    requires forall i :: 0 <= i < n && events[i].Send? ==> Prompt(states[i])
    ensures states[n].lost == []
    ensures forall r: nat :: r < states[n].sent ==> (Pending(states[n], r) <==> r !in states[n].completed)
  {
    EveryRunIsSound(states, events, n);
    if n > 0 {
      PromptRunsLoseNothing(states, events, n - 1);
      var b, e := states[n - 1], events[n - 1];
      assert Enabled(b, e) && states[n] == Step(b, e);
      if e.Send? {
        EveryRunIsSound(states, events, n - 1);
        PromptSendKeepsAll(b);
      }
    }
  }

  lemma PromptSendKeepsAll(b: Connection)
    requires Sound(b) && Prompt(b)
    ensures Step(b, Send).lost == b.lost
  {
    OverwriteIff(b);
    forall r: nat | Pending(b, r)
      ensures (b.sent - r) % STREAM_IDS != 0
    {
      assert r < b.sent;
    }
  }
}
