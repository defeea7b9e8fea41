/** Per-node connection pools: picking a live connection, repairing the pool, and the
    protocol that keeps at most one reconnection loop running. */
module ConnectionPool {
  import opened Options

  datatype Connection = Connection(id: nat, broken: bool)

  datatype Error = InvalidProtocol | OtherFailure

  /** Outcome of one attempt to connect. */
  datatype Attempt = Connected(id: nat) | Refused(error: Error)

  //
  // Repair
  //

  datatype Repair = Repair(pool: seq<Connection>, attempts: nat, failure: Option<Error>)

  /** Slots from `i` on: each broken one is replaced, until an attempt fails. */
  function Replaced(pool: seq<Connection>, i: nat, env: nat -> Attempt, k: nat): (r: Repair)
    requires i <= |pool|
    decreases |pool| - i
  {
    if i == |pool| then Repair(pool, k, None)
    else if !pool[i].broken then Replaced(pool, i + 1, env, k)
    else
      match env(k)
      case Connected(id) => Replaced(pool[i := Connection(id, false)], i + 1, env, k + 1)
      case Refused(error) => Repair(pool, k + 1, Some(error))
  }

  /** New connections up to the desired size, until an attempt fails. */
  function Filled(pool: seq<Connection>, desired: nat, env: nat -> Attempt, k: nat): (r: Repair)
    decreases desired - |pool|
  {
    if desired <= |pool| then Repair(pool, k, None)
    else
      match env(k)
      case Connected(id) => Filled(pool + [Connection(id, false)], desired, env, k + 1)
      case Refused(error) => Repair(pool, k + 1, Some(error))
  }

  /** `reconnect_broken` while the connection manager is alive. */
  function Repaired(pool: seq<Connection>, desired: nat, env: nat -> Attempt): Repair {
    var first := Replaced(pool, 0, env, 0);
    if first.failure.Some? then first else Filled(first.pool, desired, env, first.attempts)
  }

  lemma {:induction false} ReplacedKeeps(pool: seq<Connection>, i: nat, env: nat -> Attempt, k: nat)
    requires i <= |pool| && forall j :: 0 <= j < i ==> !pool[j].broken
    ensures var r := Replaced(pool, i, env, k);
      && |r.pool| == |pool|
      && (forall j :: 0 <= j < |pool| && !pool[j].broken ==> r.pool[j] == pool[j])
      && (forall j :: 0 <= j < |pool| && r.pool[j] != pool[j] ==> pool[j].broken && !r.pool[j].broken)
      && (r.failure.None? ==> forall j :: 0 <= j < |pool| ==> !r.pool[j].broken)
    decreases |pool| - i
  {
    if i < |pool| {
      if !pool[i].broken {
        ReplacedKeeps(pool, i + 1, env, k);
      } else if env(k).Connected? {
        ReplacedKeeps(pool[i := Connection(env(k).id, false)], i + 1, env, k + 1);
      }
    }
  }

  lemma {:induction false} FilledKeeps(pool: seq<Connection>, desired: nat, env: nat -> Attempt, k: nat)
    ensures var r := Filled(pool, desired, env, k);
      && pool <= r.pool && (|pool| <= desired ==> |r.pool| <= desired)
      && (forall j :: |pool| <= j < |r.pool| ==> !r.pool[j].broken)
      && (r.failure.None? ==> desired <= |r.pool|)
    decreases desired - |pool|
  {
    if |pool| < desired && env(k).Connected? {
      var more := pool + [Connection(env(k).id, false)];
      FilledKeeps(more, desired, env, k + 1);
      assert pool <= more;
    }
  }

  /** A repair never drops or replaces a live connection and never overfills the pool; when
      it reports success, every slot found broken was replaced and the pool is full. */
  lemma RepairContract(pool: seq<Connection>, desired: nat, env: nat -> Attempt)
    requires |pool| <= desired
    ensures var r := Repaired(pool, desired, env);
      && |pool| <= |r.pool| <= desired
      && (forall j :: 0 <= j < |pool| && !pool[j].broken ==> r.pool[j] == pool[j])
      && (forall j :: 0 <= j < |pool| && r.pool[j] != pool[j] ==> pool[j].broken && !r.pool[j].broken)
      && (r.failure.None? ==> |r.pool| == desired && forall j :: 0 <= j < desired ==> !r.pool[j].broken)
  {
    ReplacedKeeps(pool, 0, env, 0);
    var first := Replaced(pool, 0, env, 0);
    if first.failure.None? {
      FilledKeeps(first.pool, desired, env, first.attempts);
    }
  }

  /** How many of `n` attempts in a row, the first of them number `k`, succeed before one is
      refused. */
  function Granted(env: nat -> Attempt, k: nat, n: nat): (m: nat)
    ensures m <= n
    decreases n
  {
    if n == 0 || env(k).Refused? then 0 else 1 + Granted(env, k + 1, n - 1)
  }

  function BrokenIn(pool: seq<Connection>, i: nat, j: nat): nat
    requires i <= j <= |pool|
    decreases j - i
  {
    if i == j then 0 else (if pool[i].broken then 1 else 0) + BrokenIn(pool, i + 1, j)
  }

  lemma {:induction false} BrokenFrame(a: seq<Connection>, b: seq<Connection>, i: nat, j: nat)
    requires |a| == |b| && i <= j <= |a| && forall m :: i <= m < j ==> a[m] == b[m]
    ensures BrokenIn(a, i, j) == BrokenIn(b, i, j)
    decreases j - i
  {
    if i < j {
      BrokenFrame(a, b, i + 1, j);
    }
  }

  /** What a slot holds after `made` successful attempts, the first of them number `k`, were
      given to the broken slots from `i` on in order. */
  function SlotAfter(pool: seq<Connection>, i: nat, j: nat, env: nat -> Attempt, k: nat, made: nat): Connection
    requires i <= j < |pool|
  {
    var rank := BrokenIn(pool, i, j);
    if pool[j].broken && rank < made && env(k + rank).Connected? then Connection(env(k + rank).id, false) else pool[j]
  }

  ghost predicate SlotsAfter(
    after: seq<Connection>, pool: seq<Connection>, i: nat, env: nat -> Attempt, k: nat, made: nat)
  {
    && |after| == |pool| && i <= |pool| && (forall j :: 0 <= j < i ==> after[j] == pool[j])
    && forall j :: i <= j < |pool| ==> after[j] == SlotAfter(pool, i, j, env, k, made)
  }

  function Verdict(env: nat -> Attempt, k: nat, made: nat, need: nat): Option<Error> {
    if made < need && env(k + made).Refused? then Some(env(k + made).error) else None
  }

  lemma {:induction false} GrantedStops(env: nat -> Attempt, k: nat, n: nat)
    ensures var m := Granted(env, k, n);
      (m < n ==> env(k + m).Refused?) && forall i :: k <= i < k + m ==> env(i).Connected?
    decreases n
  {
    if n > 0 && env(k).Connected? {
      GrantedStops(env, k + 1, n - 1);
      assert k + 1 + Granted(env, k + 1, n - 1) == k + Granted(env, k, n);
    }
  }

  lemma {:induction false} ReplacedExactly(pool: seq<Connection>, i: nat, env: nat -> Attempt, k: nat)
    requires i <= |pool|
    ensures var r, need := Replaced(pool, i, env, k), BrokenIn(pool, i, |pool|);
      var made := Granted(env, k, need);
      && r.failure == Verdict(env, k, made, need) && (r.failure.None? ==> r.attempts == k + need)
      && (r.failure.None? <==> made == need)
      && SlotsAfter(r.pool, pool, i, env, k, made)
    decreases |pool| - i
  {
    hide SlotsAfter;
    var need := BrokenIn(pool, i, |pool|);
    GrantedStops(env, k, need);
    if i == |pool| {
      NoSlots(pool, env, k);
    } else if !pool[i].broken {
      ReplacedExactly(pool, i + 1, env, k);
      LiveSlot(Replaced(pool, i + 1, env, k).pool, pool, i, env, k, Granted(env, k, need));
    } else if env(k).Connected? {
      var pool' := pool[i := Connection(env(k).id, false)];
      BrokenFrame(pool, pool', i + 1, |pool|);
      ReplacedExactly(pool', i + 1, env, k + 1);
      var made := Granted(env, k + 1, need - 1);
      assert k + 1 + made == k + (made + 1);
      BrokenSlot(Replaced(pool', i + 1, env, k + 1).pool, pool, i, env, k, made);
    } else {
      SlotsUnchanged(pool, i, env, k);
    }
  }

  lemma NoSlots(pool: seq<Connection>, env: nat -> Attempt, k: nat)
    ensures SlotsAfter(pool, pool, |pool|, env, k, 0)
  {
  }

  lemma SlotsUnchanged(pool: seq<Connection>, i: nat, env: nat -> Attempt, k: nat)
    requires i <= |pool|
    ensures SlotsAfter(pool, pool, i, env, k, 0)
  {
  }

  lemma LiveSlot(after: seq<Connection>, pool: seq<Connection>, i: nat, env: nat -> Attempt, k: nat, made: nat)
    requires i < |pool| && !pool[i].broken && SlotsAfter(after, pool, i + 1, env, k, made)
    ensures SlotsAfter(after, pool, i, env, k, made)
  {
    forall j | i <= j < |pool|
      ensures after[j] == SlotAfter(pool, i, j, env, k, made)
    {
      if j > i {
        assert after[j] == SlotAfter(pool, i + 1, j, env, k, made);
        assert BrokenIn(pool, i, j) == BrokenIn(pool, i + 1, j);
      }
    }
  }

  lemma BrokenSlot(after: seq<Connection>, pool: seq<Connection>, i: nat, env: nat -> Attempt, k: nat, made: nat)
    requires i < |pool| && pool[i].broken && env(k).Connected?
    requires SlotsAfter(after, pool[i := Connection(env(k).id, false)], i + 1, env, k + 1, made)
    ensures SlotsAfter(after, pool, i, env, k, made + 1)
  {
    var pool' := pool[i := Connection(env(k).id, false)];
    forall j | i <= j < |pool|
      ensures after[j] == SlotAfter(pool, i, j, env, k, made + 1)
    {
      if j > i {
        assert after[j] == SlotAfter(pool', i + 1, j, env, k + 1, made);
        BrokenFrame(pool, pool', i + 1, j);
        var rank := BrokenIn(pool, i + 1, j);
        assert BrokenIn(pool, i, j) == rank + 1 && k + 1 + rank == k + (rank + 1);
      } else {
        assert after[i] == pool'[i];
      }
    }
  }

  function NewConnections(env: nat -> Attempt, k: nat, n: nat): (s: seq<Connection>)
    ensures |s| == n
    decreases n
  {
    if n == 0 then []
    else [Connection(if env(k).Connected? then env(k).id else 0, false)] + NewConnections(env, k + 1, n - 1)
  }

  lemma {:induction false} FilledExactly(pool: seq<Connection>, desired: nat, env: nat -> Attempt, k: nat)
    requires |pool| <= desired
    ensures var r, need := Filled(pool, desired, env, k), desired - |pool|;
      var made := Granted(env, k, need);
      && r.failure == Verdict(env, k, made, need) && (r.failure.None? <==> made == need)
      && r.pool == pool + NewConnections(env, k, made)
    decreases desired - |pool|
  {
    var need := desired - |pool|;
    GrantedStops(env, k, need);
    if need > 0 && env(k).Connected? {
      var new_ := Connection(env(k).id, false);
      FilledExactly(pool + [new_], desired, env, k + 1);
      var made := Granted(env, k + 1, need - 1);
      assert k + 1 + made == k + (made + 1);
      assert pool + [new_] + NewConnections(env, k + 1, made) == pool + ([new_] + NewConnections(env, k + 1, made));
    } else {
      assert pool + [] == pool;
    }
  }

  /** A repair in closed form: attempts go to the broken slots in order and then to the missing
      ones; the n-th successful one fills the n-th of them, and the first refusal ends the
      repair with its error. */
  lemma RepairExactly(pool: seq<Connection>, desired: nat, env: nat -> Attempt)
    requires |pool| <= desired
    ensures var r, broken := Repaired(pool, desired, env), BrokenIn(pool, 0, |pool|);
      var need := broken + (desired - |pool|);
      var made := Granted(env, 0, need);
      && r.failure == Verdict(env, 0, made, need) && (r.failure.None? <==> made == need)
      && |r.pool| == |pool| + (if made <= broken then 0 else made - broken)
      && SlotsAfter(r.pool[..|pool|], pool, 0, env, 0, if made <= broken then made else broken)
      && r.pool[|pool|..] == NewConnections(env, broken, |r.pool| - |pool|)
  {
    hide Replaced, Filled, SlotsAfter, Granted, NewConnections, BrokenIn;
    var broken := BrokenIn(pool, 0, |pool|);
    var missing := desired - |pool|;
    ReplacedExactly(pool, 0, env, 0);
    GrantedSum(env, 0, broken, missing);
    GrantedStops(env, 0, broken + missing);
    var first := Replaced(pool, 0, env, 0);
    SameSize(first.pool, pool, 0, env, 0, Granted(env, 0, broken));
    if first.failure.None? {
      FilledExactly(first.pool, desired, env, broken);
    } else {
      NoneNew(env, broken);
    }
  }

  lemma SameSize(after: seq<Connection>, pool: seq<Connection>, i: nat, env: nat -> Attempt, k: nat, made: nat)
    requires SlotsAfter(after, pool, i, env, k, made)
    ensures |after| == |pool| && after[..|pool|] == after
  {
  }

  lemma NoneNew(env: nat -> Attempt, k: nat)
    ensures NewConnections(env, k, 0) == []
  {
  }

  lemma {:induction false} GrantedSum(env: nat -> Attempt, k: nat, m: nat, n: nat)
    ensures Granted(env, k, m + n)
            == if Granted(env, k, m) < m then Granted(env, k, m) else m + Granted(env, k + m, n)
    decreases m
  {
    if m > 0 && env(k).Connected? {
      GrantedSum(env, k + 1, m - 1, n);
      assert k + 1 + (m - 1) == k + m;
    }
  }

  class Pool {
    const desiredSize: nat
    var pool: seq<Connection>
    var currentIndex: nat

    /** `ConnectionPool::new`: connections that could be established now; a protocol
        mismatch is passed on. */
    constructor (desiredSize: nat, connected: seq<nat>)
      requires |connected| <= desiredSize
      ensures this.desiredSize == desiredSize && |pool| == |connected| && currentIndex == 0
      ensures forall i :: 0 <= i < |connected| ==> pool[i] == Connection(connected[i], false)
    {
      this.desiredSize := desiredSize;
      this.pool := seq(|connected|, i requires 0 <= i < |connected| => Connection(connected[i], false));
      this.currentIndex := 0;
    }

    /** `reconnect_broken`: broken slots are replaced in place, then missing ones appended;
        the first failing attempt ends it. */
    method ReconnectBroken(env: nat -> Attempt) returns (failure: Option<Error>)
      modifies this`pool
      ensures pool == Repaired(old(pool), desiredSize, env).pool
      ensures failure == Repaired(old(pool), desiredSize, env).failure
    {
      var k := 0;
      for i := 0 to |pool|
        invariant |pool| == |old(pool)|
        invariant Replaced(pool, i, env, k) == Replaced(old(pool), 0, env, 0)
      {
        if pool[i].broken {
          match env(k)
          case Refused(error) => return Some(error);
          case Connected(id) =>
            pool := pool[i := Connection(id, false)];
            k := k + 1;
        }
      }
      while |pool| < desiredSize
        invariant Filled(pool, desiredSize, env, k) == Repaired(old(pool), desiredSize, env)
        decreases desiredSize - |pool|
      {
        match env(k)
        case Refused(error) => return Some(error);
        case Connected(id) =>
          pool := pool + [Connection(id, false)];
          k := k + 1;
      }
      return None;
    }

    /** `connection`: round-robin over the pool, skipping broken connections; the index
        search goes around at most once. */
    method PickConnection() returns (c: Option<Connection>)
      modifies this`currentIndex
      ensures c.None? <==> forall i :: 0 <= i < |pool| ==> pool[i].broken
      ensures c.Some? ==> exists d: nat :: IsFirstLive(pool, old(currentIndex), d, c.value)
      ensures currentIndex == if pool == [] then old(currentIndex) else Bumped(old(currentIndex))
    {
      hide Around, IsFirstLive, Slot, Bumped;
      if pool == [] { return None; }
      var first := Slot(currentIndex, |pool|);
      var index := first;
      currentIndex := Bumped(currentIndex);
      ghost var d: nat := 0;
      AroundNothing(first, |pool|);
      while true
        invariant currentIndex == Bumped(old(currentIndex))
        invariant 0 <= d < |pool| && index == Around(first, d, |pool|)
        invariant forall e :: 0 <= e < d ==> pool[Around(first, e, |pool|)].broken
        decreases |pool| - d
      {
        if !pool[index].broken {
          assert !pool[index].broken;
          FirstLive(pool, old(currentIndex), first, d);
          return Some(pool[index]);
        }
        StepAround(first, d, |pool|);
        index := Slot(index + 1, |pool|);
        if index == first {
          FullCircle(pool, first, d);
          return None;
        }
        d := d + 1;
      }
    }
  }

  lemma FirstLive(pool: seq<Connection>, counter: nat, first: nat, d: nat)
    requires d < |pool| && first == Slot(counter, |pool|) && !pool[Around(first, d, |pool|)].broken
    requires forall e :: 0 <= e < d ==> pool[Around(first, e, |pool|)].broken
    ensures IsFirstLive(pool, counter, d, pool[Around(first, d, |pool|)])
  {
  }

  lemma AroundNothing(first: nat, n: nat)
    requires first < n
    ensures Around(first, 0, n) == first
  {
    SmallRemainder(first, n, 0);
  }

  /** The shared counter wraps like the usize it is. */
  function Bumped(counter: nat): nat { (counter + 1) % 0x1_0000_0000_0000_0000 }

  function Slot(counter: nat, n: nat): (r: nat)
    requires n > 0
    ensures r < n
  {
    counter % n
  }

  function Around(first: nat, d: nat, n: nat): (r: nat)
    requires n > 0
    ensures r < n
  {
    (first + d) % n
  }

  /** The connection `d` places after the starting point, the first live one met. */
  ghost predicate IsFirstLive(pool: seq<Connection>, counter: nat, d: nat, c: Connection) {
    && d < |pool| && pool[Around(Slot(counter, |pool|), d, |pool|)] == c && !c.broken
    && forall e :: 0 <= e < d ==> pool[Around(Slot(counter, |pool|), e, |pool|)].broken
  }

  /** Going one further reaches the start again exactly after a full circle. */
  lemma StepAround(first: nat, d: nat, n: nat)
    requires first < n && d < n
    ensures Slot(Around(first, d, n) + 1, n) == Around(first, d + 1, n)
    ensures Around(first, d + 1, n) == first <==> d + 1 == n
  {
    if first + d < n {
      SmallRemainder(first + d, n, 0);
    } else {
      SmallRemainder(first + d, n, 1);
    }
    if first + d + 1 < n {
      SmallRemainder(first + d + 1, n, 0);
    } else if first + d + 1 < 2 * n {
      SmallRemainder(first + d + 1, n, 1);
    }
    if Around(first, d, n) + 1 < n {
      SmallRemainder(Around(first, d, n) + 1, n, 0);
    } else {
      SmallRemainder(n, n, 1);
    }
  }

  lemma SmallRemainder(x: nat, n: nat, q: nat)
    requires n > 0 && q <= 1 && q * n <= x < (q + 1) * n
    ensures x % n == x - q * n
  {
    if q == 0 {
    } else {
      assert x == n + (x - n);
      assert (x - n) % n == x - n;
      assert x % n == (x - n) % n;
    }
  }

  /** After a full circle every slot was seen. */
  lemma FullCircle(pool: seq<Connection>, first: nat, d: nat)
    requires first < |pool| && d + 1 == |pool|
    requires forall e :: 0 <= e <= d ==> pool[Around(first, e, |pool|)].broken
    ensures forall i :: 0 <= i < |pool| ==> pool[i].broken
  {
    var n := |pool|;
    forall i | 0 <= i < n
      ensures pool[i].broken
    {
      var e := if first <= i then i - first else i + n - first;
      if first <= i {
        SmallRemainder(first + e, n, 0);
      } else {
        SmallRemainder(first + e, n, 1);
      }
      assert Around(first, e, n) == i;
    }
  }

  //
  // Reconnection protocol
  //

  datatype ReconnectionState = NotRunning | InProgress | Disabled

  /** The monitor between its atomic actions. */
  datatype Monitor = Waiting | SawNotRunning | Stopped

  /** A spawned task: in its loop, past it with a state still to be stored, or done. */
  datatype Task = Looping | Returning(state: ReconnectionState) | Ended(state: ReconnectionState)

  datatype System = System(
    desired: nat,
    pool: seq<Connection>,
    state: ReconnectionState,
    monitor: Monitor,
    tasks: seq<Task>)

  datatype Event =
    | ConnectionBreaks(slot: nat)
    | ErrorNotified                       // the monitor loads the shared state
    | LoopStarted                         // the monitor stores InProgress and spawns a task
    | MonitorStops                        // node or pool gone, node forced down, channel closed
    | LoopIterates(task: nat, env: nat -> Attempt)
    | LoopGivesUp(task: nat)              // schedule exhausted or pool gone
    | ManagerGone(task: nat)              // `reconnect_broken` has no connection manager
    | StateStored(task: nat)

  predicate IsActive(t: Task) { !t.Ended? }

  predicate Enabled(s: System, e: Event) {
    match e
    case ConnectionBreaks(slot) => slot < |s.pool|
    case ErrorNotified => s.monitor.Waiting?
    case LoopStarted => s.monitor.SawNotRunning?
    case MonitorStops => s.monitor.Waiting?
    case LoopIterates(t, _) => t < |s.tasks| && s.tasks[t].Looping?
    case LoopGivesUp(t) => t < |s.tasks| && s.tasks[t].Looping?
    case ManagerGone(t) => t < |s.tasks| && s.tasks[t].Looping?
    case StateStored(t) => t < |s.tasks| && s.tasks[t].Returning?
  }

  function Step(s: System, e: Event): System
    requires Enabled(s, e)
  {
    match e
    case ConnectionBreaks(slot) => s.(pool := s.pool[slot := s.pool[slot].(broken := true)])
    case ErrorNotified =>
      (match s.state
       case NotRunning => s.(monitor := SawNotRunning)
       case InProgress => s
       case Disabled => s.(monitor := Stopped))
    case LoopStarted => s.(state := InProgress, monitor := Waiting, tasks := s.tasks + [Looping])
    case MonitorStops => s.(monitor := Stopped)
    case LoopIterates(t, env) =>
      var r := Repaired(s.pool, s.desired, env);
      var s' := s.(pool := r.pool);
      if r.failure.None? then s'.(tasks := s.tasks[t := Returning(NotRunning)])
      else if r.failure.value.InvalidProtocol? then s'.(tasks := s.tasks[t := Returning(Disabled)])
      else s'
    case LoopGivesUp(t) => s.(tasks := s.tasks[t := Returning(Disabled)])
    case ManagerGone(t) => s
    case StateStored(t) => s.(state := s.tasks[t].state, tasks := s.tasks[t := Ended(s.tasks[t].state)])
  }

  ghost predicate IsStart(s: System) {
    |s.pool| <= s.desired && s.state.NotRunning? && s.monitor.Waiting? && s.tasks == []
  }

  ghost predicate IsRun(states: seq<System>, events: seq<Event>) {
    && |states| == |events| + 1 && IsStart(states[0])
    && forall i :: 0 <= i < |events| ==> Enabled(states[i], events[i]) && states[i + 1] == Step(states[i], events[i])
  }

  /** At most one task is active, exactly while the shared state says so; the monitor's view
      stays current until it acts on it. */
  ghost predicate Invariant(s: System) {
    && |s.pool| <= s.desired
    && (forall i, j :: 0 <= i < j < |s.tasks| ==> !(IsActive(s.tasks[i]) && IsActive(s.tasks[j])))
    && (s.state.InProgress? <==> exists i :: 0 <= i < |s.tasks| && IsActive(s.tasks[i]))
    && (s.monitor.SawNotRunning? ==> s.state.NotRunning?)
    && (forall i :: 0 <= i < |s.tasks| ==> s.tasks[i] != Returning(InProgress) && s.tasks[i] != Ended(InProgress))
  }

  lemma StepKeeps(s: System, e: Event)
    requires Invariant(s) && Enabled(s, e)
    ensures Invariant(Step(s, e)) && Step(s, e).desired == s.desired
    ensures s.state.Disabled? ==> Step(s, e).state.Disabled?
  {
    var s' := Step(s, e);
    match e
    case LoopIterates(t, env) =>
      RepairContract(s.pool, s.desired, env);
      assert IsActive(s.tasks[t]) && IsActive(s'.tasks[t]);
    case LoopStarted =>
      assert IsActive(s'.tasks[|s.tasks|]);
    case LoopGivesUp(t) =>
      assert IsActive(s.tasks[t]) && IsActive(s'.tasks[t]);
    case StateStored(t) =>
      assert IsActive(s.tasks[t]) && !IsActive(s'.tasks[t]);
    case _ =>
  }

  /** Every interleaving of notifications and reconnection tasks: at most one loop is active,
      the pool never exceeds its desired size, loops end only as NotRunning or Disabled, and
      Disabled is final. */
  lemma {:induction false} ReconnectionIsExclusive(states: seq<System>, events: seq<Event>, n: nat)
    requires IsRun(states, events) && n <= |events|
    ensures Invariant(states[n]) && states[n].desired == states[0].desired
    ensures n > 0 && states[n - 1].state.Disabled? ==> states[n].state.Disabled?
  {
    if n > 0 {
      ReconnectionIsExclusive(states, events, n - 1);
      assert Enabled(states[n - 1], events[n - 1]) && states[n] == Step(states[n - 1], events[n - 1]);
      StepKeeps(states[n - 1], events[n - 1]);
    }
  }

  lemma {:induction false} DisabledIsFinal(states: seq<System>, events: seq<Event>, m: nat, n: nat)
    requires IsRun(states, events) && m <= n <= |events| && states[m].state.Disabled?
    ensures states[n].state.Disabled?
    decreases n
  {
    if m < n {
      DisabledIsFinal(states, events, m, n - 1);
      ReconnectionIsExclusive(states, events, n);
    }
  }

  /** A loop that ends as NotRunning had just filled the pool and replaced every broken slot. */
  lemma {:induction false} NotRunningMeansRepaired(states: seq<System>, events: seq<Event>, n: nat, t: nat)
    requires IsRun(states, events) && n <= |events| && t < |states[n].tasks|
    requires states[n].tasks[t] == Returning(NotRunning) || states[n].tasks[t] == Ended(NotRunning)
    ensures exists m :: 0 < m <= n && FullyRepaired(states[m]) && events[m - 1].LoopIterates? && events[m - 1].task == t
  {
    assert n > 0;
    var s, e := states[n - 1], events[n - 1];
    assert Enabled(s, e) && states[n] == Step(s, e);
    ReconnectionIsExclusive(states, events, n - 1);
    if t < |s.tasks| && (s.tasks[t] == Returning(NotRunning) || s.tasks[t] == Ended(NotRunning)) {
      NotRunningMeansRepaired(states, events, n - 1, t);
    } else {
      assert e.LoopIterates? && e.task == t;
      RepairContract(s.pool, s.desired, e.env);
      assert FullyRepaired(states[n]);
    }
  }

  ghost predicate FullyRepaired(s: System) {
    |s.pool| == s.desired && forall i :: 0 <= i < |s.pool| ==> !s.pool[i].broken
  }

  //
  // What starts and what ends a loop
  //

  /** The event decides how the loop of a task ends: in NotRunning when everything was
      repaired, in Disabled when the node speaks another protocol or the loop gives up. Any other
      failure decides nothing. */
  function Decided(s: System, e: Event, t: nat): Option<ReconnectionState> {
    match e
    case LoopGivesUp(task) => if task == t then Some(Disabled) else None
    case LoopIterates(task, env) =>
      if task != t then None
      else
        (match Repaired(s.pool, s.desired, env).failure
         case None => Some(NotRunning)
         case Some(InvalidProtocol) => Some(Disabled)
         case Some(OtherFailure) => None)
    case _ => None
  }

  ghost predicate DecidedBefore(states: seq<System>, events: seq<Event>, n: nat, t: nat, state: ReconnectionState)
    requires |states| == |events| + 1 && n <= |events|
  {
    exists m :: 0 <= m < n && Decided(states[m], events[m], t) == Some(state)
  }

  ghost predicate StoredBefore(events: seq<Event>, n: nat, t: nat)
    requires n <= |events|
  {
    exists m :: 0 <= m < n && events[m] == StateStored(t)
  }

  lemma DecidedStep(states: seq<System>, events: seq<Event>, n: nat, t: nat, state: ReconnectionState)
    requires |states| == |events| + 1 && n < |events|
    ensures DecidedBefore(states, events, n + 1, t, state) <==>
      DecidedBefore(states, events, n, t, state) || Decided(states[n], events[n], t) == Some(state)
    ensures StoredBefore(events, n + 1, t) <==> StoredBefore(events, n, t) || events[n] == StateStored(t)
  {
    hide Decided;
  }

  lemma TaskStep(s: System, e: Event, t: nat)
    requires Enabled(s, e) && t < |s.tasks|
    ensures t < |Step(s, e).tasks|
    ensures Step(s, e).tasks[t] ==
      match s.tasks[t]
      case Looping => (match Decided(s, e, t) case Some(state) => Returning(state) case None => Looping)
      case Returning(state) => if e == StateStored(t) then Ended(state) else Returning(state)
      case Ended(state) => Ended(state)
  {
    hide Repaired;
  }

  /** Each task is where the events put it: looping until one of them decides, then returning
      with that state until it is stored. */
  lemma {:induction false} TaskIs(states: seq<System>, events: seq<Event>, n: nat, t: nat)
    requires IsRun(states, events) && n <= |events| && t < |states[n].tasks|
    ensures states[n].tasks[t].Looping? <==> forall state :: !DecidedBefore(states, events, n, t, state)
    ensures !DecidedBefore(states, events, n, t, InProgress)
    ensures states[n].tasks[t].Ended? <==> StoredBefore(events, n, t)
    ensures forall state :: states[n].tasks[t] == Returning(state) <==>
      DecidedBefore(states, events, n, t, state) && !StoredBefore(events, n, t)
    ensures forall state :: states[n].tasks[t] == Ended(state) <==>
      DecidedBefore(states, events, n, t, state) && StoredBefore(events, n, t)
  {
    hide Decided, Step, Enabled;
    assert n > 0;
    var s, e := states[n - 1], events[n - 1];
    assert Enabled(s, e) && states[n] == Step(s, e);
    forall state: ReconnectionState
      ensures DecidedBefore(states, events, n, t, state) <==>
        DecidedBefore(states, events, n - 1, t, state) || Decided(s, e, t) == Some(state)
      ensures StoredBefore(events, n, t) <==> StoredBefore(events, n - 1, t) || e == StateStored(t)
    {
      DecidedStep(states, events, n - 1, t, state);
    }
    hide DecidedBefore, StoredBefore;
    if t < |s.tasks| {
      TaskIs(states, events, n - 1, t);
      TaskStep(s, e, t);
      DecidesOnlyLooping(s, e, t);
      if !s.tasks[t].Looping? {
        assert DecidedBefore(states, events, n - 1, t, s.tasks[t].state);
      } else if Decided(s, e, t).Some? {
        assert DecidedBefore(states, events, n, t, Decided(s, e, t).value);
      }
    } else {
      StartedLooping(s, e, t);
      NothingBefore(states, events, n - 1, t);
    }
  }

  lemma DecidesOnlyLooping(s: System, e: Event, t: nat)
    requires Enabled(s, e) && t < |s.tasks|
    ensures Decided(s, e, t).Some? ==> s.tasks[t].Looping? && Decided(s, e, t) != Some(InProgress)
    ensures e == StateStored(t) ==> s.tasks[t].Returning?
  {
    hide Repaired;
  }

  lemma StartedLooping(s: System, e: Event, t: nat)
    requires Enabled(s, e) && |s.tasks| <= t < |Step(s, e).tasks|
    ensures e == LoopStarted && Step(s, e).tasks[t] == Looping && Decided(s, e, t).None?
  {
    hide Repaired;
  }

  /** Nothing is decided or stored about a task before it is started. */
  lemma {:induction false} NothingBefore(states: seq<System>, events: seq<Event>, n: nat, t: nat)
    requires IsRun(states, events) && n <= |events| && |states[n].tasks| <= t
    ensures forall state :: !DecidedBefore(states, events, n, t, state)
    ensures !StoredBefore(events, n, t)
  {
    hide Decided, Step, Enabled;
    if n > 0 {
      var s, e := states[n - 1], events[n - 1];
      assert Enabled(s, e) && states[n] == Step(s, e);
      TasksGrow(s, e);
      NothingBefore(states, events, n - 1, t);
      NotForLater(s, e, t);
      forall state: ReconnectionState
        ensures !DecidedBefore(states, events, n, t, state) && !StoredBefore(events, n, t)
      {
        DecidedStep(states, events, n - 1, t, state);
      }
    }
  }

  lemma NotForLater(s: System, e: Event, t: nat)
    requires Enabled(s, e) && |s.tasks| <= t
    ensures Decided(s, e, t).None? && e != StateStored(t)
  {
    hide Repaired;
  }

  lemma TasksGrow(s: System, e: Event)
    requires Enabled(s, e)
    ensures |Step(s, e).tasks| == |s.tasks| + (if e == LoopStarted then 1 else 0)
    ensures Step(s, e).monitor.SawNotRunning? <==>
      (e == ErrorNotified && s.state.NotRunning?) || (s.monitor.SawNotRunning? && e != LoopStarted)
  {
    hide Repaired;
  }

  /** Error notifications that found no loop running, among the first `n` events. */
  function Alarms(states: seq<System>, events: seq<Event>, n: nat): nat
    requires |states| == |events| + 1 && n <= |events|
  {
    if n == 0 then 0
    else Alarms(states, events, n - 1) + if events[n - 1] == ErrorNotified && states[n - 1].state.NotRunning? then 1 else 0
  }

  /** Every such notification starts a loop, and nothing else does; at most the latest one is
      still on its way. */
  lemma {:induction false} AlarmsStartLoops(states: seq<System>, events: seq<Event>, n: nat)
    requires IsRun(states, events) && n <= |events|
    ensures |states[n].tasks| + (if states[n].monitor.SawNotRunning? then 1 else 0) == Alarms(states, events, n)
  {
    hide Step;
    if n > 0 {
      var s, e := states[n - 1], events[n - 1];
      assert Enabled(s, e) && states[n] == Step(s, e);
      AlarmsStartLoops(states, events, n - 1);
      TasksGrow(s, e);
    }
  }

  /** The shared state is that of the latest loop: InProgress while it runs, then the state it
      ended with. Loops before the latest ended with NotRunning. */
  ghost predicate FollowsLatest(s: System) {
    var n := |s.tasks|;
    && (n == 0 ==> s.state.NotRunning?)
    && (n > 0 ==> s.state == if s.tasks[n - 1].Ended? then s.tasks[n - 1].state else InProgress)
    && forall i :: 0 <= i < n - 1 ==> s.tasks[i] == Ended(NotRunning)
  }

  lemma LatestStep(s: System, e: Event)
    requires Invariant(s) && FollowsLatest(s) && Enabled(s, e)
    ensures FollowsLatest(Step(s, e))
  {
    hide Repaired;
    var n := |s.tasks|;
    match e
    case LoopStarted =>
      assert n > 0 ==> s.tasks[n - 1] == Ended(NotRunning);
    case LoopIterates(t, env) => assert t == n - 1;
    case LoopGivesUp(t) => assert t == n - 1;
    case StateStored(t) => assert t == n - 1;
    case _ =>
  }

  lemma {:induction false} StateIsLatestLoop(states: seq<System>, events: seq<Event>, n: nat)
    requires IsRun(states, events) && n <= |events|
    ensures FollowsLatest(states[n])
  {
    if n > 0 {
      StateIsLatestLoop(states, events, n - 1);
      ReconnectionIsExclusive(states, events, n - 1);
      assert Enabled(states[n - 1], events[n - 1]) && states[n] == Step(states[n - 1], events[n - 1]);
      hide Step, FollowsLatest, Invariant, Enabled;
      LatestStep(states[n - 1], events[n - 1]);
    }
  }
}
