/** Speculative execution: several runs of the send loop draw from one shared query plan,
    interleaved in any order, while a timer may start further ones. */
module Speculation {
  import opened Options
  import opened Requests

  /** One run of the send loop. `taken` and `writes` record its history; `node` is the plan
      position it is working on, `result` what it returned. */
  datatype Execution = Execution(
    session: Session,
    node: Option<nat>,
    failed: Option<Error>,
    taken: seq<nat>,
    writes: nat,
    result: Option<Option<Outcome>>,
    harvested: bool)

  const FRESH_EXECUTION: Execution := Execution(NEW_SESSION, None, None, [], 0, None, false)

  datatype System = System(
    length: nat,
    idempotent: bool,
    speculates: bool,
    maxExecutions: nat,
    next: nat,
    running: nat,
    timerArmed: bool,
    executions: seq<Execution>,
    lastError: Option<Error>,
    answer: Option<Outcome>)

  /** `ConstantSpeculativeExecutionPolicy::execution_interval`: whether to start another. */
  predicate WantsAnother(running: nat, maxExecutions: nat) { running < maxExecutions }

  /** How a request starts: one execution. Only when a policy is given and the request is
      idempotent does it share the plan with others, started by a timer. */
  function Start(length: nat, policy: Option<nat>, idempotent: bool): System {
    var speculates := policy.Some? && idempotent;
    System(length, idempotent, speculates, if speculates then policy.value else 0, 0, 1, speculates, [FRESH_EXECUTION], None, None)
  }

  datatype Event =
    | TakeNode(i: nat)
    | Attempted(i: nat, attempt: Attempt)
    | TimerFired
    | Harvest(i: nat)

  predicate Enabled(s: System, e: Event) {
    && s.answer.None?
    && match e
       case TakeNode(i) => i < |s.executions| && s.executions[i].result.None? && s.executions[i].node.None?
       case Attempted(i, _) => i < |s.executions| && s.executions[i].result.None? && s.executions[i].node.Some?
       case TimerFired => s.timerArmed
       case Harvest(i) => i < |s.executions| && s.executions[i].result.Some? && !s.executions[i].harvested
  }

  /** The shared iterator hands out the next position, or ends the execution. */
  function Taken(x: Execution, next: nat, length: nat): Execution {
    if next < length then x.(node := Some(next), taken := x.taken + [next])
    else x.(result := Some(if x.failed.Some? then Some(Failure(x.failed.value)) else None))
  }

  /** One connection attempt or write of an execution. */
  function Tried(x: Execution, a: Attempt, idempotent: bool): Execution {
    match a
    case Answered => x.(writes := x.writes + 1, result := Some(Some(Success)))
    case ConnectFailed(error) => x.(node := None, failed := Some(error))
    case WriteFailed(error) =>
      var (d, session) := DefaultDecision(x.session, error, idempotent);
      var y := x.(writes := x.writes + 1, session := session);
      match d
      case RetrySameNode => y
      case RetryNextNode => y.(node := None)
      case DontRetry => y.(result := Some(Some(Failure(error))))
  }

  //
  // An execution that has the plan to itself is the send loop
  //

  /** Takes and attempts until there is a result. */
  function RunAlone(x: Execution, next: nat, length: nat, idempotent: bool, env: nat -> Attempt, k: nat): Execution
    requires next <= length
    decreases 2 * (length - next) + (if x.node.Some? then 1 else 0), 2 - SameNodeRetries(x.session)
  {
    if x.result.Some? then x
    else if x.node.None? then
      if next < length then RunAlone(Taken(x, next, length), next + 1, length, idempotent, env, k)
      else Taken(x, next, length)
    else
      var y := Tried(x, env(k), idempotent);
      if y.result.Some? then y else RunAlone(y, next, length, idempotent, env, k + 1)
  }

  lemma {:induction false} AloneIsSendLoop(
    x: Execution, next: nat, length: nat, idempotent: bool, env: nat -> Attempt, k: nat)
    requires next <= length && x.result.None? && (x.node.Some? ==> next > 0)
    ensures var run := Execute(if x.node.Some? then next - 1 else next, length, x.session, idempotent, env, k, x.failed);
      var y := RunAlone(x, next, length, idempotent, env, k);
      y.result == Some(run.result) && y.writes == x.writes + Writes(run.trace)
    decreases 2 * (length - next) + (if x.node.Some? then 1 else 0), 2 - SameNodeRetries(x.session)
  {
    hide DefaultDecision, SameNodeRetries;
    if x.node.None? {
      if next < length {
        AloneIsSendLoop(Taken(x, next, length), next + 1, length, idempotent, env, k);
      }
    } else {
      var p := next - 1;
      match env(k)
      case Answered => WritesOne(Record(p, env(k), None));
      case ConnectFailed(error) =>
        AloneIsSendLoop(Tried(x, env(k), idempotent), next, length, idempotent, env, k + 1);
        WritesCons(Record(p, env(k), None), Execute(next, length, x.session, idempotent, env, k + 1, Some(error)).trace);
      case WriteFailed(error) =>
        var (d, s') := DefaultDecision(x.session, error, idempotent);
        var record := Record(p, env(k), Some(d));
        if d.DontRetry? {
          WritesOne(record);
        } else {
          SameNodeProgress(x.session, error, idempotent);
          AloneIsSendLoop(Tried(x, env(k), idempotent), next, length, idempotent, env, k + 1);
          var position := if d.RetrySameNode? then p else next;
          WritesCons(record, Execute(position, length, s', idempotent, env, k + 1, x.failed).trace);
        }
    }
  }

  lemma WritesOne(record: Record)
    ensures Writes([record]) == if record.attempt.ConnectFailed? then 0 else 1
  {
    assert [record][1..] == [];
  }

  /** What one execution does with a plan of its own is what the send loop does: the same
      result and as many writes, for every behaviour of the network. */
  lemma ExecutionIsSendLoop(length: nat, idempotent: bool, env: nat -> Attempt)
    ensures var run := Execute(0, length, NEW_SESSION, idempotent, env, 0, None);
      var x := RunAlone(FRESH_EXECUTION, 0, length, idempotent, env, 0);
      x.result == Some(run.result) && x.writes == Writes(run.trace)
  {
    AloneIsSendLoop(FRESH_EXECUTION, 0, length, idempotent, env, 0);
  }

  predicate AllHarvested(s: System) {
    forall i :: 0 <= i < |s.executions| ==> s.executions[i].harvested
  }

  /** What becomes of a finished execution. A single one gives the answer. In the speculative
      loop I/O errors and timeouts are only remembered and any other result is returned; an
      execution that found no node ends the request only if no other one is left. */
  function Harvested(s: System, i: nat): System
    requires i < |s.executions| && s.executions[i].result.Some?
  {
    var s' := s.(executions := s.executions[i := s.executions[i].(harvested := true)]);
    var result := s.executions[i].result.value;
    if !s.speculates then s'.(answer := Some(if result.Some? then result.value else Failure(General)))
    else
    match result
    case Some(Failure(Io)) => s'.(lastError := Some(Io))
    case Some(Failure(Timeout)) => s'.(lastError := Some(Timeout))
    case Some(outcome) => s'.(answer := Some(outcome))
    case None =>
      if AllHarvested(s') then
        s'.(answer := Some(Failure(if s.lastError.Some? then s.lastError.value else General)))
      else s'
  }

  function Step(s: System, e: Event): System
    requires Enabled(s, e)
  {
    match e
    case TakeNode(i) =>
      s.(executions := s.executions[i := Taken(s.executions[i], s.next, s.length)],
         next := if s.next < s.length then s.next + 1 else s.next)
    case Attempted(i, a) => s.(executions := s.executions[i := Tried(s.executions[i], a, s.idempotent)])
    case TimerFired =>
      if WantsAnother(s.running, s.maxExecutions) then
        s.(running := s.running + 1, executions := s.executions + [FRESH_EXECUTION])
      else s.(timerArmed := false)
    case Harvest(i) => Harvested(s, i)
  }

  ghost predicate IsRun(states: seq<System>, events: seq<Event>, length: nat, policy: Option<nat>, idempotent: bool) {
    && |states| == |events| + 1 && states[0] == Start(length, policy, idempotent)
    && forall i :: 0 <= i < |events| ==> Enabled(states[i], events[i]) && states[i + 1] == Step(states[i], events[i])
  }

  //
  // Invariant
  //

  function TotalTaken(xs: seq<Execution>): nat {
    if xs == [] then 0 else TotalTaken(xs[..|xs| - 1]) + |xs[|xs| - 1].taken|
  }

  function TotalWrites(xs: seq<Execution>): nat {
    if xs == [] then 0 else TotalWrites(xs[..|xs| - 1]) + xs[|xs| - 1].writes
  }

  lemma {:induction false} TotalsUpdate(xs: seq<Execution>, i: nat, x: Execution)
    requires i < |xs|
    ensures TotalTaken(xs[i := x]) == TotalTaken(xs) - |xs[i].taken| + |x.taken|
    ensures TotalWrites(xs[i := x]) == TotalWrites(xs) - xs[i].writes + x.writes
  {
    var n := |xs| - 1;
    if i < n {
      TotalsUpdate(xs[..n], i, x);
      assert xs[i := x][..n] == xs[..n][i := x];
    } else {
      assert xs[i := x][..n] == xs[..n];
    }
  }

  lemma TotalsAppend(xs: seq<Execution>, x: Execution)
    ensures TotalTaken(xs + [x]) == TotalTaken(xs) + |x.taken|
    ensures TotalWrites(xs + [x]) == TotalWrites(xs) + x.writes
  {
    assert (xs + [x])[..|xs|] == xs;
  }

  /** One execution never writes more often than it took nodes, plus its same-node
      allowances; the write for the node in hand is still to come. */
  ghost predicate WithinBudget(x: Execution, next: nat, idempotent: bool) {
    && (x.node.Some? && x.result.None? ==> x.writes + 1 <= |x.taken| + SameNodeRetries(x.session))
    && x.writes <= |x.taken| + SameNodeRetries(x.session)
    && SameNodeRetries(x.session) <= SameNodeLimit(idempotent) && (!idempotent ==> !x.session.writeTimeout)
    && (forall p :: p in x.taken ==> p < next)
    && (forall j, k :: 0 <= j < k < |x.taken| ==> x.taken[j] < x.taken[k])
  }

  ghost predicate AllWithinBudget(xs: seq<Execution>, next: nat, idempotent: bool) {
    forall i :: 0 <= i < |xs| ==> WithinBudget(xs[i], next, idempotent)
  }

  /** No plan position was handed to two executions. */
  ghost predicate NoSharedPosition(xs: seq<Execution>) {
    forall i, j, p :: 0 <= i < j < |xs| && p in xs[i].taken ==> p !in xs[j].taken
  }

  function Max(a: nat, b: nat): nat { if a < b then b else a }

  ghost predicate Invariant(s: System) {
    && s.running == |s.executions| && s.running <= Max(1, s.maxExecutions)
    && s.next <= s.length && TotalTaken(s.executions) == s.next
    && AllWithinBudget(s.executions, s.next, s.idempotent)
    && NoSharedPosition(s.executions)
    && (s.answer.None? && AllHarvested(s) ==> s.lastError.Some? && s.speculates)
    && (s.timerArmed ==> s.speculates)
  }

  /** A result is only collected once it exists. */
  ghost predicate HarvestedHaveResults(s: System) {
    forall i :: 0 <= i < |s.executions| && s.executions[i].harvested ==> s.executions[i].result.Some?
  }

  /** What a step never changes, and what it only ever switches off. */
  ghost predicate SameRequest(s: System, s': System) {
    s'.length == s.length && s'.idempotent == s.idempotent && s'.speculates == s.speculates && s'.maxExecutions == s.maxExecutions && (s'.timerArmed ==> s.timerArmed)
  }

  ghost predicate Good(s: System) { Invariant(s) && HarvestedHaveResults(s) }

  lemma StillRunning(s: System, i: nat)
    requires i < |s.executions| && !s.executions[i].harvested
    ensures !AllHarvested(s)
  {
  }

  lemma TakenKeeps(x: Execution, next: nat, length: nat, idempotent: bool)
    requires WithinBudget(x, next, idempotent) && x.node.None? && x.result.None? && next <= length
    ensures WithinBudget(Taken(x, next, length), if next < length then next + 1 else next, idempotent)
    ensures Taken(x, next, length).harvested == x.harvested
    ensures |Taken(x, next, length).taken| == |x.taken| + (if next < length then 1 else 0)
    ensures forall p :: p in Taken(x, next, length).taken ==> p in x.taken || (p == next && next < length)
  {
    var taken := x.taken + [next];
    forall j, k | 0 <= j < k < |taken|
      ensures taken[j] < taken[k]
    {
      assert x.taken[j] in x.taken;
    }
  }

  /** An execution may be replaced by one within its budget that holds no further position
      than the one just handed out. */
  lemma Replaced(xs: seq<Execution>, i: nat, x: Execution, next: nat, next': nat, idempotent: bool)
    requires i < |xs| && AllWithinBudget(xs, next, idempotent) && NoSharedPosition(xs)
    requires next <= next' && WithinBudget(x, next', idempotent)
    requires forall p :: p in x.taken ==> p in xs[i].taken || p == next
    ensures AllWithinBudget(xs[i := x], next', idempotent) && NoSharedPosition(xs[i := x])
  {
    var ys := xs[i := x];
    forall j | 0 <= j < |ys|
      ensures WithinBudget(ys[j], next', idempotent)
    {
      assert WithinBudget(xs[j], next, idempotent);
    }
    hide WithinBudget;
    forall j, k, p | 0 <= j < k < |ys| && p in ys[j].taken
      ensures p !in ys[k].taken
    {
      PositionsBelow(xs, j, next, idempotent);
      PositionsBelow(xs, k, next, idempotent);
    }
  }

  lemma PositionsBelow(xs: seq<Execution>, j: nat, next: nat, idempotent: bool)
    requires j < |xs| && AllWithinBudget(xs, next, idempotent)
    ensures forall p :: p in xs[j].taken ==> p < next
  {
    assert WithinBudget(xs[j], next, idempotent);
  }

  lemma TakeKeeps(s: System, i: nat)
    requires Good(s) && Enabled(s, TakeNode(i))
    ensures Good(Step(s, TakeNode(i))) && SameRequest(s, Step(s, TakeNode(i)))
  {
    var s' := Step(s, TakeNode(i));
    assert WithinBudget(s.executions[i], s.next, s.idempotent);
    TakenKeeps(s.executions[i], s.next, s.length, s.idempotent);
    TotalsUpdate(s.executions, i, s'.executions[i]);
    StillRunning(s', i);
    Replaced(s.executions, i, s'.executions[i], s.next, s'.next, s.idempotent);
    hide TotalTaken, Taken, AllHarvested, WithinBudget, AllWithinBudget, NoSharedPosition;
  }

  lemma TriedKeeps(x: Execution, a: Attempt, next: nat, idempotent: bool)
    requires WithinBudget(x, next, idempotent) && x.node.Some? && x.result.None?
    ensures WithinBudget(Tried(x, a, idempotent), next, idempotent) && Tried(x, a, idempotent).taken == x.taken
    ensures Tried(x, a, idempotent).harvested == x.harvested
  {
    if a.WriteFailed? {
      DecisionBudget(x.session, a.error, idempotent);
      hide DefaultDecision;
    }
  }

  lemma AttemptKeeps(s: System, i: nat, a: Attempt)
    requires Good(s) && Enabled(s, Attempted(i, a))
    ensures Good(Step(s, Attempted(i, a))) && SameRequest(s, Step(s, Attempted(i, a)))
  {
    var s' := Step(s, Attempted(i, a));
    assert WithinBudget(s.executions[i], s.next, s.idempotent);
    TriedKeeps(s.executions[i], a, s.next, s.idempotent);
    Replaced(s.executions, i, s'.executions[i], s.next, s.next, s.idempotent);
    TotalsUpdate(s.executions, i, s'.executions[i]);
    StillRunning(s', i);
    hide TotalTaken, Tried, AllHarvested, WithinBudget, AllWithinBudget, NoSharedPosition;
  }

  /** A fresh execution can always join. */
  lemma Joined(xs: seq<Execution>, next: nat, idempotent: bool)
    requires AllWithinBudget(xs, next, idempotent) && NoSharedPosition(xs)
    ensures AllWithinBudget(xs + [FRESH_EXECUTION], next, idempotent) && NoSharedPosition(xs + [FRESH_EXECUTION])
  {
    assert WithinBudget(FRESH_EXECUTION, next, idempotent) && FRESH_EXECUTION.taken == [];
    hide WithinBudget;
  }

  lemma TimerKeeps(s: System)
    requires Good(s) && Enabled(s, TimerFired)
    ensures Good(Step(s, TimerFired)) && SameRequest(s, Step(s, TimerFired))
  {
    var s' := Step(s, TimerFired);
    if WantsAnother(s.running, s.maxExecutions) {
      TotalsAppend(s.executions, FRESH_EXECUTION);
      Joined(s.executions, s.next, s.idempotent);
      StillRunning(s', |s.executions|);
      hide TotalTaken, WithinBudget, AllWithinBudget, NoSharedPosition, AllHarvested;
    } else {
      hide TotalTaken, WithinBudget, AllWithinBudget, NoSharedPosition;
      assert AllHarvested(s') ==> AllHarvested(s);
    }
  }

  lemma HarvestFacts(s: System, i: nat)
    requires Enabled(s, Harvest(i))
    ensures var s' := Harvested(s, i);
      && s' == s.(executions := s.executions[i := s.executions[i].(harvested := true)],
                  lastError := s'.lastError, answer := s'.answer)
      && (s'.answer.None? && AllHarvested(s') ==> s'.lastError.Some? && s.speculates)
  {
  }

  lemma HarvestKeeps(s: System, i: nat)
    requires Good(s) && Enabled(s, Harvest(i))
    ensures Good(Step(s, Harvest(i))) && SameRequest(s, Step(s, Harvest(i)))
  {
    HarvestFacts(s, i);
    var x := s.executions[i].(harvested := true);
    assert WithinBudget(s.executions[i], s.next, s.idempotent);
    Replaced(s.executions, i, x, s.next, s.next, s.idempotent);
    TotalsUpdate(s.executions, i, x);
    hide TotalTaken, Harvested, AllHarvested, WithinBudget, AllWithinBudget, NoSharedPosition;
  }

  lemma StartIsGood(length: nat, policy: Option<nat>, idempotent: bool)
    ensures Good(Start(length, policy, idempotent))
  {
    var s := Start(length, policy, idempotent);
    assert s.executions[..0] == [];
    StillRunning(s, 0);
  }

  lemma {:induction false} InvariantHolds(
    states: seq<System>, events: seq<Event>, length: nat, policy: Option<nat>, idempotent: bool, n: nat)
    requires IsRun(states, events, length, policy, idempotent) && n <= |events|
    ensures Good(states[n]) && SameRequest(Start(length, policy, idempotent), states[n])
  {
    hide Good, Step, Start;
    if n == 0 {
      StartIsGood(length, policy, idempotent);
    } else {
      InvariantHolds(states, events, length, policy, idempotent, n - 1);
      var s, e := states[n - 1], events[n - 1];
      assert Enabled(s, e) && states[n] == Step(s, e);
      match e
      case TakeNode(i) => TakeKeeps(s, i);
      case Attempted(i, a) => AttemptKeeps(s, i, a);
      case TimerFired => TimerKeeps(s);
      case Harvest(i) => HarvestKeeps(s, i);
    }
  }

  lemma {:induction false} WritesWithinTaken(xs: seq<Execution>, next: nat, idempotent: bool)
    requires forall i :: 0 <= i < |xs| ==> WithinBudget(xs[i], next, idempotent)
    ensures TotalWrites(xs) <= TotalTaken(xs) + SameNodeLimit(idempotent) * |xs|
  {
    if xs != [] {
      var n := |xs| - 1;
      assert WithinBudget(xs[n], next, idempotent);
      forall i | 0 <= i < n
        ensures WithinBudget(xs[..n][i], next, idempotent)
      {
        assert xs[..n][i] == xs[i];
      }
      WritesWithinTaken(xs[..n], next, idempotent);
    }
  }

  /** Every interleaving: no plan position goes to two executions, at most
      max(1, max_executions) executions are ever started and only one without a policy or
      for a request that is not idempotent, and all of them together write at most once per
      plan position plus twice per execution (once if the request is not idempotent). */
  lemma SpeculationBounds(
    states: seq<System>, events: seq<Event>, length: nat, policy: Option<nat>, idempotent: bool, n: nat)
    requires IsRun(states, events, length, policy, idempotent) && n <= |events|
    ensures var s := states[n];
      && NoSharedPosition(s.executions)
      && |s.executions| <= (if policy.Some? && idempotent then Max(1, policy.value) else 1)
      && TotalWrites(s.executions) <= length + SameNodeLimit(idempotent) * |s.executions|
  {
    InvariantHolds(states, events, length, policy, idempotent, n);
    WritesWithinTaken(states[n].executions, states[n].next, idempotent);
    hide TotalTaken, TotalWrites;
  }

  function TimersIn(events: seq<Event>): nat {
    if events == [] then 0 else TimersIn(events[..|events| - 1]) + if events[|events| - 1].TimerFired? then 1 else 0
  }

  /** Exactly how many executions a speculating request has started: one more each time the
      timer fires, until the policy has had enough; then the timer stays off. */
  lemma {:induction false} ExecutionsStarted(
    states: seq<System>, events: seq<Event>, length: nat, maxExecutions: nat, n: nat)
    requires IsRun(states, events, length, Some(maxExecutions), true) && n <= |events|
    ensures var s, fired := states[n], TimersIn(events[..n]);
      && |s.executions| == (if fired < Max(1, maxExecutions) then fired + 1 else Max(1, maxExecutions))
      && (s.timerArmed <==> fired < Max(1, maxExecutions))
  {
    hide Step;
    InvariantHolds(states, events, length, Some(maxExecutions), true, n);
    if n > 0 {
      var s, e := states[n - 1], events[n - 1];
      assert Enabled(s, e) && states[n] == Step(s, e);
      ExecutionsStarted(states, events, length, maxExecutions, n - 1);
      InvariantHolds(states, events, length, Some(maxExecutions), true, n - 1);
      assert events[..n][..n - 1] == events[..n - 1];
      TimerStep(s, e);
    }
  }

  lemma TimerStep(s: System, e: Event)
    requires Enabled(s, e)
    ensures var s' := Step(s, e);
      if e.TimerFired? && s.running < s.maxExecutions then |s'.executions| == |s.executions| + 1 && s'.timerArmed == s.timerArmed
      else |s'.executions| == |s.executions| && s'.timerArmed == (s.timerArmed && !e.TimerFired?)
  {
    if e.Harvest? {
      HarvestFacts(s, e.i);
      hide Harvested;
    }
  }

  //
  // Ending
  //

  /** Still unanswered although every execution was collected: then all that is left is the
      timer, and this only happens in the speculative loop after an I/O error or timeout. */
  lemma StalledIff(s: System)
    requires Good(s) && s.answer.None?
    ensures (forall e :: !Enabled(s, e)) <==> AllHarvested(s) && !s.timerArmed
    ensures AllHarvested(s) ==> s.lastError.Some? && s.speculates
  {
    if AllHarvested(s) && !s.timerArmed {
      forall e
        ensures !Enabled(s, e)
      {
      }
    } else if s.timerArmed {
      assert Enabled(s, TimerFired);
    } else {
      var i :| 0 <= i < |s.executions| && !s.executions[i].harvested;
      if s.executions[i].result.Some? {
        assert Enabled(s, Harvest(i));
      } else if s.executions[i].node.None? {
        assert Enabled(s, TakeNode(i));
      } else {
        assert Enabled(s, Attempted(i, Answered));
      }
    }
  }

  ghost predicate Stalled(s: System) { s.answer.None? && forall e :: !Enabled(s, e) }

  /** Some run of the request gets to `s`. */
  ghost predicate Reachable(s: System, length: nat, policy: Option<nat>, idempotent: bool) {
    exists states: seq<System>, events: seq<Event> ::
      IsRun(states, events, length, policy, idempotent) && states[|events|] == s
  }

  lemma StartReachable(length: nat, policy: Option<nat>, idempotent: bool)
    ensures Reachable(Start(length, policy, idempotent), length, policy, idempotent)
  {
    hide Start;
    var states, events := [Start(length, policy, idempotent)], [];
    assert IsRun(states, events, length, policy, idempotent) && states[|events|] == states[0];
  }

  lemma StepReachable(s: System, e: Event, length: nat, policy: Option<nat>, idempotent: bool)
    requires Reachable(s, length, policy, idempotent) && Enabled(s, e)
    ensures Reachable(Step(s, e), length, policy, idempotent)
  {
    hide Enabled, Step, Start;
    var states: seq<System>, events: seq<Event> :|
      IsRun(states, events, length, policy, idempotent) && states[|events|] == s;
    var states', events' := states + [Step(s, e)], events + [e];
    forall i | 0 <= i < |events'|
      ensures Enabled(states'[i], events'[i]) && states'[i + 1] == Step(states'[i], events'[i])
    {
      if i < |events| {
        assert Enabled(states[i], events[i]) && states[i + 1] == Step(states[i], events[i]);
      }
    }
    assert IsRun(states', events', length, policy, idempotent) && states'[|events'|] == Step(s, e);
  }

  //
  // A run without an answer: the first execution fails on every node
  //

  function Upto(k: nat): seq<nat> { if k == 0 then [] else Upto(k - 1) + [k - 1] }

  function Failing(k: nat): Execution {
    FRESH_EXECUTION.(failed := if k > 0 then Some(Io) else None, taken := Upto(k))
  }

  const EMPTY_HANDED: Execution := FRESH_EXECUTION.(result := Some(None), harvested := true)

  /** The first execution found `k` nodes unreachable. */
  function AfterFailures(length: nat, maxExecutions: nat, k: nat): System {
    Start(length, Some(maxExecutions), true).(next := k, executions := [Failing(k)])
  }

  function Copies(n: nat): seq<Execution> { if n == 0 then [] else Copies(n - 1) + [EMPTY_HANDED] }

  lemma CopiesLength(n: nat)
    ensures |Copies(n)| == n && forall i :: 0 <= i < n ==> Copies(n)[i] == EMPTY_HANDED
  {
  }

  /** It has given up, and `n` others came and went without finding a node. */
  function AfterOthers(length: nat, maxExecutions: nat, n: nat): System {
    AfterFailures(length, maxExecutions, length).(
      running := n + 1,
      executions := [Failing(length).(result := Some(Some(Failure(Io))))] + Copies(n))
  }

  lemma {:induction false} FailuresReachable(length: nat, maxExecutions: nat, k: nat)
    requires k <= length
    ensures Reachable(AfterFailures(length, maxExecutions, k), length, Some(maxExecutions), true)
  {
    if k == 0 {
      StartReachable(length, Some(maxExecutions), true);
    } else {
      FailuresReachable(length, maxExecutions, k - 1);
      hide Reachable;
      var s := AfterFailures(length, maxExecutions, k - 1);
      StepReachable(s, TakeNode(0), length, Some(maxExecutions), true);
      var s' := Step(s, TakeNode(0));
      StepReachable(s', Attempted(0, ConnectFailed(Io)), length, Some(maxExecutions), true);
      assert Step(s', Attempted(0, ConnectFailed(Io))) == AfterFailures(length, maxExecutions, k);
    }
  }

  lemma {:induction false} OthersReachable(length: nat, maxExecutions: nat, n: nat)
    requires length > 0 && n < Max(1, maxExecutions)
    ensures Reachable(AfterOthers(length, maxExecutions, n), length, Some(maxExecutions), true)
  {
    hide Reachable;
    if n == 0 {
      FailuresReachable(length, maxExecutions, length);
      var s := AfterFailures(length, maxExecutions, length);
      StepReachable(s, TakeNode(0), length, Some(maxExecutions), true);
      assert Step(s, TakeNode(0)) == AfterOthers(length, maxExecutions, 0);
    } else {
      OthersReachable(length, maxExecutions, n - 1);
      var s := AfterOthers(length, maxExecutions, n - 1);
      CopiesLength(n - 1);
      StepReachable(s, TimerFired, length, Some(maxExecutions), true);
      var s1 := Step(s, TimerFired);
      assert s1.executions[n] == FRESH_EXECUTION;
      StepReachable(s1, TakeNode(n), length, Some(maxExecutions), true);
      var s2 := Step(s1, TakeNode(n));
      assert s2.executions == s.executions + [FRESH_EXECUTION.(result := Some(None))];
      OthersHarvested(s, s2, n);
      StepReachable(s2, Harvest(n), length, Some(maxExecutions), true);
      assert s.executions + [EMPTY_HANDED] == AfterOthers(length, maxExecutions, n).executions;
    }
  }

  /** Collecting an execution that found no node changes nothing else while another runs. */
  lemma OthersHarvested(s: System, s2: System, n: nat)
    requires |s.executions| == n > 0 && !s.executions[0].harvested && s2.speculates && s2.answer.None?
    requires s2.executions == s.executions + [FRESH_EXECUTION.(result := Some(None))]
    ensures Enabled(s2, Harvest(n))
    ensures Step(s2, Harvest(n)) == s2.(executions := s.executions + [EMPTY_HANDED])
  {
    var s' := s2.(executions := s2.executions[n := s2.executions[n].(harvested := true)]);
    assert s'.executions == s.executions + [EMPTY_HANDED];
    assert !s'.executions[0].harvested;
  }

  /** The case occurs for every plan that names a node, whatever number of executions is
      allowed: all nodes are unreachable for the first execution, the others find the plan
      used up, and the first one is collected last. The loop is left with nothing to wait for
      and no answer, although the error is known. */
  lemma StallHappens(length: nat, maxExecutions: nat)
    requires length > 0
    ensures exists s :: Reachable(s, length, Some(maxExecutions), true) && Stalled(s) && s.lastError == Some(Io)
  {
    hide Reachable;
    var n := Max(1, maxExecutions) - 1;
    OthersReachable(length, maxExecutions, n);
    CopiesLength(n);
    var s := AfterOthers(length, maxExecutions, n);
    StepReachable(s, TimerFired, length, Some(maxExecutions), true);
    var s1 := Step(s, TimerFired);
    assert s1 == s.(timerArmed := false);
    StepReachable(s1, Harvest(0), length, Some(maxExecutions), true);
    var s2 := Step(s1, Harvest(0));
    assert s2.answer.None? && s2.lastError == Some(Io) && AllHarvested(s2) && !s2.timerArmed;
    NothingEnabled(s2);
  }

  lemma NothingEnabled(s: System)
    requires s.answer.None? && AllHarvested(s) && !s.timerArmed && HarvestedHaveResults(s)
    ensures Stalled(s)
  {
    forall e
      ensures !Enabled(s, e)
    {
    }
  }

  //
  // Requests that always get an answer
  //

  /** With an empty plan no execution ever holds a node or an error. */
  ghost predicate NothingTried(s: System) {
    && s.lastError.None?
    && forall i :: 0 <= i < |s.executions| ==>
         && s.executions[i].node.None? && s.executions[i].failed.None?
         && (s.executions[i].result.Some? ==> s.executions[i].result.value.None?)
  }

  lemma NothingTriedKept(s: System, e: Event)
    requires NothingTried(s) && s.length == 0 && Enabled(s, e)
    ensures NothingTried(Step(s, e)) && Step(s, e).length == 0
  {
  }

  lemma {:induction false} EmptyPlanTriesNothing(
    states: seq<System>, events: seq<Event>, policy: Option<nat>, idempotent: bool, n: nat)
    requires IsRun(states, events, 0, policy, idempotent) && n <= |events|
    ensures NothingTried(states[n]) && states[n].length == 0
  {
    if n > 0 {
      EmptyPlanTriesNothing(states, events, policy, idempotent, n - 1);
      assert Enabled(states[n - 1], events[n - 1]) && states[n] == Step(states[n - 1], events[n - 1]);
      NothingTriedKept(states[n - 1], events[n - 1]);
    }
  }

  lemma NeverStalls(
    states: seq<System>, events: seq<Event>, length: nat, policy: Option<nat>, idempotent: bool)
    requires IsRun(states, events, length, policy, idempotent)
    requires policy.None? || !idempotent || length == 0
    ensures !Stalled(states[|events|])
  {
    var s := states[|events|];
    InvariantHolds(states, events, length, policy, idempotent, |events|);
    if length == 0 {
      EmptyPlanTriesNothing(states, events, policy, idempotent, |events|);
    }
    if s.answer.None? {
      StalledIff(s);
    }
  }

  /** A request can be left without an answer exactly when it speculates (a policy is given
      and it is idempotent) and its plan names at least one node. */
  lemma AnswerMissingIff(length: nat, policy: Option<nat>, idempotent: bool)
    ensures (exists states: seq<System>, events: seq<Event> ::
               IsRun(states, events, length, policy, idempotent) && Stalled(states[|events|]))
            <==> policy.Some? && idempotent && length > 0
  {
    hide Stalled;
    if policy.Some? && idempotent && length > 0 {
      StallHappens(length, policy.value);
      var s :| Reachable(s, length, policy, true) && Stalled(s);
      var states: seq<System>, events: seq<Event> :|
        IsRun(states, events, length, policy, true) && states[|events|] == s;
      assert IsRun(states, events, length, policy, idempotent) && Stalled(states[|events|]);
    } else {
      forall states: seq<System>, events: seq<Event> | IsRun(states, events, length, policy, idempotent)
        ensures !Stalled(states[|events|])
      {
        NeverStalls(states, events, length, policy, idempotent);
      }
    }
  }

  //
  // Which answer
  //

  /** The results of the executions collected so far, in the order of collection. */
  ghost function Collected(
    states: seq<System>, events: seq<Event>, length: nat, policy: Option<nat>, idempotent: bool, n: nat): seq<Option<Outcome>>
    requires IsRun(states, events, length, policy, idempotent) && n <= |events|
  {
    if n == 0 then []
    else
      assert Enabled(states[n - 1], events[n - 1]);
      Collected(states, events, length, policy, idempotent, n - 1)
      + if events[n - 1].Harvest? then [states[n - 1].executions[events[n - 1].i].result.value] else []
  }

  predicate OnlyRemembered(r: Option<Outcome>) { r == Some(Failure(Io)) || r == Some(Failure(Timeout)) }

  /** The latest I/O error or timeout among the collected results. */
  function LatestRemembered(c: seq<Option<Outcome>>): Option<Error> {
    if c == [] then None
    else if OnlyRemembered(c[|c| - 1]) then Some(c[|c| - 1].value.error)
    else LatestRemembered(c[..|c| - 1])
  }

  function OrGeneral(e: Option<Error>): Outcome { Failure(if e.Some? then e.value else General) }

  function HarvestCount(xs: seq<Execution>): nat {
    if xs == [] then 0 else HarvestCount(xs[..|xs| - 1]) + if xs[|xs| - 1].harvested then 1 else 0
  }

  lemma {:induction false} CountUpdate(xs: seq<Execution>, i: nat, x: Execution)
    requires i < |xs|
    ensures HarvestCount(xs[i := x])
            == HarvestCount(xs) + (if x.harvested then 1 else 0) - (if xs[i].harvested then 1 else 0)
  {
    var n := |xs| - 1;
    if i < n {
      CountUpdate(xs[..n], i, x);
      assert xs[i := x][..n] == xs[..n][i := x];
    } else {
      assert xs[i := x][..n] == xs[..n];
    }
  }

  lemma {:induction false} CountAll(xs: seq<Execution>)
    ensures HarvestCount(xs) <= |xs|
    ensures HarvestCount(xs) == |xs| <==> forall i :: 0 <= i < |xs| ==> xs[i].harvested
  {
    if xs != [] {
      var n := |xs| - 1;
      CountAll(xs[..n]);
      assert forall i :: 0 <= i < n ==> xs[..n][i] == xs[i];
    }
  }

  /** The state remembers what was collected: how many, and the latest error. */
  ghost predicate Remembers(s: System, c: seq<Option<Outcome>>) {
    && s.lastError == LatestRemembered(c) && |c| == HarvestCount(s.executions)
    && (!s.speculates ==> |s.executions| == 1)
  }

  lemma LatestSnoc(c: seq<Option<Outcome>>, r: Option<Outcome>)
    ensures LatestRemembered(c + [r]) == if OnlyRemembered(r) then Some(r.value.error) else LatestRemembered(c)
  {
    assert (c + [r])[..|c|] == c;
  }

  lemma RemembersStep(s: System, e: Event, c: seq<Option<Outcome>>)
    requires Enabled(s, e) && Remembers(s, c) && !e.Harvest? && (s.timerArmed ==> s.speculates)
    ensures Remembers(Step(s, e), c) && Step(s, e).answer.None?
  {
    hide LatestRemembered, HarvestCount, Taken, Tried;
    match e
    case TakeNode(i) =>
      NotYetHarvested(s.executions[i], s.next, s.length, Answered, s.idempotent);
      CountUpdate(s.executions, i, Taken(s.executions[i], s.next, s.length));
    case Attempted(i, a) =>
      NotYetHarvested(s.executions[i], s.next, s.length, a, s.idempotent);
      CountUpdate(s.executions, i, Tried(s.executions[i], a, s.idempotent));
    case TimerFired => CountFresh(s.executions);
  }

  lemma NotYetHarvested(x: Execution, next: nat, length: nat, a: Attempt, idempotent: bool)
    ensures Taken(x, next, length).harvested == x.harvested && Tried(x, a, idempotent).harvested == x.harvested
  {
    hide DefaultDecision;
  }

  lemma CountFresh(xs: seq<Execution>)
    ensures HarvestCount(xs + [FRESH_EXECUTION]) == HarvestCount(xs)
  {
    assert (xs + [FRESH_EXECUTION])[..|xs|] == xs;
  }

  /** What collecting one more result does, told from the results alone. */
  lemma HarvestStep(s: System, i: nat, c: seq<Option<Outcome>>)
    requires Enabled(s, Harvest(i)) && Remembers(s, c)
    ensures var r := s.executions[i].result.value;
      var s' := Step(s, Harvest(i));
      && (s.speculates ==> Remembers(s', c + [r]))
      && (!s.speculates ==> c == [] && s'.answer == Some(if r.Some? then r.value else Failure(General)))
      && (s.speculates && OnlyRemembered(r) ==> s'.answer.None?)
      && (s.speculates && r.Some? && !OnlyRemembered(r) ==> s'.answer == r)
      && (s.speculates && r.None? ==>
            s'.answer == if |c| + 1 == |s.executions| then Some(OrGeneral(LatestRemembered(c))) else None)
  {
    hide LatestRemembered, HarvestCount, AllHarvested;
    LatestSnoc(c, s.executions[i].result.value);
    OneMoreHarvested(s.executions, i);
    AllCounted(Marked(s, i));
  }

  /** The state with execution `i` marked as collected. */
  function Marked(s: System, i: nat): System
    requires i < |s.executions|
  {
    s.(executions := s.executions[i := s.executions[i].(harvested := true)])
  }

  lemma OneMoreHarvested(xs: seq<Execution>, i: nat)
    requires i < |xs| && !xs[i].harvested
    ensures HarvestCount(xs[i := xs[i].(harvested := true)]) == HarvestCount(xs) + 1 <= |xs|
  {
    CountUpdate(xs, i, xs[i].(harvested := true));
    CountAll(xs[i := xs[i].(harvested := true)]);
  }

  lemma AllCounted(s: System)
    ensures AllHarvested(s) <==> HarvestCount(s.executions) == |s.executions|
  {
    CountAll(s.executions);
  }

  /** In every state of every run the unanswered request remembers what was collected, and
      nothing collected so far decided it. */
  lemma {:induction false} RunRemembers(
    states: seq<System>, events: seq<Event>, length: nat, policy: Option<nat>, idempotent: bool, n: nat)
    requires IsRun(states, events, length, policy, idempotent) && n <= |events| && states[n].answer.None?
    ensures var c := Collected(states, events, length, policy, idempotent, n);
      && Remembers(states[n], c) && (!states[n].speculates ==> c == [])
      && forall j :: 0 <= j < |c| ==> OnlyRemembered(c[j]) || c[j].None?
  {
    hide Step, Remembers, LatestRemembered, HarvestCount, Good, Start;
    if n == 0 {
      StartRemembers(length, policy, idempotent);
    } else {
      var s, e := states[n - 1], events[n - 1];
      assert Enabled(s, e) && states[n] == Step(s, e);
      RunRemembers(states, events, length, policy, idempotent, n - 1);
      TimerSpeculates(states, events, length, policy, idempotent, n - 1);
      var c := Collected(states, events, length, policy, idempotent, n - 1);
      if e.Harvest? {
        HarvestStep(s, e.i, c);
        HarvestSpeculates(s, e.i);
      } else {
        assert c + [] == c;
        RemembersStep(s, e, c);
        StepSpeculates(s, e);
      }
    }
  }

  lemma StartRemembers(length: nat, policy: Option<nat>, idempotent: bool)
    ensures Remembers(Start(length, policy, idempotent), [])
  {
    assert [FRESH_EXECUTION][..0] == [];
  }

  lemma TimerSpeculates(
    states: seq<System>, events: seq<Event>, length: nat, policy: Option<nat>, idempotent: bool, n: nat)
    requires IsRun(states, events, length, policy, idempotent) && n <= |events|
    ensures (states[n].timerArmed ==> states[n].speculates) && (states[n].speculates <==> policy.Some? && idempotent)
    ensures states[n].length == length && states[n].idempotent == idempotent && states[n].next <= length
  {
    InvariantHolds(states, events, length, policy, idempotent, n);
    hide IsRun;
  }

  lemma StepSpeculates(s: System, e: Event)
    requires Enabled(s, e)
    ensures Step(s, e).speculates == s.speculates
  {
    if e.Harvest? {
      HarvestSpeculates(s, e.i);
    }
  }

  lemma HarvestSpeculates(s: System, i: nat)
    requires Enabled(s, Harvest(i))
    ensures Step(s, Harvest(i)).speculates == s.speculates
  {
    HarvestFacts(s, i);
    hide Harvested;
  }

  /** The answer of every answered run. A request that does not speculate gets the outcome of
      its one execution, and General only if that one found no node. A speculating one gets the
      first collected outcome that is not an I/O error or timeout; or, when the last execution
      collected found no node and none is left, the latest such error, and General without
      one. */
  lemma AnswerIs(
    states: seq<System>, events: seq<Event>, length: nat, policy: Option<nat>, idempotent: bool)
    requires IsRun(states, events, length, policy, idempotent) && states[|events|].answer.Some?
    ensures var s := states[|events|];
      var c := Collected(states, events, length, policy, idempotent, |events|);
      && c != []
      && var (before, r) := (c[..|c| - 1], c[|c| - 1]);
         && (!(policy.Some? && idempotent) ==> before == [] && s.answer == Some(if r.Some? then r.value else Failure(General)))
         && (policy.Some? && idempotent ==>
               && (forall j :: 0 <= j < |before| ==> OnlyRemembered(before[j]) || before[j].None?)
               && !OnlyRemembered(r)
               && (r.Some? ==> s.answer == r)
               && (r.None? ==> |c| == |s.executions| && s.answer == Some(OrGeneral(LatestRemembered(before)))))
  {
    var n := |events|;
    assert n > 0;
    hide Step, Remembers, LatestRemembered, HarvestCount, Good, Start;
    var s, e := states[n - 1], events[n - 1];
    assert Enabled(s, e) && states[n] == Step(s, e);
    RunRemembers(states, events, length, policy, idempotent, n - 1);
    TimerSpeculates(states, events, length, policy, idempotent, n - 1);
    var before := Collected(states, events, length, policy, idempotent, n - 1);
    if e.Harvest? {
      HarvestStep(s, e.i, before);
      TimerStep(s, e);
      var c := Collected(states, events, length, policy, idempotent, n);
      assert c[..|c| - 1] == before;
    } else {
      RemembersStep(s, e, before);
    }
  }

  /** Success is only ever reported after an execution that had it was collected. */
  lemma SuccessIsReal(
    states: seq<System>, events: seq<Event>, length: nat, policy: Option<nat>, idempotent: bool)
    requires IsRun(states, events, length, policy, idempotent) && states[|events|].answer == Some(Success)
    ensures Some(Success) in Collected(states, events, length, policy, idempotent, |events|)
  {
    AnswerIs(states, events, length, policy, idempotent);
    hide Collected, IsRun;
  }

  //
  // A request that does not speculate is the send loop
  //

  /** What the network did in a run, in order. */
  function AttemptsIn(events: seq<Event>): seq<Attempt> {
    if events == [] then []
    else
      AttemptsIn(events[..|events| - 1])
      + if events[|events| - 1].Attempted? then [events[|events| - 1].attempt] else []
  }

  ghost predicate Behaves(env: nat -> Attempt, attempts: seq<Attempt>) {
    forall k :: 0 <= k < |attempts| ==> env(k) == attempts[k]
  }

  lemma AttemptsSnoc(events: seq<Event>, n: nat)
    requires n < |events|
    ensures AttemptsIn(events[..n + 1])
            == AttemptsIn(events[..n]) + if events[n].Attempted? then [events[n].attempt] else []
  {
    assert events[..n + 1][..n] == events[..n];
  }

  lemma {:induction false} AttemptsPrefix(events: seq<Event>, n: nat)
    requires n <= |events|
    ensures AttemptsIn(events[..n]) <= AttemptsIn(events)
    decreases |events| - n
  {
    if n < |events| {
      AttemptsSnoc(events, n);
      AttemptsPrefix(events, n + 1);
    } else {
      assert events[..n] == events;
    }
  }

  lemma {:induction false} AloneOnTrack(
    states: seq<System>, events: seq<Event>, length: nat, policy: Option<nat>, idempotent: bool, n: nat, env: nat -> Attempt)
    requires IsRun(states, events, length, policy, idempotent) && n <= |events| && !(policy.Some? && idempotent)
    requires Behaves(env, AttemptsIn(events)) && states[n].answer.None?
    ensures var s := states[n];
      && |s.executions| == 1 && s.next <= length && s.length == length && s.idempotent == idempotent
      && RunAlone(s.executions[0], s.next, length, idempotent, env, |AttemptsIn(events[..n])|)
         == RunAlone(FRESH_EXECUTION, 0, length, idempotent, env, 0)
  {
    hide Step, Remembers, LatestRemembered, HarvestCount, Good, Start, RunAlone, Collected;
    TimerSpeculates(states, events, length, policy, idempotent, n);
    RunRemembers(states, events, length, policy, idempotent, n);
    if n == 0 {
      StartAlone(length, policy, idempotent);
      assert events[..0] == [];
    } else {
      var s, e := states[n - 1], events[n - 1];
      assert Enabled(s, e) && states[n] == Step(s, e);
      AloneOnTrack(states, events, length, policy, idempotent, n - 1, env);
      TimerSpeculates(states, events, length, policy, idempotent, n - 1);
      RunRemembers(states, events, length, policy, idempotent, n - 1);
      AttemptsSnoc(events, n - 1);
      AttemptsPrefix(events, n);
      hide IsRun, AttemptsIn;
      if e.Harvest? {
        HarvestStep(s, e.i, Collected(states, events, length, policy, idempotent, n - 1));
      } else {
        AloneStep(s, e, env, |AttemptsIn(events[..n - 1])|);
      }
    }
  }

  lemma StartAlone(length: nat, policy: Option<nat>, idempotent: bool)
    ensures var s := Start(length, policy, idempotent);
      s.executions == [FRESH_EXECUTION] && s.next == 0
  {
  }

  /** Every step but the last is one that the execution would take alone. */
  lemma AloneStep(s: System, e: Event, env: nat -> Attempt, k: nat)
    requires Enabled(s, e) && !e.Harvest? && !s.speculates && !s.timerArmed && |s.executions| == 1 && s.next <= s.length
    requires e.Attempted? ==> env(k) == e.attempt
    ensures var s' := Step(s, e);
      && |s'.executions| == 1 && s'.next <= s.length
      && RunAlone(s'.executions[0], s'.next, s.length, s.idempotent, env, if e.Attempted? then k + 1 else k)
         == RunAlone(s.executions[0], s.next, s.length, s.idempotent, env, k)
  {
    hide Taken, Tried;
    var x := s.executions[0];
    if e.TakeNode? {
      TakenOne(x, s.next, s.length);
    }
  }

  lemma TakenOne(x: Execution, next: nat, length: nat)
    ensures Taken(x, next, length).result.Some? <==> x.result.Some? || next >= length
  {
  }

  /** Without a policy, or if it is not idempotent, a request is answered with what the send
      loop returns for what the network did, and with General if that is nothing. */
  lemma SingleAnswerIsSendLoop(
    states: seq<System>, events: seq<Event>, length: nat, policy: Option<nat>, idempotent: bool, env: nat -> Attempt)
    requires IsRun(states, events, length, policy, idempotent) && states[|events|].answer.Some?
    requires !(policy.Some? && idempotent) && Behaves(env, AttemptsIn(events))
    ensures var run := Execute(0, length, NEW_SESSION, idempotent, env, 0, None);
      states[|events|].answer == Some(if run.result.Some? then run.result.value else Failure(General))
  {
    var n := |events|;
    assert n > 0;
    var s, e := states[n - 1], events[n - 1];
    assert Enabled(s, e) && states[n] == Step(s, e);
    RunRemembers(states, events, length, policy, idempotent, n - 1);
    TimerSpeculates(states, events, length, policy, idempotent, n - 1);
    AloneOnTrack(states, events, length, policy, idempotent, n - 1, env);
    ExecutionIsSendLoop(length, idempotent, env);
    var before := Collected(states, events, length, policy, idempotent, n - 1);
    if e.Harvest? {
      HarvestStep(s, e.i, before);
    } else {
      RemembersStep(s, e, before);
    }
  }
}
