/** Request execution: the default retry policy and the loop that walks a query plan. */
module Requests {
  import opened Options

  datatype ServerError =
    | Overloaded | ServerFault | Truncate | Unavailable | IsBootstrapping
    | ReadTimeout(received: int, blockFor: int, dataPresent: int)
    | WriteTimeout(batchLog: bool)
    | OtherServerError

  datatype Error = Io | General | Timeout | Server(kind: ServerError) | OtherError

  datatype Decision = RetrySameNode | RetryNextNode | DontRetry

  //
  // Retry policy
  //

  datatype Session = Session(unavailable: bool, readTimeout: bool, writeTimeout: bool)

  const NEW_SESSION: Session := Session(false, false, false)

  class DefaultRetrySession {
    var wasUnavailableRetry: bool
    var wasReadTimeoutRetry: bool
    var wasWriteTimeoutRetry: bool

    ghost function Value(): Session
      reads this
    {
      Session(wasUnavailableRetry, wasReadTimeoutRetry, wasWriteTimeoutRetry)
    }

    constructor ()
      ensures Value() == NEW_SESSION
    {
      wasUnavailableRetry, wasReadTimeoutRetry, wasWriteTimeoutRetry := false, false, false;
    }

    method Decide(error: Error, idempotent: bool) returns (d: Decision)
      modifies this
      ensures (d, Value()) == DefaultDecision(old(Value()), error, idempotent)
    {
      match error
      case Io => d := if idempotent then RetryNextNode else DontRetry;
      case General => d := if idempotent then RetryNextNode else DontRetry;
      case Server(Overloaded) => d := if idempotent then RetryNextNode else DontRetry;
      case Server(ServerFault) => d := if idempotent then RetryNextNode else DontRetry;
      case Server(Truncate) => d := if idempotent then RetryNextNode else DontRetry;
      case Server(Unavailable) =>
        if !wasUnavailableRetry {
          wasUnavailableRetry := true;
          d := RetryNextNode;
        } else {
          d := DontRetry;
        }
      case Server(ReadTimeout(received, blockFor, dataPresent)) =>
        if !wasReadTimeoutRetry && received >= blockFor && dataPresent != 0 {
          wasReadTimeoutRetry := true;
          d := RetrySameNode;
        } else {
          d := DontRetry;
        }
      case Server(WriteTimeout(batchLog)) =>
        if !wasWriteTimeoutRetry && idempotent && batchLog {
          wasWriteTimeoutRetry := true;
          d := RetrySameNode;
        } else {
          d := DontRetry;
        }
      case Server(IsBootstrapping) => d := RetryNextNode;
      case _ => d := DontRetry;
    }
  }

  /** Errors after which an idempotent request goes to the next node. */
  predicate MovesOnIfIdempotent(e: Error) {
    e.Io? || e.General? || e == Server(Overloaded) || e == Server(ServerFault) || e == Server(Truncate)
  }

  function DefaultDecision(s: Session, e: Error, idempotent: bool): (Decision, Session) {
    if MovesOnIfIdempotent(e) then (if idempotent then RetryNextNode else DontRetry, s)
    else if e == Server(Unavailable) && !s.unavailable then (RetryNextNode, s.(unavailable := true))
    else if e == Server(IsBootstrapping) then (RetryNextNode, s)
    else if e.Server? && e.kind.ReadTimeout? && !s.readTimeout
         && e.kind.received >= e.kind.blockFor && e.kind.dataPresent != 0 then
      (RetrySameNode, s.(readTimeout := true))
    else if e.Server? && e.kind.WriteTimeout? && !s.writeTimeout && idempotent && e.kind.batchLog then
      (RetrySameNode, s.(writeTimeout := true))
    else (DontRetry, s)
  }

  /** Retries on the same node so far. */
  function SameNodeRetries(s: Session): nat {
    (if s.readTimeout then 1 else 0) + (if s.writeTimeout then 1 else 0)
  }

  function SameNodeLimit(idempotent: bool): nat { if idempotent then 2 else 1 }

  /** Errors after which even a request that is not idempotent is sent again. */
  predicate SafeToResend(e: Error) {
    e.Server? && (e.kind.Unavailable? || e.kind.IsBootstrapping? || e.kind.ReadTimeout?)
  }

  /** What the policy promises of every decision: a same-node retry uses up one of two
      allowances, any other decision uses none, and a request that is not idempotent is
      only sent again after an error that shows it was not applied as a write. */
  lemma DecisionBudget(s: Session, e: Error, idempotent: bool)
    requires !idempotent ==> !s.writeTimeout
    ensures var (d, s') := DefaultDecision(s, e, idempotent);
      && SameNodeRetries(s') == SameNodeRetries(s) + (if d.RetrySameNode? then 1 else 0)
      && SameNodeRetries(s') <= SameNodeLimit(idempotent)
      && (!idempotent ==> !s'.writeTimeout)
      && (!idempotent && !d.DontRetry? ==> SafeToResend(e))
  {
  }

  //
  // One execution
  //

  datatype Attempt = ConnectFailed(error: Error) | Answered | WriteFailed(error: Error)

  datatype Outcome = Success | Failure(error: Error)

  /** An attempt on a plan position, and what the policy made of it. */
  datatype Record = Record(position: nat, attempt: Attempt, decision: Option<Decision>)

  datatype Run = Run(result: Option<Outcome>, trace: seq<Record>)

  function After(earlier: seq<Record>, r: Run): Run { Run(r.result, earlier + r.trace) }

  /** Meaning of the send loop from plan position `p` on, against the behaviour `env` of
      nodes and network, where `k` attempts were made before and `failed` is the latest
      connection error. */
  function Execute(p: nat, length: nat, s: Session, idempotent: bool, env: nat -> Attempt, k: nat, failed: Option<Error>): Run
    requires p <= length
    decreases length - p, 2 - SameNodeRetries(s)
  {
    if p == length then Run(if failed.Some? then Some(Failure(failed.value)) else None, [])
    else
      match env(k)
      case Answered => Run(Some(Success), [Record(p, env(k), None)])
      case ConnectFailed(error) =>
        After([Record(p, env(k), None)], Execute(p + 1, length, s, idempotent, env, k + 1, Some(error)))
      case WriteFailed(error) =>
        var (d, s') := DefaultDecision(s, error, idempotent);
        var r := [Record(p, env(k), Some(d))];
        match d
        case RetrySameNode => After(r, Execute(p, length, s', idempotent, env, k + 1, failed))
        case RetryNextNode => After(r, Execute(p + 1, length, s', idempotent, env, k + 1, failed))
        case DontRetry => Run(Some(Failure(error)), r)
  }

  lemma AfterTwice(a: seq<Record>, b: seq<Record>, r: Run)
    ensures After(a, After(b, r)) == After(a + b, r)
  {
    assert a + (b + r.trace) == (a + b) + r.trace;
  }

  /** `send_envelope`: nested loops over plan positions and attempts on one node. */
  method SendEnvelope(length: nat, idempotent: bool, session: DefaultRetrySession, env: nat -> Attempt)
    returns (result: Option<Outcome>, trace: seq<Record>)
    modifies session
    ensures Run(result, trace) == Execute(0, length, old(session.Value()), idempotent, env, 0, None)
  {
    hide DefaultDecision, SameNodeRetries;
    trace := [];
    var failed: Option<Error> := None;
    ghost var all := Execute(0, length, session.Value(), idempotent, env, 0, None);
    assert [] + all.trace == all.trace;
    for p := 0 to length
      invariant all == After(trace, Execute(p, length, session.Value(), idempotent, env, |trace|, failed))
    {
      while true
        invariant all == After(trace, Execute(p, length, session.Value(), idempotent, env, |trace|, failed))
        decreases 2 - SameNodeRetries(session.Value())
      {
        var attempt := env(|trace|);
        ghost var s := session.Value();
        match attempt
        case Answered =>
          trace := trace + [Record(p, attempt, None)];
          return Some(Success), trace;
        case ConnectFailed(error) =>
          AfterTwice(trace, [Record(p, attempt, None)], Execute(p + 1, length, s, idempotent, env, |trace| + 1, Some(error)));
          trace, failed := trace + [Record(p, attempt, None)], Some(error);
          break;
        case WriteFailed(error) =>
          var d := session.Decide(error, idempotent);
          SameNodeProgress(s, error, idempotent);
          var r := Record(p, attempt, Some(d));
          if d.DontRetry? {
            return Some(Failure(error)), trace + [r];
          }
          var next := if d.RetrySameNode? then p else p + 1;
          AfterTwice(trace, [r], Execute(next, length, session.Value(), idempotent, env, |trace| + 1, failed));
          trace := trace + [r];
          if d.RetryNextNode? { break; }
      }
    }
    assert trace + [] == trace;
    return if failed.Some? then Some(Failure(failed.value)) else None, trace;
  }

  function Writes(trace: seq<Record>): nat {
    if trace == [] then 0 else (if trace[0].attempt.ConnectFailed? then 0 else 1) + Writes(trace[1..])
  }

  lemma WritesCons(r: Record, trace: seq<Record>)
    ensures Writes([r] + trace) == (if r.attempt.ConnectFailed? then 0 else 1) + Writes(trace)
  {
    assert ([r] + trace)[1..] == trace;
  }

  /** At most one write per plan position, plus one for each same-node allowance left: two
      in all, or one if the request is not idempotent. */
  lemma {:induction false} WritesBounded(
    p: nat, length: nat, s: Session, idempotent: bool, env: nat -> Attempt, k: nat, failed: Option<Error>)
    requires p <= length && (!idempotent ==> !s.writeTimeout)
    ensures Writes(Execute(p, length, s, idempotent, env, k, failed).trace) + SameNodeRetries(s)
            <= length - p + SameNodeLimit(idempotent)
    decreases length - p, 2 - SameNodeRetries(s)
  {
    if p < length {
      match env(k)
      case Answered =>
        WritesCons(Record(p, env(k), None), []);
        assert [Record(p, env(k), None)] + [] == [Record(p, env(k), None)];
      case ConnectFailed(error) =>
        WritesBounded(p + 1, length, s, idempotent, env, k + 1, Some(error));
        WritesCons(Record(p, env(k), None), Execute(p + 1, length, s, idempotent, env, k + 1, Some(error)).trace);
      case WriteFailed(error) =>
        DecisionBudget(s, error, idempotent);
        var (d, s') := DefaultDecision(s, error, idempotent);
        var r := Record(p, env(k), Some(d));
        if d.DontRetry? {
          WritesCons(r, []);
          assert [r] + [] == [r];
        } else {
          var next := if d.RetrySameNode? then p else p + 1;
          hide DefaultDecision;
          WritesBounded(next, length, s', idempotent, env, k + 1, failed);
          WritesCons(r, Execute(next, length, s', idempotent, env, k + 1, failed).trace);
        }
    }
  }

  /** Everything before the last attempt failed, and a request that is not idempotent was
      only sent again after errors that show it was not applied. */
  ghost predicate ResentSafely(trace: seq<Record>, idempotent: bool) {
    forall i :: 0 <= i < |trace| - 1 ==>
      && !trace[i].attempt.Answered?
      && (!idempotent && trace[i].attempt.WriteFailed? ==> SafeToResend(trace[i].attempt.error))
  }

  lemma {:induction false} AlwaysResentSafely(
    p: nat, length: nat, s: Session, idempotent: bool, env: nat -> Attempt, k: nat, failed: Option<Error>)
    requires p <= length && (!idempotent ==> !s.writeTimeout)
    ensures ResentSafely(Execute(p, length, s, idempotent, env, k, failed).trace, idempotent)
    decreases length - p, 2 - SameNodeRetries(s)
  {
    if p < length {
      match env(k)
      case Answered =>
      case ConnectFailed(error) =>
        AlwaysResentSafely(p + 1, length, s, idempotent, env, k + 1, Some(error));
      case WriteFailed(error) =>
        DecisionBudget(s, error, idempotent);
        var (d, s') := DefaultDecision(s, error, idempotent);
        if !d.DontRetry? {
          var next := if d.RetrySameNode? then p else p + 1;
          hide DefaultDecision;
          AlwaysResentSafely(next, length, s', idempotent, env, k + 1, failed);
        }
    }
  }

  /** Every plan position from `p` on was given up with "retry on the next node". */
  ghost predicate AllMovedOn(trace: seq<Record>, p: nat, length: nat) {
    && (forall i :: 0 <= i < |trace| ==>
          trace[i].attempt.WriteFailed? && (trace[i].decision == Some(RetrySameNode) || trace[i].decision == Some(RetryNextNode)))
    && (forall q: nat :: p <= q < length ==> MovedOn(trace, q))
  }

  ghost predicate MovedOn(trace: seq<Record>, q: nat) {
    exists i :: 0 <= i < |trace| && trace[i].position == q && trace[i].decision == Some(RetryNextNode)
  }

  /** The result is absent exactly when no connection attempt failed and every node of the
      plan ended in "retry on the next node". */
  lemma {:induction false} NoResultIff(
    p: nat, length: nat, s: Session, idempotent: bool, env: nat -> Attempt, k: nat, failed: Option<Error>)
    requires p <= length
    ensures var r := Execute(p, length, s, idempotent, env, k, failed);
      r.result.None? <==> failed.None? && AllMovedOn(r.trace, p, length)
    decreases length - p, 2 - SameNodeRetries(s)
  {
    if p < length {
      var all := Execute(p, length, s, idempotent, env, k, failed).trace;
      match env(k)
      case Answered =>
        assert !all[0].attempt.WriteFailed?;
      case ConnectFailed(error) =>
        NoResultIff(p + 1, length, s, idempotent, env, k + 1, Some(error));
        assert !all[0].attempt.WriteFailed?;
      case WriteFailed(error) =>
        var (d, s') := DefaultDecision(s, error, idempotent);
        var r := Record(p, env(k), Some(d));
        if d.DontRetry? {
          assert all[0] == r;
        } else {
          var next := if d.RetrySameNode? then p else p + 1;
          var rest := Execute(next, length, s', idempotent, env, k + 1, failed).trace;
          assert all == [r] + rest;
          NoResultIff(next, length, s', idempotent, env, k + 1, failed);
          PositionsFrom(next, length, s', idempotent, env, k + 1, failed);
          hide Execute, DefaultDecision;
          MovedOnCons(r, rest, p, next, length);
        }
    }
  }

  lemma MovedOnCons(r: Record, rest: seq<Record>, p: nat, next: nat, length: nat)
    requires p < length && r.position == p && r.attempt.WriteFailed?
    requires r.decision == Some(if next == p then RetrySameNode else RetryNextNode) && (next == p || next == p + 1)
    requires forall i :: 0 <= i < |rest| ==> rest[i].position >= next
    ensures AllMovedOn([r] + rest, p, length) <==> AllMovedOn(rest, next, length)
  {
    var all := [r] + rest;
    assert forall i :: 0 <= i < |rest| ==> all[i + 1] == rest[i];
    if AllMovedOn(rest, next, length) {
      forall q: nat | p <= q < length
        ensures MovedOn(all, q)
      {
        if q < next {
          assert all[0].position == q;
        } else {
          assert MovedOn(rest, q);
          var i :| 0 <= i < |rest| && rest[i].position == q && rest[i].decision == Some(RetryNextNode);
          assert all[i + 1].position == q;
        }
      }
    }
    if AllMovedOn(all, p, length) {
      forall q: nat | next <= q < length
        ensures MovedOn(rest, q)
      {
        assert MovedOn(all, q);
        var i :| 0 <= i < |all| && all[i].position == q && all[i].decision == Some(RetryNextNode);
        assert i != 0;
        assert rest[i - 1].position == q;
      }
      forall i | 0 <= i < |rest|
        ensures rest[i].attempt.WriteFailed? && (rest[i].decision == Some(RetrySameNode) || rest[i].decision == Some(RetryNextNode))
      {
        assert all[i + 1] == rest[i];
      }
    }
  }

  lemma {:induction false} PositionsFrom(
    p: nat, length: nat, s: Session, idempotent: bool, env: nat -> Attempt, k: nat, failed: Option<Error>)
    requires p <= length
    ensures forall i :: 0 <= i < |Execute(p, length, s, idempotent, env, k, failed).trace| ==>
              p <= Execute(p, length, s, idempotent, env, k, failed).trace[i].position < length
    decreases length - p, 2 - SameNodeRetries(s)
  {
    if p < length {
      match env(k)
      case Answered =>
      case ConnectFailed(error) =>
        PositionsFrom(p + 1, length, s, idempotent, env, k + 1, Some(error));
      case WriteFailed(error) =>
        var (d, s') := DefaultDecision(s, error, idempotent);
        if !d.DontRetry? {
          var next := if d.RetrySameNode? then p else p + 1;
          PositionsFrom(next, length, s', idempotent, env, k + 1, failed);
        }
    }
  }

  /** The send loop as a whole, for every plan length and every behaviour of the network. */
  lemma SendLoopContract(length: nat, idempotent: bool, env: nat -> Attempt)
    ensures var r := Execute(0, length, NEW_SESSION, idempotent, env, 0, None);
      && Writes(r.trace) <= length + (if idempotent then 2 else 1)
      && ResentSafely(r.trace, idempotent)
      && (r.result.None? <==> AllMovedOn(r.trace, 0, length))
  {
    hide Execute;
    WritesBounded(0, length, NEW_SESSION, idempotent, env, 0, None);
    AlwaysResentSafely(0, length, NEW_SESSION, idempotent, env, 0, None);
    NoResultIff(0, length, NEW_SESSION, idempotent, env, 0, None);
  }

  //
  // Runs without the session: what happened before decides what happens next
  //

  ghost predicate SawUnavailable(before: seq<Record>) {
    exists j :: 0 <= j < |before| && before[j].attempt == WriteFailed(Server(Unavailable))
  }

  predicate IsReadTimeout(r: Record) { r.attempt.WriteFailed? && r.attempt.error.Server? && r.attempt.error.kind.ReadTimeout? }
  predicate IsWriteTimeout(r: Record) { r.attempt.WriteFailed? && r.attempt.error.Server? && r.attempt.error.kind.WriteTimeout? }

  /** A read timeout already kept the request on its node. */
  ghost predicate SawReadRetry(before: seq<Record>) {
    exists j :: 0 <= j < |before| && IsReadTimeout(before[j]) && before[j].decision == Some(RetrySameNode)
  }

  ghost predicate SawWriteRetry(before: seq<Record>) {
    exists j :: 0 <= j < |before| && IsWriteTimeout(before[j]) && before[j].decision == Some(RetrySameNode)
  }

  /** The request goes to the next node: after an error that says nothing was done, if a
      repetition does no harm, after the first Unavailable, and after IsBootstrapping. */
  ghost predicate MovesOn(before: seq<Record>, e: Error, idempotent: bool) {
    match e
    case Io => idempotent
    case General => idempotent
    case Server(Overloaded) => idempotent
    case Server(ServerFault) => idempotent
    case Server(Truncate) => idempotent
    case Server(Unavailable) => !SawUnavailable(before)
    case Server(IsBootstrapping) => true
    case _ => false
  }

  /** The request is sent to the same node once more: after the first read timeout for which
      enough replicas answered with data, and after the first write timeout of an idempotent
      batch log write. */
  ghost predicate Stays(before: seq<Record>, e: Error, idempotent: bool) {
    match e
    case Server(ReadTimeout(received, blockFor, dataPresent)) =>
      received >= blockFor && dataPresent != 0 && !SawReadRetry(before)
    case Server(WriteTimeout(batchLog)) => idempotent && batchLog && !SawWriteRetry(before)
    case _ => false
  }

  /** The decision on a record after the records before it, both ways. */
  ghost predicate RightDecision(before: seq<Record>, r: Record, idempotent: bool) {
    match r.attempt
    case WriteFailed(e) =>
      && r.decision.Some?
      && (r.decision.value.RetryNextNode? <==> MovesOn(before, e, idempotent))
      && (r.decision.value.RetrySameNode? <==> Stays(before, e, idempotent))
    case _ => r.decision.None?
  }

  predicate Ends(r: Record) { r.attempt.Answered? || r.decision == Some(DontRetry) }

  /** The plan position after a record. */
  function NextPosition(r: Record): nat { if r.decision == Some(RetrySameNode) then r.position else r.position + 1 }

  function PositionAfter(t: seq<Record>): nat { if t == [] then 0 else NextPosition(t[|t| - 1]) }

  function LatestConnectError(t: seq<Record>): Option<Error> {
    if t == [] then None
    else if t[|t| - 1].attempt.ConnectFailed? then Some(t[|t| - 1].attempt.error)
    else LatestConnectError(t[..|t| - 1])
  }

  /** Record `i` is the i-th thing the network does, at the position the record before it
      leads to, with the right decision; nothing before it ended the loop. */
  ghost predicate RightRecord(t: seq<Record>, i: nat, length: nat, idempotent: bool, env: nat -> Attempt)
    requires i < |t|
  {
    && t[i].attempt == env(i) && t[i].position == PositionAfter(t[..i]) < length
    && RightDecision(t[..i], t[i], idempotent)
    && (i > 0 ==> !Ends(t[i - 1]))
  }

  /** A whole run of the send loop. */
  ghost predicate IsSendRun(run: Run, length: nat, idempotent: bool, env: nat -> Attempt) {
    var t := run.trace;
    && (forall i :: 0 <= i < |t| ==> RightRecord(t, i, length, idempotent, env))
    && if t != [] && Ends(t[|t| - 1]) then
         run.result == Some(if t[|t| - 1].attempt.Answered? then Success else Failure(t[|t| - 1].attempt.error))
       else
         && PositionAfter(t) == length
         && run.result == (if LatestConnectError(t).Some? then Some(Failure(LatestConnectError(t).value)) else None)
  }

  /** The session is a summary of the records so far. */
  ghost predicate Summarizes(s: Session, t: seq<Record>) {
    && (s.unavailable <==> SawUnavailable(t))
    && (s.readTimeout <==> SawReadRetry(t))
    && (s.writeTimeout <==> SawWriteRetry(t))
  }

  ghost predicate SoFar(t: seq<Record>, length: nat, idempotent: bool, env: nat -> Attempt) {
    && (forall i :: 0 <= i < |t| ==> RightRecord(t, i, length, idempotent, env))
    && (t != [] ==> !Ends(t[|t| - 1]))
  }

  lemma SawMore(t: seq<Record>, r: Record)
    ensures SawUnavailable(t + [r]) <==> SawUnavailable(t) || r.attempt == WriteFailed(Server(Unavailable))
    ensures SawReadRetry(t + [r]) <==> SawReadRetry(t) || (IsReadTimeout(r) && r.decision == Some(RetrySameNode))
    ensures SawWriteRetry(t + [r]) <==> SawWriteRetry(t) || (IsWriteTimeout(r) && r.decision == Some(RetrySameNode))
  {
    var all := t + [r];
    assert all[|t|] == r && forall j :: 0 <= j < |t| ==> all[j] == t[j];
    if SawUnavailable(t) {
      var j :| 0 <= j < |t| && t[j].attempt == WriteFailed(Server(Unavailable));
      assert all[j].attempt == WriteFailed(Server(Unavailable));
    }
    if SawReadRetry(t) {
      var j :| 0 <= j < |t| && IsReadTimeout(t[j]) && t[j].decision == Some(RetrySameNode);
      assert IsReadTimeout(all[j]);
    }
    if SawWriteRetry(t) {
      var j :| 0 <= j < |t| && IsWriteTimeout(t[j]) && t[j].decision == Some(RetrySameNode);
      assert IsWriteTimeout(all[j]);
    }
  }

  lemma DecisionIsRight(s: Session, t: seq<Record>, p: nat, e: Error, idempotent: bool)
    requires Summarizes(s, t)
    ensures var (d, s') := DefaultDecision(s, e, idempotent);
      var r := Record(p, WriteFailed(e), Some(d));
      RightDecision(t, r, idempotent) && (!d.DontRetry? ==> Summarizes(s', t + [r]))
  {
    var (d, s') := DefaultDecision(s, e, idempotent);
    SawMore(t, Record(p, WriteFailed(e), Some(d)));
    hide SawUnavailable, SawReadRetry, SawWriteRetry;
  }

  lemma Recorded(t: seq<Record>, r: Record, length: nat, idempotent: bool, env: nat -> Attempt)
    requires SoFar(t, length, idempotent, env) && r.attempt == env(|t|) && r.position == PositionAfter(t) < length
    requires RightDecision(t, r, idempotent)
    ensures forall i :: 0 <= i < |t| + 1 ==> RightRecord(t + [r], i, length, idempotent, env)
    ensures PositionAfter(t + [r]) == NextPosition(r)
    ensures LatestConnectError(t + [r]) == if r.attempt.ConnectFailed? then Some(r.attempt.error) else LatestConnectError(t)
  {
    hide RightDecision;
    var all := t + [r];
    assert all[..|t|] == t;
    forall i | 0 <= i < |all|
      ensures RightRecord(all, i, length, idempotent, env)
    {
      if i < |t| {
        assert RightRecord(t, i, length, idempotent, env);
        assert all[..i] == t[..i];
      }
    }
  }

  lemma GoneOn(t: seq<Record>, r: Record, length: nat, idempotent: bool, env: nat -> Attempt)
    requires SoFar(t, length, idempotent, env) && r.attempt == env(|t|) && r.position == PositionAfter(t) < length
    requires RightDecision(t, r, idempotent) && !Ends(r)
    ensures SoFar(t + [r], length, idempotent, env) && PositionAfter(t + [r]) == NextPosition(r)
    ensures LatestConnectError(t + [r]) == if r.attempt.ConnectFailed? then Some(r.attempt.error) else LatestConnectError(t)
  {
    hide RightDecision, RightRecord, LatestConnectError, PositionAfter;
    Recorded(t, r, length, idempotent, env);
  }

  lemma Ended(t: seq<Record>, r: Record, length: nat, idempotent: bool, env: nat -> Attempt)
    requires SoFar(t, length, idempotent, env) && r.attempt == env(|t|) && r.position == PositionAfter(t) < length
    requires RightDecision(t, r, idempotent) && Ends(r)
    ensures IsSendRun(After(t, Run(Some(if r.attempt.Answered? then Success else Failure(r.attempt.error)), [r])),
                      length, idempotent, env)
  {
    hide RightDecision, RightRecord, LatestConnectError, PositionAfter;
    Recorded(t, r, length, idempotent, env);
  }

  lemma UsedUp(t: seq<Record>, length: nat, idempotent: bool, env: nat -> Attempt)
    requires SoFar(t, length, idempotent, env) && PositionAfter(t) == length
    ensures var failed := LatestConnectError(t);
      IsSendRun(After(t, Run(if failed.Some? then Some(Failure(failed.value)) else None, [])), length, idempotent, env)
  {
    hide RightRecord, LatestConnectError, PositionAfter;
    assert t + [] == t;
  }

  lemma {:induction false} RunsAreRight(
    t: seq<Record>, p: nat, length: nat, s: Session, idempotent: bool, env: nat -> Attempt, failed: Option<Error>)
    requires SoFar(t, length, idempotent, env) && Summarizes(s, t)
    requires p == PositionAfter(t) <= length && failed == LatestConnectError(t)
    ensures IsSendRun(After(t, Execute(p, length, s, idempotent, env, |t|, failed)), length, idempotent, env)
    decreases length - p, 2 - SameNodeRetries(s)
  {
    hide SoFar, IsSendRun, PositionAfter, LatestConnectError, Summarizes, DefaultDecision, SameNodeRetries, After;
    if p == length {
      UsedUp(t, length, idempotent, env);
    } else {
      match env(|t|)
      case Answered =>
        Ended(t, Record(p, env(|t|), None), length, idempotent, env);
      case ConnectFailed(error) =>
        var r := Record(p, env(|t|), None);
        GoneOn(t, r, length, idempotent, env);
        SummarizesMore(s, t, r);
        RunsAreRight(t + [r], p + 1, length, s, idempotent, env, Some(error));
        AfterTwice(t, [r], Execute(p + 1, length, s, idempotent, env, |t| + 1, Some(error)));
      case WriteFailed(error) =>
        var (d, s') := DefaultDecision(s, error, idempotent);
        var r := Record(p, env(|t|), Some(d));
        DecisionIsRight(s, t, p, error, idempotent);
        hide RightDecision;
        if d.DontRetry? {
          Ended(t, r, length, idempotent, env);
        } else {
          SameNodeProgress(s, error, idempotent);
          GoneOn(t, r, length, idempotent, env);
          var next := if d.RetrySameNode? then p else p + 1;
          RunsAreRight(t + [r], next, length, s', idempotent, env, failed);
          AfterTwice(t, [r], Execute(next, length, s', idempotent, env, |t| + 1, failed));
        }
    }
  }

  lemma SameNodeProgress(s: Session, e: Error, idempotent: bool)
    ensures var (d, s') := DefaultDecision(s, e, idempotent);
      d.RetrySameNode? ==> SameNodeRetries(s) < SameNodeRetries(s') <= 2
  {
  }

  lemma SummarizesMore(s: Session, t: seq<Record>, r: Record)
    requires Summarizes(s, t) && r.attempt.ConnectFailed?
    ensures Summarizes(s, t + [r])
  {
    SawMore(t, r);
    hide SawUnavailable, SawReadRetry, SawWriteRetry;
  }

  /** The send loop is this and nothing else: its run under the default policy meets the
      description above, which determines it. */
  lemma ExecuteIff(length: nat, idempotent: bool, env: nat -> Attempt, run: Run)
    ensures IsSendRun(run, length, idempotent, env) <==> run == Execute(0, length, NEW_SESSION, idempotent, env, 0, None)
  {
    hide Execute;
    var all := Execute(0, length, NEW_SESSION, idempotent, env, 0, None);
    RunsAreRight([], 0, length, NEW_SESSION, idempotent, env, None);
    assert [] + all.trace == all.trace;
    if IsSendRun(run, length, idempotent, env) {
      OneRun(run, all, length, idempotent, env);
    }
  }

  /** Two runs agree as far as both go ... */
  lemma {:induction false} SamePrefix(a: Run, b: Run, length: nat, idempotent: bool, env: nat -> Attempt, n: nat)
    requires IsSendRun(a, length, idempotent, env) && IsSendRun(b, length, idempotent, env)
    requires n <= |a.trace| && n <= |b.trace|
    ensures a.trace[..n] == b.trace[..n]
  {
    if n > 0 {
      SamePrefix(a, b, length, idempotent, env, n - 1);
      var s, t := a.trace, b.trace;
      assert RightRecord(s, n - 1, length, idempotent, env) && RightRecord(t, n - 1, length, idempotent, env);
      assert s[..n] == s[..n - 1] + [s[n - 1]] && t[..n] == t[..n - 1] + [t[n - 1]];
      hide SawUnavailable, SawReadRetry, SawWriteRetry;
    }
  }

  /** ... and neither goes on where the other stops. */
  lemma NotLonger(a: Run, b: Run, length: nat, idempotent: bool, env: nat -> Attempt)
    requires IsSendRun(a, length, idempotent, env) && IsSendRun(b, length, idempotent, env)
    ensures |a.trace| >= |b.trace|
  {
    hide RightRecord;
    var n := |a.trace|;
    assert a.trace[..n] == a.trace;
    if n < |b.trace| {
      SamePrefix(a, b, length, idempotent, env, n);
      GoesOn(b, length, idempotent, env, n);
    }
  }

  lemma GoesOn(run: Run, length: nat, idempotent: bool, env: nat -> Attempt, n: nat)
    requires IsSendRun(run, length, idempotent, env) && n < |run.trace|
    ensures PositionAfter(run.trace[..n]) < length && (n > 0 ==> !Ends(run.trace[..n][n - 1]))
  {
    assert RightRecord(run.trace, n, length, idempotent, env);
    hide RightDecision;
  }

  lemma OneRun(a: Run, b: Run, length: nat, idempotent: bool, env: nat -> Attempt)
    requires IsSendRun(a, length, idempotent, env) && IsSendRun(b, length, idempotent, env)
    ensures a == b
  {
    NotLonger(a, b, length, idempotent, env);
    NotLonger(b, a, length, idempotent, env);
    SamePrefix(a, b, length, idempotent, env, |a.trace|);
    assert a.trace[..|a.trace|] == a.trace && b.trace[..|b.trace|] == b.trace;
  }
}
