/** Topology-aware query plans: replicas first, then the other nodes in round-robin order. */
module QueryPlan {
  import opened Options
  import opened Topology
  import opened Replicas
  import opened Metadata

  ghost predicate Same(a: seq<Node>, b: seq<Node>) { multiset(a) == multiset(b) }

  lemma SameMembers(a: seq<Node>, b: seq<Node>)
    requires Same(a, b)
    ensures forall n :: n in a <==> n in b
    ensures |a| == |b|
  {
    forall n
      ensures n in a <==> n in b
    {
      assert n in a <==> n in multiset(a);
      assert n in b <==> n in multiset(b);
    }
    assert |multiset(a)| == |a| && |multiset(b)| == |b|;
  }

  function Filter(s: seq<Node>, p: Node -> bool): (r: seq<Node>)
    ensures forall n :: n in r <==> n in s && p(n)
    ensures |r| <= |s|
  {
    if s == [] then []
    else
      var r := Filter(s[..|s| - 1], p) + (if p(s[|s| - 1]) then [s[|s| - 1]] else []);
      assert s == s[..|s| - 1] + [s[|s| - 1]];
      r
  }

  lemma {:induction false} FilterCount(s: seq<Node>, p: Node -> bool, n: Node)
    ensures multiset(Filter(s, p))[n] == if p(n) then multiset(s)[n] else 0
  {
    if s != [] {
      var k := |s| - 1;
      FilterCount(s[..k], p, n);
      assert s == s[..k] + [s[k]];
    }
  }

  function Capped(s: seq<Node>, cap: nat): seq<Node> { if |s| <= cap then s else s[..cap] }

  predicate Unignored(n: Node) { !n.IsIgnored() }
  predicate UnignoredLocal(n: Node) { !n.IsIgnored() && n.IsLocal() }
  predicate UnignoredRemote(n: Node) { !n.IsIgnored() && n.IsRemote() }

  /** A shuffle is some permutation; callers rely on nothing else. */
  method Shuffle(s: seq<Node>) returns (r: seq<Node>)
    ensures Same(r, s)
  {
    r := s;
  }

  predicate LocalsFirst(s: seq<Node>) {
    forall i, j :: 0 <= i < j < |s| && s[j].IsLocal() ==> s[i].IsLocal()
  }

  /** The unstable sort with the comparator that puts local nodes in front: some
      permutation with the local nodes first. */
  method SortLocalFirst(s: seq<Node>) returns (r: seq<Node>)
    ensures Same(r, s) && LocalsFirst(r)
  {
    var locals, others := [], [];
    for i := 0 to |s|
      invariant multiset(locals + others) == multiset(s[..i])
      invariant forall n :: n in locals ==> n.IsLocal()
      invariant forall n :: n in others ==> !n.IsLocal()
    {
      assert s[..i + 1] == s[..i] + [s[i]];
      if s[i].IsLocal() {
        locals := locals + [s[i]];
      } else {
        others := others + [s[i]];
      }
    }
    assert s[..|s|] == s;
    r := locals + others;
  }

  //
  // De-duplication
  //

  function Addresses(s: seq<Node>): set<nat> { set n | n in s :: n.address }

  /** `unique_by(address)` for the nodes after those whose addresses are in `seen`. */
  function UniqueAfter(seen: set<nat>, s: seq<Node>): (r: seq<Node>)
    ensures forall n :: n in r ==> n in s && n.address !in seen
    ensures |r| <= |s|
    decreases |s|
  {
    if s == [] then []
    else if s[0].address in seen then UniqueAfter(seen, s[1..])
    else [s[0]] + UniqueAfter(seen + {s[0].address}, s[1..])
  }

  function Unique(s: seq<Node>): seq<Node> { UniqueAfter({}, s) }

  ghost predicate NoAddressTwice(s: seq<Node>) {
    forall i, j :: 0 <= i < j < |s| ==> s[i].address != s[j].address
  }

  /** Whether an address is listed twice does not depend on the order. */
  lemma NoAddressTwiceIff(s: seq<Node>)
    ensures NoAddressTwice(s) <==>
      && (forall n :: n in s ==> multiset(s)[n] <= 1)
      && (forall m, n :: m in s && n in s && m.address == n.address ==> m == n)
  {
    if NoAddressTwice(s) {
      forall n | n in s
        ensures multiset(s)[n] <= 1
      {
        OnceOnly(s, n);
      }
    } else {
      var i, j :| 0 <= i < j < |s| && s[i].address == s[j].address;
      assert s[i] in s && s[j] in s;
      if s[i] == s[j] {
        TwiceAtLeast(s, i, j);
      }
    }
  }

  lemma OnceOnly(s: seq<Node>, n: Node)
    requires NoAddressTwice(s) && n in s
    ensures multiset(s)[n] <= 1
  {
    var i :| 0 <= i < |s| && s[i] == n;
    var before, after := s[..i], s[i + 1..];
    assert s == before + [n] + after;
    assert n !in before && n !in after;
    assert multiset(s) == multiset(before) + multiset([n]) + multiset(after);
  }

  lemma TwiceAtLeast(s: seq<Node>, i: nat, j: nat)
    requires i < j < |s| && s[i] == s[j]
    ensures multiset(s)[s[i]] >= 2
  {
    var before, after := s[..j], s[j..];
    assert s == before + after;
    assert before[i] == s[i] && after[0] == s[j];
    assert s[i] in multiset(before) && s[i] in multiset(after);
    assert multiset(s) == multiset(before) + multiset(after);
  }

  lemma SameRepeats(a: seq<Node>, b: seq<Node>)
    requires Same(a, b)
    ensures NoAddressTwice(a) <==> NoAddressTwice(b)
  {
    SameMembers(a, b);
    NoAddressTwiceIff(a);
    NoAddressTwiceIff(b);
    hide NoAddressTwice;
  }

  /** No two of the nodes that meet `p` share an address. */
  ghost predicate Distinct(s: seq<Node>, p: Node -> bool) {
    forall i, j :: 0 <= i < j < |s| && p(s[i]) && p(s[j]) ==> s[i].address != s[j].address
  }

  lemma {:induction false} FilterRepeats(s: seq<Node>, p: Node -> bool)
    ensures NoAddressTwice(Filter(s, p)) <==> Distinct(s, p)
  {
    if s == [] {
      assert NoAddressTwice([]) && Distinct(s, p);
    } else {
      hide Distinct, NoAddressTwice, Filter;
      var front, x := s[..|s| - 1], s[|s| - 1];
      assert s == front + [x];
      FilterRepeats(front, p);
      FilterSnoc(front, x, p);
      LastRepeats(Filter(front, p), front, p, x);
      LastDistinct(front, p, x);
    }
  }

  lemma FilterSnoc(s: seq<Node>, x: Node, p: Node -> bool)
    ensures Filter(s + [x], p) == if p(x) then Filter(s, p) + [x] else Filter(s, p)
  {
    assert (s + [x])[..|s|] == s;
  }

  lemma LastDistinct(s: seq<Node>, p: Node -> bool, x: Node)
    ensures Distinct(s + [x], p) <==>
      Distinct(s, p) && (p(x) ==> forall i :: 0 <= i < |s| && p(s[i]) ==> s[i].address != x.address)
  {
    var all := s + [x];
    assert all[|s|] == x && forall i :: 0 <= i < |s| ==> all[i] == s[i];
    if Distinct(all, p) {
      forall i, j | 0 <= i < j < |s| && p(s[i]) && p(s[j])
        ensures s[i].address != s[j].address
      {
        assert all[i] == s[i] && all[j] == s[j];
      }
    }
  }

  lemma LastRepeats(front: seq<Node>, s: seq<Node>, p: Node -> bool, x: Node)
    requires forall n :: n in front <==> n in s && p(n)
    ensures NoAddressTwice(front + [x]) <==>
      NoAddressTwice(front) && forall i :: 0 <= i < |s| && p(s[i]) ==> s[i].address != x.address
  {
    var all := front + [x];
    if NoAddressTwice(all) {
      forall i, j | 0 <= i < j < |front|
        ensures front[i].address != front[j].address
      {
        assert all[i] == front[i] && all[j] == front[j];
      }
      forall i | 0 <= i < |s| && p(s[i])
        ensures s[i].address != x.address
      {
        assert s[i] in front;
        var j :| 0 <= j < |front| && front[j] == s[i];
        assert all[j] == s[i] && all[|front|] == x;
      }
    } else if NoAddressTwice(front) {
      var i, j :| 0 <= i < j < |all| && all[i].address == all[j].address;
      assert j == |front| && all[i] == front[i] && front[i] in front;
      var m :| 0 <= m < |s| && s[m] == front[i];
    }
  }

  lemma {:induction false} UniqueHasNoRepeats(seen: set<nat>, s: seq<Node>)
    ensures NoAddressTwice(UniqueAfter(seen, s))
    ensures Addresses(UniqueAfter(seen, s)) == Addresses(s) - seen
    decreases |s|
  {
    if s != [] {
      assert s == [s[0]] + s[1..];
      var seen' := if s[0].address in seen then seen else seen + {s[0].address};
      UniqueHasNoRepeats(seen', s[1..]);
      AddressesCons(s[0], s[1..]);
      if s[0].address !in seen {
        AddressesCons(s[0], UniqueAfter(seen', s[1..]));
      }
    }
  }

  lemma AddressesCons(x: Node, s: seq<Node>)
    ensures Addresses([x] + s) == {x.address} + Addresses(s)
  {
    assert x in [x] + s;
    assert forall n :: n in s ==> n in [x] + s;
  }

  lemma {:induction false} UniqueConcat(seen: set<nat>, a: seq<Node>, b: seq<Node>)
    ensures UniqueAfter(seen, a + b) == UniqueAfter(seen, a) + UniqueAfter(seen + Addresses(a), b)
    decreases |a|
  {
    if a == [] {
      assert a + b == b && seen + Addresses(a) == seen;
    } else {
      assert (a + b)[0] == a[0] && (a + b)[1..] == a[1..] + b;
      assert a == [a[0]] + a[1..];
      AddressesCons(a[0], a[1..]);
      var seen' := seen + {a[0].address};
      assert a[0].address in seen ==> seen' == seen;
      UniqueConcat(seen', a[1..], b);
      assert seen' + Addresses(a[1..]) == seen + Addresses(a);
    }
  }

  //
  // The strategy
  //

  function Rotated(s: seq<Node>, k: nat): (r: seq<Node>)
    requires k <= |s|
  {
    s[k..] + s[..k]
  }

  lemma RotatedMembers(s: seq<Node>, k: nat)
    requires k <= |s|
    ensures Same(Rotated(s, k), s) && (forall n :: n in Rotated(s, k) <==> n in s)
  {
    assert s == s[..k] + s[k..];
    SameMembers(Rotated(s, k), s);
  }

  /** The parts of a plan, in order. */
  datatype Sections = Sections(
    localReplicas: seq<Node>, remoteReplicas: seq<Node>, localNodes: seq<Node>, remoteNodes: seq<Node>)
  {
    function Joined(): seq<Node> { localReplicas + remoteReplicas + localNodes + remoteNodes }
  }

  /** What the sections hold: the replicas that are not ignored, as often as they were
      selected, all local nodes that are not ignored, and the first `cap` remote nodes that
      are not ignored, each section in some order. */
  ghost predicate Proper(s: Sections, replicas: seq<Node>, nodes: seq<Node>, cap: nat) {
    && Same(s.localReplicas, Filter(replicas, UnignoredLocal))
    && Same(s.remoteReplicas, Filter(replicas, UnignoredRemote))
    && Same(s.localNodes, Filter(nodes, UnignoredLocal))
    && Same(s.remoteNodes, Capped(Filter(nodes, UnignoredRemote), cap))
  }

  lemma ProperMembers(s: Sections, replicas: seq<Node>, nodes: seq<Node>, cap: nat)
    requires Proper(s, replicas, nodes, cap)
    ensures forall n :: n in s.localReplicas <==> n in replicas && UnignoredLocal(n)
    ensures forall n :: n in s.remoteReplicas <==> n in replicas && UnignoredRemote(n)
    ensures forall n :: n in s.localNodes <==> n in nodes && UnignoredLocal(n)
    ensures forall n :: n in s.remoteNodes ==> n in nodes && UnignoredRemote(n)
    ensures |s.remoteNodes| <= cap
  {
    hide Same, Filter;
    SameMembers(s.localReplicas, Filter(replicas, UnignoredLocal));
    SameMembers(s.remoteReplicas, Filter(replicas, UnignoredRemote));
    SameMembers(s.localNodes, Filter(nodes, UnignoredLocal));
    SameMembers(s.remoteNodes, Capped(Filter(nodes, UnignoredRemote), cap));
  }

  /** A plan for a network-topology keyspace: four sections in order. */
  ghost predicate NetworkShape(plan: seq<Node>, replicas: seq<Node>, nodes: seq<Node>, cap: nat, deduped: bool) {
    exists s: Sections :: Proper(s, replicas, nodes, cap) && plan == Final(s, deduped)
  }

  function Final(s: Sections, deduped: bool): seq<Node> { if deduped then Unique(s.Joined()) else s.Joined() }

  /** A plan for any other keyspace: replicas that are not ignored, then all such nodes. */
  ghost predicate SimpleShape(plan: seq<Node>, walk: seq<Node>, nodes: seq<Node>) {
    exists front, rest :: SimpleParts(plan, front, rest, walk, nodes)
  }

  ghost predicate SimpleParts(plan: seq<Node>, front: seq<Node>, rest: seq<Node>, walk: seq<Node>, nodes: seq<Node>) {
    Same(front, Filter(walk, Unignored)) && Same(rest, Filter(nodes, Unignored)) && plan == Unique(front + rest)
  }

  /** What a plan looks like for a request, by the strategy of its keyspace. */
  ghost predicate PlanShape(
    plan: seq<Node>, m: Metadata, order: seq<Token>, nodes: seq<Node>, token: Option<Token>, keyspace: Option<string>,
    cap: nat, deduped: bool)
    requires forall t :: t in order ==> t in m.ring
  {
    if token.None? || keyspace.None? || keyspace.value !in m.keyspaces then Same(plan, Filter(nodes, UnignoredLocal))
    else
      match m.keyspaces[keyspace.value]
      case SimpleStrategy(factor) => SimpleShape(plan, NodesOf(m.ring, CappedWalk(order, token.value, factor)), nodes)
      case NetworkTopologyStrategy(factors) =>
        var replicas := Selected(WalkNodes(order, m.ring, token.value), factors, m.datacenters);
        NetworkShape(plan, replicas, nodes, cap, deduped)
      case OtherStrategy => SimpleShape(plan, NodesOf(m.ring, CappedWalk(order, token.value, 1)), nodes)
  }

  class TopologyAwareStrategy {
    const maxNodesPerRemoteDc: Option<nat>
    const allowDcFailoverForLocalCl: bool
    var prevIdx: nat

    constructor (maxNodesPerRemoteDc: Option<nat>, allowDcFailoverForLocalCl: bool)
      ensures this.maxNodesPerRemoteDc == maxNodesPerRemoteDc
      ensures this.allowDcFailoverForLocalCl == allowDcFailoverForLocalCl && prevIdx == 0
    {
      this.maxNodesPerRemoteDc := maxNodesPerRemoteDc;
      this.allowDcFailoverForLocalCl := allowDcFailoverForLocalCl;
      prevIdx := 0;
    }

    /** Rotates by the shared counter, which moves on (and wraps) only for non-empty input. */
    method RoundRobin(nodes: seq<Node>) returns (r: seq<Node>)
      modifies this
      ensures Same(r, nodes) && (forall n :: n in r <==> n in nodes)
      ensures nodes == [] ==> prevIdx == old(prevIdx) && r == []
      ensures nodes != [] ==> prevIdx == (old(prevIdx) + 1) % 0x1_0000_0000_0000_0000
                              && r == Rotated(nodes, old(prevIdx) % |nodes|)
    {
      if nodes == [] { return nodes; }
      var idx := prevIdx % |nodes|;
      prevIdx := (prevIdx + 1) % 0x1_0000_0000_0000_0000;
      RotatedMembers(nodes, idx);
      return Rotated(nodes, idx);
    }

    /** Local replicas shuffled in front, remote replicas behind them, none lost or added. */
    method ArrangeReplicas(replicas: seq<Node>) returns (locals: seq<Node>, remotes: seq<Node>)
      ensures Same(locals, Filter(replicas, UnignoredLocal))
      ensures Same(remotes, Filter(replicas, UnignoredRemote))
    {
      hide Filter;
      var sorted := SortLocalFirst(replicas);
      var result := Filter(sorted, Unignored);
      FilterKeepsLocalsFirst(sorted);
      var localCount := FirstRemote(result);
      SplitAtFirstRemote(result);
      var front := Shuffle(result[..localCount]);
      SameMembers(front, result[..localCount]);
      if localCount < |result| && result[localCount].IsRemote() {
        locals, remotes := front, result[localCount..];
      } else {
        locals, remotes := front + result[localCount..], [];
      }
      assert result == result[..localCount] + result[localCount..];
      Arranged(replicas, sorted, locals, remotes);
    }

    /** `network_topology_strategy_replicas` after the replicas were selected: the plan is the
        four sections in order, with later repetitions of an address dropped, unless a
        datacenter-local consistency that forbids failover makes it be returned early. */
    method NetworkTopologyPlan(replicas: seq<Node>, nodes: seq<Node>, localConsistency: bool)
      returns (plan: seq<Node>)
      modifies this
      ensures maxNodesPerRemoteDc.None? ==> NetworkShape(plan, replicas, nodes, 0, true)
      ensures maxNodesPerRemoteDc.Some? && localConsistency && !allowDcFailoverForLocalCl ==>
        NetworkShape(plan, replicas, nodes, 0, false)
      ensures maxNodesPerRemoteDc.Some? && (!localConsistency || allowDcFailoverForLocalCl) ==>
        NetworkShape(plan, replicas, nodes, maxNodesPerRemoteDc.value, true)
    {
      hide Filter, UniqueAfter, Rotated, Same;
      var locals, remotes := ArrangeReplicas(replicas);
      var others := RoundRobin(Filter(nodes, UnignoredLocal));
      var replicasAndLocals := locals + remotes + others;
      ghost var sections := Sections(locals, remotes, others, []);
      var candidates := Filter(nodes, UnignoredRemote);
      assert sections.Joined() == replicasAndLocals;
      assert Same([], Capped(candidates, 0)) by { SameAsItself([]); }
      if maxNodesPerRemoteDc.None? {
        assert Proper(sections, replicas, nodes, 0);
        return Unique(replicasAndLocals);
      }
      if localConsistency && !allowDcFailoverForLocalCl {
        assert Proper(sections, replicas, nodes, 0);
        return replicasAndLocals;
      }
      var extra := Shuffle(Capped(candidates, maxNodesPerRemoteDc.value));
      sections := Sections(locals, remotes, others, extra);
      assert Proper(sections, replicas, nodes, maxNodesPerRemoteDc.value);
      return Unique(replicasAndLocals + extra);
    }

    /** `query_plan`: the strategy of the keyspace decides; without a token or a known
        keyspace only local nodes are used. Every node of a plan is up and has a known
        distance, and every plan reaches every local node that is up. `order` and `nodes` are the iteration
        orders of the ring and of the node map. */
    method Plan(m: Metadata, order: seq<Token>, nodes: seq<Node>,
                token: Option<Token>, keyspace: Option<string>, localConsistency: bool)
      returns (plan: seq<Node>)
      requires forall t :: t in order ==> t in m.ring
      modifies this
      ensures maxNodesPerRemoteDc.None? ==> PlanShape(plan, m, order, nodes, token, keyspace, 0, true)
      ensures maxNodesPerRemoteDc.Some? && localConsistency && !allowDcFailoverForLocalCl ==>
        PlanShape(plan, m, order, nodes, token, keyspace, 0, false)
      ensures maxNodesPerRemoteDc.Some? && (!localConsistency || allowDcFailoverForLocalCl) ==>
        PlanShape(plan, m, order, nodes, token, keyspace, maxNodesPerRemoteDc.value, true)
      ensures forall n :: n in plan ==> n.state.Up? && n.distance.Some?
      ensures forall n :: n in nodes && n.state.Up? && n.distance == Some(Local) ==> n.address in Addresses(plan)
    {
      hide NetworkShape, SimpleShape, Selected, CappedWalk, Filter, Rotated, Same, Addresses, NodesOf;
      if token.None? || keyspace.None? || keyspace.value !in m.keyspaces {
        plan := RoundRobin(Filter(nodes, UnignoredLocal));
      } else {
        match m.keyspaces[keyspace.value]
        case SimpleStrategy(factor) =>
          plan := SimplePlan(NodesOf(m.ring, CappedWalk(order, token.value, factor)), nodes);
        case NetworkTopologyStrategy(factors) =>
          var replicas := SelectReplicas(WalkNodes(order, m.ring, token.value), factors, m.datacenters);
          plan := NetworkTopologyPlan(replicas, nodes, localConsistency);
        case OtherStrategy =>
          plan := SimplePlan(NodesOf(m.ring, CappedWalk(order, token.value, 1)), nodes);
      }
      ghost var early := maxNodesPerRemoteDc.Some? && localConsistency && !allowDcFailoverForLocalCl;
      ghost var cap := if maxNodesPerRemoteDc.None? || early then 0 else maxNodesPerRemoteDc.value;
      PlanIsSafe(plan, m, order, nodes, token, keyspace, cap, !early);
    }

    /** `simple_strategy_replicas`: the first replicas of the walk, then all nodes. */
    method SimplePlan(walk: seq<Node>, nodes: seq<Node>) returns (plan: seq<Node>)
      modifies this
      ensures SimpleShape(plan, walk, nodes)
    {
      hide Filter, Same, Rotated;
      var replicas := Shuffle(Filter(walk, Unignored));
      var others := RoundRobin(Filter(nodes, Unignored));
      plan := Unique(replicas + others);
      assert SimpleParts(plan, replicas, others, walk, nodes);
    }
  }

  lemma SameAsItself(s: seq<Node>)
    ensures Same(s, s)
  {
  }

  lemma Arranged(replicas: seq<Node>, sorted: seq<Node>, locals: seq<Node>, remotes: seq<Node>)
    requires Same(sorted, replicas) && Same(locals + remotes, Filter(sorted, Unignored))
    requires (forall n :: n in locals ==> n.IsLocal()) && (forall n :: n in remotes ==> n.IsRemote())
    ensures Same(locals, Filter(replicas, UnignoredLocal)) && Same(remotes, Filter(replicas, UnignoredRemote))
  {
    hide Filter;
    assert multiset(locals + remotes) == multiset(locals) + multiset(remotes);
    forall n: Node
      ensures multiset(locals)[n] == multiset(Filter(replicas, UnignoredLocal))[n]
      ensures multiset(remotes)[n] == multiset(Filter(replicas, UnignoredRemote))[n]
    {
      FilterCount(sorted, Unignored, n);
      FilterCount(replicas, UnignoredLocal, n);
      FilterCount(replicas, UnignoredRemote, n);
      assert !n.IsLocal() ==> n !in locals;
      assert !n.IsRemote() ==> n !in remotes;
      if Unignored(n) {
        LocalOrRemote(n);
      }
    }
  }

  /** Index of the first remote node, or 0 when there is none. */
  function FirstRemote(s: seq<Node>): (k: nat)
    ensures k <= |s|
    ensures (exists n :: n in s && n.IsRemote()) ==> k < |s| && s[k].IsRemote() && forall i :: 0 <= i < k ==> !s[i].IsRemote()
    ensures (forall n :: n in s ==> !n.IsRemote()) ==> k == 0
  {
    RemoteScan(s, 0)
  }

  function RemoteScan(s: seq<Node>, i: nat): (k: nat)
    requires i <= |s| && forall j :: 0 <= j < i ==> !s[j].IsRemote()
    ensures k <= |s|
    ensures (exists n :: n in s && n.IsRemote()) ==> k < |s| && s[k].IsRemote() && forall j :: 0 <= j < k ==> !s[j].IsRemote()
    ensures (forall n :: n in s ==> !n.IsRemote()) ==> k == 0
    decreases |s| - i
  {
    if i == |s| then 0 else if s[i].IsRemote() then i else RemoteScan(s, i + 1)
  }

  /** Of nodes that are not ignored, local ones first, the first remote one divides local
      from remote. */
  lemma SplitAtFirstRemote(s: seq<Node>)
    requires LocalsFirst(s) && forall n :: n in s ==> Unignored(n)
    ensures forall n :: n in s[..FirstRemote(s)] ==> n.IsLocal()
    ensures if FirstRemote(s) < |s| && s[FirstRemote(s)].IsRemote()
            then forall n :: n in s[FirstRemote(s)..] ==> n.IsRemote()
            else forall n :: n in s ==> n.IsLocal()
  {
    var k := FirstRemote(s);
    hide FirstRemote;
    forall i | 0 <= i < |s|
      ensures s[i].IsLocal() != s[i].IsRemote()
    {
      assert s[i] in s;
      LocalOrRemote(s[i]);
    }
    if k < |s| && s[k].IsRemote() {
      forall i | k <= i < |s|
        ensures s[i].IsRemote()
      {
      }
    }
  }

  lemma {:induction false} FilterKeepsLocalsFirst(s: seq<Node>)
    requires LocalsFirst(s)
    ensures LocalsFirst(Filter(s, Unignored))
  {
    if s != [] {
      var k := |s| - 1;
      FilterKeepsLocalsFirst(s[..k]);
      var r := Filter(s[..k], Unignored);
      if s[k].IsLocal() {
        forall i | 0 <= i < |r|
          ensures r[i].IsLocal()
        {
          assert r[i] in s[..k];
        }
      }
    }
  }

  //
  // Properties of plans
  //

  lemma AddressOf(n: Node, s: seq<Node>)
    requires n in s
    ensures n.address in Addresses(s)
  {
  }

  lemma SameAddresses(a: seq<Node>, b: seq<Node>)
    requires forall n :: n in a <==> n in b
    ensures Addresses(a) == Addresses(b)
  {
  }

  lemma ConcatAddresses(a: seq<Node>, b: seq<Node>)
    ensures Addresses(a + b) == Addresses(a) + Addresses(b)
  {
    assert forall n :: n in a + b <==> n in a || n in b;
  }

  lemma JoinedMembers(s: Sections)
    ensures forall n :: n in s.Joined() <==>
      n in s.localReplicas || n in s.remoteReplicas || n in s.localNodes || n in s.remoteNodes
  {
  }

  lemma SplitUnique(w: seq<Node>, x: seq<Node>, y: seq<Node>, z: seq<Node>)
    ensures Unique(w + x + y + z)
            == Unique(w) + UniqueAfter(Addresses(w), x) + UniqueAfter(Addresses(w + x), y)
               + UniqueAfter(Addresses(w + x + y), z)
  {
    hide UniqueAfter, Addresses;
    UniqueConcat({}, w, x);
    UniqueConcat({}, w + x, y);
    UniqueConcat({}, w + x + y, z);
    assert {} + Addresses(w) == Addresses(w);
    assert {} + Addresses(w + x) == Addresses(w + x);
    assert {} + Addresses(w + x + y) == Addresses(w + x + y);
  }

  /** The four groups of a plan without repetitions: one node for each address of a local
      replica, then of the remote replicas, then of the local nodes, then of the first remote
      nodes, always leaving out the addresses that came before. */
  ghost predicate IsSplit(
    a: seq<Node>, b: seq<Node>, c: seq<Node>, d: seq<Node>, replicas: seq<Node>, nodes: seq<Node>, cap: nat)
  {
    && (forall n :: n in a ==> n in replicas && UnignoredLocal(n))
    && (forall n :: n in b ==> n in replicas && UnignoredRemote(n))
    && (forall n :: n in c ==> n in nodes && UnignoredLocal(n))
    && (forall n :: n in d ==> n in nodes && UnignoredRemote(n)) && |d| <= cap
    && Addresses(a) == Addresses(Filter(replicas, UnignoredLocal))
    && Addresses(b) == Addresses(Filter(replicas, UnignoredRemote)) - Addresses(a)
    && Addresses(c) == Addresses(Filter(nodes, UnignoredLocal)) - Addresses(a + b)
    && Addresses(d) == Addresses(Capped(Filter(nodes, UnignoredRemote), cap)) - Addresses(a + b + c)
  }

  /** The plan of a network-topology keyspace that went through the de-duplication: nobody
      twice, and the four kinds of nodes in their order, complete but for the addresses named
      before and with at most `cap` extra remote ones. */
  lemma DedupedPlan(plan: seq<Node>, replicas: seq<Node>, nodes: seq<Node>, cap: nat)
    requires NetworkShape(plan, replicas, nodes, cap, true)
    ensures NoAddressTwice(plan)
    ensures exists a, b, c, d :: plan == a + b + c + d && IsSplit(a, b, c, d, replicas, nodes, cap)
  {
    hide Proper, UniqueAfter, Addresses, IsSplit, Filter, NoAddressTwice;
    var s: Sections :| Proper(s, replicas, nodes, cap) && plan == Final(s, true);
    var w, x, y, z := s.localReplicas, s.remoteReplicas, s.localNodes, s.remoteNodes;
    UniqueHasNoRepeats({}, s.Joined());
    SplitUnique(w, x, y, z);
    SplitGroups(s, replicas, nodes, cap);
  }

  lemma SplitGroups(s: Sections, replicas: seq<Node>, nodes: seq<Node>, cap: nat)
    requires Proper(s, replicas, nodes, cap)
    ensures var (w, x, y, z) := (s.localReplicas, s.remoteReplicas, s.localNodes, s.remoteNodes);
      IsSplit(Unique(w), UniqueAfter(Addresses(w), x), UniqueAfter(Addresses(w + x), y),
              UniqueAfter(Addresses(w + x + y), z), replicas, nodes, cap)
  {
    var w, x, y, z := s.localReplicas, s.remoteReplicas, s.localNodes, s.remoteNodes;
    ProperMembers(s, replicas, nodes, cap);
    SameMembers(z, Capped(Filter(nodes, UnignoredRemote), cap));
    hide Proper, UniqueAfter, Addresses, Filter, NoAddressTwice, Capped, UnignoredLocal, UnignoredRemote;
    SameAddresses(w, Filter(replicas, UnignoredLocal));
    SameAddresses(x, Filter(replicas, UnignoredRemote));
    SameAddresses(y, Filter(nodes, UnignoredLocal));
    SameAddresses(z, Capped(Filter(nodes, UnignoredRemote), cap));
    GroupAddresses(w, x, y, z);
  }

  /** The addresses of the groups: each group has those of its section not named before. */
  lemma GroupAddresses(w: seq<Node>, x: seq<Node>, y: seq<Node>, z: seq<Node>)
    ensures var (a, b) := (Unique(w), UniqueAfter(Addresses(w), x));
      var (c, d) := (UniqueAfter(Addresses(w + x), y), UniqueAfter(Addresses(w + x + y), z));
      && Addresses(a) == Addresses(w) && Addresses(b) == Addresses(x) - Addresses(a)
      && Addresses(c) == Addresses(y) - Addresses(a + b) && Addresses(d) == Addresses(z) - Addresses(a + b + c)
  {
    hide UniqueAfter, Addresses, NoAddressTwice;
    var a, b := Unique(w), UniqueAfter(Addresses(w), x);
    var c := UniqueAfter(Addresses(w + x), y);
    UniqueHasNoRepeats({}, w);
    UniqueHasNoRepeats(Addresses(w), x);
    UniqueHasNoRepeats(Addresses(w + x), y);
    UniqueHasNoRepeats(Addresses(w + x + y), z);
    ConcatAddresses(w, x);
    ConcatAddresses(w + x, y);
    ConcatAddresses(a, b);
    ConcatAddresses(a + b, c);
  }

  lemma NetworkPlanSafe(plan: seq<Node>, replicas: seq<Node>, nodes: seq<Node>, cap: nat, deduped: bool)
    requires NetworkShape(plan, replicas, nodes, cap, deduped)
    ensures forall n :: n in plan ==> !n.IsIgnored()
    ensures forall n :: n in nodes && UnignoredLocal(n) ==> n.address in Addresses(plan)
  {
    hide Proper, UniqueAfter, Addresses, NoAddressTwice;
    var s: Sections :| Proper(s, replicas, nodes, cap) && plan == Final(s, deduped);
    ProperMembers(s, replicas, nodes, cap);
    JoinedMembers(s);
    UniqueHasNoRepeats({}, s.Joined());
    forall n | n in s.Joined()
      ensures n.address in Addresses(plan)
    {
      AddressOf(n, s.Joined());
    }
  }

  /** Plans for the other keyspaces: nobody ignored, nobody twice, every node reachable. */
  lemma SimplePlanSafe(plan: seq<Node>, walk: seq<Node>, nodes: seq<Node>)
    requires SimpleShape(plan, walk, nodes)
    ensures NoAddressTwice(plan) && forall n :: n in plan ==> !n.IsIgnored()
    ensures forall n :: n in nodes && !n.IsIgnored() ==> n.address in Addresses(plan)
    ensures exists front :: Unique(front) <= plan && Same(front, Filter(walk, Unignored))
  {
    hide UniqueAfter, Addresses, NoAddressTwice, Filter, Same;
    var front, rest :| SimpleParts(plan, front, rest, walk, nodes);
    SameMembers(front, Filter(walk, Unignored));
    SameMembers(rest, Filter(nodes, Unignored));
    UniqueHasNoRepeats({}, front + rest);
    UniqueConcat({}, front, rest);
    forall n | n in nodes && !n.IsIgnored()
      ensures n.address in Addresses(plan)
    {
      assert n in rest && n in front + rest;
      AddressOf(n, front + rest);
    }
  }

  lemma PlanIsSafe(
    plan: seq<Node>, m: Metadata, order: seq<Token>, nodes: seq<Node>, token: Option<Token>, keyspace: Option<string>,
    cap: nat, deduped: bool)
    requires forall t :: t in order ==> t in m.ring
    requires PlanShape(plan, m, order, nodes, token, keyspace, cap, deduped)
    ensures forall n :: n in plan ==> !n.IsIgnored()
    ensures forall n :: n in nodes && UnignoredLocal(n) ==> n.address in Addresses(plan)
  {
    hide NetworkShape, SimpleShape, Addresses, Filter, Same, NoAddressTwice, NodesOf, CappedWalk, Selected;
    if token.None? || keyspace.None? || keyspace.value !in m.keyspaces {
      SameMembers(plan, Filter(nodes, UnignoredLocal));
      forall n | n in plan
        ensures n.address in Addresses(plan)
      {
        AddressOf(n, plan);
      }
    } else {
      match m.keyspaces[keyspace.value]
      case SimpleStrategy(factor) => SimplePlanSafe(plan, NodesOf(m.ring, CappedWalk(order, token.value, factor)), nodes);
      case NetworkTopologyStrategy(factors) =>
        NetworkPlanSafe(plan, Selected(WalkNodes(order, m.ring, token.value), factors, m.datacenters), nodes, cap, deduped);
      case OtherStrategy => SimplePlanSafe(plan, NodesOf(m.ring, CappedWalk(order, token.value, 1)), nodes);
    }
  }

  /** No replica is a usable local node, and no usable remote one was selected twice. */
  ghost predicate RepeatFree(replicas: seq<Node>) {
    && (forall n :: n in replicas ==> !UnignoredLocal(n))
    && Distinct(replicas, UnignoredRemote)
  }

  /** The plan returned early for a datacenter-local consistency is not de-duplicated: when
      nodes have different addresses and replicas come from the node map, it lists an address
      twice unless no replica is a usable local node and no usable remote one was selected
      twice. */
  lemma UndedupedPlanIff(plan: seq<Node>, replicas: seq<Node>, nodes: seq<Node>)
    requires NetworkShape(plan, replicas, nodes, 0, false)
    requires NoAddressTwice(nodes) && forall n :: n in replicas ==> n in nodes
    ensures NoAddressTwice(plan) <==> RepeatFree(replicas)
  {
    hide NoAddressTwice, Filter;
    var s: Sections :| Proper(s, replicas, nodes, 0) && plan == Final(s, false);
    ProperMembers(s, replicas, nodes, 0);
    SameRepeats(s.localNodes, Filter(nodes, UnignoredLocal));
    SameRepeats(s.remoteReplicas, Filter(replicas, UnignoredRemote));
    FilterRepeats(replicas, UnignoredRemote);
    assert NoAddressTwice(s.localNodes) by { DistinctFilter(nodes, UnignoredLocal); }
    hide Proper, Same;
    assert plan == s.localReplicas + s.remoteReplicas + s.localNodes;
    assert s.localReplicas == [] <==> forall n :: n in replicas ==> !UnignoredLocal(n) by {
      if s.localReplicas != [] {
        assert s.localReplicas[0] in s.localReplicas;
      }
    }
    NoAddressTwiceIff(nodes);
    ThreeSections(s.localReplicas, s.remoteReplicas, s.localNodes);
  }

  /** So for the plans of the strategy: whenever ring and node map agree and nodes have
      different addresses, an early returned plan is free of repetitions exactly when the
      selected replicas are. */
  lemma EarlyPlanRepeatsIff(
    plan: seq<Node>, m: Metadata, order: seq<Token>, nodes: seq<Node>, token: Token, keyspace: string,
    factors: map<string, nat>)
    requires Ascends(order, m.ring) && Agrees(m.ring, m.nodes) && Lists(nodes, m.nodes) && NoAddressTwice(nodes)
    requires keyspace in m.keyspaces && m.keyspaces[keyspace] == NetworkTopologyStrategy(factors)
    requires PlanShape(plan, m, order, nodes, Some(token), Some(keyspace), 0, false)
    ensures NoAddressTwice(plan) <==> RepeatFree(Selected(WalkNodes(order, m.ring, token), factors, m.datacenters))
  {
    hide NetworkShape, RepeatFree, NoAddressTwice;
    var walk := WalkNodes(order, m.ring, token);
    SelectedFromWalk(walk, factors, m.datacenters);
    forall n | n in walk
      ensures n in nodes
    {
      WalkedNodeKnown(m, order, token, n);
      var h: nat :| h in m.nodes && m.nodes[h] == n;
    }
    UndedupedPlanIff(plan, Selected(walk, factors, m.datacenters), nodes);
  }

  lemma {:induction false} SelectedFromWalk(walk: seq<Node>, factors: map<string, nat>, rackCounts: map<string, nat>)
    ensures forall n :: n in Selected(walk, factors, rackCounts) ==> n in walk
  {
    if walk != [] {
      var front, x := walk[..|walk| - 1], walk[|walk| - 1];
      SelectedFromWalk(front, factors, rackCounts);
      SelectedStep(front, x, factors, rackCounts);
      assert walk == front + [x];
    }
  }

  lemma DistinctFilter(s: seq<Node>, p: Node -> bool)
    requires NoAddressTwice(s)
    ensures NoAddressTwice(Filter(s, p))
  {
    FilterRepeats(s, p);
  }

  /** Local replicas are also local nodes, and nothing else is shared between sections. */
  lemma ThreeSections(a: seq<Node>, b: seq<Node>, c: seq<Node>)
    requires NoAddressTwice(c) && forall n :: n in a ==> n in c
    requires forall m, n :: m in b && n in c ==> m.address != n.address
    ensures NoAddressTwice(a + b + c) <==> a == [] && NoAddressTwice(b)
  {
    var plan := a + b + c;
    if a != [] {
      assert a[0] in a && a[0] in c;
      var j :| 0 <= j < |c| && c[j] == a[0];
      assert plan[0] == a[0] && plan[|a| + |b| + j] == c[j];
    } else {
      assert plan == b + c;
      if NoAddressTwice(b) {
        forall i, j | 0 <= i < j < |plan|
          ensures plan[i].address != plan[j].address
        {
          if i < |b| <= j {
            assert plan[i] == b[i] && plan[i] in b;
            assert plan[j] == c[j - |b|] && plan[j] in c;
          } else if i < |b| {
            assert plan[i] == b[i] && plan[j] == b[j];
          } else {
            assert plan[i] == c[i - |b|] && plan[j] == c[j - |b|];
          }
        }
      } else {
        var i, j :| 0 <= i < j < |b| && b[i].address == b[j].address;
        assert plan[i] == b[i] && plan[j] == b[j];
      }
    }
  }

  /** One remote node that owns two tokens and fills a replication factor of two is named
      twice. */
  lemma RepeatedReplica(plan: seq<Node>, n: Node)
    requires UnignoredRemote(n) && NetworkShape(plan, [n, n], [n], 0, false)
    ensures plan == [n, n]
  {
    var s: Sections :| Proper(s, [n, n], [n], 0) && plan == Final(s, false);
    hide Proper;
    PairSections(s, n);
  }

  lemma PairSections(s: Sections, n: Node)
    requires UnignoredRemote(n) && Proper(s, [n, n], [n], 0)
    ensures s == Sections([], [n, n], [], [])
  {
    LocalOrRemote(n);
    FilterPair(n);
    hide Filter;
    SameLength(s.localReplicas, []);
    SameLength(s.localNodes, []);
    SameLength(s.remoteNodes, []);
    SamePair(s.remoteReplicas, n);
  }

  lemma SameLength(a: seq<Node>, b: seq<Node>)
    requires Same(a, b)
    ensures |a| == |b|
  {
    SameMembers(a, b);
  }

  lemma SamePair(s: seq<Node>, n: Node)
    requires Same(s, [n, n])
    ensures s == [n, n]
  {
    SameMembers(s, [n, n]);
    hide Same;
    assert s[0] in s && s[1] in s;
  }

  lemma FilterPair(n: Node)
    requires UnignoredRemote(n) && !n.IsLocal()
    ensures Filter([n, n], UnignoredRemote) == [n, n] && Filter([n, n], UnignoredLocal) == []
    ensures Filter([n], UnignoredLocal) == []
  {
    assert [n, n][..1] == [n] && [n][..0] == [];
  }

  /** That case on the code: two virtual nodes of one remote host, replication factor two, one
      rack, and a datacenter-local consistency without failover. */
  method EarlyPlanRepeats() returns (plan: seq<Node>)
    ensures |plan| == 2 && plan[0].address == plan[1].address
  {
    hide NetworkShape, SimpleShape, Selected, WalkNodes, NodesOf, CappedWalk, Filter, Same, Addresses;
    var n := Node(1, 1, Some(Remote), Up, [0, 1], "rack", "dc");
    var m := Metadata(map[1 := n], map[0 := n, 1 := n],
                      map["ks" := NetworkTopologyStrategy(TWO)], ONE_RACK);
    var strategy := new TopologyAwareStrategy(Some(1), false);
    plan := strategy.Plan(m, [0, 1], [n], Some(0), Some("ks"), true);
    BothSelected(n, m);
    RepeatedReplica(plan, n);
  }

  const TWO: map<string, nat> := map["dc" := 2]
  const ONE_RACK: map<string, nat> := map["dc" := 1]

  lemma BothSelected(n: Node, m: Metadata)
    requires n.datacenter == "dc" && m.ring == map[0 := n, 1 := n]
    ensures Selected(WalkNodes([0, 1], m.ring, 0), TWO, ONE_RACK) == [n, n]
  {
    assert WalkNodes([0, 1], m.ring, 0) == [n, n];
    SelectedOnce(n);
    SelectedTwice(n);
    hide Selected;
  }

  lemma SelectedOnce(n: Node)
    requires n.datacenter == "dc"
    ensures Selected([n], TWO, ONE_RACK) == [n]
  {
    SelectedStep([], n, TWO, ONE_RACK);
    assert [] + [n] == [n];
    assert InDc([], "dc") == [];
  }

  lemma SelectedTwice(n: Node)
    requires n.datacenter == "dc" && Selected([n], TWO, ONE_RACK) == [n]
    ensures Selected([n, n], TWO, ONE_RACK) == [n, n]
  {
    SelectedStep([n], n, TWO, ONE_RACK);
    QuotaStep([], n, TWO, ONE_RACK, "dc");
    hide Selected;
    assert [] + [n] == [n] && [n] + [n] == [n, n];
    assert InDc([], "dc") == [];
  }
}
