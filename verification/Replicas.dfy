/** Rack-aware replica selection for `NetworkTopologyStrategy`: one pass over the ring walk
    serves all datacenters at once and stops early. */
module Replicas {
  import opened Topology

  //
  // What one datacenter is entitled to, on its own
  //

  /** What a datacenter may still take: replicas, replicas from racks already used, and the
      racks used so far. */
  datatype Quota = Quota(remaining: nat, extra: nat, racks: set<string>)

  function SaturatingSub(a: nat, b: nat): nat { if a >= b then a - b else 0 }

  function Initial(replicationFactor: nat, rackCount: nat): Quota {
    Quota(replicationFactor, SaturatingSub(replicationFactor, rackCount), {})
  }

  predicate Takes(q: Quota, rack: string) {
    q.remaining > 0 && (rack !in q.racks || q.extra > 0)
  }

  function After(q: Quota, rack: string): Quota {
    if !Takes(q, rack) then q
    else if rack in q.racks then q.(remaining := q.remaining - 1, extra := q.extra - 1)
    else q.(remaining := q.remaining - 1, racks := q.racks + {rack})
  }

  /** The quota after a datacenter's nodes were offered in order. */
  function Offered(q: Quota, nodes: seq<Node>): Quota {
    if nodes == [] then q else After(Offered(q, nodes[..|nodes| - 1]), nodes[|nodes| - 1].rack)
  }

  /** The replicas one datacenter takes from its own nodes, in order. */
  function DcReplicas(q: Quota, nodes: seq<Node>): seq<Node> {
    if nodes == [] then []
    else
      var before, last := nodes[..|nodes| - 1], nodes[|nodes| - 1];
      DcReplicas(q, before) + (if Takes(Offered(q, before), last.rack) then [last] else [])
  }

  //
  // All datacenters together
  //

  function InDc(walk: seq<Node>, dc: string): seq<Node> {
    if walk == [] then []
    else
      var last := walk[|walk| - 1];
      InDc(walk[..|walk| - 1], dc) + (if last.datacenter == dc then [last] else [])
  }

  function RackCount(rackCounts: map<string, nat>, dc: string): nat {
    if dc in rackCounts then rackCounts[dc] else 0
  }

  /** The quota of a datacenter after the nodes of `walk` went by. */
  function DcQuota(walk: seq<Node>, factors: map<string, nat>, rackCounts: map<string, nat>, dc: string): Quota
    requires dc in factors
  {
    Offered(Initial(factors[dc], RackCount(rackCounts, dc)), InDc(walk, dc))
  }

  /** Every datacenter with a replication factor picks from the walk independently. */
  function Selected(walk: seq<Node>, factors: map<string, nat>, rackCounts: map<string, nat>): seq<Node> {
    if walk == [] then []
    else
      var before, last := walk[..|walk| - 1], walk[|walk| - 1];
      Selected(before, factors, rackCounts)
      + (if last.datacenter in factors && Takes(DcQuota(before, factors, rackCounts, last.datacenter), last.rack)
         then [last] else [])
  }

  /** Restricted to one datacenter, the joint selection is what that datacenter takes from
      its own part of the walk. */
  lemma {:induction false} DatacentersAreIndependent(
    walk: seq<Node>, factors: map<string, nat>, rackCounts: map<string, nat>, dc: string)
    ensures InDc(Selected(walk, factors, rackCounts), dc)
            == if dc in factors
               then DcReplicas(Initial(factors[dc], RackCount(rackCounts, dc)), InDc(walk, dc)) else []
  {
    if walk != [] {
      var before, last := walk[..|walk| - 1], walk[|walk| - 1];
      assert walk == before + [last];
      hide InDc, Selected, DcReplicas, Offered, Takes, Initial, RackCount;
      DatacentersAreIndependent(before, factors, rackCounts, dc);
      SelectedStep(before, last, factors, rackCounts);
      InDcAppend(Selected(before, factors, rackCounts), last, dc);
      InDcAppend(before, last, dc);
      var own := InDc(before, dc);
      assert own + [] == own;
      if dc in factors {
        var q := Initial(factors[dc], RackCount(rackCounts, dc));
        DcReplicasAppend(q, own, last);
        assert DcReplicas(q, own) + [] == DcReplicas(q, own);
      }
    } else {
      assert InDc([], dc) == [];
    }
  }

  lemma DcReplicasAppend(q: Quota, nodes: seq<Node>, x: Node)
    ensures DcReplicas(q, nodes + [x]) == DcReplicas(q, nodes) + (if Takes(Offered(q, nodes), x.rack) then [x] else [])
  {
    assert (nodes + [x])[..|nodes|] == nodes;
  }

  lemma InDcAppend(nodes: seq<Node>, x: Node, dc: string)
    ensures InDc(nodes + [x], dc) == InDc(nodes, dc) + (if x.datacenter == dc then [x] else [])
    ensures nodes + [] == nodes
  {
    assert (nodes + [x])[..|nodes|] == nodes;
  }

  //
  // Sums over replication factors
  //

  ghost function Sum(m: map<string, nat>): nat
    decreases m.Keys
  {
    if m == map[] then 0
    else
      var k :| k in m;
      m[k] + Sum(m - {k})
  }

  lemma {:induction false} SumRemove(m: map<string, nat>, k: string)
    requires k in m
    ensures Sum(m) == m[k] + Sum(m - {k})
    decreases m.Keys
  {
    var j :| j in m && Sum(m) == m[j] + Sum(m - {j});
    if j != k {
      SumRemove(m - {j}, k);
      SumRemove(m - {k}, j);
      assert m - {j} - {k} == m - {k} - {j};
    }
  }

  lemma SumDecrement(m: map<string, nat>, k: string)
    requires k in m && m[k] > 0
    ensures Sum(m[k := m[k] - 1]) == Sum(m) - 1
  {
    SumRemove(m, k);
    SumRemove(m[k := m[k] - 1], k);
    assert m[k := m[k] - 1] - {k} == m - {k};
  }

  lemma {:induction false} SumZero(m: map<string, nat>, k: string)
    requires Sum(m) == 0 && k in m
    ensures m[k] == 0
  {
    SumRemove(m, k);
  }

  method TotalOf(m: map<string, nat>) returns (total: nat)
    ensures total == Sum(m)
  {
    total := 0;
    var left := m;
    while left != map[]
      invariant total + Sum(left) == Sum(m)
      decreases left.Keys
    {
      var k :| k in left.Keys;
      SumRemove(left, k);
      total := total + left[k];
      left := left - {k};
    }
  }

  //
  // The loop
  //

  /** Counters and used racks agree with each datacenter's own quota. */
  ghost predicate Tracks(
    walk: seq<Node>, factors: map<string, nat>, rackCounts: map<string, nat>,
    remaining: map<string, nat>, sameRack: map<string, nat>, used: set<(string, string)>)
  {
    && remaining.Keys == factors.Keys && sameRack.Keys == factors.Keys
    && forall dc :: dc in factors ==>
         var q := DcQuota(walk, factors, rackCounts, dc);
         remaining[dc] == q.remaining && sameRack[dc] == q.extra
         && forall rack :: (dc, rack) in used <==> rack in q.racks
  }

  /** `network_topology_strategy_replicas` up to the sorting: counters are decremented in
      place and the loop ends as soon as all factors are met. */
  method SelectReplicas(walk: seq<Node>, factors: map<string, nat>, rackCounts: map<string, nat>)
    returns (result: seq<Node>)
    ensures result == Selected(walk, factors, rackCounts)
  {
    hide Tracks, Selected, Sum;
    var desired := TotalOf(factors);
    var remaining := factors;
    var sameRack := map dc | dc in factors :: SaturatingSub(factors[dc], RackCount(rackCounts, dc));
    var used: set<(string, string)> := {};
    result := [];
    TracksFromStart(factors, rackCounts, sameRack);
    assert walk[..0] == [];
    for i := 0 to |walk|
      invariant remaining.Keys == factors.Keys && sameRack.Keys == factors.Keys
      invariant Tracks(walk[..i], factors, rackCounts, remaining, sameRack, used)
      invariant |result| + Sum(remaining) == desired
      invariant result == Selected(walk[..i], factors, rackCounts)
    {
      var replica := walk[i];
      var dc, rack := replica.datacenter, replica.rack;
      Snoc(walk, i);
      if dc in remaining {
        if remaining[dc] == 0 {
          Skipped(walk[..i], replica, factors, rackCounts, remaining, sameRack, used);
          continue;
        }
        if (dc, rack) in used {
          if sameRack[dc] > 0 {
            TakenAgain(walk[..i], replica, factors, rackCounts, remaining, sameRack, used);
            sameRack := sameRack[dc := sameRack[dc] - 1];
            SumDecrement(remaining, dc);
            remaining := remaining[dc := remaining[dc] - 1];
            result := result + [replica];
          } else {
            Skipped(walk[..i], replica, factors, rackCounts, remaining, sameRack, used);
          }
        } else {
          TakenFirst(walk[..i], replica, factors, rackCounts, remaining, sameRack, used);
          SumDecrement(remaining, dc);
          remaining := remaining[dc := remaining[dc] - 1];
          used := used + {(dc, rack)};
          result := result + [replica];
        }
        if |result| == desired {
          EarlyExit(walk, i + 1, factors, rackCounts, remaining, sameRack, used);
          return;
        }
      } else {
        Skipped(walk[..i], replica, factors, rackCounts, remaining, sameRack, used);
      }
    }
    assert walk[..|walk|] == walk;
  }

  lemma TracksFromStart(factors: map<string, nat>, rackCounts: map<string, nat>, sameRack: map<string, nat>)
    requires sameRack == map dc | dc in factors :: SaturatingSub(factors[dc], RackCount(rackCounts, dc))
    ensures Tracks([], factors, rackCounts, factors, sameRack, {})
    ensures Selected([], factors, rackCounts) == []
  {
  }

  lemma Snoc(walk: seq<Node>, i: nat)
    requires i < |walk|
    ensures walk[..i + 1] == walk[..i] + [walk[i]]
  {
  }

  lemma OfferedAppend(q: Quota, nodes: seq<Node>, x: Node)
    ensures Offered(q, nodes + [x]) == After(Offered(q, nodes), x.rack)
  {
    assert (nodes + [x])[..|nodes|] == nodes;
  }

  /** How each quota moves when one node goes by. */
  lemma QuotaStep(walk: seq<Node>, x: Node, factors: map<string, nat>, rackCounts: map<string, nat>, dc: string)
    requires dc in factors
    ensures DcQuota(walk + [x], factors, rackCounts, dc)
            == if x.datacenter == dc then After(DcQuota(walk, factors, rackCounts, dc), x.rack)
               else DcQuota(walk, factors, rackCounts, dc)
  {
    InDcAppend(walk, x, dc);
    OfferedAppend(Initial(factors[dc], RackCount(rackCounts, dc)), InDc(walk, dc), x);
    assert InDc(walk, dc) + [] == InDc(walk, dc);
  }

  lemma SelectedStep(walk: seq<Node>, x: Node, factors: map<string, nat>, rackCounts: map<string, nat>)
    ensures Selected(walk + [x], factors, rackCounts)
            == Selected(walk, factors, rackCounts)
               + (if x.datacenter in factors && Takes(DcQuota(walk, factors, rackCounts, x.datacenter), x.rack)
                  then [x] else [])
  {
    assert (walk + [x])[..|walk|] == walk;
  }

  lemma Skipped(
    walk: seq<Node>, x: Node, factors: map<string, nat>, rackCounts: map<string, nat>,
    remaining: map<string, nat>, sameRack: map<string, nat>, used: set<(string, string)>)
    requires Tracks(walk, factors, rackCounts, remaining, sameRack, used)
    requires x.datacenter in factors && x.datacenter in remaining && x.datacenter in sameRack ==>
      || remaining[x.datacenter] == 0
      || ((x.datacenter, x.rack) in used && sameRack[x.datacenter] == 0)
    ensures Tracks(walk + [x], factors, rackCounts, remaining, sameRack, used)
    ensures Selected(walk + [x], factors, rackCounts) == Selected(walk, factors, rackCounts)
  {
    hide DcQuota;
    forall dc | dc in factors
      ensures DcQuota(walk + [x], factors, rackCounts, dc) == DcQuota(walk, factors, rackCounts, dc)
    {
      QuotaStep(walk, x, factors, rackCounts, dc);
    }
    SelectedStep(walk, x, factors, rackCounts);
    assert Selected(walk, factors, rackCounts) + [] == Selected(walk, factors, rackCounts);
  }

  lemma TakenAgain(
    walk: seq<Node>, x: Node, factors: map<string, nat>, rackCounts: map<string, nat>,
    remaining: map<string, nat>, sameRack: map<string, nat>, used: set<(string, string)>)
    requires Tracks(walk, factors, rackCounts, remaining, sameRack, used)
    requires x.datacenter in factors && x.datacenter in remaining && x.datacenter in sameRack
    requires remaining[x.datacenter] > 0 && sameRack[x.datacenter] > 0
    requires (x.datacenter, x.rack) in used
    ensures Tracks(walk + [x], factors, rackCounts,
                   remaining[x.datacenter := remaining[x.datacenter] - 1],
                   sameRack[x.datacenter := sameRack[x.datacenter] - 1], used)
    ensures Selected(walk + [x], factors, rackCounts) == Selected(walk, factors, rackCounts) + [x]
  {
    hide DcQuota;
    forall dc | dc in factors
      ensures DcQuota(walk + [x], factors, rackCounts, dc)
              == if x.datacenter == dc then After(DcQuota(walk, factors, rackCounts, dc), x.rack)
                 else DcQuota(walk, factors, rackCounts, dc)
    {
      QuotaStep(walk, x, factors, rackCounts, dc);
    }
    SelectedStep(walk, x, factors, rackCounts);
  }

  lemma TakenFirst(
    walk: seq<Node>, x: Node, factors: map<string, nat>, rackCounts: map<string, nat>,
    remaining: map<string, nat>, sameRack: map<string, nat>, used: set<(string, string)>)
    requires Tracks(walk, factors, rackCounts, remaining, sameRack, used)
    requires x.datacenter in factors && x.datacenter in remaining && remaining[x.datacenter] > 0
    requires (x.datacenter, x.rack) !in used
    ensures Tracks(walk + [x], factors, rackCounts,
                   remaining[x.datacenter := remaining[x.datacenter] - 1],
                   sameRack, used + {(x.datacenter, x.rack)})
    ensures Selected(walk + [x], factors, rackCounts) == Selected(walk, factors, rackCounts) + [x]
  {
    hide DcQuota;
    forall dc | dc in factors
      ensures DcQuota(walk + [x], factors, rackCounts, dc)
              == if x.datacenter == dc then After(DcQuota(walk, factors, rackCounts, dc), x.rack)
                 else DcQuota(walk, factors, rackCounts, dc)
    {
      QuotaStep(walk, x, factors, rackCounts, dc);
    }
    SelectedStep(walk, x, factors, rackCounts);
  }

  /** Once all factors are met nothing later in the walk is taken, so stopping early does
      not change the answer. */
  lemma {:induction false} EarlyExit(
    walk: seq<Node>, n: nat, factors: map<string, nat>, rackCounts: map<string, nat>,
    remaining: map<string, nat>, sameRack: map<string, nat>, used: set<(string, string)>)
    requires n <= |walk| && Tracks(walk[..n], factors, rackCounts, remaining, sameRack, used)
    requires Sum(remaining) == 0
    ensures Selected(walk, factors, rackCounts) == Selected(walk[..n], factors, rackCounts)
    decreases |walk| - n
  {
    if n == |walk| {
      assert walk[..n] == walk;
    } else {
      var x := walk[n];
      Snoc(walk, n);
      if x.datacenter in factors {
        SumZero(remaining, x.datacenter);
      }
      Skipped(walk[..n], x, factors, rackCounts, remaining, sameRack, used);
      EarlyExit(walk, n + 1, factors, rackCounts, remaining, sameRack, used);
    }
  }

  //
  // Closed form
  //

  function Racks(nodes: seq<Node>): set<string> { set n | n in nodes :: n.rack }

  function Min(a: nat, b: nat): nat { if a <= b then a else b }

  /** Position `i` is taken: a rack's first node while fewer than RF racks came before it,
      any other node while fewer than RF - RC nodes of used racks came before it. */
  predicate PickedAt(nodes: seq<Node>, i: nat, factor: nat, rackCount: nat)
    requires i < |nodes|
  {
    var earlier := Racks(nodes[..i]);
    if nodes[i].rack !in earlier then |earlier| < factor
    else i - |earlier| < factor - rackCount
  }

  function PickedNodes(nodes: seq<Node>, n: nat, factor: nat, rackCount: nat): seq<Node>
    requires n <= |nodes|
  {
    if n == 0 then []
    else PickedNodes(nodes, n - 1, factor, rackCount)
         + (if PickedAt(nodes, n - 1, factor, rackCount) then [nodes[n - 1]] else [])
  }

  lemma RacksSnoc(nodes: seq<Node>, i: nat)
    requires i < |nodes|
    ensures Racks(nodes[..i + 1]) == Racks(nodes[..i]) + {nodes[i].rack}
    ensures Racks(nodes[..i]) <= Racks(nodes)
  {
    Snoc(nodes, i);
  }

  /** One more node adds a rack exactly when it is the first of its rack. */
  lemma RackStep(nodes: seq<Node>, i: nat)
    requires i < |nodes|
    ensures |Racks(nodes[..i + 1])| == |Racks(nodes[..i])| + (if nodes[i].rack in Racks(nodes[..i]) then 0 else 1)
    ensures |Racks(nodes[..i + 1])| <= |Racks(nodes)|
  {
    RacksSnoc(nodes, i);
    if i + 1 < |nodes| {
      RacksSnoc(nodes, i + 1);
    } else {
      assert nodes[..i + 1] == nodes;
    }
    hide Racks;
    if nodes[i].rack in Racks(nodes[..i]) {
      assert Racks(nodes[..i + 1]) == Racks(nodes[..i]);
    }
    SubsetSize(Racks(nodes[..i + 1]), Racks(nodes));
  }

  lemma NoRacks(nodes: seq<Node>)
    ensures Racks(nodes[..0]) == {}
  {
  }

  lemma SubsetSize(a: set<string>, b: set<string>)
    requires a <= b
    ensures |a| <= |b|
  {
    assert |b| == |a| + |b - a| by {
      assert b == a + (b - a);
    }
  }

  /** Replicas left after d racks and p repeated racks went by. */
  function Left(factor: nat, rackCount: nat, d: nat, p: nat): int {
    factor - Min(factor, d) - Min(SaturatingSub(factor, rackCount), p)
  }

  /** While fewer racks came by than are counted, a new rack costs one replica or none is left. */
  lemma LeftAfterNewRack(factor: nat, rackCount: nat, d: nat, p: nat)
    requires d < rackCount
    ensures 0 <= Left(factor, rackCount, d, p)
    ensures Left(factor, rackCount, d + 1, p) == SaturatingSub(Left(factor, rackCount, d, p), 1)
    ensures Left(factor, rackCount, d, p) > 0 <==> d < factor
  {
  }

  lemma LeftAfterRepeat(factor: nat, rackCount: nat, d: nat, p: nat)
    requires d <= rackCount
    ensures 0 <= Left(factor, rackCount, d, p)
    ensures var extra := SaturatingSub(factor, rackCount) - Min(SaturatingSub(factor, rackCount), p);
      && (extra > 0 ==> Left(factor, rackCount, d, p) > 0)
      && Left(factor, rackCount, d, p + 1) == Left(factor, rackCount, d, p) - Min(extra, 1)
  {
  }

  /** A quota after d racks (`racks`) and p repeated racks went by. */
  ghost predicate Fits(q: Quota, factor: nat, rackCount: nat, racks: set<string>, d: nat, p: nat) {
    var extra := SaturatingSub(factor, rackCount);
    && q.extra == extra - Min(extra, p)
    && q.remaining == Left(factor, rackCount, d, p)
    && (q.remaining > 0 ==> q.racks == racks)
  }

  lemma FitsAfterRepeat(q: Quota, factor: nat, rackCount: nat, racks: set<string>, d: nat, p: nat, rack: string)
    requires Fits(q, factor, rackCount, racks, d, p) && d <= rackCount && rack in racks
    ensures Fits(After(q, rack), factor, rackCount, racks, d, p + 1)
  {
    hide Left;
    LeftAfterRepeat(factor, rackCount, d, p);
  }

  lemma FitsAfterNewRack(q: Quota, factor: nat, rackCount: nat, racks: set<string>, d: nat, p: nat, rack: string)
    requires Fits(q, factor, rackCount, racks, d, p) && d < rackCount && rack !in racks
    ensures Fits(After(q, rack), factor, rackCount, racks + {rack}, d + 1, p)
  {
    hide Left;
    LeftAfterNewRack(factor, rackCount, d, p);
  }

  /** The running quota, in terms of what went by: d racks and i - d repeated racks. */
  lemma {:induction false} QuotaClosedForm(nodes: seq<Node>, i: nat, factor: nat, rackCount: nat)
    requires i <= |nodes| && |Racks(nodes)| <= rackCount
    ensures |Racks(nodes[..i])| <= i
    ensures Fits(Offered(Initial(factor, rackCount), nodes[..i]), factor, rackCount,
                 Racks(nodes[..i]), |Racks(nodes[..i])|, i - |Racks(nodes[..i])|)
    decreases i
  {
    if i == 0 {
      NoRacks(nodes);
    } else {
      hide Racks, Offered, Fits, Initial, After;
      var n := i - 1;
      QuotaClosedForm(nodes, n, factor, rackCount);
      Snoc(nodes, n);
      OfferedAppend(Initial(factor, rackCount), nodes[..n], nodes[n]);
      RacksSnoc(nodes, n);
      RackStep(nodes, n);
      var q := Offered(Initial(factor, rackCount), nodes[..n]);
      var racks := Racks(nodes[..n]);
      if nodes[n].rack in racks {
        FitsAfterRepeat(q, factor, rackCount, racks, |racks|, n - |racks|, nodes[n].rack);
        assert Racks(nodes[..i]) == racks;
      } else {
        FitsAfterNewRack(q, factor, rackCount, racks, |racks|, n - |racks|, nodes[n].rack);
      }
    }
  }

  /** The greedy choice of one datacenter is the closed form, whenever the metadata counts
      at least the racks that occur in the walk. */
  lemma {:induction false} DcReplicasClosedForm(nodes: seq<Node>, i: nat, factor: nat, rackCount: nat)
    requires i <= |nodes| && |Racks(nodes)| <= rackCount
    ensures DcReplicas(Initial(factor, rackCount), nodes[..i]) == PickedNodes(nodes, i, factor, rackCount)
    decreases i
  {
    if i > 0 {
      var n := i - 1;
      DcReplicasClosedForm(nodes, n, factor, rackCount);
      QuotaClosedForm(nodes, n, factor, rackCount);
      Snoc(nodes, n);
      DcReplicasAppend(Initial(factor, rackCount), nodes[..n], nodes[n]);
      RackStep(nodes, n);
      hide Racks, Offered, Left, DcReplicas;
      var d := |Racks(nodes[..n])|;
      if nodes[n].rack in Racks(nodes[..n]) {
        LeftAfterRepeat(factor, rackCount, d, n - d);
      } else {
        LeftAfterNewRack(factor, rackCount, d, n - d);
      }
    }
  }

  /** How many replicas a datacenter gets: min(RF, R) first nodes of racks and
      min(max(0, RF - RC), N - R) further nodes. */
  lemma {:induction false} DcReplicaCount(nodes: seq<Node>, i: nat, factor: nat, rackCount: nat)
    requires i <= |nodes| && |Racks(nodes)| <= rackCount
    ensures var d := |Racks(nodes[..i])|;
      d <= i && |PickedNodes(nodes, i, factor, rackCount)|
                == Min(factor, d) + Min(SaturatingSub(factor, rackCount), i - d)
    decreases i
  {
    if i == 0 {
      NoRacks(nodes);
    } else {
      DcReplicaCount(nodes, i - 1, factor, rackCount);
      RackStep(nodes, i - 1);
      hide Racks;
    }
  }

  /** The replicas of a datacenter in the joint, early-stopping selection: exactly the
      closed form on its own part of the walk, and exactly this many. */
  lemma SelectionClosedForm(
    walk: seq<Node>, factors: map<string, nat>, rackCounts: map<string, nat>, dc: string)
    requires dc in factors && |Racks(InDc(walk, dc))| <= RackCount(rackCounts, dc)
    ensures var nodes := InDc(walk, dc);
      var chosen := InDc(Selected(walk, factors, rackCounts), dc);
      var racks := |Racks(nodes)|;
      && racks <= |nodes|
      && chosen == PickedNodes(nodes, |nodes|, factors[dc], RackCount(rackCounts, dc))
      && |chosen| == Min(factors[dc], racks)
                     + Min(SaturatingSub(factors[dc], RackCount(rackCounts, dc)), |nodes| - racks)
  {
    hide InDc, Selected, DcReplicas, PickedNodes, Racks;
    var nodes := InDc(walk, dc);
    assert nodes[..|nodes|] == nodes;
    DatacentersAreIndependent(walk, factors, rackCounts, dc);
    DcReplicasClosedForm(nodes, |nodes|, factors[dc], RackCount(rackCounts, dc));
    DcReplicaCount(nodes, |nodes|, factors[dc], RackCount(rackCounts, dc));
  }
}
