/** Cluster metadata: the node map and the two indexes derived from it, the token ring and
    the rack counts per datacenter, over whole histories of updates. */
module Metadata {
  import opened Topology
  import opened Replicas

  datatype ReplicationStrategy =
    | SimpleStrategy(replicationFactor: nat)
    | NetworkTopologyStrategy(factors: map<string, nat>)
    | OtherStrategy

  type Nodes = map<nat, Node>
  type Ring = map<Token, Node>

  datatype Metadata = Metadata(
    nodes: Nodes,
    ring: Ring,
    keyspaces: map<string, ReplicationStrategy>,
    datacenters: map<string, nat>)

  //
  // Token ring
  //

  /** Inserting a node under each of its tokens replaces what was there. */
  function InsertTokens(ring: Ring, tokens: seq<Token>, node: Node): Ring {
    if tokens == [] then ring
    else InsertTokens(ring, tokens[..|tokens| - 1], node)[tokens[|tokens| - 1] := node]
  }

  /** `TokenMap::clone_with_node`. */
  method RingWithNode(ring: Ring, node: Node) returns (r: Ring)
    ensures r == InsertTokens(ring, node.tokens, node)
  {
    r := ring;
    for i := 0 to |node.tokens|
      invariant r == InsertTokens(ring, node.tokens[..i], node)
    {
      assert node.tokens[..i + 1][..i] == node.tokens[..i];
      r := r[node.tokens[i] := node];
    }
    assert node.tokens[..|node.tokens|] == node.tokens;
  }

  /** `TokenMap::new`, for some iteration order of the node map. */
  function RingFrom(nodes: Nodes, order: seq<nat>): Ring
    requires forall h :: h in order ==> h in nodes
  {
    if order == [] then map[]
    else
      var h := order[|order| - 1];
      InsertTokens(RingFrom(nodes, order[..|order| - 1]), nodes[h].tokens, nodes[h])
  }

  /** `TokenMap::clone_without_node`. */
  function RingWithout(ring: Ring, address: nat): Ring {
    map t | t in ring && ring[t].address != address :: ring[t]
  }

  /** No token belongs to two hosts. */
  ghost predicate Disjoint(nodes: Nodes) {
    forall g, h, t :: g in nodes && h in nodes && t in nodes[g].tokens && t in nodes[h].tokens ==> g == h
  }

  ghost predicate Owns(nodes: Nodes, h: nat, t: Token) { h in nodes && t in nodes[h].tokens }

  /** The ring is exactly the tokens of the node map, each with its owner. */
  ghost predicate Agrees(ring: Ring, nodes: Nodes) {
    && (forall t :: t in ring ==> exists h: nat :: Owns(nodes, h, t) && ring[t] == nodes[h])
    && (forall h, t :: Owns(nodes, h, t) ==> t in ring)
  }

  /** With disjoint tokens there is only one such ring. */
  lemma RingIsDetermined(r1: Ring, r2: Ring, nodes: Nodes)
    requires Disjoint(nodes) && Agrees(r1, nodes) && Agrees(r2, nodes)
    ensures r1 == r2
  {
    forall t | t in r1
      ensures t in r2 && r1[t] == r2[t]
    {
      var h :| Owns(nodes, h, t) && r1[t] == nodes[h];
      var g :| Owns(nodes, g, t) && r2[t] == nodes[g];
    }
    forall t | t in r2
      ensures t in r1
    {
      var g :| Owns(nodes, g, t) && r2[t] == nodes[g];
    }
  }

  lemma {:induction false} InsertTokensAt(ring: Ring, tokens: seq<Token>, node: Node)
    ensures forall t: Token :: t in InsertTokens(ring, tokens, node) <==> t in ring || t in tokens
    ensures forall t: Token :: t in tokens ==> InsertTokens(ring, tokens, node)[t] == node
    ensures forall t: Token :: t in ring && t !in tokens ==> InsertTokens(ring, tokens, node)[t] == ring[t]
  {
    if tokens != [] {
      var n := |tokens| - 1;
      InsertTokensAt(ring, tokens[..n], node);
      assert tokens == tokens[..n] + [tokens[n]];
    }
  }

  /** The part of the node map an iteration has passed. */
  ghost function Seen(nodes: Nodes, order: seq<nat>): Nodes {
    map h | h in nodes && h in order :: nodes[h]
  }

  lemma {:induction false} RingFromAgrees(nodes: Nodes, order: seq<nat>)
    requires Disjoint(nodes) && forall h :: h in order ==> h in nodes
    ensures Agrees(RingFrom(nodes, order), Seen(nodes, order))
  {
    if order == [] {
    } else {
      var n := |order| - 1;
      var h := order[n];
      assert h in order;
      RingFromAgrees(nodes, order[..n]);
      var before, after := Seen(nodes, order[..n]), Seen(nodes, order);
      assert after == before[h := nodes[h]] by {
        assert order == order[..n] + [h];
      }
      hide RingFrom, Seen;
      assert Disjoint(after) by {
        assert forall g :: g in after ==> g in nodes && after[g] == nodes[g];
      }
      var ring := RingFrom(nodes, order[..n]);
      assert h in before ==> before[h] == nodes[h];
      ReplacedAgrees(ring, before, h, nodes[h]);
      assert RingFrom(nodes, order) == InsertTokens(ring, nodes[h].tokens, nodes[h]) by { RingFromStep(nodes, order); }
    }
  }

  lemma RingFromStep(nodes: Nodes, order: seq<nat>)
    requires order != [] && forall h :: h in order ==> h in nodes
    ensures order[|order| - 1] in nodes
    ensures RingFrom(nodes, order)
            == InsertTokens(RingFrom(nodes, order[..|order| - 1]),
                            nodes[order[|order| - 1]].tokens, nodes[order[|order| - 1]])
  {
    assert order[|order| - 1] in order;
  }

  /** Inserting a node keeps the agreement when the replaced node's tokens are kept. */
  lemma ReplacedAgrees(ring: Ring, nodes: Nodes, h: nat, node: Node)
    requires Agrees(ring, nodes) && Disjoint(nodes[h := node])
    requires h in nodes ==> forall t :: t in nodes[h].tokens ==> t in node.tokens
    ensures Agrees(InsertTokens(ring, node.tokens, node), nodes[h := node])
  {
    var ring', nodes' := InsertTokens(ring, node.tokens, node), nodes[h := node];
    InsertTokensAt(ring, node.tokens, node);
    forall t | t in ring'
      ensures exists g: nat :: Owns(nodes', g, t) && ring'[t] == nodes'[g]
    {
      if t in node.tokens {
        assert Owns(nodes', h, t) && ring'[t] == nodes'[h];
      } else {
        var g :| Owns(nodes, g, t) && ring[t] == nodes[g];
        assert g != h;
        assert Owns(nodes', g, t) && ring'[t] == nodes'[g];
      }
    }
    forall g: nat, t: Token | Owns(nodes', g, t)
      ensures t in ring'
    {
      if g != h {
        assert Owns(nodes, g, t);
      }
    }
  }

  /** Adding or replacing a node keeps ring and node map in agreement if and only if every
      token of the replaced node is also a token of the new one: dropped tokens are never
      taken off the ring. */
  lemma ReplaceKeepsRingIff(ring: Ring, nodes: Nodes, node: Node)
    requires Agrees(ring, nodes) && Disjoint(nodes) && Disjoint(nodes[node.hostId := node])
    ensures Agrees(InsertTokens(ring, node.tokens, node), nodes[node.hostId := node])
            <==> (node.hostId in nodes ==> forall t :: t in nodes[node.hostId].tokens ==> t in node.tokens)
  {
    var h := node.hostId;
    var ring', nodes' := InsertTokens(ring, node.tokens, node), nodes[h := node];
    if h !in nodes || forall t :: t in nodes[h].tokens ==> t in node.tokens {
      ReplacedAgrees(ring, nodes, h, node);
    } else {
      var t :| t in nodes[h].tokens && t !in node.tokens;
      InsertTokensAt(ring, node.tokens, node);
      assert Owns(nodes, h, t);
      assert t in ring';
      forall g: nat
        ensures !Owns(nodes', g, t)
      {
      }
    }
  }

  ghost predicate Enumerates(order: seq<nat>, nodes: Nodes) {
    forall h :: h in order <==> h in nodes
  }

  /** Whatever the iteration order, building the ring from scratch agrees with the nodes. */
  lemma RebuiltRingAgrees(nodes: Nodes, order: seq<nat>)
    requires Disjoint(nodes) && Enumerates(order, nodes)
    ensures Agrees(RingFrom(nodes, order), nodes)
  {
    RingFromAgrees(nodes, order);
    assert Seen(nodes, order) == nodes;
  }

  function NodesWithout(nodes: Nodes, address: nat): Nodes {
    map h | h in nodes && nodes[h].address != address :: nodes[h]
  }

  /** Removing an address from the ring is the same as rebuilding without it. */
  lemma RingWithoutAgrees(ring: Ring, nodes: Nodes, address: nat)
    requires Agrees(ring, nodes) && Disjoint(nodes)
    ensures Agrees(RingWithout(ring, address), NodesWithout(nodes, address))
  {
    var ring', nodes' := RingWithout(ring, address), NodesWithout(nodes, address);
    forall t | t in ring'
      ensures exists h: nat :: Owns(nodes', h, t) && ring'[t] == nodes'[h]
    {
      var h :| Owns(nodes, h, t) && ring[t] == nodes[h];
      assert Owns(nodes', h, t);
    }
    forall h: nat, t: Token | Owns(nodes', h, t)
      ensures t in ring'
    {
      assert Owns(nodes, h, t);
      var g :| Owns(nodes, g, t) && ring[t] == nodes[g];
    }
  }

  //
  // Rack counts
  //

  ghost function Datacenters(nodes: Nodes): set<string> { set h | h in nodes :: nodes[h].datacenter }

  ghost function RacksOf(nodes: Nodes, dc: string): set<string> {
    set h | h in nodes && nodes[h].datacenter == dc :: nodes[h].rack
  }

  /** The rack counts that belong to a node map. */
  ghost function RackCounts(nodes: Nodes): map<string, nat> {
    map dc | dc in Datacenters(nodes) :: |RacksOf(nodes, dc)|
  }

  /** Equal datacenters stand next to each other, as sorting by datacenter leaves them. */
  ghost predicate Grouped(nodes: seq<Node>) {
    forall i, j, k :: 0 <= i < j < k < |nodes| && nodes[i].datacenter == nodes[k].datacenter
                      ==> nodes[j].datacenter == nodes[i].datacenter
  }

  ghost predicate Lists(sorted: seq<Node>, nodes: Nodes) {
    && (forall n :: n in sorted ==> exists h: nat :: h in nodes && nodes[h] == n)
    && (forall h :: h in nodes ==> nodes[h] in sorted)
  }

  ghost function DcRacks(nodes: seq<Node>, dc: string): set<string> {
    set n | n in nodes && n.datacenter == dc :: n.rack
  }

  ghost predicate HasDc(nodes: seq<Node>, dc: string) { exists n :: n in nodes && n.datacenter == dc }

  /** Sorting by datacenter, whatever the order on names, leaves equal ones together. */
  lemma SortedIsGrouped(nodes: seq<Node>, leq: (string, string) -> bool)
    requires forall x, y :: leq(x, y) && leq(y, x) ==> x == y
    requires forall i, j :: 0 <= i < j < |nodes| ==> leq(nodes[i].datacenter, nodes[j].datacenter)
    ensures Grouped(nodes)
  {
    forall i, j, k | 0 <= i < j < k < |nodes| && nodes[i].datacenter == nodes[k].datacenter
      ensures nodes[j].datacenter == nodes[i].datacenter
    {
      assert leq(nodes[i].datacenter, nodes[j].datacenter) && leq(nodes[j].datacenter, nodes[k].datacenter);
    }
  }

  /** Where the run of nodes with datacenter `dc` that goes on at `i` ends. */
  function RunEnd(nodes: seq<Node>, i: nat, dc: string): (end: nat)
    requires i <= |nodes|
    ensures i <= end <= |nodes|
    ensures forall j :: i <= j < end ==> nodes[j].datacenter == dc
    ensures end < |nodes| ==> nodes[end].datacenter != dc
    decreases |nodes| - i
  {
    if i < |nodes| && nodes[i].datacenter == dc then RunEnd(nodes, i + 1, dc) else i
  }

  /** The chunks from `start` on, each stored under its datacenter with the number of its
      different racks; a later chunk of the same datacenter would replace an earlier one. */
  function CountedFrom(nodes: seq<Node>, start: nat, info: map<string, nat>): map<string, nat>
    requires start <= |nodes|
    decreases |nodes| - start
  {
    if start == |nodes| then info
    else
      var dc := nodes[start].datacenter;
      var end := RunEnd(nodes, start + 1, dc);
      CountedFrom(nodes, end, info[dc := |Racks(nodes[start..end])|])
  }

  function DatacenterInfo(nodes: seq<Node>): map<string, nat> { CountedFrom(nodes, 0, map[]) }

  /** `build_datacenter_info` after the sorting: chunks of equal datacenters, each with its
      number of different racks. */
  method BuildDatacenterInfo(sorted: seq<Node>) returns (info: map<string, nat>)
    ensures info == DatacenterInfo(sorted)
  {
    info := map[];
    var start := 0;
    while start < |sorted|
      invariant 0 <= start <= |sorted|
      invariant DatacenterInfo(sorted) == CountedFrom(sorted, start, info)
    {
      var end, racks := ReadChunk(sorted, start);
      info := info[sorted[start].datacenter := |racks|];
      start := end;
    }
  }

  /** One chunk: the run of equal datacenters that starts at `start`, and its racks. */
  method ReadChunk(sorted: seq<Node>, start: nat) returns (end: nat, racks: set<string>)
    requires start < |sorted|
    ensures end == RunEnd(sorted, start + 1, sorted[start].datacenter) && racks == Racks(sorted[start..end])
  {
    var dc := sorted[start].datacenter;
    racks := {sorted[start].rack};
    end := start + 1;
    assert sorted[start..end] == [sorted[start]];
    while end < |sorted| && sorted[end].datacenter == dc
      invariant start < end <= |sorted|
      invariant RunEnd(sorted, start + 1, dc) == RunEnd(sorted, end, dc)
      invariant racks == Racks(sorted[start..end])
    {
      assert sorted[start..end + 1] == sorted[start..end] + [sorted[end]];
      racks := racks + {sorted[end].rack};
      end := end + 1;
    }
  }

  /** What was counted before `start`, when no datacenter goes on behind it. */
  ghost predicate CountedUpTo(sorted: seq<Node>, start: nat, info: map<string, nat>)
    requires start <= |sorted|
  {
    && (forall dc: string :: dc in info <==> HasDc(sorted[..start], dc))
    && (forall dc: string :: dc in info ==> info[dc] == |DcRacks(sorted, dc)|)
    && (forall i, j :: 0 <= i < start <= j < |sorted| ==> sorted[i].datacenter != sorted[j].datacenter)
  }

  /** Of a grouped listing every datacenter is counted once, with all its racks. */
  lemma {:induction false} GroupedIsCounted(sorted: seq<Node>, start: nat, info: map<string, nat>)
    requires Grouped(sorted) && start <= |sorted| && CountedUpTo(sorted, start, info)
    ensures CountedUpTo(sorted, |sorted|, CountedFrom(sorted, start, info))
    decreases |sorted| - start
  {
    if start < |sorted| {
      var dc := sorted[start].datacenter;
      var end := RunEnd(sorted, start + 1, dc);
      ChunkCounted(sorted, start, end, info);
      GroupedIsCounted(sorted, end, info[dc := |Racks(sorted[start..end])|]);
    }
  }

  lemma ChunkCounted(sorted: seq<Node>, start: nat, end: nat, info: map<string, nat>)
    requires Grouped(sorted) && start < end <= |sorted| && CountedUpTo(sorted, start, info)
    requires forall i :: start <= i < end ==> sorted[i].datacenter == sorted[start].datacenter
    requires end < |sorted| ==> sorted[end].datacenter != sorted[start].datacenter
    ensures CountedUpTo(sorted, end, info[sorted[start].datacenter := |Racks(sorted[start..end])|])
  {
    var dc := sorted[start].datacenter;
    ChunkIsWhole(sorted, start, end, dc);
    Covered(sorted, start, end, dc);
    hide HasDc, Grouped;
  }

  /** A chunk holds all nodes of its datacenter. */
  lemma ChunkIsWhole(sorted: seq<Node>, start: nat, end: nat, dc: string)
    requires Grouped(sorted) && start < end <= |sorted|
    requires forall i :: start <= i < end ==> sorted[i].datacenter == dc
    requires end < |sorted| ==> sorted[end].datacenter != dc
    requires forall i, j :: 0 <= i < start <= j < |sorted| ==> sorted[i].datacenter != sorted[j].datacenter
    ensures Racks(sorted[start..end]) == DcRacks(sorted, dc)
    ensures forall i, j :: 0 <= i < end <= j < |sorted| ==> sorted[i].datacenter != sorted[j].datacenter
  {
    forall j | end <= j < |sorted|
      ensures sorted[j].datacenter != dc
    {
      assert sorted[start].datacenter == dc && sorted[end].datacenter != dc;
    }
    forall n | n in sorted && n.datacenter == dc
      ensures n in sorted[start..end]
    {
      var i :| 0 <= i < |sorted| && sorted[i] == n;
      assert sorted[i].datacenter == sorted[start].datacenter;
      assert sorted[start..end][i - start] == n;
    }
    forall n | n in sorted[start..end]
      ensures n in sorted && n.datacenter == dc
    {
    }
  }

  lemma Covered(sorted: seq<Node>, start: nat, end: nat, dc: string)
    requires start < end <= |sorted| && forall i :: start <= i < end ==> sorted[i].datacenter == dc
    ensures forall d: string :: HasDc(sorted[..end], d) <==> d == dc || HasDc(sorted[..start], d)
  {
    assert sorted[..end] == sorted[..start] + sorted[start..end];
    assert sorted[..end][start] == sorted[start];
    forall d: string | HasDc(sorted[..end], d)
      ensures d == dc || HasDc(sorted[..start], d)
    {
      var n :| n in sorted[..end] && n.datacenter == d;
      var i :| 0 <= i < end && sorted[i] == n;
      if i < start {
        assert sorted[..start][i] == n;
      }
    }
    forall d: string | d == dc || HasDc(sorted[..start], d)
      ensures HasDc(sorted[..end], d)
    {
      if d == dc {
        assert sorted[start] in sorted[..end];
      } else {
        var n :| n in sorted[..start] && n.datacenter == d;
        assert n in sorted[..end];
      }
    }
  }

  lemma CountsMatch(sorted: seq<Node>, nodes: Nodes, info: map<string, nat>)
    requires Lists(sorted, nodes)
    requires forall dc: string :: dc in info <==> HasDc(sorted, dc)
    requires forall dc: string :: dc in info ==> info[dc] == |DcRacks(sorted, dc)|
    ensures info == RackCounts(nodes)
  {
    forall dc: string
      ensures dc in info <==> dc in Datacenters(nodes)
      ensures DcRacks(sorted, dc) == RacksOf(nodes, dc)
    {
      if HasDc(sorted, dc) {
        var n :| n in sorted && n.datacenter == dc;
        var h :| h in nodes && nodes[h] == n;
      }
      if dc in Datacenters(nodes) {
        var h :| h in nodes && nodes[h].datacenter == dc;
        assert nodes[h] in sorted;
      }
      forall r | r in DcRacks(sorted, dc)
        ensures r in RacksOf(nodes, dc)
      {
        var n :| n in sorted && n.datacenter == dc && n.rack == r;
      }
    }
  }

  /** Chunking a grouped listing of the nodes counts each datacenter's different racks. */
  lemma DatacenterInfoCounts(sorted: seq<Node>, nodes: Nodes)
    requires Grouped(sorted) && Lists(sorted, nodes)
    ensures DatacenterInfo(sorted) == RackCounts(nodes)
  {
    hide Grouped, Lists, RackCounts, CountedFrom;
    GroupedIsCounted(sorted, 0, map[]);
    assert sorted[..|sorted|] == sorted;
    CountsMatch(sorted, nodes, DatacenterInfo(sorted));
  }

  //
  // Histories
  //

  datatype Update =
    | Build(nodes: Nodes, keyspaces: map<string, ReplicationStrategy>, order: seq<nat>, sorted: seq<Node>)
    | WithNode(node: Node, sorted: seq<Node>)
    | WithoutNode(address: nat, order: seq<nat>, sorted: seq<Node>)
    | WithKeyspace(name: string, strategy: ReplicationStrategy)
    | WithoutKeyspace(name: string)

  /** `order` stands for the iteration order of a hash map, `sorted` for the listing of the
      new node map that an unstable sort by datacenter gives. */
  ghost predicate Possible(m: Metadata, u: Update) {
    match u
    case Build(nodes, _, order, sorted) => Enumerates(order, nodes) && Grouped(sorted) && Lists(sorted, nodes)
    case WithNode(node, sorted) => Grouped(sorted) && Lists(sorted, m.nodes[node.hostId := node])
    case WithoutNode(address, order, sorted) =>
      var nodes := NodesWithout(m.nodes, address);
      Enumerates(order, nodes) && Grouped(sorted) && Lists(sorted, nodes)
    case _ => true
  }

  ghost function New(
    nodes: Nodes, keyspaces: map<string, ReplicationStrategy>, order: seq<nat>, sorted: seq<Node>): Metadata
    requires Enumerates(order, nodes)
  {
    Metadata(nodes, RingFrom(nodes, order), keyspaces, DatacenterInfo(sorted))
  }

  ghost function Updated(m: Metadata, u: Update): Metadata
    requires Possible(m, u)
  {
    match u
    case Build(nodes, keyspaces, order, sorted) => New(nodes, keyspaces, order, sorted)
    case WithNode(node, sorted) =>
      Metadata(m.nodes[node.hostId := node], InsertTokens(m.ring, node.tokens, node), m.keyspaces,
               DatacenterInfo(sorted))
    case WithoutNode(address, order, sorted) => New(NodesWithout(m.nodes, address), m.keyspaces, order, sorted)
    case WithKeyspace(name, strategy) => m.(keyspaces := m.keyspaces[name := strategy])
    case WithoutKeyspace(name) => m.(keyspaces := m.keyspaces - {name})
  }

  const EMPTY: Metadata := Metadata(map[], map[], map[], map[])

  ghost predicate IsHistory(states: seq<Metadata>, updates: seq<Update>) {
    && |states| == |updates| + 1 && states[0] == EMPTY
    && forall i :: 0 <= i < |updates| ==>
         Possible(states[i], updates[i]) && states[i + 1] == Updated(states[i], updates[i])
  }

  /** The update puts `node` under host `h`. */
  predicate GivesNode(u: Update, h: nat, node: Node) {
    match u
    case Build(nodes, _, _, _) => h in nodes && nodes[h] == node
    case WithNode(n, _) => n == node && n.hostId == h
    case _ => false
  }

  /** The update ends what an earlier one put under host `h`: it starts over, names the host
      again, or removes the node's address. */
  predicate EndsNode(u: Update, h: nat, node: Node) {
    match u
    case Build(_, _, _, _) => true
    case WithNode(n, _) => n.hostId == h
    case WithoutNode(address, _, _) => node.address == address
    case _ => false
  }

  /** Update `j` put the node there and none between it and `k` ended that. */
  ghost predicate NodeFrom(updates: seq<Update>, j: nat, k: nat, h: nat, node: Node)
    requires k <= |updates|
  {
    j < k && GivesNode(updates[j], h, node) && forall i :: j < i < k ==> !EndsNode(updates[i], h, node)
  }

  ghost predicate NodeGiven(updates: seq<Update>, k: nat, h: nat, node: Node)
    requires k <= |updates|
  {
    exists j: nat :: NodeFrom(updates, j, k, h, node)
  }

  predicate GivesKeyspace(u: Update, name: string, strategy: ReplicationStrategy) {
    match u
    case Build(_, keyspaces, _, _) => name in keyspaces && keyspaces[name] == strategy
    case WithKeyspace(n, s) => n == name && s == strategy
    case _ => false
  }

  predicate EndsKeyspace(u: Update, name: string) {
    match u
    case Build(_, _, _, _) => true
    case WithKeyspace(n, _) => n == name
    case WithoutKeyspace(n) => n == name
    case _ => false
  }

  ghost predicate KeyspaceFrom(updates: seq<Update>, j: nat, k: nat, name: string, strategy: ReplicationStrategy)
    requires k <= |updates|
  {
    j < k && GivesKeyspace(updates[j], name, strategy) && forall i :: j < i < k ==> !EndsKeyspace(updates[i], name)
  }

  ghost predicate KeyspaceGiven(updates: seq<Update>, k: nat, name: string, strategy: ReplicationStrategy)
    requires k <= |updates|
  {
    exists j: nat :: KeyspaceFrom(updates, j, k, name, strategy)
  }

  ghost predicate HasNode(m: Metadata, h: nat, node: Node) { h in m.nodes && m.nodes[h] == node }

  ghost predicate HasKeyspace(m: Metadata, name: string, strategy: ReplicationStrategy) {
    name in m.keyspaces && m.keyspaces[name] == strategy
  }

  lemma UpdatedNode(m: Metadata, u: Update, h: nat, node: Node)
    requires Possible(m, u)
    ensures HasNode(Updated(m, u), h, node) <==> GivesNode(u, h, node) || (HasNode(m, h, node) && !EndsNode(u, h, node))
  {
    hide DatacenterInfo, Grouped, Lists, Enumerates, RingFrom, InsertTokens;
  }

  lemma UpdatedKeyspace(m: Metadata, u: Update, name: string, strategy: ReplicationStrategy)
    requires Possible(m, u)
    ensures HasKeyspace(Updated(m, u), name, strategy) <==>
      GivesKeyspace(u, name, strategy) || (HasKeyspace(m, name, strategy) && !EndsKeyspace(u, name))
  {
    hide DatacenterInfo, Grouped, Lists, Enumerates, RingFrom, InsertTokens;
  }

  /** What the node map holds, told from the updates: a host has a node exactly when some
      update put it there and no later one started over, named the host again or removed the
      node's address. */
  lemma {:induction false} NodesAreThoseGiven(states: seq<Metadata>, updates: seq<Update>, k: nat, h: nat, node: Node)
    requires IsHistory(states, updates) && k <= |updates|
    ensures HasNode(states[k], h, node) <==> NodeGiven(updates, k, h, node)
  {
    if k > 0 {
      var m, u := states[k - 1], updates[k - 1];
      assert Possible(m, u) && states[k] == Updated(m, u);
      NodesAreThoseGiven(states, updates, k - 1, h, node);
      UpdatedNode(m, u, h, node);
      NodeFromStep(updates, k, h, node);
      hide HasNode, NodeGiven;
    }
  }

  lemma NodeFromStep(updates: seq<Update>, k: nat, h: nat, node: Node)
    requires 0 < k <= |updates|
    ensures NodeGiven(updates, k, h, node) <==>
      || GivesNode(updates[k - 1], h, node)
      || (NodeGiven(updates, k - 1, h, node) && !EndsNode(updates[k - 1], h, node))
  {
    hide GivesNode, EndsNode;
    var m := k - 1;
    if GivesNode(updates[m], h, node) {
      assert NodeFrom(updates, m, k, h, node);
    }
    if NodeGiven(updates, m, h, node) && !EndsNode(updates[m], h, node) {
      var j: nat :| NodeFrom(updates, j, m, h, node);
      assert NodeFrom(updates, j, k, h, node);
    }
    if NodeGiven(updates, k, h, node) {
      var j: nat :| NodeFrom(updates, j, k, h, node);
      if j < m {
        assert NodeFrom(updates, j, m, h, node);
      }
    }
  }

  /** The same for keyspaces. */
  lemma {:induction false} KeyspacesAreThoseGiven(
    states: seq<Metadata>, updates: seq<Update>, k: nat, name: string, strategy: ReplicationStrategy)
    requires IsHistory(states, updates) && k <= |updates|
    ensures HasKeyspace(states[k], name, strategy) <==> KeyspaceGiven(updates, k, name, strategy)
  {
    if k > 0 {
      var m, u := states[k - 1], updates[k - 1];
      assert Possible(m, u) && states[k] == Updated(m, u);
      KeyspacesAreThoseGiven(states, updates, k - 1, name, strategy);
      UpdatedKeyspace(m, u, name, strategy);
      KeyspaceFromStep(updates, k, name, strategy);
      hide HasKeyspace, KeyspaceGiven;
    }
  }

  lemma KeyspaceFromStep(updates: seq<Update>, k: nat, name: string, strategy: ReplicationStrategy)
    requires 0 < k <= |updates|
    ensures KeyspaceGiven(updates, k, name, strategy) <==>
      || GivesKeyspace(updates[k - 1], name, strategy)
      || (KeyspaceGiven(updates, k - 1, name, strategy) && !EndsKeyspace(updates[k - 1], name))
  {
    hide GivesKeyspace, EndsKeyspace;
    var m := k - 1;
    if GivesKeyspace(updates[m], name, strategy) {
      assert KeyspaceFrom(updates, m, k, name, strategy);
    }
    if KeyspaceGiven(updates, m, name, strategy) && !EndsKeyspace(updates[m], name) {
      var j: nat :| KeyspaceFrom(updates, j, m, name, strategy);
      assert KeyspaceFrom(updates, j, k, name, strategy);
    }
    if KeyspaceGiven(updates, k, name, strategy) {
      var j: nat :| KeyspaceFrom(updates, j, k, name, strategy);
      if j < m {
        assert KeyspaceFrom(updates, j, m, name, strategy);
      }
    }
  }

  /** Rack counts, computed by chunking whatever listing the sort gave at the latest change of
      the nodes, always match the node map. */
  lemma {:induction false} RackCountsAlwaysMatch(states: seq<Metadata>, updates: seq<Update>, n: nat)
    requires IsHistory(states, updates) && n <= |updates|
    ensures states[n].datacenters == RackCounts(states[n].nodes)
  {
    if n == 0 {
      assert RackCounts(map[]) == map[];
    } else {
      RackCountsAlwaysMatch(states, updates, n - 1);
      var m, u := states[n - 1], updates[n - 1];
      assert Possible(m, u) && states[n] == Updated(m, u);
      hide DatacenterInfo, RackCounts;
      match u
      case Build(nodes, _, _, sorted) => DatacenterInfoCounts(sorted, nodes);
      case WithNode(node, sorted) => DatacenterInfoCounts(sorted, m.nodes[node.hostId := node]);
      case WithoutNode(address, _, sorted) => DatacenterInfoCounts(sorted, NodesWithout(m.nodes, address));
      case _ =>
    }
  }

  /** Tokens stay disjoint across hosts, and a replacement keeps the replaced tokens. */
  ghost predicate Orderly(m: Metadata, u: Update) {
    match u
    case Build(nodes, _, _, _) => Disjoint(nodes)
    case WithNode(node, _) =>
      && Disjoint(m.nodes[node.hostId := node])
      && (node.hostId in m.nodes ==> forall t :: t in m.nodes[node.hostId].tokens ==> t in node.tokens)
    case _ => true
  }

  /** The incrementally maintained ring agrees with the node map in every state of an orderly
      history; so it equals the ring rebuilt from scratch in any order. */
  lemma {:induction false} RingAlwaysAgrees(states: seq<Metadata>, updates: seq<Update>, n: nat)
    requires IsHistory(states, updates) && n <= |updates|
    requires forall i :: 0 <= i < n ==> Orderly(states[i], updates[i])
    ensures Disjoint(states[n].nodes) && Agrees(states[n].ring, states[n].nodes)
    ensures forall order :: Enumerates(order, states[n].nodes) ==>
              states[n].ring == RingFrom(states[n].nodes, order)
  {
    if n > 0 {
      RingAlwaysAgrees(states, updates, n - 1);
      var m, u := states[n - 1], updates[n - 1];
      assert Possible(m, u) && states[n] == Updated(m, u) && Orderly(m, u);
      match u
      case Build(nodes, _, order, _) => RebuiltRingAgrees(nodes, order);
      case WithNode(node, _) => ReplacedAgrees(m.ring, m.nodes, node.hostId, node);
      case WithoutNode(address, order, _) => RebuiltRingAgrees(NodesWithout(m.nodes, address), order);
      case _ =>
    }
    var m := states[n];
    forall order | Enumerates(order, m.nodes)
      ensures m.ring == RingFrom(m.nodes, order)
    {
      RebuiltRingAgrees(m.nodes, order);
      RingIsDetermined(m.ring, RingFrom(m.nodes, order), m.nodes);
    }
  }

  /** In every history, orderly or not, adding or replacing a node makes it the owner of its
      tokens and leaves every other ring entry as it was, stale ones included. */
  lemma AddedNodeOwnsItsTokens(states: seq<Metadata>, updates: seq<Update>, k: nat, t: Token)
    requires IsHistory(states, updates) && k < |updates| && updates[k].WithNode?
    ensures var before, after, node := states[k].ring, states[k + 1].ring, updates[k].node;
      if t in node.tokens then t in after && after[t] == node
      else (t in after <==> t in before) && (t in after ==> after[t] == before[t])
  {
    assert states[k + 1] == Updated(states[k], updates[k]);
    InsertTokensAt(states[k].ring, updates[k].node.tokens, updates[k].node);
    hide InsertTokens, DatacenterInfo;
  }

  //
  // Ring walks
  //

  /** The ascending iteration of the ring. */
  ghost predicate Ascends(order: seq<Token>, ring: Ring) {
    && (forall t :: t in order <==> t in ring)
    && (forall i, j :: 0 <= i < j < |order| ==> order[i] < order[j])
  }

  /** Number of tokens below `token`: where `range(token..)` starts. */
  function Below(order: seq<Token>, token: Token): (k: nat)
    ensures k <= |order|
  {
    if order == [] || order[0] >= token then 0 else 1 + Below(order[1..], token)
  }

  /** `nodes_for_token_capped`: the rest of the ring from the token on, then the whole ring,
      cut to a number of entries. */
  function CappedWalk(order: seq<Token>, token: Token, count: nat): (w: seq<Token>)
    ensures forall t :: t in w ==> t in order
  {
    var all := order[Below(order, token)..] + order;
    if count <= |all| then all[..count] else all
  }

  function Walk(order: seq<Token>, token: Token): seq<Token> { CappedWalk(order, token, |order|) }

  lemma {:induction false} BelowSplits(order: seq<Token>, token: Token)
    requires forall i, j :: 0 <= i < j < |order| ==> order[i] < order[j]
    ensures forall i :: 0 <= i < Below(order, token) ==> order[i] < token
    ensures forall i :: Below(order, token) <= i < |order| ==> token <= order[i]
  {
    if order != [] && order[0] < token {
      BelowSplits(order[1..], token);
      forall i | 0 <= i < |order|
        ensures i < Below(order, token) ==> order[i] < token
        ensures Below(order, token) <= i ==> token <= order[i]
      {
        if i > 0 {
          assert order[i] == order[1..][i - 1];
        }
      }
    }
  }

  /** The walk is a rotation: it starts at the first token not below the requested one, goes
      up, wraps once, and visits every ring entry exactly once. Shorter walks are prefixes
      of it. */
  lemma WalkIsRotation(order: seq<Token>, ring: Ring, token: Token, count: nat)
    requires Ascends(order, ring)
    ensures var k := Below(order, token);
      && Walk(order, token) == order[k..] + order[..k]
      && (forall i :: 0 <= i < k ==> order[i] < token) && (forall i :: k <= i < |order| ==> token <= order[i])
    ensures forall t :: t in Walk(order, token) <==> t in ring
    ensures forall i, j :: 0 <= i < j < |order| ==> Walk(order, token)[i] != Walk(order, token)[j]
    ensures count <= |order| ==> CappedWalk(order, token, count) == Walk(order, token)[..count]
  {
    var k := Below(order, token);
    BelowSplits(order, token);
    RotationVisitsOnce(order, k);
    hide Below;
    assert (order[k..] + order)[..|order|] == order[k..] + order[..k];
  }

  lemma RotationVisitsOnce(order: seq<Token>, k: nat)
    requires k <= |order| && forall i, j :: 0 <= i < j < |order| ==> order[i] < order[j]
    ensures var w := order[k..] + order[..k];
      && (forall t :: t in w <==> t in order) && |w| == |order|
      && forall i, j :: 0 <= i < j < |w| ==> w[i] != w[j]
  {
    assert order == order[..k] + order[k..];
  }

  function NodesOf(ring: Ring, tokens: seq<Token>): seq<Node>
    requires forall t :: t in tokens ==> t in ring
  {
    seq(|tokens|, i requires 0 <= i < |tokens| => assert tokens[i] in tokens; ring[tokens[i]])
  }

  function WalkNodes(order: seq<Token>, ring: Ring, token: Token): seq<Node>
    requires forall t :: t in order ==> t in ring
  {
    NodesOf(ring, Walk(order, token))
  }

  lemma WalkedNodeKnown(m: Metadata, order: seq<Token>, token: Token, n: Node)
    requires Agrees(m.ring, m.nodes) && Ascends(order, m.ring) && n in WalkNodes(order, m.ring, token)
    ensures exists h: nat :: h in m.nodes && m.nodes[h] == n
  {
    var walk := WalkNodes(order, m.ring, token);
    WalkIsRotation(order, m.ring, token, 0);
    var i :| 0 <= i < |walk| && walk[i] == n;
    var t := Walk(order, token)[i];
    assert t in Walk(order, token);
    var h :| Owns(m.nodes, h, t) && m.ring[t] == m.nodes[h];
  }

  /** In an orderly history the racks met on a walk never outnumber the counted racks, which
      is what the closed form of replica selection needs. */
  lemma WalkRacksCounted(m: Metadata, order: seq<Token>, token: Token, dc: string)
    requires Agrees(m.ring, m.nodes) && m.datacenters == RackCounts(m.nodes) && Ascends(order, m.ring)
    ensures |Racks(InDc(WalkNodes(order, m.ring, token), dc))| <= RackCount(m.datacenters, dc)
  {
    var walk := WalkNodes(order, m.ring, token);
    forall n | n in walk
      ensures exists h: nat :: h in m.nodes && m.nodes[h] == n
    {
      WalkedNodeKnown(m, order, token, n);
    }
    InDcMembers(walk, dc);
    var racks := Racks(InDc(walk, dc));
    forall r | r in racks
      ensures r in RacksOf(m.nodes, dc)
    {
      var n :| n in InDc(walk, dc) && n.rack == r;
      var h :| h in m.nodes && m.nodes[h] == n;
    }
    SubsetSize(racks, RacksOf(m.nodes, dc));
    if dc !in RackCounts(m.nodes) {
      assert RacksOf(m.nodes, dc) == {};
    }
  }

  lemma {:induction false} InDcMembers(walk: seq<Node>, dc: string)
    ensures forall n :: n in InDc(walk, dc) ==> n in walk && n.datacenter == dc
  {
    if walk != [] {
      InDcMembers(walk[..|walk| - 1], dc);
    }
  }

  /** Replica selection over the real ring: in every state of an orderly history, for every
      token and replication map, each datacenter gets its closed-form replicas. */
  lemma ReplicasInOrderlyHistories(
    states: seq<Metadata>, updates: seq<Update>, n: nat, order: seq<Token>, token: Token,
    factors: map<string, nat>, dc: string)
    requires IsHistory(states, updates) && n <= |updates|
    requires forall i :: 0 <= i < n ==> Orderly(states[i], updates[i])
    requires Ascends(order, states[n].ring) && dc in factors
    ensures var m := states[n];
      var walk := WalkNodes(order, m.ring, token);
      var nodes := InDc(walk, dc);
      InDc(Selected(walk, factors, m.datacenters), dc)
      == PickedNodes(nodes, |nodes|, factors[dc], RackCount(m.datacenters, dc))
  {
    var m := states[n];
    RackCountsAlwaysMatch(states, updates, n);
    RingAlwaysAgrees(states, updates, n);
    WalkRacksCounted(m, order, token, dc);
    SelectionClosedForm(WalkNodes(order, m.ring, token), factors, m.datacenters, dc);
  }
}
