/** Nodes of the cluster as the metadata snapshot sees them. */
module Topology {
  import opened Options

  /** A Murmur3 token (i64). */
  type Token = t: int | -0x8000_0000_0000_0000 <= t < 0x8000_0000_0000_0000

  datatype Distance = Local | Remote

  datatype NodeState = Unknown | Up | Down | ForcedDown

  datatype Node = Node(
    hostId: nat,
    address: nat,
    distance: Option<Distance>,
    state: NodeState,
    tokens: seq<Token>,
    rack: string,
    datacenter: string)
  {
    predicate IsLocal() { distance == Some(Local) }
    predicate IsRemote() { distance == Some(Remote) }

    /** A node without a known distance, or not up, takes no part in load balancing. */
    predicate IsIgnored() { distance.None? || !state.Up? }
  }

  lemma LocalOrRemote(n: Node)
    requires !n.IsIgnored()
    ensures n.IsLocal() != n.IsRemote()
  {
    match n.distance.value
    case Local =>
    case Remote =>
  }
}
