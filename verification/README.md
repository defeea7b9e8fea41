# A verified model of the cdrs-tokio Cassandra driver

The project models five connected parts of the driver and proves what they promise
together:

1. **Framing and the connection writer** (`Bits`, `Bytes`, `Polynomials`, `Crc`, `Frames`, `Envelopes`,
   `FrameEncoder`, `FrameDecoder`, `Writer`, `EndToEnd`): native-protocol v5 frames with
   bit-packed, CRC24-protected headers, the packing loop that fills them, and the decoders
   that undo it from arbitrary socket reads. The main theorem goes from the request queue on
   one side to the decoded envelopes on the other.
2. **Stream multiplexing** (`StreamIds`): id allocation with wrap-around and delivery of
   responses, over whole runs.
3. **Cluster metadata and replica selection** (`Topology`, `Metadata`, `Replicas`,
   `QueryPlan`): the token ring and rack counts kept beside the node map, the greedy
   rack-aware selection, and the query plans built from it.
4. **Request execution** (`Requests`, `Speculation`, `ConnectionPool`): retries over a plan,
   speculative executions under every interleaving, and the reconnection protocol.
5. **Wire codecs and the routing hash** (`Wire`, `TypeDescriptors`, `QueryParams`, `Words`,
   `Murmur3`, `RoutingToken`, `RoutingKey`, and `KnownBytes` with literal codes and layouts).

Stateful code is modelled by classes and methods with loops; each is proved against a
function on values, and the theorems are about those functions. `dafny verify dfyconfig.toml`
checks everything.

Modelling decisions:

- crc32, lz4 and the body compressors are function-valued parameters with laws
  (`Frames.Lawful`, `Envelopes.Inverts`): decompression undoes compression, output stays
  within the announced maximum, which is at least the input length, and crc32 has 32 bits
  (`Frames.LawfulLibraryExists` shows that the laws can be met).
- Text is its UTF-8 bytes. Casts and wrapping arithmetic are written out; where debug and
  release builds differ, the model follows release builds on a 64-bit platform.
- What makes the source panic while parsing (a slice past the end, a negative length cast to
  usize, a negative capacity) is an error value of its own.
- Shuffles and the unstable sort are some permutation with the promised order; hash map
  iteration is an arbitrary order; network and node behaviour is an arbitrary function;
  timers and delays are steps that may happen at any time.
- The pool repair is one step. A connection that breaks while it runs does so, for the slots
  it has passed, as if right after it, and for the others as if right before it.

Where the code does something else than its documentation or protocol suggests, the model
follows the code and the exact condition is proved:

- the awaited length of a split envelope excludes the nine-byte header and is never cleared
  (`EndToEnd.StreamIff`, `ReassemblyIff`, `ShortTailLost`, `LaterLargeEnvelopeStalls`);
- the compare-exchange of the id allocator compares with the value before the increment, so
  ids restart at 0 and not at 1 (`StreamIds.ResponseHandlerMap.NextStreamId`);
- warnings are written for responses only but read whenever the flag is set
  (`Envelopes.WarningRequestLost`);
- replacing a node leaves tokens it no longer owns in the ring (`Metadata.ReplaceKeepsRingIff`);
- the early return for datacenter-local consistency is not de-duplicated
  (`QueryPlan.UndedupedPlanIff`, `EarlyPlanRepeats`);
- the speculative loop gives no answer when an I/O error or timeout is collected last
  (`Speculation.AnswerMissingIff`);
- prepared metadata is not readable in v3, `now_in_seconds` is dropped before v5, and an empty
  present value is refused by the parser (`TypeDescriptors.PreparedLostInV3`,
  `QueryParams.RoundTripIff`);
- null and unset values leave no trace in composite routing keys
  (`RoutingKey.CompositeKeysEqualIff`).

## Model

| member | source | states |
|---|---|---|
| `EndToEnd.WriterReaderIdentity` | cdrs-tokio/src/transport.rs:511-598 | For every list of requests, every pattern of moments at which the queue runs empty and every cutting of the written bytes into reads, a fresh v5 decoder delivers exactly the encoded envelopes in order and ends with empty buffers, if and only if the packed units are deliverable: no split envelope reaches the awaited length before its last fragment, no self-contained frame comes while envelopes wait, and none waits at the end. |
| `EndToEnd.QueueToEnvelopes` | cdrs-tokio/src/transport.rs:503-601 | The path closed: of requests built by the envelope encoder, the bytes of StartWriting on a new connection decode, under the same exact condition, to those envelopes with the k-th carrying stream id (k + 1) mod 32768. |
| `EndToEnd.StreamIff` | cassandra-protocol/src/frame/frame_decoder.rs:269-349 | From any point between two units, with complete envelopes still held in the buffer, everything held and still to come is delivered if and only if the units are deliverable. |
| `EndToEnd.DrainSizes` | cassandra-protocol/src/frame/frame_decoder.rs:269-349 | Conservation: the sizes of the delivered envelopes plus what stays buffered never exceed the payload bytes fed in. |
| `EndToEnd.SmallEnvelopesIdentity` | cdrs-tokio/src/transport.rs:529-566 | The same with no further condition when each envelope fits an empty frame. |
| `EndToEnd.LegacyIdentity` | cassandra-protocol/src/frame/frame_encoder.rs:67-106 | The same for the pre-v5 encoder and decoder, with any body compression and no condition. |
| `EndToEnd.PackConserves` | cdrs-tokio/src/transport.rs:529-566 | Packing loses, repeats and reorders no envelope; self-contained frames hold whole envelopes whose total stays below the payload limit, and only an envelope that does not fit an empty frame is split. |
| `EndToEnd.PackIsGreedy` | cdrs-tokio/src/transport.rs:529-566 | Within a batch every frame but the last is closed only because the next envelope does not fit. |
| `EndToEnd.SmallRequestsStayWhole` | cdrs-tokio/src/transport.rs:529-566 | Requests that fit an empty frame are never split. |
| `EndToEnd.ReassemblyIff` | cassandra-protocol/src/frame/frame_decoder.rs:269-315 | Fed the fragments of one envelope with an empty payload buffer, the decoder delivers exactly that envelope if and only if the awaited length is reached by the last fragment and not before. |
| `EndToEnd.FragmentsReassemble` | cassandra-protocol/src/frame/frame_decoder.rs:269-295 | Unless the awaited length is reached too early, nothing comes out before the last fragment; then everything held comes out with the envelope, or the envelope joins those held, and the recorded length stays behind. |
| `EndToEnd.FragmentsDropped` | cassandra-protocol/src/frame/frame_decoder.rs:269-287 | Otherwise part of the envelope is thrown away and the decoder goes on in its middle. |
| `EndToEnd.TimelyFresh` | cassandra-protocol/src/frame/frame_decoder.rs:289-295 | On a fresh decoder the rule means: one fragment, or a last fragment longer than the nine-byte header (the recorded length excludes the header). |
| `EndToEnd.LastBoundaryClosedForm` | cassandra-protocol/src/frame/frame_encoder.rs:137-147 | Where the last fragment of an envelope of n bytes begins. |
| `EndToEnd.ShortTailLost` | cassandra-protocol/src/frame/frame_decoder.rs:289-295 | Any v5 query with a body of 131071 bytes is a concrete envelope that the rule excludes: it is not delivered. |
| `EndToEnd.LaterLargeEnvelopeStalls` | cassandra-protocol/src/frame/frame_decoder.rs:269-287 | The recorded length is not cleared: after a first large envelope, a later one shorter than that length does not come out by its own fragments. |
| `EndToEnd.LaterLargeEnvelopeFlushed` | cassandra-protocol/src/frame/frame_decoder.rs:269-287 | It does come out together with a following large envelope that brings the buffer to the recorded length in its last fragment. |
| `EndToEnd.StampedRequestEncodes` | cdrs-tokio/src/transport.rs:714-719 | A request built by the envelope encoder and stamped with a stream id is one encoded envelope with that id. |
| `Writer.StartWriting` | cdrs-tokio/src/transport.rs:503-601 | The bytes written are those of the packed, stamped batches; counter and handler table are those after registering every request in order. |
| `Writer.RecentHandlersRegistered` | cdrs-tokio/src/transport.rs:515-520 | After any number of requests each of the latest 32768 has its handler under its own id. |
| `Writer.WriteBatch` | cdrs-tokio/src/transport.rs:511-598 | One batch: ids handed out in order, every handler registered under its id, the bytes those of the packing, nothing held back at the end. |
| `Writer.WriteRequest` | cdrs-tokio/src/transport.rs:514-567 | One request is stamped, registered and written; handshake messages bypass the encoder. |
| `Writer.WriteEnvelope` | cdrs-tokio/src/transport.rs:529-566 | The inner add / flush / split loop terminates and realizes one step of the packing. |
| `Writer.WriteFragments` | cdrs-tokio/src/transport.rs:545-562 | A large envelope becomes the run of its fragment frames. |
| `Writer.Flush` | cdrs-tokio/src/transport.rs:572-580 | The collected frame is sent when the queue runs empty. |
| `FrameEncoder.FrameEncoder.CanFit` | cassandra-protocol/src/frame/frame_encoder.rs:115-118 | Whether the held payload plus an envelope (worst-case lz4 output) stays below the payload limit. |
| `FrameEncoder.FrameLimit` | cassandra-protocol/src/frame/frame_encoder.rs:115-118 | The fit test with its literal limit of 131071 bytes. |
| `FrameEncoder.FrameEncoder.AddEnvelope` | cassandra-protocol/src/frame/frame_encoder.rs:126-128 | Appends to the payload. |
| `FrameEncoder.FrameEncoder.FinalizeSelfContained` | cassandra-protocol/src/frame/frame_encoder.rs:130-135 | The buffer becomes the complete self-contained frame of its payload. |
| `FrameEncoder.FrameEncoder.FinalizeNonSelfContained` | cassandra-protocol/src/frame/frame_encoder.rs:137-147 | The frame holds exactly the longest admissible front of the envelope, whose length is returned. |
| `FrameEncoder.FrameEncoder.CompressInto` | cassandra-protocol/src/frame/frame_encoder.rs:221-249 | lz4 output that reaches the limit is replaced by the piece itself and marked as stored; the payload stays below the limit either way. |
| `FrameEncoder.FrameEncoder.WriteUncompressedHeader` | cassandra-protocol/src/frame/frame_encoder.rs:163-179 | Patching six bytes in place gives length, flag and checksum in front of an unchanged payload. |
| `FrameEncoder.FrameEncoder.WriteLz4Header` | cassandra-protocol/src/frame/frame_encoder.rs:272-287 | Writing one 64-bit word gives the same bytes as covered fields followed by their checksum. |
| `FrameEncoder.FrameEncoder.Reset` | cassandra-protocol/src/frame/frame_encoder.rs:121-123 | Drops the payload and keeps room for the header. |
| `Frames.SelfContainedRoundTrip` | cassandra-protocol/src/frame/frame_encoder.rs:208-219 | Decoding a self-contained frame followed by any bytes gives its payload, the flag and exactly those bytes, for both formats (an empty lz4 payload cannot be told from a stored one). |
| `Frames.FragmentRoundTrip` | cassandra-protocol/src/frame/frame_encoder.rs:221-256 | The same for every non-empty fragment, the stored-as-is fallback included. |
| `Frames.StoredBytes` | cassandra-protocol/src/frame/frame_encoder.rs:208-256 | Between header and trailer lies the payload, or its lz4 compression; a fragment is stored as it is only when its compression would reach 2^17 bytes. |
| `Frames.DecodeRawFrame` | cassandra-protocol/src/frame/frame_decoder.rs:118-179 | The decoder accepts every encoded frame with any trailing bytes, stored or compressed. |
| `Frames.HeaderFields` | cassandra-protocol/src/frame/frame_encoder.rs:163-179 | Lengths and flag are read back from the packed header as they were written. |
| `Frames.HeaderWordSum` | cassandra-protocol/src/frame/frame_encoder.rs:272-281 | The ORed header fields do not overlap: the word is their weighted sum. |
| `Frames.DecodeStable` | cassandra-protocol/src/frame/frame_decoder.rs:197-248 | A verdict on the front of a buffer is not changed by appended bytes. |
| `Frames.AcceptedIff` | cassandra-protocol/src/frame/frame_decoder.rs:118-248 | A frame is accepted if and only if the buffer starts with one whose header checksum, stored length and payload crc32 are right; payload and flag are then what the header announces. |
| `Frames.CorruptHeaderByteDetected` | cassandra-protocol/src/frame/frame_decoder.rs:217-222 | Changing any one header byte of an accepted or incomplete frame is always reported as a header checksum mismatch. |
| `Crc.ComputeCrc24` | cassandra-protocol/src/crc.rs:7-20 | The two loops compute the remainder of the start value 0x875060, the message and 24 zero bits divided by the polynomial 0x1974f0b. |
| `Crc.Crc24IsRemainder` | cassandra-protocol/src/crc.rs:3-20 | The checksum is that remainder and nothing else is: division by the polynomial leaves exactly one. |
| `Polynomials.RemainderUnique` | cassandra-protocol/src/crc.rs:7-20 | Polynomial division over the two-element field leaves one remainder only. |
| `Crc.Crc24InRange` | cassandra-protocol/src/crc.rs:7-20 | The checksum always fits its three header bytes. |
| `Crc.Crc24DetectsOneByte` | cassandra-protocol/src/crc.rs:7-20 | Changing exactly one input byte always changes the checksum. |
| `FrameDecoder.ChunkingInvariance` | cassandra-protocol/src/frame/frame_decoder.rs:317-349 | From any state between two calls, feeding any chunks gives the envelopes, final state or error of feeding their concatenation at once (v5). |
| `FrameDecoder.LegacyChunkingInvariance` | cassandra-protocol/src/frame/frame_decoder.rs:82-100 | The same for the pre-v5 decoder. |
| `FrameDecoder.ExtractAppend` | cassandra-protocol/src/frame/frame_decoder.rs:27-43 | Extraction can be interrupted: what is left over plus later bytes continues it. |
| `FrameDecoder.ExtractEnvelopes` | cassandra-protocol/src/frame/frame_decoder.rs:27-43 | The position-moving loop extracts every complete envelope at the front and nothing else. |
| `FrameDecoder.LegacyFrameDecoder.Consume` | cassandra-protocol/src/frame/frame_decoder.rs:82-100 | Both the optimistic and the buffered branch do the same: extraction from buffer plus data. |
| `FrameDecoder.TryDecodeUncompressed` | cassandra-protocol/src/frame/frame_decoder.rs:197-248 | Decodes the front frame: incomplete, corrupt, or payload, flag and rest. |
| `FrameDecoder.TryDecodeLz4` | cassandra-protocol/src/frame/frame_decoder.rs:118-179 | The same with decompression; an uncompressed length of zero means stored as is. |
| `FrameDecoder.ReadUncompressedHeader` | cassandra-protocol/src/frame/frame_decoder.rs:203-215 | Masking an eight-byte read and ORing six bytes one by one give the same header word. |
| `FrameDecoder.GenericFrameDecoder.ConsumeData` | cassandra-protocol/src/frame/frame_decoder.rs:317-349 | Optimistic and buffered branch both mean: drain all complete frames of buffer plus data. |
| `FrameDecoder.GenericFrameDecoder.Handle` | cassandra-protocol/src/frame/frame_decoder.rs:297-315 | One frame: whole envelopes, or one more fragment; a self-contained frame inside a split envelope is an error. |
| `FrameDecoder.GenericFrameDecoder.ExtractNonSelfContained` | cassandra-protocol/src/frame/frame_decoder.rs:269-287 | The fragment buffer is kept, parsed and cleared, or left waiting, as the recorded length says. |
| `Envelopes.EnvelopeRoundTrip` | cassandra-protocol/src/frame.rs:149-313 | Parsing an encoded envelope followed by any bytes gives it back, COMPRESSION set exactly below v5 with a compressor, and the length is the one the size check reports. |
| `Envelopes.WarningRequestLost` | cassandra-protocol/src/frame.rs:194-199 | The excluded case: no request with the WARNING flag parses back, since warnings are written for responses only but read whenever the flag is set. |
| `Envelopes.SizeCheckAgrees` | cassandra-protocol/src/frame.rs:221-235 | Size check and parser wait, agree on the length and reject versions on exactly the same buffers. |
| `Envelopes.FromBufferStable` | cassandra-protocol/src/frame.rs:149-219 | A verdict other than not-enough-bytes survives appended bytes. |
| `Envelopes.EncodeEnvelope` | cassandra-protocol/src/frame.rs:237-313 | The buffer-growing encoder produces the envelope format in all its branches, compression failure included. |
| `Envelopes.SetStreamIdIsEncoding` | cdrs-tokio/src/transport.rs:716-718 | Patching two bytes is encoding with another stream id. |
| `StreamIds.ResponseHandlerMap.NextStreamId` | cdrs-tokio/src/transport.rs:687-704 | The allocation loop terminates with an id in 0..32767; the compare-exchange never succeeds for a single writer, so a negative counter climbs to 0. |
| `StreamIds.ResponseHandlerMap.AddHandler` | cdrs-tokio/src/transport.rs:663-668 | Registers or replaces a handler. |
| `StreamIds.ResponseHandlerMap.SendResponse` | cdrs-tokio/src/transport.rs:670-679 | Hands out the handler of the id once, and reports unmatched ids. |
| `StreamIds.ResponseHandlerMap.SignalGeneralError` | cdrs-tokio/src/transport.rs:681-685 | Every handler is visited exactly once and the table is empty afterwards. |
| `StreamIds.SendNext` | cdrs-tokio/src/transport.rs:515-520 | Allocating an id and registering the handler is the send step of a run. |
| `StreamIds.DeliverResponse` | cdrs-tokio/src/transport.rs:670-679 | Handing out a response is the respond step, and its handler the newly completed request. |
| `StreamIds.FailAll` | cdrs-tokio/src/transport.rs:681-685 | Draining the table is the general-error step in the order of notification. |
| `StreamIds.IdsAreCyclic` | cdrs-tokio/src/transport.rs:687-704 | The k-th id is (k + 1) mod 32768. |
| `StreamIds.SameIdIff` | cdrs-tokio/src/transport.rs:687-704 | Two allocations share an id exactly when they are a multiple of 32768 apart. |
| `StreamIds.EveryRunIsSound` | cdrs-tokio/src/transport.rs:653-705 | In every state of every run handlers sit under their own ids, each response reaches the request given that id, each request completes at most once and is pending, completed or overwritten; after a general error none is pending. |
| `StreamIds.OverwriteIff` | cdrs-tokio/src/transport.rs:515-520 | A send overwrites a live handler exactly when a request a multiple of 32768 earlier is still pending. |
| `StreamIds.PromptRunsLoseNothing` | cdrs-tokio/src/transport.rs:515-520 | While no request stays outstanding across 32768 later ones, none is lost. |
| `Replicas.SelectReplicas` | cdrs-tokio/src/load_balancing/topology_aware.rs:142-189 | The counter-decrementing loop with its early break selects exactly what every datacenter selects on its own, in walk order. |
| `Replicas.DatacentersAreIndependent` | cdrs-tokio/src/load_balancing/topology_aware.rs:156-189 | Restricted to a datacenter, the joint selection is that datacenter's greedy choice on its own part of the walk. |
| `Replicas.EarlyExit` | cdrs-tokio/src/load_balancing/topology_aware.rs:185-187 | Once all factors are met, the rest of the walk adds nothing. |
| `Replicas.DcReplicasClosedForm` | cdrs-tokio/src/load_balancing/topology_aware.rs:156-183 | The greedy choice is a condition on positions: first of its rack among the first RF racks, or among the first RF - RC repeats. |
| `Replicas.DcReplicaCount` | cdrs-tokio/src/load_balancing/topology_aware.rs:145-151 | A datacenter gets min(RF, R) + min(max(0, RF - RC), N - R) picks. |
| `Replicas.SelectionClosedForm` | cdrs-tokio/src/load_balancing/topology_aware.rs:142-189 | Positions and count together, for the joint early-stopping selection. |
| `Metadata.RackCountsAlwaysMatch` | cdrs-tokio/src/cluster/topology/cluster_metadata.rs:42-125 | In every state of every history of building, adding, replacing and removing nodes and keyspaces, the counts chunked from whatever listing the sort gave are the distinct racks per datacenter of the node map. |
| `Metadata.NodesAreThoseGiven` | cdrs-tokio/src/cluster/topology/cluster_metadata.rs:42-125 | Over every history: a host has a node exactly when some update put it there and no later one started over, named the host again or removed the node's address. |
| `Metadata.KeyspacesAreThoseGiven` | cdrs-tokio/src/cluster/topology/cluster_metadata.rs:42-87 | The same for the strategy of a keyspace name. |
| `Metadata.RingAlwaysAgrees` | cdrs-tokio/src/cluster/topology/cluster_metadata.rs:42-125 | With disjoint tokens and replacements that keep tokens, the incrementally kept ring equals the ring rebuilt from the node map in any iteration order. |
| `Metadata.AddedNodeOwnsItsTokens` | cdrs-tokio/src/cluster/topology/cluster_metadata.rs:89-107 | Adding or replacing a node makes it the owner of its tokens and leaves every other ring entry, stale ones included. |
| `Metadata.ReplaceKeepsRingIff` | cdrs-tokio/src/cluster/token_map.rs:81-88 | Adding or replacing a node keeps ring and node map in agreement if and only if the replaced node's tokens are kept. |
| `Metadata.RebuiltRingAgrees` | cdrs-tokio/src/cluster/token_map.rs:41-52 | Building from scratch agrees with the nodes, whatever the iteration order. |
| `Metadata.RingWithoutAgrees` | cdrs-tokio/src/cluster/token_map.rs:92-106 | Removing an address is the same as rebuilding without it. |
| `Metadata.RingWithNode` | cdrs-tokio/src/cluster/token_map.rs:81-88 | The inserting loop puts the node under each of its tokens. |
| `Metadata.BuildDatacenterInfo` | cdrs-tokio/src/cluster/topology/cluster_metadata.rs:13-30 | The loop over chunks stores for each the number of its different racks, on any listing. |
| `Metadata.DatacenterInfoCounts` | cdrs-tokio/src/cluster/topology/cluster_metadata.rs:13-30 | Chunking a grouped listing of the nodes counts each datacenter once, with all its racks. |
| `Metadata.SortedIsGrouped` | cdrs-tokio/src/cluster/topology/cluster_metadata.rs:16-19 | Sorting by datacenter leaves equal ones together, whatever the order on names. |
| `Metadata.WalkIsRotation` | cdrs-tokio/src/cluster/token_map.rs:55-77 | The ring walk starts at the first token not below the requested one and visits every entry exactly once; the capped walk is its front. |
| `Metadata.WalkRacksCounted` | cdrs-tokio/src/cluster/topology/cluster_metadata.rs:13-30 | A walk never meets more racks of a datacenter than are counted. |
| `Metadata.ReplicasInOrderlyHistories` | cdrs-tokio/src/load_balancing/topology_aware.rs:142-189 | Hence the closed form of the selection holds on the real ring in every state of an orderly history. |
| `QueryPlan.TopologyAwareStrategy.Plan` | cdrs-tokio/src/load_balancing/topology_aware.rs:45-126 | The plan has the shape of the keyspace's strategy over the selected replicas and the node listing, as often as they occur; every node of it is up and has a known distance, and the address of every local node that is up appears. |
| `QueryPlan.TopologyAwareStrategy.NetworkTopologyPlan` | cdrs-tokio/src/load_balancing/topology_aware.rs:191-244 | The plan is a permutation of the unignored local replicas, one of the unignored remote replicas, one of the unignored local nodes and one of the first remote nodes up to the cap, de-duplicated except in the early return. |
| `QueryPlan.TopologyAwareStrategy.ArrangeReplicas` | cdrs-tokio/src/load_balancing/topology_aware.rs:191-219 | Sorting, filtering and shuffling give permutations of the unignored local and of the unignored remote replicas. |
| `QueryPlan.TopologyAwareStrategy.SimplePlan` | cdrs-tokio/src/load_balancing/topology_aware.rs:247-267 | A permutation of the unignored replicas, then one of all unignored nodes, de-duplicated. |
| `QueryPlan.SimplePlanSafe` | cdrs-tokio/src/load_balancing/topology_aware.rs:247-267 | Such a plan lists no address twice and no ignored node, reaches every unignored node, and starts with the replicas. |
| `QueryPlan.TopologyAwareStrategy.RoundRobin` | cdrs-tokio/src/load_balancing/topology_aware.rs:269-297 | Rotation by a shared wrapping counter that moves only for non-empty input. |
| `QueryPlan.DedupedPlan` | cdrs-tokio/src/load_balancing/topology_aware.rs:236-243 | A de-duplicated plan lists no address twice and is four groups in order: one node for every address of a local replica, then of the remote replicas, of the local nodes and of the capped remote nodes, each complete but for addresses named before. |
| `QueryPlan.UndedupedPlanIff` | cdrs-tokio/src/load_balancing/topology_aware.rs:226-231 | The early return is free of repeats if and only if no selected replica is an unignored local node and no unignored remote one was selected twice. |
| `QueryPlan.EarlyPlanRepeatsIff` | cdrs-tokio/src/load_balancing/topology_aware.rs:226-231 | The same for the strategy's plans over metadata whose ring agrees with its node map. |
| `QueryPlan.RepeatedReplica` | cdrs-tokio/src/load_balancing/topology_aware.rs:226-231 | One remote node selected twice is named twice. |
| `QueryPlan.EarlyPlanRepeats` | cdrs-tokio/src/load_balancing/topology_aware.rs:226-231 | That happens on a concrete cluster: one remote host with two tokens, replication factor two, one rack, local consistency. |
| `QueryPlan.UniqueHasNoRepeats` | cdrs-tokio/src/load_balancing/topology_aware.rs:236-239 | unique_by keeps one node per address and every address. |
| `Topology.LocalOrRemote` | cdrs-tokio/src/cluster/topology/node.rs:246-264 | An unignored node is local or remote, never both. |
| `Requests.DefaultRetrySession.Decide` | cdrs-tokio/src/retry/retry_policy.rs:70-166 | The decision and the three flags after it, for every error and idempotence; the flags are pinned to what happened by the row below. |
| `Requests.ExecuteIff` | cdrs-tokio/src/cluster/send_envelope.rs:19-49 | The run of the send loop is exactly the one in which each record is what the network did at the position the one before leads to, each decision follows from the earlier records (first Unavailable, IsBootstrapping and idempotent transient errors move on; the first sufficient ReadTimeout and first idempotent batch-log WriteTimeout stay; all else ends), and the result is the last outcome or connection error. |
| `Requests.DecisionIsRight` | cdrs-tokio/src/retry/retry_policy.rs:70-166 | While the flags summarize the records so far, every decision is the one those records call for, both ways, and the flags stay a summary. |
| `Requests.DecisionBudget` | cdrs-tokio/src/retry/retry_policy.rs:70-166 | A same-node retry uses up one of two allowances (one if not idempotent), and a request that is not idempotent is resent only after Unavailable, IsBootstrapping or ReadTimeout. |
| `Requests.SendEnvelope` | cdrs-tokio/src/cluster/send_envelope.rs:19-49 | The nested loops realize the execution semantics for every behaviour of the network. |
| `Requests.SendLoopContract` | cdrs-tokio/src/cluster/send_envelope.rs:19-49 | For every plan and network behaviour: at most plan length + 2 writes (+ 1 if not idempotent), safe resends only, and no result exactly when every node ended in retry-next-node without a connection failure. |
| `Requests.WritesBounded` | cdrs-tokio/src/cluster/send_envelope.rs:19-49 | The write bound from any point of the loop. |
| `Requests.AlwaysResentSafely` | cdrs-tokio/src/cluster/send_envelope.rs:25-38 | Every attempt but the last failed and was resent only as the policy allows. |
| `Requests.NoResultIff` | cdrs-tokio/src/cluster/send_envelope.rs:40-49 | When the result is absent, both directions. |
| `Speculation.SpeculationBounds` | cdrs-tokio/src/cluster/session.rs:628-731 | Under every interleaving no plan position goes to two executions, at most max(1, max_executions) start, only one without a policy or if not idempotent, and writes stay within plan length plus two per execution. |
| `Speculation.ExecutionsStarted` | cdrs-tokio/src/cluster/session.rs:685-703 | Exactly one more execution is started each time the timer fires until the policy has had enough. |
| `Speculation.InvariantHolds` | cdrs-tokio/src/cluster/session.rs:660-731 | The invariant behind it in every state of every run. |
| `Speculation.AnswerMissingIff` | cdrs-tokio/src/cluster/session.rs:660-741 | A request can be left without an answer if and only if a policy is given, it is idempotent and its plan names at least one node. |
| `Speculation.AnswerIs` | cdrs-tokio/src/cluster/session.rs:660-741 | The answer of every answered run: the single execution's own outcome without speculation; else the first collected outcome that is no I/O error or timeout, or the latest such error (General without one) when the last collected execution found no node. |
| `Speculation.SuccessIsReal` | cdrs-tokio/src/cluster/session.rs:700-731 | Success is reported only after an execution that had it was collected. |
| `Speculation.SingleAnswerIsSendLoop` | cdrs-tokio/src/cluster/session.rs:732-739 | Without speculation the answer is what the send loop returns for what the network did, or General. |
| `Speculation.NeverStalls` | cdrs-tokio/src/cluster/session.rs:660-741 | Every other request can always go on until it is answered. |
| `Speculation.ExecutionIsSendLoop` | cdrs-tokio/src/cluster/send_envelope.rs:19-49 | An execution with the plan to itself has the result and the writes of the send loop, for every network behaviour. |
| `Speculation.StallHappens` | cdrs-tokio/src/cluster/session.rs:707-731 | For every plan that names a node and every number of allowed executions, some run ends with no step left and no answer, although an error is known. |
| `ConnectionPool.Pool.ReconnectBroken` | cdrs-tokio/src/cluster/connection_pool.rs:550-589 | Broken slots are replaced in place, missing ones appended, up to the first failure. |
| `ConnectionPool.RepairContract` | cdrs-tokio/src/cluster/connection_pool.rs:550-589 | A repair never drops or replaces a live connection, never overfills the pool, and on success leaves it full and unbroken. |
| `ConnectionPool.RepairExactly` | cdrs-tokio/src/cluster/connection_pool.rs:550-589 | In closed form: the n-th successful attempt fills the n-th broken or missing slot, and the first refusal ends the repair with its error. |
| `ConnectionPool.Pool.PickConnection` | cdrs-tokio/src/cluster/connection_pool.rs:506-537 | The cyclic scan returns the first live connection from the shared index, and fails exactly when all are broken. |
| `ConnectionPool.StepKeeps` | cdrs-tokio/src/cluster/connection_pool.rs:294-438 | Every step of monitor and reconnection tasks keeps: at most one active loop, exactly while the state is InProgress; loops end as NotRunning or Disabled; the pool stays within its size. |
| `ConnectionPool.ReconnectionIsExclusive` | cdrs-tokio/src/cluster/connection_pool.rs:294-438 | The same in every state of every interleaving. |
| `ConnectionPool.AlarmsStartLoops` | cdrs-tokio/src/cluster/connection_pool.rs:302-345 | Every notification that finds no loop running starts one, and nothing else does. |
| `ConnectionPool.TaskIs` | cdrs-tokio/src/cluster/connection_pool.rs:417-438 | A loop goes on until everything is repaired (NotRunning), the protocol is refused or it gives up (Disabled); any other failure decides nothing. |
| `ConnectionPool.StateIsLatestLoop` | cdrs-tokio/src/cluster/connection_pool.rs:344-356 | The shared state is that of the latest loop: InProgress while it runs, then the state it ended with. |
| `ConnectionPool.DisabledIsFinal` | cdrs-tokio/src/cluster/connection_pool.rs:325-334 | Once Disabled, always Disabled. |
| `ConnectionPool.NotRunningMeansRepaired` | cdrs-tokio/src/cluster/connection_pool.rs:417-438 | A loop that ends as NotRunning had just filled the pool and replaced every broken slot. |
| `Wire.IntRoundTrip` | cassandra-protocol/src/types.rs:408-418 | Signed big-endian integers of any width survive the wire. |
| `Wire.StrRoundTrip` | cassandra-protocol/src/types.rs:217-237 | Strings below 2^15 bytes parse back, followed by any bytes. |
| `Wire.StrListRoundTrip` | cassandra-protocol/src/types.rs:249-273 | String lists parse back, followed by any bytes. |
| `Wire.ReadStringList` | cassandra-protocol/src/types.rs:262-273 | The reading loop is the recursive reader, errors and panics included. |
| `Wire.BlobRoundTrip` | cassandra-protocol/src/types.rs:319-406 | Nullable byte strings with four- or two-byte lengths parse back. |
| `TypeDescriptors.TypeRoundTrip` | cassandra-protocol/src/frame/message_result.rs:637-792 | For every well-formed descriptor of any nesting, parsing its serialization followed by any bytes gives back the descriptor and exactly those bytes. |
| `TypeDescriptors.ReadType` | cassandra-protocol/src/frame/message_result.rs:647-694 | The parser terminates on every input because each descriptor takes at least two bytes off it. |
| `TypeDescriptors.TypeLength` | cassandra-protocol/src/frame/message_result.rs:637-792 | Whatever the parser accepts takes exactly the length of its own serialization off the input. |
| `TypeDescriptors.ParseTuple` | cassandra-protocol/src/frame/message_result.rs:778-792 | The element loop is the recursive reader. |
| `TypeDescriptors.ParseUdt` | cassandra-protocol/src/frame/message_result.rs:738-761 | The field loop is the recursive reader. |
| `TypeDescriptors.ColSpecsRoundTrip` | cassandra-protocol/src/frame/message_result.rs:466-505 | Column specifications parse back, with the table named per column exactly when there is no global one. |
| `TypeDescriptors.RowsRoundTrip` | cassandra-protocol/src/frame/message_result.rs:301-393 | Rows metadata whose fields match its flags serializes and parses back. |
| `TypeDescriptors.PreparedRoundTrip` | cassandra-protocol/src/frame/message_result.rs:868-933 | Prepared metadata parses back in v4 and v5. |
| `TypeDescriptors.PreparedLostInV3` | cassandra-protocol/src/frame/message_result.rs:908-913 | In v3 no prepared metadata parses back: the primary key count is written but not read. |
| `QueryParams.RoundTripIff` | cassandra-protocol/src/query/query_params.rs:38-200 | Parameters parse back to themselves with nothing left over, for every iteration order of named values, if and only if: now_in_seconds only in v5, names flag matching the values, present values non-empty, counts and lengths within their signed fields. |
| `QueryParams.ParsedIsCarried` | cassandra-protocol/src/query/query_params.rs:123-200 | The parser returns only parameters of that kind. |
| `QueryParams.FlagsSurvive` | cassandra-protocol/src/query/query_flags.rs:39-63 | A flag word of k bits keeps exactly the first k flags, so the one-byte word before v5 drops now_in_seconds. |
| `QueryParams.Flags` | cassandra-protocol/src/query/query_params.rs:39-75 | The inserted flags are those the fields announce. |
| `QueryParams.Serialize` | cassandra-protocol/src/query/query_params.rs:78-121 | The cursor-driven serializer writes the fields in order. |
| `QueryParams.SerializeValues` | cassandra-protocol/src/query/query_values.rs:67-82 | The loops over simple and named values. |
| `QueryParams.ParseValues` | cassandra-protocol/src/query/query_params.rs:128-149 | The loops filling a vector or a map, errors included. |
| `QueryParams.NamedRoundTrip` | cassandra-protocol/src/query/query_values.rs:75-80 | Named values written in any order read back as the same map. |
| `QueryParams.QueryValueRoundTrip` | cassandra-protocol/src/types/value.rs:40-71 | Null, unset and non-empty present values parse back. |
| `Murmur3.Generate` | cassandra-protocol/src/token.rs:19-87 | The block loop, the two tail loops and the final mix compute the token written out independently with literal constants and indexes, for every key. |
| `Murmur3.HashIsToken` | cassandra-protocol/src/token.rs:8-121 | The step-by-step hash of every key is that token. |
| `Murmur3.OneBlockDiffers` | cassandra-protocol/src/token.rs:19-87 | Equal-length keys that differ in exactly one block, whole or partial, always end in different 128-bit states. |
| `Murmur3.RoundBijective` | cassandra-protocol/src/token.rs:25-46 | A round is a bijection on (h1, h2) for a fixed block, with its inverse given. |
| `Murmur3.RoundKeyInjective` | cassandra-protocol/src/token.rs:25-46 | For a fixed state different blocks give different states. |
| `Murmur3.TailInjective` | cassandra-protocol/src/token.rs:53-73 | Partial words lose no information in spite of the sign extension. |
| `Murmur3.StatesStayApart` | cassandra-protocol/src/token.rs:25-86 | Different states never meet while the same bytes are hashed. |
| `Murmur3.FmixBijective` | cassandra-protocol/src/token.rs:113-121 | fmix is a bijection on 64-bit words, with its inverse given. |
| `Words.RotlInverse` | cassandra-protocol/src/token.rs:108-110 | Every rotation by 1..63 is undone by the complementary one. |
| `RoutingKey.Cursor.SerializeRoutingValue` | cdrs-tokio/src/cluster/session.rs:111-126 | Placeholder, value, seek back and patch: for any cursor position the effect is writing length, bytes and zero there. |
| `RoutingKey.SerializeRoutingKey` | cdrs-tokio/src/cluster/session.rs:162-182 | The loop writes the components of the present values. |
| `RoutingKey.CompositeLayout` | cdrs-tokio/src/cluster/session.rs:111-126 | Every component lies at its offset: two length bytes, the bytes and a zero; nothing follows the last. |
| `RoutingKey.SerializeRoutingKeyWithIndexes` | cdrs-tokio/src/cluster/session.rs:128-160 | The index-driven form, out-of-range and negative indexes included. |
| `RoutingKey.IndexedIsDirectIff` | cdrs-tokio/src/cluster/session.rs:128-160 | When the index-driven form gives a key, both directions; it is then the direct form on the selected values. |
| `RoutingKey.RoutingKeyInjective` | cdrs-tokio/src/cluster/session.rs:162-182 | On lists of two or more present values shorter than 2^16 bytes the key is injective. |
| `RoutingKey.CompositeKeysEqualIff` | cdrs-tokio/src/cluster/session.rs:162-182 | With null or unset values keys are equal exactly when the present values are: those leave no trace. |
| `KnownBytes.EnvelopeFields` | cassandra-protocol/src/frame.rs:237-310 | Every header field of every encoded envelope by position and literal value. |
| `KnownBytes.EnvelopeBody` | cassandra-protocol/src/frame.rs:255-286 | Tracing id, then warnings, then the body. |
| `KnownBytes.OpcodeCodes` | cassandra-protocol/src/frame.rs:459-480 | The opcode numbers. |
| `KnownBytes.VersionCodes` | cassandra-protocol/src/frame.rs:355-409 | The version and direction codes. |
| `KnownBytes.KnownCodes` | cassandra-protocol/src/frame.rs:365-378 | No other byte is a version or an opcode. |
| `KnownBytes.ReadyBytes` | cassandra-protocol/src/frame.rs:676-691 | A whole known envelope. |
| `KnownBytes.SimpleTypeCodes` | cassandra-protocol/src/frame/message_result.rs:538-616 | The numbers of the simple types. |
| `KnownBytes.CompoundTypeCodes` | cassandra-protocol/src/frame/message_result.rs:538-616 | The numbers of the parameterized types, and the second one of varchar. |
| `KnownBytes.KnownTypes` | cassandra-protocol/src/frame/message_result.rs:538-573 | No other number is a type. |
| `KnownBytes.MapTypeBytes` | cassandra-protocol/src/frame/message_result.rs:1155-1187 | A known map descriptor. |
| `KnownBytes.TupleTypeBytes` | cassandra-protocol/src/frame/message_result.rs:1026-1054 | A known tuple. |
| `KnownBytes.UdtTypeBytes` | cassandra-protocol/src/frame/message_result.rs:971-1020 | A known user type. |
| `KnownBytes.QualifiedColumnBytes` | cassandra-protocol/src/frame/message_result.rs:1059-1094 | A known column with its table. |
| `KnownBytes.RowsBytes` | cassandra-protocol/src/frame/message_result.rs:301-347 | Rows metadata with every part, in order. |
| `KnownBytes.RowsFlagWeights` | cassandra-protocol/src/frame/message_result.rs:396-404 | The flag of each part. |
| `KnownBytes.PreparedBytes` | cassandra-protocol/src/frame/message_result.rs:868-896 | Prepared metadata with every part, in order. |
| `KnownBytes.ConsistencyCodes` | cassandra-protocol/src/consistency.rs:111-148 | The consistency numbers. |
| `KnownBytes.QueryFlagWeights` | cassandra-protocol/src/query/query_flags.rs:8-30 | The weight of every query flag. |
| `KnownBytes.ValueLengths` | cassandra-protocol/src/types/value.rs:54-71 | What each value length means, errors included. |
| `KnownBytes.SimpleValuesBytes` | cassandra-protocol/src/frame.rs:725-761 | Known query parameters with values. |
| `KnownBytes.AllFieldsBytes` | cassandra-protocol/src/query/query_params.rs:78-121 | Query parameters with every other field, in order, in v5. |

## Left out

- Sockets, TLS, proxies and the asynchronous runtime: input and output only.
- Write failures: the list of stream ids in a frame and the error notification of their handlers are not modelled; the writer model covers runs without an I/O error.
- Reading handshake responses unframed (cdrs-tokio/src/transport.rs:406-447): handshake requests appear only as unframed units of the writer.
- crc32, lz4 and snappy internals: library code, used through the laws above.
- Decoder state after an error: the reader closes the connection, so only the error is modelled.
- The three frame encoders are one class with a format field instead of a trait with three implementations.
- Legacy fragmenting: the pre-v5 encoder always fits an envelope into its empty buffer, so its non-self-contained branch is modelled but never reached from the writer.
- Node up/down marking, heartbeats and the reconnection schedule: the monitor's decisions on them are arbitrary steps; node state is a snapshot for the time of one plan.
- FallthroughRetrySession: constant.
- Rows content, the other result, request, event and error bodies, and their code tables: they would only add easy members.
- System-table and JSON replication parsing: node infos and keyspaces are taken as given.
- Value conversions, decimals, varints, uuids, derive macros and builders: simple dispatch or library code.
- The final cut of the hash to 64 bits: tokens of different keys may collide.
