# ESS peer-to-peer node: verified models

This project models the self-contained algorithms and state machines of the ESS peer-to-peer
node and proves properties of them: Shamir secret sharing, the conflict-free replicated state,
the object store, onion packets, the replay and rate guards, the ghost engine, the compute queue
and scheduler, governance voting, and the ghost engine's snapshot file.
`dafny verify dfyconfig.toml` checks everything.

How the parts are laid out. For each component a specification on values is stated first, and the
properties are lemmas about it over all inputs, all runs or all interleavings. Where the Rust code
updates fields, arrays or locals step by step, a class or a method with loops does the same, and
its postcondition ties the new state to the value-level specification.

| files | source | what they hold |
|---|---|---|
| `Fields`, `CyclicField`, `Gf256`, `Interpolation`, `Shamir` | `src/sss.rs` | GF(2^8) of section 4.2 of FIPS 197 derived from the shift/xor and table code, Lagrange interpolation over any field of characteristic two, sharing and reconstruction |
| `Lexicographic`, `Crdt`, `MergeOrder`, `CrdtRuns`, `RegisterRuns`, `CrdtObjects` | `src/crdt_state.rs` | joins of replica states, when the order of merging shows, runs of many replicas, the mutable objects |
| `Storage`, `ObjectStore`, `StorageObjects` | `src/storage_layer/` | chunking, erasure coding, putting and getting |
| `Onion` | `src/onion.rs` | layered packets |
| `Replay`, `RateLimits`, `NonceCache` | `src/security_runtime.rs`, `src/gateway.rs` | guards that forget what is old |
| `Ghost`, `GhostTraces`, `GhostEngine` | `src/ghost.rs` | the ghost state machine, and a table of what it reports for every input |
| `ComputeStore`, `Scheduler` | `src/compute/` | job queue, results, worker loop |
| `Governance`, `Ballots` | `src/governance/engine.rs` | proposals, bootstrap phase, and votes and decisions read off a run's steps |
| `LineText`, `GhostStore` | `src/ghost_store.rs` | snapshot text |
| `Basics` | | small shared notions and decimal notation |

What is taken as input: clock readings, random coefficients, tags, nonces, ephemeral keys, proposal
ids, hash-map iteration order where it matters, what the network answers, and whether a disk write
succeeds. Library code is a record of functions with the law it is relied on for: authenticated
encryption (section 7 of NIST SP 800-38D, section 2.8 of RFC 8439) opens what it sealed,
Diffie-Hellman (section 6.1 of RFC 7748) agrees on both sides, a serializer is undone by its
parser, and the Reed-Solomon library is a systematic code that recovers from any k shards.

Where the code does less than its documentation or a first reading suggests, the code is kept and
the exact condition is proved:

- `encode` slices past the end of the data for lengths with (k-1)*ceil(len/k) > len; with four data
  shards these are 1, 2 and 5 (`ObjectStore.PutPanics`, `Storage.FourShardsInBounds`).
- `pad_payload` keeps the length in 16 bits, so payloads over 65535 bytes come back cut
  (`Onion.UnpadPad`).
- `check_common` reads the clock twice, so a replay can pass when the readings straddle the end of
  its window; exactly when is `Replay.AcceptedAgainExactly`, a run is `Replay.ReadingsCanStraddle`.
- Ways of merging disagree on a register or a peer's entry exactly when its newest value is not
  unique among the states (`MergeOrder.StatusAgreesExactly`, `MergeOrder.GhostStateAgreesExactly`,
  `MergeOrder.EntryAgreesExactly`), and on a first-seen time exactly when the states do
  (`MergeOrder.TimeAgreesExactly`).
- Setting a register ignores what it holds, so replicas with the same updates can differ; all hold a
  newest of their updates exactly when no set was older than what it overwrote
  (`RegisterRuns.HoldsNewestExactly`, `RegisterRuns.LateSetRun`, `RegisterRuns.LateSetDiverges`).
- The nonce cache forgets fresh nonces under a flood; exactly when is `NonceCaching.RefusedExactly`,
  a run is `NonceCaching.FloodedOut`.
- A request heavier than the burst is advised a wait that never suffices
  (`TokenBucket.RetryAfterIsExact`).
- A put of the same id that fails after replacing the metadata makes the old object unreadable
  (`ObjectStore.SameIdPut`).
- The two-supernode timeout approves on one vote of either kind (`Governance.ApprovalNeedsAYes`).
- Results are garbage-collected in key order, although the comment says oldest first
  (`ComputeStore.SavedResultIsThere`, `ComputeStore.SavedResultIsCollected`).
- A cancelled job leaves the table of running jobs but its execution goes on, and so does a job when
  another execution of the same id ends; exactly when an executing job is not listed is
  `Scheduler.UnlistedExactly`, a run is `Scheduler.CancelledTaskKeepsItsPermit`.
- Loading a snapshot trims values, and the failure reason is written without escaping but read with
  unescaping (`GhostStore.RestoredExactly`).

## Model

| member | source | states |
|---|---|---|
| `Gf256.RawMul` | src/sss.rs:50-65 | the u16 shift/xor loop returns the low byte of the shift-and-add product |
| `Gf256.RawMulOnBytes` | src/sss.rs:50-65 | on bytes that value is the polynomial product modulo 0x11B, computed on eight bits |
| `Gf256.Generate` | src/sss.rs:26-40 | the filled tables hold 3^i at every exponent 0..511 and, for every nonzero byte, the exponent below 255 that gives it; needs that 3 generates all 255 nonzero bytes |
| `Gf256.FillPowers` | src/sss.rs:26-40 | the first loop leaves the first 255 powers of 3 in one array and, under each power, its exponent in the other |
| `Gf256.RepeatPowers` | src/sss.rs:26-40 | the copying loop leaves the power of 3 at every exponent up to 511 |
| `Gf256.EveryByteIsAPower` | src/sss.rs:26-40 | every nonzero byte is a power of 3 with exponent below 255 |
| `Gf256.GFIsField` | src/sss.rs:16-17 | bytes with xor and the polynomial product satisfy the field laws, inverses included |
| `Gf256.GFProduct` | src/sss.rs:50-65 | the field's product by exponents is the polynomial product |
| `Gf256.GfMulIsProduct` | src/sss.rs:78-86 | the table product equals the polynomial product for all byte pairs and any correctly filled tables |
| `Gf256.GfDivUndoesProduct` | src/sss.rs:90-102 | division fails exactly for a zero divisor and otherwise the quotient times the divisor is the dividend |
| `Interpolation.InterpolantFits` | src/sss.rs:182-200 | over any field of characteristic two, through n points with distinct x there is a polynomial with n coefficients |
| `Interpolation.InterpolantUnique` | src/sss.rs:182-200 | it is the only one |
| `Interpolation.WeightsSumToOne` | src/sss.rs:224-254 | the Lagrange weights at zero of any distinct points sum to one |
| `Interpolation.LagrangeRecovers` | src/sss.rs:224-254 | the Lagrange sum over at least as many distinct points as coefficients is the polynomial's value at zero |
| `Shamir.PolyEval` | src/sss.rs:106-115 | the running-power loop evaluates the polynomial over the field |
| `Shamir.Split` | src/sss.rs:165-203 | threshold and empty-secret errors exactly in their cases; otherwise share i is the evaluation at i+1 of one polynomial per byte whose constant is the secret byte |
| `Shamir.Basis` | src/sss.rs:234-249 | for distinct x the inner loop yields the Lagrange weight and its division never fails |
| `Shamir.Reconstruct` | src/sss.rs:206-258 | no shards reported exactly for none, repeated x exactly for repeated ones, a panic exactly when a shard is shorter than the first; otherwise each byte is the Lagrange sum of its column; never a division error |
| `Shamir.SharesRecoverSecret` | src/sss.rs:206-258 | any k or more shares with distinct x reconstruct to exactly the secret, for every coefficient choice |
| `Shamir.SplitReconstruct` | src/sss.rs:165-258 | reconstructing any selection of at least k different shares of a split, in any order, gives the secret, for all 2 <= k <= n <= 255 |
| `Shamir.FewerSharesFixNothing` | src/sss.rs:386-391 | for any k-1 shares at distinct nonzero x and any candidate secret, exactly one coefficient choice produces those shares |
| `Shamir.OneShareShort` | src/sss.rs:386-391 | reconstructing k-1 shares at distinct nonzero x gives the secret if and only if the top coefficient of every byte is zero |
| `Interpolation.OnePointShort` | src/sss.rs:224-254 | over any field of characteristic two, the Lagrange sum of one point fewer than coefficients is the constant if and only if the top coefficient is zero |
| `Crdt.MergeTreesAgree` | src/crdt_state.rs:297-311 | any two merge trees over the same set of states, whatever order, grouping and repetition, agree on clock, counter, known and registered peers and observable set, on each register whose newest value is unique among the states, and on each peer entry whose latest is |
| `MergeOrder.StatusAgreesExactly` | src/crdt_state.rs:297-311 | all merge trees over a set of states agree on the status if and only if its newest value among them is unique |
| `MergeOrder.GhostStateAgreesExactly` | src/crdt_state.rs:297-311 | the same for the ghost state |
| `MergeOrder.EntryAgreesExactly` | src/crdt_state.rs:228-237 | the same for the entry of every single peer |
| `MergeOrder.TimeAgreesExactly` | src/crdt_state.rs:87-91 | all merge trees agree on when a peer was first seen if and only if all states that know the peer do |
| `RegisterRuns.HoldsNewestExactly` | src/crdt_state.rs:48-62 | in a run of creations, sets, sends and deliveries every replica holds, at every point, a newest of the writes it has made or received, if and only if no set was older than what it overwrote |
| `RegisterRuns.SameWritesSameValue` | src/crdt_state.rs:10-13 | without such a set, replicas with the same writes and a unique newest one hold the same value |
| `RegisterRuns.LateSetRun` | src/crdt_state.rs:48-52 | a concrete run of two writes after which a replica does not hold its newest |
| `RegisterRuns.LateSetDiverges` | src/crdt_state.rs:48-62 | from any system in which two replicas agree, a set older than what it overwrites leaves them, after delivery, with the same writes and different values |
| `RegistryRuns.HoldsLatest` | src/crdt_state.rs:213-237 | in every run of upserts, sends and deliveries every replica holds exactly a latest entry of every peer it has heard of |
| `RegistryRuns.SameUpdatesSameEntries` | src/crdt_state.rs:10-13 | replicas with the same upserts list the same peers, with the same entry wherever the latest is unique |
| `Crdt.TreeIsJoin` | src/crdt_state.rs:297-311 | every merge tree computes the join of its leaves, component by component |
| `Crdt.MaxJoinMerge` | src/crdt_state.rs:113-118 | merging two joins of counter maps is the join of the union: an upper bound that is attained in every slot |
| `Crdt.RegistryJoinMerge` | src/crdt_state.rs:228-237 | merging two registry joins keeps for every peer a latest entry of the union |
| `Crdt.LwwJoinMerge` | src/crdt_state.rs:54-62 | merging two register joins keeps a newest value of the union, by time then node |
| `Crdt.MergeKeepsTheLater` | src/crdt_state.rs:54-62 | of two registers the later written survives, at one time the one whose node id comes later in byte order, at one stamp the receiver's |
| `Lexicographic.LessIsByteOrder` | src/crdt_state.rs:55-56 | the order used for ids is the byte order: at the first difference the smaller byte or the end |
| `Crdt.OrJoinMerge` | src/crdt_state.rs:160-175 | merging two set joins keeps exactly the tags live in some leaf and removed in none |
| `Crdt.RegisterOrder` | src/crdt_state.rs:54-62 | two registers merge alike both ways if and only if equal stamps mean equal values |
| `Crdt.RegistryOrder` | src/crdt_state.rs:228-237 | the same for two registries, peer by peer |
| `Crdt.KnownPeersOrder` | src/crdt_state.rs:87-91 | two known-peer sets merge alike, timestamps included, if and only if common keys carry equal timestamps |
| `OrSetRuns.ContainsIsObservedRemove` | src/crdt_state.rs:133-179 | in every run of adds with fresh tags, removes, sends and deliveries a replica contains an item exactly when some add of it has reached it whose removal has not; the listed elements are exactly the contained ones |
| `OrSetRuns.RunFaithful` | src/crdt_state.rs:133-179 | at every replica and in every message live and removed tags are those its history of adds and removes explains |
| `CounterRuns.TotalNeverExceedsIncrements` | src/crdt_state.rs:103-119 | in every run no replica's total, and no slot, exceeds the sum of all increments made |
| `CounterRuns.MergedTotalIsExact` | src/crdt_state.rs:103-119 | a join covering the state of every node that counted has exactly that sum as its total |
| `CrdtObjects.LwwRegister.Set` | src/crdt_state.rs:48-52 | the register takes the value, time and node given |
| `CrdtObjects.LwwRegister.Merge` | src/crdt_state.rs:54-62 | the register becomes the value-level merge of the two |
| `CrdtObjects.GSet.Insert` | src/crdt_state.rs:75-77 | merging in a one-element set: a known item keeps its first time |
| `CrdtObjects.GSet.Merge` | src/crdt_state.rs:87-91 | the loop over the other set yields the value-level merge |
| `CrdtObjects.GCounter.Increment` | src/crdt_state.rs:104-107 | one slot grows by delta, the others stay |
| `CrdtObjects.GCounter.Total` | src/crdt_state.rs:109-111 | the loop returns the sum over all slots |
| `CrdtObjects.GCounter.Merge` | src/crdt_state.rs:113-118 | the loop yields the slot-wise maximum |
| `CrdtObjects.ObservedRemoveSet.Add` | src/crdt_state.rs:133-139 | the item gains the tag, creating the entry if needed |
| `CrdtObjects.ObservedRemoveSet.Remove` | src/crdt_state.rs:141-148 | the item's present tags become removed and its entry goes |
| `CrdtObjects.ObservedRemoveSet.Contains` | src/crdt_state.rs:150-154 | true exactly when the item has a tag that is not removed |
| `CrdtObjects.ObservedRemoveSet.Merge` | src/crdt_state.rs:160-175 | loop, removal union and retain together yield the value-level merge |
| `CrdtObjects.PeerRegistry.Upsert` | src/crdt_state.rs:213-221 | merging in a one-peer registry |
| `CrdtObjects.PeerRegistry.Merge` | src/crdt_state.rs:228-237 | the loop yields the value-level merge |
| `CrdtObjects.CrdtWorldState.constructor` | src/crdt_state.rs:277-290 | the initial state: own clock slot zero, everything else empty, registers stamped by the node |
| `CrdtObjects.CrdtWorldState.Tick` | src/crdt_state.rs:292-295 | only the node's own clock slot grows, by one |
| `CrdtObjects.CrdtWorldState.Merge` | src/crdt_state.rs:297-311 | merging part by part in place yields the value-level merge and leaves the other state unchanged |
| `CrdtObjects.CrdtWorldState.UpdatePeer` | src/crdt_state.rs:327-344 | the clock ticks, and registry and known peers become their merges with a one-peer part, so the agreement of merge trees covers these two |
| `Storage.ChunkKeyInjective` | src/storage_layer/chunk.rs:76-78 | different (object, index) pairs have different keys, even when ids contain ':' or digits |
| `Storage.DecryptEncrypt` | src/storage_layer/chunk.rs:32-74 | decrypting an encrypted chunk gives the plaintext, hash check included |
| `Storage.TamperedChunkIsRefused` | src/storage_layer/chunk.rs:61-66 | side fact: a chunk whose data does not have its hash is refused whatever the key |
| `Storage.PiecesFlatten` | src/storage_layer/object.rs:60-64 | the chunks in order concatenate to the data |
| `Storage.FourShardsInBounds` | src/storage_layer/erasure.rs:46-55 | with four data shards the slices stay in bounds exactly for lengths other than 1, 2 and 5 |
| `Storage.EncodedIs` | src/storage_layer/erasure.rs:46-63 | a successful encode has k + m shards of which the first k are the padded slices of the data |
| `Storage.DecodeEncoded` | src/storage_layer/erasure.rs:67-82 | decoding from any k of the k + m shards gives exactly the data |
| `StorageObjects.Encode` | src/storage_layer/erasure.rs:46-63 | the index loop fills the encoder's input with the padded slices, or panics exactly when a slice would overrun |
| `StorageObjects.Decode` | src/storage_layer/erasure.rs:67-82 | the append-and-truncate loop computes the value-level decode |
| `StorageObjects.DhtStore.PutChunk` | src/storage_layer/dht_store.rs:28-59 | the chunk is cached under its key whether or not publishing succeeds |
| `StorageObjects.DhtStore.Lookup` | src/storage_layer/dht_store.rs:61-67 | the cached chunk if there is one, otherwise what the network returns |
| `StorageObjects.StorageLayer.PutObject` | src/storage_layer/object.rs:27-50 | new metadata, cache, statistics and response are those of the value-level put, on every success and failure path |
| `StorageObjects.StorageLayer.StoreChunks` | src/storage_layer/object.rs:133-151 | chunks are cached and published in order up to the first refusal, and only full success counts in the statistics |
| `StorageObjects.StorageLayer.GetObject` | src/storage_layer/object.rs:154-238 | response and statistics are those of the value-level get on both paths |
| `ObjectStore.GetAfterPut` | src/storage_layer/object.rs:27-238 | after a put that reported success, and any puts of other ids however they ended, the object reads back exactly, on either path |
| `ObjectStore.GetErasureWithLosses` | src/storage_layer/object.rs:202-238 | an erasure-coded object reads back while any k of its shards are readable, from cache or network |
| `ObjectStore.PutAnswers` | src/storage_layer/object.rs:27-151 | which answer a put gives: success if and only if size, plan and metadata write pass and every chunk is accepted; each error if and only if its stage is the first to fail, and among the chunks the least refused index |
| `ObjectStore.PutCaches` | src/storage_layer/object.rs:133-143 | a put that publishes caches exactly the chunks up to the last one tried, each under its key, and any other put caches nothing |
| `ObjectStore.StatsCountSuccesses` | src/storage_layer/object.rs:145-148 | over any puts the statistics count exactly the successful ones and their chunks |
| `ObjectStore.TotalBytesIsLength` | src/storage_layer/object.rs:148 | side fact: the bytes counted are the length of the encrypted chunks together |
| `ObjectStore.GetAnswers` | src/storage_layer/object.rs:171-200 | reading chunks reports the first one that is missing, unreachable or undecryptable; if all can be had, their concatenation is returned if and only if it has the recorded hash |
| `ObjectStore.GetNeedsMetadata` | src/storage_layer/object.rs:154-160 | metadata that cannot be loaded or is absent is reported exactly then |
| `ObjectStore.GetCounts` | src/storage_layer/object.rs:195-199 | side fact: exactly the objects handed out are counted as served |
| `ObjectStore.MetadataDescribesChunks` | src/storage_layer/object.rs:66-74 | the metadata of an object held gives the number and, one by one, the hashes of the chunks held |
| `ObjectStore.SameIdPut` | src/storage_layer/object.rs:52-151 | after a put of the same id with data of another hash, however it ended, the object held before reads back if and only if that put stopped before replacing the metadata |
| `ObjectStore.PutPanics` | src/storage_layer/object.rs:27-50 | side fact: a put panics if and only if the size is allowed, erasure coding is on and the slices of that length overrun |
| `ObjectStore.PutKeepsHeld` | src/storage_layer/object.rs:27-151 | a put of another id, successful or not, disturbs neither metadata nor chunks of an object held |
| `Onion.UnpadPad` | src/onion.rs:323-348 | unpadding gives the payload cut to its length modulo 2^16, so the payload itself if and only if it has at most 65535 bytes |
| `Onion.PadFillsTheBlock` | src/onion.rs:323-337 | after the length bytes come the payload and only zeros, as few as fill up the last block |
| `Onion.UnpadReads` | src/onion.rs:339-348 | side fact: unpadding fails exactly when the length bytes are missing or say more than there is |
| `Onion.PeelEncrypted` | src/onion.rs:169-189 | peeling with the secret key matching the layer's public key gives next hop and content |
| `Onion.PeelIsRefused` | src/onion.rs:299-317 | side fact: which error peeling gives, each exactly in its case |
| `Onion.ZeroKeyIsRefused` | src/onion.rs:169-189 | side fact: a derived key of zeros only is refused |
| `Onion.BuildOnionPacket` | src/onion.rs:250-291 | the backward loop builds the nested packet; empty route, single hop, refused certificate and failing layer give their errors in that order |
| `Onion.TravelWrapped` | src/onion.rs:299-317 | from any hop on, peeling with the remaining keys in order yields the remaining next hops and the padded payload |
| `Onion.PacketIsBuilt` | src/onion.rs:216-291 | when the primitives succeed, a packet is built if and only if the route has two or more hops and every hop is certified |
| `Onion.PacketIsRefused` | src/onion.rs:250-263 | an empty route, a single hop and a hop without its certificate are refused with their errors |
| `Onion.HopIsCertified` | src/onion.rs:216-243 | side fact: a hop passes exactly with a 64-byte signature of the authority over the pair of its id and key, or without an authority |
| `Onion.PacketArrives` | src/onion.rs:250-348 | along any route of two or more hops each hop learns exactly the next one and the last unpads the payload, if and only if it has at most 65535 bytes |
| `Onion.NextHopsAre` | src/onion.rs:267-273 | what hop i learns is the id of hop i+1, and the last learns the empty id |
| `Replay.ReplayGuard.CheckCommon` | src/security_runtime.rs:726-760 | verdict and new map are those of the value-level check: window test, the cleanup above 10000 peers, pruning, replay and capacity refusals, insertion |
| `Replay.SameAnswerAsHistory` | src/security_runtime.rs:722-760 | with a nondecreasing clock every answer is the one the complete history of acceptances gives: in window, nonce not accepted by that peer within the window, fewer than 1000 such acceptances |
| `Replay.AcceptedAgainExactly` | src/security_runtime.rs:726-760 | after an acceptance, the next call of that peer and nonce to be accepted is exactly one whose date is in window at its first clock reading, for which the acceptance has left the window at its second, and whose peer is below capacity |
| `Replay.AcceptedTwiceOnlyAcrossTheEdge` | src/security_runtime.rs:722-760 | so a message not dated after an earlier acceptance passes again only if that call's two clock readings straddle the end of the window |
| `Replay.NeverAcceptedTwice` | src/security_runtime.rs:722-760 | with equal readings in a call it never passes twice |
| `Replay.ReadingsCanStraddle` | src/security_runtime.rs:726-760 | a concrete run in which it does, the readings one second apart |
| `SlidingWindow.RateLimiter.Attempt` | src/security_runtime.rs:171-182 | the retain loop and push compute the value-level check of that key and leave other keys alone |
| `SlidingWindow.AgreesWithFullRecord` | src/security_runtime.rs:171-182 | for every nondecreasing sequence of attempts the answer is the one the full record of acceptances gives |
| `SlidingWindow.AcceptancesSpanWindow` | src/security_runtime.rs:171-182 | any max_attempts + 1 consecutive acceptances of a key span at least the window |
| `NonceCaching.NonceCache.Record` | src/security_runtime.rs:134-153 | expired entries go, a known nonce is refused, a full cache gives up one of its oldest entries, and the nonce is recorded |
| `NonceCaching.FindOldest` | src/security_runtime.rs:142-147 | the loop finds an entry no younger than any other |
| `NonceCaching.AnswersLikeHistory` | src/security_runtime.rs:118-153 | in every run the cache stays within 10000 entries, refuses only nonces accepted in the last 900 seconds, and accepts such a nonce only if more than 10000 acceptances are as recent as its earlier one, whichever oldest entries were evicted |
| `NonceCaching.RefusedBetween` | src/security_runtime.rs:118-153 | within 900 seconds of its last acceptance a nonce is refused while at most 10000 acceptances are at that time or later, and no longer once 10000 are strictly later |
| `NonceCaching.RefusedExactly` | src/security_runtime.rs:118-153 | so, with no other acceptance at the same instant, it is refused if and only if at most 10000 acceptances are as recent |
| `NonceCaching.TickingAnswers` | src/security_runtime.rs:118-153 | that equivalence for every run whose clock moves between calls |
| `NonceCaching.FloodedOut` | src/security_runtime.rs:142-147 | after 10001 different nonces the first is accepted again, for every choice of evicted oldest entries |
| `NonceCaching.FloodExists` | src/security_runtime.rs:134-153 | such a run exists |
| `TokenBucket.GatewayRateLimiter.Request` | src/gateway.rs:85-106 | decision and new bucket are the value-level ones; no other peer's bucket changes |
| `TokenBucket.AllowedExactly` | src/gateway.rs:85-106 | in every run from empty buckets a call is answered as allowed if and only if, counted from itself and from every earlier call of its peer, its weight and the weight allowed since fit into burst plus refill; `remaining` is then the whole part of the least slack left, and zero on refusal |
| `TokenBucket.AvailableIsLeast` | src/gateway.rs:95-97 | what a peer may spend is the least of the burst and, over its earlier calls, burst plus refill less the weight allowed since |
| `TokenBucket.AdmittedWeightBounded` | src/gateway.rs:85-106 | over any stretch of calls the weight answered as allowed to a peer is at most burst plus rate times elapsed, whatever other peers do |
| `TokenBucket.RefillIsProduct` | src/gateway.rs:95-97 | the tokens of n seconds, added one second at a time, are n times the rate |
| `TokenBucket.RetryAfterIsExact` | src/gateway.rs:102-105 | after any refusal the same request is answered as allowed after a wait if and only if the rate is positive, the burst covers the weight and the wait is at least the advised one, refused calls in between included |
| `Ghost.RunConsistent` | src/ghost.rs:281-378 | in every run the events form one path to the present state, batches respect the limit, and batches and queue account for the items taken in |
| `Ghost.NothingLostOrReordered` | src/ghost.rs:558-598 | until zeroization the batches sent followed by the queue are exactly the accepted items in order; afterwards the batches are a prefix of them; no batch exceeds the limit |
| `Ghost.ChangesFormAPath` | src/ghost.rs:602-622 | each reported state change starts where the previous one ended, the first at Init; none leaves Zeroized and none goes from Panic to Beacon |
| `Ghost.ZeroizedIsFinal` | src/ghost.rs:588-622 | after zeroization no event but the zeroization notice follows and the state stays Zeroized |
| `Ghost.FallsAsleep` | src/ghost.rs:424-538 | with auto-sleep, no peers and no wake-up or panic the engine is asleep once as many cycles as the wake budget have run, and after every later input |
| `GhostTraces.EveryInputIsTraced` | src/ghost.rs:281-622 | in every run, until zeroization, every command and tick appends exactly the events of a table: beacons with the state then held and the metrics last reported, batches, panic reports, and the state changes around them |
| `GhostTraces.FieldsAreLast` | src/ghost.rs:281-378 | in every run, until zeroization, metrics and tamper flag are the last ones given and the wake budget follows its rule |
| `GhostTraces.ZeroizingClears` | src/ghost.rs:588-598 | in every run the input that zeroizes leaves no item, metrics, budget or flag |
| `GhostTraces.ZeroizeStops` | src/ghost.rs:350-354 | after the order to zeroize nothing the engine is given changes anything |
| `Ghost.QuietRun` | src/ghost.rs:523-538 | under such inputs every cycle uses up one unit of the budget and the engine stays calm |
| `Ghost.PanicTakesHold` | src/ghost.rs:578-598 | side fact: in every run a panic command adds exactly the change to Panic and the panic report and, if so configured, the change to Zeroized and its notice, with the queue emptied |
| `Ghost.TicksDrain` | src/ghost.rs:558-576 | awake and connected, n sync ticks take exactly n batch limits of items off the front of the queue |
| `GhostEngines.GhostEngine.MoveTo` | src/ghost.rs:602-622 | a refused or idle transition changes nothing; any other sets the state and reports it |
| `GhostEngines.GhostEngine.SendBeacon` | src/ghost.rs:540-556 | the new state is that of the value-level beacon |
| `GhostEngines.GhostEngine.SyncIfNeeded` | src/ghost.rs:558-576 | an empty queue without force does nothing; otherwise one batch from the front is sent |
| `GhostEngines.GhostEngine.Erase` | src/ghost.rs:588-598 | queue and metrics are cleared, the state becomes Zeroized and the notice is sent |
| `GhostEngines.GhostEngine.RaisePanic` | src/ghost.rs:578-586 | panic is reported and, as configured, followed by erasure |
| `GhostEngines.GhostEngine.SpendCycle` | src/ghost.rs:523-538 | the wake budget and the return to sleep after a cycle |
| `GhostEngines.GhostEngine.Cycle` | src/ghost.rs:458-475 | observe, assess, decide and act compute the value-level cycle |
| `GhostEngines.GhostEngine.Receive` | src/ghost.rs:281-378 | every command and tick has the value-level effect |
| `GhostEngines.RunEngine` | src/ghost.rs:281-378 | the command loop over any inputs ends in the value-level run |
| `ComputeStore.QueueKeyOrder` | src/compute/store.rs:60-66 | byte order on queue keys is order by creation time, then by job id |
| `ComputeStore.QueueIsFifo` | src/compute/store.rs:53-119 | in every run, failing operations included, keys put in are, with multiplicity, those taken out plus those pending; a non-empty queue always yields a stored job, that of the least pending key, and loses only that key; a dequeue that fails changes nothing |
| `ComputeStore.DequeueAnswers` | src/compute/store.rs:78-119 | in every run a dequeue without fault answers with the specification last enqueued, as the steps tell, under the id of the least pending key and removes exactly that key, or with nothing on an empty queue; with a fault it answers with failure and changes nothing |
| `ComputeStore.SpecIsLast` | src/compute/store.rs:53-75 | in every run the specification stored for an id is the one last enqueued successfully |
| `ComputeStore.SurvivesRemoval` | src/compute/store.rs:190-209 | deleting the first n entries keeps an entry exactly when at least n come before it |
| `ComputeStore.SavedResultIsThere` | src/compute/store.rs:122-139 | a saved result can be read unless the store is over its limit and the result's key is in the first tenth |
| `ComputeStore.SavedResultIsCollected` | src/compute/store.rs:190-209 | a full store in which the result just saved is collected |
| `ComputeStore.JobStore.Push` | src/compute/store.rs:53-75 | specification and queue entry are both inserted, or neither when serialization or the transaction fails |
| `ComputeStore.JobStore.Pop` | src/compute/store.rs:78-119 | the first entry is taken out and its specification returned, or none; a failing read, decoding or removal is reported and leaves the queue as it is |
| `ComputeStore.JobStore.Save` | src/compute/store.rs:122-139 | the result is inserted and the collection done, or nothing when the insertion fails |
| `ComputeStore.JobStore.CollectGarbage` | src/compute/store.rs:190-209 | the deletion loop removes the first tenth when over the limit, nothing otherwise |
| `Scheduler.RunningWithinPermits` | src/compute/scheduler.rs:158-258 | under every interleaving of submit, cancel, poll, start and completion, repeated ids included, each listed job has an execution holding a permit, and listed jobs <= permits in use <= the configured limit |
| `Scheduler.StepSound` | src/compute/scheduler.rs:168-258 | every single step keeps that |
| `Scheduler.NothingIsLost` | src/compute/scheduler.rs:170-258 | under every interleaving, for every job id, the valid submissions are the queue entries, the job waiting for a permit and the executions started; invalid ones are none of these |
| `Scheduler.PermitsComeBack` | src/compute/scheduler.rs:158-258 | under every interleaving the permits in use are the executions started less those that gave theirs back |
| `Scheduler.PollTakesTheFirst` | src/compute/scheduler.rs:203-216 | under every interleaving a poll below the limit takes the job of the least pending key, and a free permit starts exactly the job that waits |
| `Scheduler.ListedExactly` | src/compute/scheduler.rs:158-258 | under every interleaving a job is listed if and only if, since some start of it, it was not cancelled and no execution of that id ended |
| `Scheduler.UnlistedExactly` | src/compute/scheduler.rs:158-258 | the job of an executing task is missing from the list if and only if, after the step that started that execution, it was cancelled or an execution of the same id ended, and it was not started again since |
| `Scheduler.StartOf` | src/compute/scheduler.rs:210-219 | every execution has such a starting step |
| `Scheduler.TwinIsUnlisted` | src/compute/scheduler.rs:226-231 | in any state the end of one of two executions of an id unlists the other |
| `Scheduler.CancelledTaskKeepsItsPermit` | src/compute/scheduler.rs:195-201 | a run after which no job is listed while one execution still holds the only permit |
| `Governance.GovernanceEngine.constructor` | src/governance/engine.rs:37-56 | bootstrap mode exactly below two distinct supernodes, deadline one hour ahead |
| `Governance.GovernanceEngine.Evaluate` | src/governance/engine.rs:73-79 | past the deadline bootstrap mode is left and marked left |
| `Governance.GovernanceEngine.Create` | src/governance/engine.rs:90-132 | the proposal is stored, executed and counting one in bootstrap mode, otherwise open and counting the supernodes |
| `Governance.GovernanceEngine.Vote` | src/governance/engine.rs:134-147 | the three refusals in their order, otherwise the voter's vote is set |
| `Governance.GovernanceEngine.Quorum` | src/governance/engine.rs:149-179 | the decision by shares, by the zero-supernode rule and by the two-supernode timeout |
| `Governance.GovernanceEngine.Mark` | src/governance/engine.rs:181-187 | an existing proposal becomes executed |
| `Governance.GovernanceEngine.Update` | src/governance/engine.rs:193-213 | the supernode set is replaced and the mode follows, reaching two for the first time marks bootstrap as left |
| `Governance.CountAyes` | src/governance/engine.rs:161-162 | the loop counts the yes votes |
| `Governance.VotersAreTheElectorate` | src/governance/engine.rs:117-179 | in every run, while the supernode set is the one a voted proposal was made under, its voters are supernodes, no more than it counts, and for a ratio above one half not both quorums are reached |
| `Governance.QuorumsExclude` | src/governance/engine.rs:164-169 | with no more votes than supernodes and a ratio above one half at most one side reaches its quorum |
| `Governance.QuorumDecides` | src/governance/engine.rs:149-179 | with no more votes than supernodes and a ratio above one half: approved if and only if the yes votes reach ratio times supernodes or the two-supernode timeout applies, rejected if and only if the no votes do |
| `Ballots.VotesAreTheLastCast` | src/governance/engine.rs:134-147 | in every run the vote stored for a voter is what that voter said in the last step that voted on the proposal while it was open and the voter on the list in force, and there is none exactly if no step did |
| `Ballots.DecidedByLastVotes` | src/governance/engine.rs:149-179 | in every run, while the list is the one the proposal was made under: approved if and only if those who last said yes reach the ratio or the two-supernode timeout applies, rejected if and only if those who last said no do |
| `Ballots.VoteIsAnswered` | src/governance/engine.rs:134-147 | a vote is recorded, or refused as unknown, executed or not from a supernode, each exactly in its case |
| `Ballots.SupernodesAreInForce` | src/governance/engine.rs:193-201 | in every run the supernode set is the list last given |
| `Ballots.ProposalIsAsMade` | src/governance/engine.rs:90-132 | in every run a proposal's target, time and supernode count are those of the step that made it |
| `Ballots.NobodyRejects` | src/governance/engine.rs:156-159 | side fact: a proposal counting no supernodes is rejected |
| `Governance.DecidedOnce` | src/network/runtime/events.rs:1025-1028 | in every run of the one event loop, in which no vote is handled between the proposing node's check and mark (lines 105-128 and 734-793), each proposal is decided at most once |
| `Governance.ExecutedIsFinal` | src/governance/engine.rs:134-187 | once executed, a proposal with its votes never changes again in any run |
| `Governance.RunOnward` | src/governance/engine.rs:73-213 | over any stretch of any run ratio and deadline stay and the bootstrap phase, once left, stays left |
| `Governance.RunFollows` | src/governance/engine.rs:37-213 | in every run of a new engine bootstrap mode is having fewer than two supernodes and never having left the phase |
| `Governance.BornExecuted` | src/governance/engine.rs:90-115 | in every run of a new engine a proposal is born executed exactly when there are fewer than two supernodes, the deadline has not passed and the phase was never left |
| `Governance.NeverBornExecutedAgain` | src/governance/engine.rs:90-115 | once the phase was left at any point of a run, no later proposal is born executed |
| `Governance.LeavesBootstrap` | src/governance/engine.rs:193-213 | side fact: an update leaves the phase exactly when it was left already, or below two supernodes the list grows to two or the deadline has passed |
| `Governance.ApprovalNeedsAYes` | src/governance/engine.rs:164-176 | side fact: an approval has a yes vote, except the single no of the two-supernode timeout |
| `Governance.LoneNoIsApprovedAfterTimeout` | src/governance/engine.rs:171-176 | side fact: one no among two supernodes is approved if and only if the timeout has passed |
| `LineText.UnescapeLine` | src/ghost_store.rs:141-163 | the character loop computes the value-level unescaping |
| `LineText.UnescapeEscape` | src/ghost_store.rs:137-163 | unescaping undoes the three successive replacements for every string, and their result is one line |
| `LineText.UnescapeFixes` | src/ghost_store.rs:141-163 | unescaping leaves a string as it is if and only if no backslash stands before n, = or a backslash |
| `LineText.ItemReadBack` | src/ghost_store.rs:101-103 | a history item escaped, trimmed and unescaped loses its outer white space but no newline |
| `GhostStore.Save` | src/ghost_store.rs:39-65 | the written text is the header lines, the failure reason and the three lists in order |
| `GhostStore.Load` | src/ghost_store.rs:67-109 | the line loop computes the value-level load; a missing file gives none |
| `GhostStore.LoadAfterSave` | src/ghost_store.rs:39-109 | with single-line header values saving and loading gives the snapshot back, all lists in order, with outer white space trimmed |
| `GhostStore.RestoredExactly` | src/ghost_store.rs:39-109 | saving and loading gives back the same snapshot if and only if header values are single trimmed lines, the failure reason has nothing to unescape and no item has outer white space other than newlines |

## Left out

- libp2p swarm, event loop, codecs, dashboard, HTTP bridges, command line: network and user interface plumbing.
- Cryptographic primitives, base64, JSON, bincode, SHA-256, HKDF and Reed-Solomon arithmetic: library code, present only through the laws named above.
- sled and the file system: trees and files are maps and strings; a failed read or write is an input where the code reacts to it, crashes in the middle of a write are not modelled.
- `split_key_to_files` and `reconstruct_from_files`: file handling around sharing.
- `CrdtWorldState.dag`, sync payloads and `dominates`: the log differs per replica by design, payloads are serialization, and `dominates` is a one-line comparison that ignores nodes missing from its own clock.
- The relay handler's own decoding of onion layers (src/network/runtime/events.rs:1284) uses another format than the builder; only the module's own inverse is modelled.
- Ghost policy, health scoring, world-state mirroring and log messages: one-step facts without effect on the engine's state.
- Capacity publishing and remote execution of compute jobs, and the WebAssembly executor: outside the queue and permit logic.
- Saving, HMAC protection and `restore_from_snapshot` of governance: a restored snapshot may clear the exit flag, so the statements about leaving the bootstrap phase are for runs without a restore.
- Authority roles, Merkle chain, identity rotation: single-branch or one-step code.
- Floating point: quorum ratios and token counts are reals, so rounding is not captured.
- 64-bit overflow of counters, clocks and statistics is not modelled; `CounterRuns.TotalNeverExceedsIncrements` gives the range in which counters stay.
- Fresh identifiers (tags of the observed-remove set, proposal ids) are assumed not to repeat, as random UUIDs are meant not to.
- Scheduler: the worker loop is a state machine on values rather than a method, because its steps interleave with those of spawned executions; store errors are not among its steps.
- CrdtObjects.CrdtWorldState.Merge: does not model the entry appended to the audit log, which differs per replica by design; requires that the two states share no parts, which Rust's ownership guarantees.
- CrdtObjects.CrdtWorldState.UpdatePeer: does not model the entry appended to the audit log either.
- NonceCaching.RefusedBetween: between its two bounds, which differ only by other acceptances at the very same instant, the answer depends on the iteration order of the hash map.
- ObjectStore.GetAfterPut: for a positive chunk size, because splitting into chunks of size zero panics.
