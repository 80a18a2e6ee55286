# Verified models of GridKV

GridKV is a replicated key-value cache: a consistent-hash ring places keys, a coordinator replicates writes to
a quorum, gossip and a failure detector maintain the membership, and each node keeps its data in an in-memory
engine. This project models the parts in which a mistake would be silent, and proves what they promise for
every input, every run and every interleaving of the steps named below.

`dafny verify dfyconfig.toml` checks everything.

## How the models are built

* Code that updates fields in place is a class with those fields (`ConsistentHash`, `GossipManager`,
  `MemoryStorage`, `SyncRing`, `ShardedMemoryStorage`, `ConnPool`, `NetworkImpl`, `HLC`, `Generator`,
  `GnetConn`, `ReplicaNode`). Each method is verified against a function of the old state, and the promises
  are theorems about those functions.
* What many nodes or callers do at once is a state machine: a step is one atomic piece of the code, a run is a
  sequence of enabled steps, and theorems hold after every run.
* Hash functions, clocks, the network, the compressor, the worker pools, whether a store has room, and message
  handlers are parameters.

| file | about |
|---|---|
| `HashRing.dfy`, `RingDistance.dfy`, `RingStore.dfy` | the ring as a value, what lookups find in terms of distance, and the sorted slice, owner map and member set |
| `Quorum.dfy`, `QuorumLimits.dfy`, `Coordination.dfy` | the replication protocol, how far its promises go, and the loops that run it |
| `LastWriteWins.dfy` | guarded applies and batch deduplication |
| `Acks.dfy`, `AckTable.dfy` | matching acknowledgements with calls |
| `Detection.dfy`, `Membership.dfy`, `MembershipManager.dfy` | failure detection and the ring that follows it |
| `Storage.dfy`, `Lru.dfy`, `LruRuns.dfy`, `MemoryStore.dfy`, `SyncBuffer.dfy`, `Bits.dfy` | the memory-limited engine and its change buffer |
| `Sharding.dfy`, `ShardedStore.dfy` | the sharded engine |
| `ConnectionPool.dfy` | the connection pool |
| `Framing.dfy` | length-prefixed messages over byte streams |
| `Hlc.dfy`, `Decimal.dfy` | hybrid logical clock and identifiers |

## Where the code and its comments part ways

The code is modelled as it is. For each property that can fail, the first member named says exactly when it
holds, and the second, where there is one, is a run or an input with which it fails.

* **Ring labels.** A virtual node's label is its number followed by the node's name, so with eleven replicas or
  more, and only then, two names can share one, as "x" and "0x" share "10x" (`RingStore.LabelsExactly`). Such
  names collide under every hash function (`RingStore.LabelsCollide`). The ring is a function of its members
  exactly when no position is shared (`HashRing.IndependenceExactly`). What holds regardless is
  `HashRing.ReplayCoherent`.
* **Acknowledged is not applied.** A replica acknowledges a write before a worker applies it. Reads see every
  earlier write exactly when the read quorum is all replicas, however large the write quorum
  (`QuorumLimits.ReadsExactly`, `QuorumLimits.StaleRead`). Only where answers are given with nothing queued and
  nothing turned away is the condition W+R>N (`QuorumLimits.CleanReadsExactly`). Whether it is so no message
  says, but an answer from the coordinator always suffices. All of this rests on the protocol's premises: SET
  traffic without expiry or eviction, and versions of a key that rise at its coordinator, whose own store
  overwrites without comparing them.
* **Acknowledged may be turned away.** A full worker pool or a store without room drops an acknowledged
  operation. W replicas are sure to hold a successful write that can promise them exactly when W is at most
  one, or above N, where no write can (`QuorumLimits.DurableExactly`); otherwise each refusal costs at most one
  (`QuorumLimits.RefusalsCost`).
* **Success without a quorum.** With no live replica, or when the worker pool rejects every request, a write
  reports success (`Quorum.SuccessMeansQuorum`).
* **Rejections use up acknowledgements.** A rejected request reports failure but does not widen the wait
  (`Coordination.RejectionsExactly`, `Coordination.MissedQuorum`).
* **Negative versions.** A quorum read never returns one: it finds something exactly when some answer has a
  version of at least zero (`Quorum.LatestIsMaximum`, `Quorum.NegativeVersion`).
* **Late acknowledgements.** Looking a channel up and sending to it are two steps; in between the channel may be
  recycled, and then another caller may receive the acknowledgement (`Acks.MisleadsExactly`,
  `Acks.LateDelivery`).
* **The grace period.** The detector refreshes a silent live peer during a fixed 20 seconds, so a shorter
  timeout may never fire (`Detection.SilenceIsNoticed`, `Detection.RefreshedForEver`).
* **Stranded nodes.** A node reported dead and then suspect or unknown, or a local node reported dead and then
  in any other state, is no longer in the ring although it is known and not dead
  (`Membership.InSyncExactly`, `Membership.StrandedNode`). A node heard of for the first time is recorded as
  alive whatever is reported.
* **The clock's parser.** `Update` scans with `%[^:]`, which Go's scanner does not support, so remote stamps are
  never understood. The merge is modelled behind a decoder. Happens-before orders the readings exactly when
  at every receipt the stamp is one the decoder understands or the receiver's clock is past it already
  (`Hlc.CausalityExactly`, `Hlc.CausalityNeedsDecoding`); for the code's own parser only the second is left. The
  documented reader understands every stamp in every run of fewer than 2^63 events (`Hlc.Causality`), and a
  single stamp that is not understood breaks it (`Hlc.UnreadStampBreaks`).
* **Integer text.** The least 64-bit integer prints as a lone sign (`Decimal.PrintedParse`).
* **Expiry and byte accounts.** Dropping an expired entry does not give its bytes back, so the account is exact
  only as long as none is dropped (`Lru.AccountExactly`, `Lru.LeakingRun`).
* **Batch writes and the change buffer.** A batch write moves the tail one operation early
  (`SyncBuffer.NewestExactly`, `SyncBuffer.BatchLosesFirst`).
* **Snapshots of the sharded store** are counted entry by entry (`Sharding.SnapshotCounts`,
  `Sharding.NamedTwice`).
* **The pool's wake-ups.** A failed dial gives its place back without waking a waiting caller
  (`ConnectionPool.ServedExactly`, `ConnectionPool.StrandedCaller`).
* **Prewarming** does not look at the connection limit (`ConnectionPool.PrewarmExact`,
  `ConnectionPool.PrewarmedOver`).
* **After closing** the pool's count goes below zero (`ConnectionPool.CountAfterClosing`,
  `ConnectionPool.NegativeCount`).
* **Empty messages.** The event-loop writer sends nothing for them; the blocking writer sends them and its
  reader skips them. What the event loop makes of an empty frame is up to its library
  (`Framing.LibraryIndependent`).

## Model

| member | source | states |
|---|---|---|
| RingStore.ConsistentHash.Add | internal/gossip/consistent_hash.go:178-227 | a new node is given exactly the positions of its virtual nodes, the others keep their owners, positions stay sorted and grow by the replica count, and a known node changes nothing; it is the join of the ring theorems |
| RingStore.ConsistentHash.Remove | internal/gossip/consistent_hash.go:263-293 | a member's positions, and no others, lose their owners and leave the slice, in place; it is the leave of the ring theorems |
| RingStore.ConsistentHash.Get | internal/gossip/consistent_hash.go:335-355 | the owner of the nearest position clockwise from the key's hash; nobody on an empty ring |
| RingStore.ConsistentHash.GetN | internal/gossip/consistent_hash.go:413-449 | the distinct owners in order of first appearance on one clockwise turn, cut at the requested number |
| RingStore.ConsistentHash.Members | internal/gossip/consistent_hash.go:471-480 | every member once |
| RingStore.MergeSorted | internal/gossip/consistent_hash.go:206-224 | merging two sorted slices keeps order and every position as often as both held it |
| RingStore.FastBinarySearch | internal/gossip/utils.go:305-316 | the leftmost position not below the target |
| RingStore.LabelsExactly | internal/gossip/consistent_hash.go:192-201 | two different names can share a virtual node's label if and only if there are at least eleven replicas |
| RingStore.LabelsCollide | internal/gossip/consistent_hash.go:192-201 | two names that share a label collide under every hash function |
| RingStore.PositionsExactly | internal/gossip/consistent_hash.go:192-201 | a node's positions are the hashes of its name behind each replica number, one for each, and no others |
| RingStore.CollisionExactly | internal/gossip/consistent_hash.go:192-201 | two nodes are without a collision if and only if none of their virtual nodes have the same hash |
| HashRing.ReplayCoherent | internal/gossip/consistent_hash.go:178-293 | after any history, even with collisions: positions are sorted and exactly the owned ones, owners are members, members are those whose last event is a join |
| HashRing.HistoryIndependence | internal/gossip/consistent_hash.go:178-293 | without collisions two histories with the same members give the same ring, so the same coordinator and replicas for every key |
| HashRing.IndependenceExactly | internal/gossip/consistent_hash.go:178-293 | histories over given names that end with the same members always give the same ring if and only if no two of the names share a position |
| HashRing.JoinsCommute | internal/gossip/consistent_hash.go:178-227 | two newcomers may join in either order if and only if they share no position |
| HashRing.JoinThenLeave | internal/gossip/consistent_hash.go:178-293 | joining and leaving restores the ring if and only if the newcomer's positions were free |
| HashRing.MinimalDisruption | internal/gossip/consistent_hash.go:263-293 | after a departure each preference list is the old one without the node, topped up by the next node of the walk if it was named, and unchanged otherwise |
| HashRing.LeaveDisruption | internal/gossip/consistent_hash.go:263-293 | survivors of the old list lead the new list in the same order, and keys of other nodes keep their owner |
| HashRing.JoinDisruption | internal/gossip/consistent_hash.go:178-227 | the new list without the newcomer is a prefix of the old one, and keys the newcomer does not own keep their owner |
| HashRing.PreferenceMembers | internal/gossip/consistent_hash.go:413-449 | on every ring a preference list names distinct members only, so capping the request at the membership loses nothing |
| HashRing.PreferenceLength | internal/gossip/consistent_hash.go:413-449 | without collisions the list has min(n, members) entries, and is the whole membership when n reaches it |
| HashRing.FirstIsPrimary | internal/gossip/consistent_hash.go:335-449 | asking for one replica is asking for the owner, who is a member |
| RingDistance.PreferenceByDistance | internal/gossip/consistent_hash.go:413-449 | a preference list is ordered by how near its nodes come to the key going clockwise, a node it leaves out is farther than all of it, and is left out only because the list has the length asked for |
| RingDistance.PrimaryByDistance | internal/gossip/consistent_hash.go:335-355 | the owner of a key owns the position nearest to it clockwise |
| Quorum.HoldsForward | internal/gossip/message_handling.go:397-458 | no step of the protocol takes an operation away from a node that stores it or has it queued, unless the node's store refuses it |
| Quorum.InvariantKept | internal/gossip/replication.go:489-667 | every step keeps: the coordinator stores each write in its version or a higher one, counted acknowledgements come from replicas that hold the write or turned it away, and answers of the coordinator, or given with nothing queued, are as new as the writes they must reflect |
| Quorum.QuorumWrite | internal/gossip/replication.go:489-667 | in every later state of every run a write that reported success, and could promise its quorum, has W distinct witnesses among its replicas: the coordinator stores its version or a higher one, every other holds it unless it turned it away |
| Quorum.SuccessMeansQuorum | internal/gossip/replication.go:506-560 | success implies a write quorum for every pattern of acknowledgements if and only if requests were handed out and the live replicas reach W-1 or were not all asked |
| Quorum.LatestIsMaximum | internal/gossip/replication.go:1062-1118 | the item a read selects is an answer, has the highest version among them, and exists if and only if some answer has a version of at least zero |
| Quorum.LatestIsFirst | internal/gossip/replication.go:1069-1078 | of several answers with the highest version a read selects the first |
| Quorum.NegativeVersion | internal/gossip/replication.go:1062-1118 | an only answer with a negative version is not returned |
| Quorum.QuorumsMeet | internal/gossip/replication.go:894-1118 | a write set and a read set that together exceed the replicas share a node |
| Quorum.QuorumRead | internal/gossip/replication.go:894-1118 | with W+R>N, a read begun after a successful quorum write, using R distinct answers given with nothing queued by replicas that did not turn the write away, returns that version or a higher one, in every run |
| Quorum.CoordinatorAnswerSuffices | internal/gossip/replication.go:894-1118 | in every run a read that uses the coordinator's answer sees every write that succeeded before it began, whatever is queued or refused elsewhere |
| QuorumLimits.ReadsExactly | internal/gossip/replication.go:894-1118 | in every configuration reads that collect R distinct answers, or all there are, see every write that succeeded before them, in every run, if and only if R is at least N |
| QuorumLimits.StaleRead | internal/gossip/message_handling.go:258-304 | for every configuration with R below N, whatever W, a run in which all replicas acknowledge a write, it succeeds, and a later read of R replicas finds nothing |
| QuorumLimits.CleanReadsExactly | internal/gossip/replication.go:894-1118 | reads whose answers were given with nothing queued and nothing turned away see every earlier successful write that could promise its quorum, in every run, if and only if W+R>N |
| QuorumLimits.DurableExactly | internal/gossip/message_handling.go:401-458 | as an acknowledged operation may be dropped, W replicas hold every successful write that could promise them, in every run, if and only if W is at most one or exceeds N |
| QuorumLimits.RefusalsCost | internal/gossip/message_handling.go:401-458 | at least W replicas less those that turned it away hold a successful write that could promise its quorum |
| Coordination.ReplicateToNodes | internal/gossip/replication.go:489-667 | the submit and wait loops succeed exactly when nobody could be asked, or the positive verdicts among the first as many as were sent reach the requirement |
| Coordination.AcknowledgedMeans | internal/gossip/replication.go:506-667 | with T replicas alive and S requests taken, both counted by position, a write succeeds if and only if T or S is zero or min(T, W-1) positive verdicts are among the first S, before a timeout |
| Coordination.AwaitQuorum | internal/gossip/replication.go:640-667 | returning early, at a timeout or at the end makes no difference: the outcome depends on the verdicts heard alone |
| Coordination.AcknowledgedSucceeds | internal/gossip/replication.go:514-667 | from one reply a replica, acknowledgement or failure, a success of the loops is a success in the protocol's sense |
| Coordination.CallBegins | internal/gossip/replication.go:241-249 | storing a higher version and submitting the requests extends every run by the start of a write with just those targets and requests and nothing acknowledged yet |
| Coordination.SuccessfulCall | internal/gossip/replication.go:489-667 | whenever the loops report success the run extends, by counting the replies heard and finishing the write, to one in which it has succeeded, and W distinct replicas hold it or turned it away if it can promise its quorum |
| Coordination.RejectionsExactly | internal/gossip/replication.go:546-667 | with T live targets, S requests taken by the pool and all S acknowledged, the write succeeds in every order of arrival if and only if the acknowledgements required are at most S - min(T-S, S) |
| Coordination.MissedQuorum | internal/gossip/replication.go:546-667 | a call with three live replicas, one request rejected, two acknowledged and W=3 reports failure |
| Coordination.RingConfigures | internal/gossip/replication.go:218-235 | preference lists of a ring without collisions are a valid protocol configuration: distinct replicas, as many as asked for or everybody, headed by the key's owner |
| Coordination.ReplicaNode.Set | internal/gossip/replication.go:199-249 | a client's write is stored where it arrives exactly if that node is alone, knows no replica or coordinates the key, and its store takes it; otherwise it is only forwarded to the coordinator, which fails if that is unknown or cannot be reached |
| Coordination.ReadWithQuorum | internal/gossip/replication.go:894-1118 | if one answer is enough, the local outcome, errors included; otherwise the highest version, none below zero, among the local item and those that come in before the deadline and within the number awaited, the local item winning a tie; repair is asked for exactly when these differ in version |
| Coordination.CompleteRead | internal/gossip/replication.go:894-1118 | when enough distinct replicas answer, the loops return the latest answer of a protocol read that collected its quorum, hence at least every write that succeeded before it if R reaches N, or under the quorum conditions |
| Coordination.SelectLatest | internal/gossip/replication.go:1062-1078 | the selection loop computes the protocol's choice |
| Coordination.ReplicaNode.HandleCacheSync | internal/gossip/message_handling.go:247-462 | acknowledges before anything is applied, exactly if the message names an operation and a sender whose address is known and some pool takes the acknowledgement; and the queue gains each operation as often as the worker pool takes it, and nothing else |
| Coordination.HandlerIsProtocolStep | internal/gossip/message_handling.go:258-418 | handling a message that carries the operation of one write is the protocol's step of receiving it: the same queue, an acknowledgement, and a refusal if the pool is full |
| Coordination.ReplicaNode.RunQueued | internal/gossip/message_handling.go:401-421 | a worker applies exactly one queued operation, if its version is strictly higher or the stored item has expired, and if the store takes it |
| Coordination.WorkerIsProtocolStep | internal/gossip/message_handling.go:401-421 | as long as the stored item has not expired, a worker makes a step of the protocol |
| LastWriteWins.ApplyAllMeaning | internal/gossip/message_handling.go:376-418 | applying a batch leaves, per key, the later of the stored item and the batch's best |
| LastWriteWins.BestIsMaximum | internal/gossip/utils.go:321-344 | the best operation for a key occurs in the batch and has the highest version there |
| LastWriteWins.FastKeyDedup | internal/gossip/utils.go:321-344 | keeps exactly one operation per key, the best one, in whatever order the map is walked, and every operation without a key as often as it occurs |
| LastWriteWins.RepresentsMeans | internal/gossip/utils.go:321-344 | a deduplicated batch has for each key the first operation with the highest version, and none is missing |
| LastWriteWins.DedupPreservesMeaning | internal/gossip/utils.go:321-344 | the deduplicated batch, applied in any order, leaves every store as the whole batch in its own order would, ties included |
| LastWriteWins.Convergence | internal/gossip/message_handling.go:376-418 | replicas that start equal and see the same operations in any order and with any repetition end equal |
| LastWriteWins.ApplyConcat | internal/gossip/message_handling.go:306-418 | how operations are grouped into messages makes no difference |
| LastWriteWins.AppliesCommute | internal/gossip/message_handling.go:397-418 | two operations may be swapped on every store if and only if they do not carry different items under one key and version |
| AckTable.NetworkImpl.Enter | internal/gossip/network.go:320-323 | a call is admitted exactly while fewer than the limit are pending, and a rejected one leaves the count as it was |
| AckTable.NetworkImpl.RegisterChannel | internal/gossip/network.go:325-328 | takes a pooled channel if there is one and registers it for the call |
| AckTable.NetworkImpl.HandleAck | internal/gossip/network.go:409-447 | an acknowledgement reaches the channel registered for its id and no other; when that stays full the registration goes |
| AckTable.NetworkImpl.Await | internal/gossip/network.go:378-400 | a caller receives what lies in its own channel, which carries its own id, or gives up when time is up, even if both are possible |
| AckTable.NetworkImpl.Cleanup | internal/gossip/network.go:330-347 | registration and count are taken back and the channel is emptied before it is pooled |
| AckTable.NetworkImpl.AbandonSend | internal/gossip/network.go:368-374 | the same after a failed send |
| Acks.Correlation | internal/gossip/network.go:314-447 | over all interleavings: received acknowledgements carry the caller's id, pooled channels are empty and unregistered, no channel is registered twice, and at most 65536 calls are in flight |
| Acks.OneStepCorrelation | internal/gossip/network.go:314-447 | the same for every run in which each handler's look-up and delivery are one step, with no other premise |
| Acks.MisleadsExactly | internal/gossip/network.go:409-447 | after a late delivery some continuation, with no further delivery late, lets a caller receive an acknowledgement that is not its own, if and only if the channel was empty and is pooled or owned by another call that still waits |
| Acks.LateDelivery | internal/gossip/network.go:409-447 | a run in which an acknowledgement is received by another caller |
| Detection.DetectionTime | internal/gossip/failure_detection.go:143-213 | with timeout E, suspect deadline D and passes at most d apart, the cluster growing and shrinking within a size class, a silent peer is suspect by E+d, dead by max(E+d,D)+d, forgotten one pass later, and none of it before E or D |
| Detection.OneStateAtATime | internal/gossip/failure_detection.go:143-253 | no pass moves a peer by more than one state, and a dead one does not survive the next |
| Detection.RefreshedForEver | internal/gossip/failure_detection.go:177-180 | with a timeout below the grace period there are schedules on which a silent peer stays alive for ever |
| Detection.SilenceIsNoticed | internal/gossip/failure_detection.go:170-190 | silence beyond the timeout makes a peer suspect on every schedule if and only if the timeout reaches the grace period |
| Membership.JudgedNode | internal/gossip/failure_detection.go:143-213 | a pass treats every node by itself, whatever the order in which the map is walked |
| Membership.PassPeer | internal/gossip/failure_detection.go:143-253 | a whole pass does to each peer what the rule for one peer says, so the timing results apply to every peer of a cluster |
| Membership.PassExactly | internal/gossip/failure_detection.go:143-253 | what a pass does to every record, in numbers: limits doubled below five nodes and half as much again below ten, 20 seconds of grace, the deadline doubled above ten; who found dead leaves the ring; and each change of state takes a local version of its own |
| Membership.SilentPeerDetected | internal/gossip/failure_detection.go:19-253 | the same bounds in every run of the whole membership, with any news about and probes of other nodes, for a peer of which nothing is heard |
| Membership.Reachable | internal/gossip/failure_detection.go:19-253 | in every run, collisions or not, ring members are known and not dead, and the ring is coherent |
| Membership.NewsNeverLowers | internal/gossip/failure_detection.go:19-118 | in every run news keeps every known node known and lowers nobody's recorded version |
| Membership.NeverRoutesToDead | internal/gossip/consistent_hash.go:335-449 | in every run no owner and no entry of a preference list is dead or unknown |
| Membership.InSyncExactly | internal/gossip/failure_detection.go:59-110 | an event keeps the ring equal to the known nodes that are not dead if and only if it does not bring a dead node back without re-adding it |
| Membership.RingIsMembership | internal/gossip/failure_detection.go:19-253 | on runs without such events the ring is the membership throughout |
| Membership.SameMembersSameRing | internal/gossip/failure_detection.go:19-253 | two nodes that know the same nodes that are not dead hold the same ring, whatever each went through, on such runs and without collisions |
| Membership.StrandedNode | internal/gossip/failure_detection.go:59-131 | news of death, then of suspicion, then an answered probe leave a node alive and outside the ring |
| MembershipManager.GossipManager.constructor | internal/gossip/gossip_manager.go:242-252 | a node starts out knowing and hosting itself |
| MembershipManager.GossipManager.UpdateNode | internal/gossip/failure_detection.go:19-118 | news older than the record changes nothing; any other sets just that record's address, state, version and time, a new node counting as alive, and adds or removes the node from the ring as its change of state demands |
| MembershipManager.GossipManager.MarkNodeAliveFromProbe | internal/gossip/failure_detection.go:124-134 | only a suspect is cleared, under a new local version, and the ring is not touched |
| MembershipManager.GossipManager.ForceRemoveNode | internal/gossip/gossip_manager.go:671-680 | a known node is reported dead under a new local version, which has no effect if its record is newer than that |
| MembershipManager.GossipManager.MarkReplicaState | internal/gossip/replication.go:1294-1307 | a change of state is reported under a new local version |
| MembershipManager.GossipManager.RunFailureDetection | internal/gossip/failure_detection.go:143-253 | the loops over the node map amount to one pass over some order that lists every node once |
| Lru.EvictionExact | internal/storage/memory.go:167-197 | eviction takes exactly a tail of the recency list, one entry fewer would not have made room, and only an emptied list makes it fail |
| Lru.EvictedTail | internal/storage/memory.go:167-197 | evicting n entries removes the n least recent keys, changes no other entry, and gives exactly their bytes back |
| Lru.FreedIsExact | internal/storage/memory.go:230-244 | the eviction loop stops after the least number of evictions that suffices, within its budget |
| Lru.RunKeeps | internal/storage/memory.go:215-459 | after any commands the recency list names exactly the stored keys, each once, ordered by last touch, and the live entries never exceed the account |
| LruRuns.ContentsExactly | internal/storage/memory.go:215-459 | after any commands a key holds the entry of the last Set that stored it if no Erase, Clear, lookup or listing after its expiry, or eviction took it away since, and is absent otherwise |
| Lru.SetWithinLimit | internal/storage/memory.go:230-244 | a successful Set leaves the account within the limit unless the whole eviction budget was spent, and it fails exactly if evicting everything within the budget would not make room |
| Lru.SetMeans | internal/storage/memory.go:215-299 | a Set stores just the new entry under its key unless it fails for want of room, which it does exactly if evicting everything within the budget would not make any; other keys keep their entries or are evicted; and the account grows by the difference |
| Lru.AccountExactly | internal/storage/memory.go:215-459 | after any commands the byte account is the live bytes if and only if no expired entry was dropped since the last Clear |
| Lru.LeakingRun | internal/storage/memory.go:319-333 | storing an entry and looking it up after it expired leaves its bytes on the account of an empty store |
| MemoryStore.PackUnpack | internal/storage/memory.go:133-163 | a value comes back from compression, and is never stored larger |
| MemoryStore.MemoryStorage.Set | internal/storage/memory.go:215-299 | the new entry keeps the item, compressed if that is shorter; other keys keep theirs or are evicted for room; account, recency list and change buffer move along; with every error case |
| MemoryStore.MemoryStorage.Get | internal/storage/memory.go:303-355 | returns what is stored, unpacked, and moves the key to the front; misses; or drops an expired entry, whose bytes stay on the account |
| MemoryStore.MemoryStorage.Remove | internal/storage/memory.go:359-403 | takes the key off whatever the version and leaves all others, gives exactly its bytes back, and records the deletion even of an absent key |
| MemoryStore.MemoryStorage.ListKeys | internal/storage/memory.go:407-436 | every stored key that has not expired, once; the expired ones are gone |
| MemoryStore.MemoryStorage.Clear | internal/storage/memory.go:440-459 | empty store, empty account, nothing pending |
| MemoryStore.MemoryStorage.EvictUntil | internal/storage/memory.go:230-244 | the in-place loop performs the evictions of the model |
| SyncBuffer.KeepsNewest | internal/storage/memory.go:280-297 | after single writes and deletes a drain returns exactly the newest operations since the last one, as many as fit, in order |
| SyncBuffer.KeepsSuffix | internal/storage/memory.go:893-908 | with batch writes it still returns an unbroken run of the newest, at most one short of those that fit |
| SyncBuffer.NewestExactly | internal/storage/memory.go:893-908 | a drain returns the newest operations, as many as fit, if and only if fewer than the capacity were recorded since the last one or a single write came once the capacity less one was |
| SyncBuffer.BatchLosesFirst | internal/storage/memory.go:893-908 | a batch that would just fit comes back without its first operation |
| SyncBuffer.SyncRing.RecordOp | internal/storage/memory.go:280-297 | writing the masked slot overwrites only the oldest operation of a full buffer |
| SyncBuffer.SyncRing.RecordBatchedOp | internal/storage/memory.go:893-908 | the same for a batch write, which drops one operation early |
| SyncBuffer.SyncRing.GetSyncBuffer | internal/storage/memory.go:467-494 | returns what is pending, oldest first, and nothing twice |
| Bits.RoundsUp | internal/storage/storage.go:372-384 | the least power of two not below n up to 2^63, and zero beyond |
| Bits.MaskIsRemainder | internal/storage/memory_sharded.go:143-153 | masking by a power of two less one is taking the remainder |
| Sharding.RoutedByRemainder | internal/storage/memory_sharded.go:143-153 | every key has a shard, its hash modulo their number |
| Sharding.FlatAt | internal/storage/memory_sharded.go:156-255 | looking a key up in its own shard is looking it up in the one map that all shards stand for |
| Sharding.FlatStore | internal/storage/memory_sharded.go:178-197 | storing a key in its shard stores it in the flat map and leaves every key in its own shard |
| Sharding.FlatDrop | internal/storage/memory_sharded.go:541-562 | removing likewise |
| Sharding.SnapshotCounts | internal/storage/memory_sharded.go:700-732 | the key count after applying a snapshot is the number of keys if and only if no key occurs twice |
| Sharding.SnapshotTransfers | internal/storage/memory_sharded.go:659-732 | a snapshot of one store makes any other, however sharded, stand for the same map with the right count |
| Sharding.NamedTwice | internal/storage/memory_sharded.go:700-732 | a key named twice is counted twice |
| Sharding.LatestExactly | internal/storage/memory_sharded.go:700-732 | a snapshot stands for the last entry of each key that has an item |
| Sharding.DrainedByKey | internal/storage/memory_sharded.go:629-656 | draining shard after shard keeps the order of the operations on each key |
| Sharding.StoresOnce | internal/storage/memory_sharded.go:487-538 | what it means for recorded operations to store a batch: one operation for each of its entries, with that entry's value, and no other |
| Sharding.RecordedExactly | internal/storage/memory_sharded.go:200-214 | recording appends to one shard's buffer, which drops its oldest operation at 16384 |
| ShardedStore.ShardedMemoryStorage.constructor | internal/storage/memory_sharded.go:102-137 | empty, with a power of two of shards |
| ShardedStore.ShardedMemoryStorage.Set | internal/storage/memory_sharded.go:156-217 | acts on the flat map and records the write in its shard's change buffer, or refuses an empty key, a missing item or a full store and changes nothing; the count stays in step |
| ShardedStore.ShardedMemoryStorage.Get | internal/storage/memory_sharded.go:220-255 | answers from the flat map and drops only an expired key |
| ShardedStore.ShardedMemoryStorage.Delete | internal/storage/memory_sharded.go:541-579 | removes from the flat map whatever the version, and records the deletion even of an absent key |
| ShardedStore.ShardedMemoryStorage.BatchGet | internal/storage/memory_sharded.go:304-374 | grouped by shard or not, finds exactly the live ones among the keys and drops the expired ones |
| ShardedStore.ShardedMemoryStorage.BatchSet | internal/storage/memory_sharded.go:449-538 | all or nothing: overwrites the flat map with every storable item and records each once, or refuses the batch by its total size |
| ShardedStore.ShardedMemoryStorage.Keys | internal/storage/memory_sharded.go:582-604 | every live key of the flat map once; the expired ones are gone |
| ShardedStore.ShardedMemoryStorage.GetFullSyncSnapshot | internal/storage/memory_sharded.go:659-685 | lists the live flat map, each key once |
| ShardedStore.ShardedMemoryStorage.ApplyFullSyncSnapshot | internal/storage/memory_sharded.go:700-732 | the flat map becomes the entries of the snapshot, the last one of a key winning, and nothing is pending |
| ShardedStore.EntrySizesNext | internal/storage/memory_sharded.go:700-732 | the byte account after a snapshot adds up over its entries that have an item |
| ShardedStore.ShardedMemoryStorage.Clear | internal/storage/memory_sharded.go:607-621 | the flat map, the counts, the byte account and the change buffers are empty |
| ShardedStore.ShardedMemoryStorage.GetSyncBuffer | internal/storage/memory_sharded.go:629-656 | returns what is pending in all buffers and empties them |
| ConnectionPool.Conservation | internal/transport/transport.go:131-435 | over all interleavings with dials in flight: until closing, the count is idle plus held plus dialling, idle stays within its limit, and the count within the connection limit plus what was prewarmed |
| ConnectionPool.NothingLost | internal/transport/transport.go:131-435 | every connection ever dialled is idle, held or closed and only one of these, and after closing and handing back all are closed and nobody sleeps |
| ConnectionPool.PrewarmExact | internal/transport/transport.go:131-159 | prewarming respects the connection limit if and only if there was room below it or none for an idle connection |
| ConnectionPool.PrewarmedOver | internal/transport/transport.go:131-159 | a run that opens two connections with a limit of one |
| ConnectionPool.CountAfterClosing | internal/transport/transport.go:357-435 | after closing the count is minus the number of places given back since by Put or by failed dials |
| ConnectionPool.NegativeCount | internal/transport/transport.go:357-435 | a run that ends with a count of minus one |
| ConnectionPool.GrantMeaning | internal/transport/transport.go:245-338 | a caller gets the most recently returned connection that is neither idle beyond the timeout nor broken, the others behind it being closed; else a place if one is then free; else it sleeps, or leaves if its context is done |
| ConnectionPool.CleanupMeaning | internal/transport/transport.go:198-216 | cleaning up keeps, in order, exactly the connections idle for less than the timeout |
| ConnectionPool.PrewarmMeaning | internal/transport/transport.go:131-159 | prewarming keeps as many of the dialled connections as there is room for among the idle ones, in order |
| ConnectionPool.ServedExactly | internal/transport/transport.go:227-405 | a step leaves nobody asleep beside a free place if and only if it is not a failed dial, a woken caller leaving unserved, or prewarming beyond the limit, without another caller awake to make up for it |
| ConnectionPool.AlwaysServed | internal/transport/transport.go:227-405 | on every run until closing without such a step, nobody ever sleeps beside a free place |
| ConnectionPool.StrandedCaller | internal/transport/transport.go:281-297 | a run in which a failed dial leaves a caller asleep beside an empty pool |
| ConnectionPool.ConnPool.Take | internal/transport/transport.go:238-338 | one turn of Get under the lock, closing exactly the unusable connections it met |
| ConnectionPool.ConnPool.TakeAfterWait | internal/transport/transport.go:338-353 | a woken caller whose context is done leaves without looking |
| ConnectionPool.ConnPool.Put | internal/transport/transport.go:357-384 | keeps the connection or closes it and gives its place back, and wakes one sleeper either way |
| ConnectionPool.ConnPool.Invalidate | internal/transport/transport.go:388-406 | closes the connection, gives its place back and wakes one sleeper, never counting below zero |
| ConnectionPool.ConnPool.HandBack | internal/gossip/network.go:132-152 | a sender hands its connection back once: to the idle list after a successful write, invalidated after a failed one |
| ConnectionPool.ConnPool.Prewarm | internal/transport/transport.go:131-159 | dials until it has as many as asked for or may be kept idle, or a dial fails; keeps those there is room for and closes the rest |
| ConnectionPool.ConnPool.AddPrewarmed | internal/transport/transport.go:142-155 | keeps one connection dialled ahead of need exactly if the pool is open and has room for an idle one |
| ConnectionPool.ConnPool.AbandonDial | internal/transport/transport.go:291-297 | gives the reserved place of a failed dial back and wakes nobody |
| ConnectionPool.ConnPool.Cleanup | internal/transport/transport.go:198-216 | closes exactly the connections idle for the whole timeout, in place, and counts them off |
| ConnectionPool.ConnPool.Close | internal/transport/transport.go:409-435 | closes every idle connection, wakes everybody, and does nothing the second time |
| Framing.PrefixRoundTrip | internal/transport/gnet.go:117-125 | the four-byte length reads back |
| Framing.HeadExactly | internal/transport/gnet.go:440-480 | a message is ready exactly if the buffer begins with its frame and it is no longer than 10 MB, and too large exactly if the first four bytes, the highest first, say so |
| Framing.GnetWrite | internal/transport/gnet.go:100-140 | appends one frame, and nothing for an empty message |
| Framing.TcpWrite | internal/transport/tcp.go:193-212 | appends one frame, also for an empty message |
| Framing.GnetConn.OnTraffic | internal/transport/gnet.go:427-490 | one event consumes at most 64 complete frames and stops at an incomplete one, an oversized one or a refusal, with whatever the library does when asked for zero bytes |
| Framing.DecodeCut | internal/transport/gnet.go:440-480 | any beginning of an encoded stream decodes to a beginning of what was sent |
| Framing.RunTracks | internal/transport/gnet.go:427-490 | after any events the delivered messages and the buffered rest make up exactly the bytes that arrived, if asking the library for zero bytes does nothing |
| Framing.LibraryIndependent | internal/transport/gnet.go:427-490 | on streams without empty frames a connection behaves the same whatever the library does with zero bytes |
| Framing.AnyBytes | internal/transport/gnet.go:427-490 | for any such stream, and for any bytes if the library does nothing then, and any chunking: what was delivered is a prefix of what the stream decodes to, never passes a refused message, and is all of it after enough events despite the batch cap |
| Framing.ClosedExactly | internal/transport/gnet.go:427-490 | a connection is never closed while nothing that arrived is refused or oversized, and otherwise is closed once enough traffic events follow |
| Framing.UpToRefusalExactly | internal/transport/gnet.go:470-485 | what is delivered before a refusal is the beginning of the stream's messages up to and including the first refused one |
| Framing.RoundTrip | internal/transport/gnet.go:100-140 | however the bytes are cut and whatever the library does with zero bytes, the reader delivers a prefix of the messages written, stays open, and finally delivers all of them |
| Framing.HandleConnection | internal/transport/tcp.go:446-512 | the blocking reader delivers the non-empty messages of the stream up to the first incomplete or oversized frame |
| Framing.ReadersAgree | internal/transport/tcp.go:463-512 | on written messages the two readers deliver exactly what was written; on any bytes they agree up to empty messages if the library does nothing with zero bytes |
| Hlc.HLC.Now | internal/utils/hlc/hlc.go:57-91 | adopts the wall clock's own value if that is ahead, with a counter of zero, and otherwise counts on; returns node, time and counter |
| Hlc.HLC.Update | internal/utils/hlc/hlc.go:94-124 | merges a stamp that the decoder understands and ignores others |
| Hlc.TextInjective | internal/utils/hlc/hlc.go:76-82 | a stamp's text determines node, time and counter, whatever the node is called |
| Hlc.TickForward | internal/utils/hlc/hlc.go:57-75 | a reading is strictly later than the clock before it if and only if the wall clock moved ahead or the counter is not exhausted |
| Hlc.MergeIsJoin | internal/utils/hlc/hlc.go:94-124 | the merge is the later of the two |
| Hlc.LaterOnNode | internal/utils/hlc/hlc.go:57-124 | with arbitrary wall clocks, readings of one node strictly increase, in runs of fewer than 2^64 events and with any decoder that never mistakes one stamp for another |
| Hlc.Bounded | internal/utils/hlc/hlc.go:57-124 | no counter ever exceeds the number of events of the run, so none is exhausted |
| Hlc.StampReads | internal/utils/hlc/hlc.go:76-82 | the documented format reads back for a stamp if and only if its time is not the least integer and its counter is below 2^63, and nothing is ever misread |
| Hlc.Causality | internal/utils/hlc/hlc.go:57-124 | with the documented reader, in every run of fewer than 2^63 events happens-before implies a strictly smaller stamp, across any number of nodes |
| Hlc.CausalityExactly | internal/utils/hlc/hlc.go:94-124 | happens-before orders the readings of a run if and only if at every receipt the stamp is understood or the receiver's clock has passed it |
| Hlc.UnreadStampBreaks | internal/utils/hlc/hlc.go:103-118 | every run with a stamp that is not understood continues to one in which happens-before does not order the readings |
| Hlc.StampsDistinct | internal/utils/hlc/hlc.go:57-91 | no two stamps of a run of fewer than 2^64 events have the same text |
| Hlc.CausalityNeedsDecoding | internal/utils/hlc/hlc.go:103-118 | with a decoder that understands nothing a node answers a stamp with a smaller one |
| Decimal.AppendInt | internal/utils/hlc/hlc.go:135-157 | appends the decimal text without leaving its 20-byte array |
| Decimal.DigitPlaces | internal/utils/hlc/hlc.go:135-157 | each digit of the text is the one of its decimal place, the ones last, and no number but zero begins with a zero |
| Decimal.PrintedParse | internal/utils/hlc/hlc.go:135-157 | the text reads back for an integer if and only if it is not the least one |
| Decimal.FormatSplit | internal/utils/hlc/hlc.go:76-82 | splitting from the right recovers the parts whatever colons the node name holds |
| Decimal.FormatParse | internal/utils/opid/opid.go:48-70 | an identifier reads back as node, time and counter |
| Decimal.Generator.Generate | internal/utils/opid/opid.go:48-70 | the n-th call makes the n-th identifier of its node, with a counter that wraps at 64 bits |
| Decimal.IdentifiersDistinct | internal/utils/opid/opid.go:48-70 | identifiers made by calls of generators coincide only if they come from one node and from calls a multiple of 2^64 apart |

## Left out

- Decimal.Generator.Generate: prints time and counter with the ordinary decimal text of the standard library, whose implementation is not part of this model.
- Framing.GnetConn.OnTraffic: the batch of 64 is a parameter of the theorems about runs, which hold for every batch size.
- Framing.RunTracks: assumes that asking the event loop's buffer for zero bytes does nothing, which only matters for empty frames; LibraryIndependent carries it over to all other streams.
- Hlc.HLC.Update: the scan is a parameter, as the scanner's behaviour is the standard library's; the documented reader and one that understands nothing are the cases treated.
- Coordination.ReplicaNode.HandleCacheSync: the operations of a message are SETs that need no forwarding; deletes, and the onward replication of a forwarded write, are not modelled.
- Lru.SetWithinLimit: the budget of 100 evictions is a parameter of the theorem, which holds for every budget.
- Detection.DetectionTime: stated for timeouts that reach the grace period less one nanosecond, below which SilenceIsNoticed shows it false.
- Quorum.QuorumRead: assumes rising versions per key at its coordinator and SET traffic without expiry or eviction; deletes ignore versions and break the guarantee. QuorumLimits.ReadsExactly and CleanReadsExactly, which say when reads see writes, rest on the same premises.
- Acks.Correlation: assumes that an acknowledgement is sent to the channel it looked up before that channel is recycled, as it is when handlers are one step; MisleadsExactly says what happens otherwise.
- SyncBuffer.SyncRing.RecordOp: head and tail are unbounded, so wrap-around after 2^64 operations is not modelled, and calls are sequential.
- MemoryStore.MemoryStorage.Set: the map from keys to list elements is modelled as the set of its keys; the compressor is a parameter.
- ShardedStore.ShardedMemoryStorage.Set: a shard's change buffer is what is pending in it, as proved of the ring buffer of the other engine; the per-shard byte counts and the hit statistics are not kept.
- ConnectionPool.ConnPool.Prewarm: states the whole call with nobody else at the pool in between; Conservation covers its dials as single steps among others.
- Ring-buffer heads, ring updates outside the manager's lock and other racing accesses: every public operation is one step.
- Forwarded writes and reads: they return once sent and wait for no quorum.
- Delete quorums, which reuse one operation id for all targets, and the writes of read repair, which rest on a stale comparison.
- The single-operation fast path of message handling: its condition contradicts the guard before it, so it is never taken.
- The clock's cached stamp: the cache is cleared before every use.
- NoCopy and batch lookups, snapshots and incremental sync of the compressing engine: variations of the operations modelled.
- Batching of replication messages by size and time, and message signing.
- Sockets, event loops, goroutine scheduling, zstd, xxhash and protocol buffers.
- Migration, adaptive gossip, multi-datacentre selection, latency matrix, metrics and logging.
