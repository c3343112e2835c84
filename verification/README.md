# rkv in Dafny

A verification model of rkv, a Dynamo-style key-value store: crash recovery of the storage
engine, the consistent-hash ring, gossip membership and failure detection, and quorum
replication with vector clocks. `dafny verify dfyconfig.toml` checks the whole project.

The model follows the source's form. What the source updates in place is a class whose methods
are proved against functions of the old state; what a reader should be able to rely on is then
proved about those functions, over every run of a state machine where time, crashes, lost
messages or interleavings are involved.

| file | what it models |
|---|---|
| `VectorClocks.dfy`, `Values.dfy`, `MemTables.dfy` | clocks, versioned values, the in-memory table with expiry, size accounting and scans |
| `WriteAheadLogs.dfy`, `LineFormats.dfy` | the log as file bytes: lines, replay, torn tails, sequence numbers; a line format that meets the laws assumed |
| `Snapshots.dfy` | the snapshot directory, found by sorting file names, refining a map from save time to table; when names sort like times |
| `Durability.dfy` | crash recovery as a step machine: split writes, staged flush, reaper, clock, crash at any point |
| `Engines.dfy` | the engine object, each operation a run of that machine |
| `HashRings.dfy`, `RingMembership.dfy`, `RingAdditions.dfy` | the ring, preference lists, membership refinement, minimal disruption |
| `Gossip.dfy`, `GossipMembership.dfy`, `GossipNetwork.dfy` | one node's table and ring, runs of its events, many nodes over a faulty network |
| `Conflicts.dfy`, `ResolutionOrders.dfy`, `Coordinators.dfy` | conflict resolution, the responses it resolves well in every order, the wire form, quorum reads and writes |
| `Ordered.dfy`, `Decimal.dfy`, `Options.dfy` | sorted enumeration, decimal rendering, optional values |

Conventions. A Rust string is the sequence of its UTF-8 bytes, each written as the char of that
code, so lengths are byte lengths and the order on strings is the byte order. Clock readings are
parameters. SHA-256, CRC-32 and the JSON line format are parameters; `Lawful` states what the
line format must provide and `EntryFormatIsLawful` that log entries have such a format. Iteration over a hash
map picks elements arbitrarily.

Main results. `EngineRefinesHistory`: memory and the table a crash would recover both answer
every get like the plain history of writes, now and later, in every disciplined interleaving.
`TornLogReplaysPrefix`: cutting the log anywhere loses a suffix of entries and nothing else, and
`CrashInsideWriteIsAllOrNothing`: a crash inside a write leaves all of it or none, whatever
earlier crashes left in the log. `QuorumReadSeesWrite`: overlapping quorums see an acknowledged
write through evictions, restarts and other writes. `WalkIsOneRotation`, `RingIsImage`,
`RemovalDisruption`, `AdditionDisruptionIff`: what the ring promises. `RingFollowsTable`,
`EveryRingFollowsItsTable`, `RecordedPairIsMaximum`, `ArrivalOrderIrrelevant`,
`DeathIsJustified`, `SilentPeerDies`, `NobodyAheadOfTheSource`, `RecordedPairsNeverDecrease`:
what gossip keeps. `AlwaysGreatestIff`: which responses the resolver resolves well in every order.

Where the code does less than its documentation or design suggests, the model keeps the code and
a lemma says exactly what happens:

- keeping zero snapshots makes a flush lose everything (`FlushDurableIffSnapshotKept`);
- once a flush truncates the log, a crash recovers the captured table and nothing else, so a write
  logged meanwhile or in flight at the capture survives exactly when that table holds it
  (`TruncationForgetsUncaptured`, `WriteDuringFlushIsLost`);
- after writes of one key race, memory and disk agree exactly when the write applied last equals
  the one logged last (`RacingWritesAgreeIff`, with `SameKeyRaceDiverges` its smallest case);
- a log cut inside a line is appended to as it is, so, joined lines not parsing, the first write
  after reopening survives the next replay exactly when nothing of the cut line was left
  (`AppendAfterTear`);
- an earlier snapshot's name sorts before a later one's exactly when its number is at most the
  leading digits, as many as it has, of the later one's (`NamesSortByTimeIff`); the last name is
  the newest save exactly when that holds of every other save (`LastNameIsNewestIff`).
  Among kept snapshots a crash after a flush recovers the new one exactly when every other name
  sorts before its name; otherwise the table of another save comes back, the log being gone
  (`FlushDurableIffNamedLast`);
- adding a node whose virtual nodes land on others' disturbs more than the last member of some
  list exactly unless each position taken was sheltered by a later one of the same node, or the
  ring was one node's and is taken whole (`AdditionDisruptionIff`);
- removing a node just added restores the ring only if it displaced nothing (`RemoveUndoesAdd`);
- a replication factor of 0 still lists one node (`Wanted`, in every preference-list statement);
- a node is on its own ring exactly unless its own table holds it as Dead (`RingFollowsTable`);
  that can happen only to one seeded with its own id (`SelfStaysOnRing`), and then does after two
  late sweeps (`SelfSeedLeavesRing`);
- clocks equal in every counter are called concurrent exactly when their key sets differ
  (`EqualClocksLookConcurrentIff`, `ZeroEntryLooksConcurrent`);
- "beats" among replica values is not transitive and can be a cycle (`ResolutionCycle`). Every
  order of the live responses gives a newest and undominated one exactly when every chain of
  losing responses, each beating the one before, is beaten member by member by one winner
  (`AlwaysGreatestIff`); with one winner this is a test of each response (`OneWinnerDecides`),
  while a test of the newest responses is not enough (`NewestTopsFail`). Whichever
  responses arrive it holds exactly when none dominates a newer one
  (`AlwaysGreatestOfThoseHeardIff`);
- the repository's README promises strong consistency from R + W > N, but a get counts silent
  replicas as successes (`Get`) even if it finds nothing (`SilentReplicasFindNothing`), so the
  quorum theorem counts replicas that really answer; and the wire form drops the tombstone flag, so a deleted key is found, with
  an empty value, from outside its replicas (`DeletedKeyFoundRemotely`).

## Model

| member | source | states |
|---|---|---|
| VectorClocks.VectorClock.Increment | src/storage/memtable.rs:32-35 | this node's counter grows by one, from 0 if absent, nothing else changes |
| VectorClocks.VectorClock.Merge | src/storage/memtable.rs:38-43 | for every iteration order the result is the pointwise maximum over both key sets |
| VectorClocks.Dominates | src/storage/memtable.rs:46-65 | for every iteration order of both maps the two loops decide the strict pointwise order, absent entries being 0 |
| VectorClocks.IsConcurrentWith | src/storage/memtable.rs:68-70 | true exactly when neither clock is after the other and the maps differ |
| VectorClocks.AfterIsStrictOrder | src/storage/memtable.rs:46-65 | dominance is irreflexive, asymmetric and transitive, also through pointwise-equal clocks |
| VectorClocks.MergeIsLeastUpperBound | src/storage/memtable.rs:38-43 | merge is above both arguments and below every other upper bound |
| VectorClocks.BuiltClocksAreZeroFree | src/storage/memtable.rs:25-43 | clocks built by any increments and merges from empty have no zero entry |
| VectorClocks.CausalityIsFourWay | src/storage/memtable.rs:46-70 | of zero-free clocks exactly one of equal, after, before, concurrent holds, and concurrent means incomparable |
| VectorClocks.EqualClocksLookConcurrentIff | src/storage/memtable.rs:68-70 | pointwise-equal clocks are called concurrent if and only if their key sets differ |
| VectorClocks.ZeroEntryLooksConcurrent | src/storage/memtable.rs:68-70 | an instance: adding a zero entry to any clock |
| Values.ClockStep | src/storage/engine.rs:115-145 | a put or delete never lowers a key's clock, raises it exactly for a delete or a put over a zero counter, and touches only this node's counter |
| Values.ClockHistoryMonotone | src/storage/engine.rs:115-145 | over any history the stored clock is at least that of any prefix |
| Values.ClockHistoryCounter | src/storage/memtable.rs:74-117 | from an absent key the clock is exactly this node at 1 plus the deletes after the first operation |
| Values.PutRawStores | src/storage/memtable.rs:74-91 | a put stores the caller's bytes and time-to-live, stamped now and not deleted; this node's counter becomes at least 1, the others stay those stored |
| Values.DeleteStores | src/storage/memtable.rs:106-117 | a delete stores an empty tombstone stamped now that lives five minutes; this node's counter grows by one, the others stay those stored |
| Values.GetIff | src/storage/memtable.rs:94-103 | a get answers the entry stored if and only if it is no tombstone and has no positive time-to-live or is within it |
| MemTables.MemTable.Put | src/storage/memtable.rs:155-168 | blind overwrite; the size stays the sum over entries without underflow; full is reported exactly at the limit |
| MemTables.MemTable.Delete | src/storage/memtable.rs:171-181 | stores a tombstone over the key's clock, keeping the size sum; full is reported exactly at the limit |
| MemTables.MemTable.Drain | src/storage/memtable.rs:194-199 | returns everything and leaves an empty table of size 0 |
| MemTables.MemTable.EvictExpired | src/storage/memtable.rs:207-221 | removes exactly the entries past a positive time-to-live, tombstones like others, counts them, and keeps the size sum |
| MemTables.Recount | src/storage/memtable.rs:213-218 | summing entries in any order gives the size of the table |
| MemTables.EvictionCount | src/storage/memtable.rs:209-211 | the length difference is the number of expired entries |
| MemTables.SizeWithout | src/storage/memtable.rs:156-166 | the size of a table splits off any one entry as the key's bytes, the value's bytes and 128 |
| MemTables.ScanFinds | src/storage/memtable.rs:184-191 | without a limit a scan returns in byte order, each once, exactly the keys at or after start and before end whose get is present, with what get returns |
| MemTables.ScanLimit | src/storage/memtable.rs:184-191 | a limit returns that many from the front of the list, or all |
| MemTables.ScanIsFirstVisible | src/storage/memtable.rs:184-191 | so range, filter, take is the first `limit` visible keys with their get values |
| Ordered.LexLessIff | src/storage/memtable.rs:122-124 | the map's key order: a string is smaller if and only if it is a proper prefix or has the smaller byte where they first differ |
| MemTables.ScanRespectsGet | src/storage/memtable.rs:184-191 | tables that agree on every get agree on every scan |
| WriteAheadLogs.Replay | src/storage/wal.rs:99-148 | the loop keeps exactly the lines that are non-blank, parse and pass their checksum, in order |
| WriteAheadLogs.ReplayLineByLine | src/storage/wal.rs:99-148 | on any file: a line, less its newline and one carriage return, contributes an entry if and only if it has text, parses, and the checksum is that of sequence, key, value bytes and timestamp; the rest is replayed after it |
| WriteAheadLogs.TornLogReplaysPrefix | src/storage/wal.rs:85-148 | a log cut at any byte replays to the prefix of entries whose encodings survive whole, of the length the offset dictates |
| WriteAheadLogs.LogReplaysInFull | src/storage/wal.rs:85-148 | replaying an intact log returns every appended entry |
| WriteAheadLogs.LinesOfLog | src/storage/wal.rs:91-92 | a log of appended entries splits into exactly their encodings |
| WriteAheadLogs.RecoverSequence | src/storage/wal.rs:175-189 | the loop over any file returns the recovered counter |
| WriteAheadLogs.MaxSequenceIsMax | src/storage/wal.rs:175-189 | which is the largest number on a line that parses, checksum or not, or 0 |
| WriteAheadLogs.RecoveredSequenceIsLast | src/storage/wal.rs:175-189 | for a log of appended entries that is the last number logged, or 0 |
| WriteAheadLogs.CrashInsideAppend | src/storage/wal.rs:85-148 | on any file that ends a line, corrupt lines included, a crash after any number of bytes of an append replays to what it held before, plus the new entry exactly when at most its terminator is missing |
| WriteAheadLogs.AppendIsReplayed | src/storage/wal.rs:85-148 | an entry appended to any file that ends a line, corrupt lines included, is replayed after what the file held |
| WriteAheadLogs.AppendAfterTear | src/storage/wal.rs:57-96 | where joined lines do not parse, an append after a line cut by a crash, on top of any file that ended a line, survives if and only if nothing of that line was left, and the cut entry is lost with it |
| WriteAheadLogs.ReplayedThen | src/storage/wal.rs:99-148 | what follows any file that ends a line is replayed after it |
| WriteAheadLogs.WriteAheadLog.constructor | src/storage/wal.rs:57-82 | opens any file with the counter at the largest number found; an intact log is then open for appending in sequence |
| WriteAheadLogs.WriteAheadLog.Append | src/storage/wal.rs:85-96 | adds exactly one line, numbered one above the counter; what replays grows by that entry if the file ended a line; a clean log stays clean |
| WriteAheadLogs.WriteAheadLog.Truncate | src/storage/wal.rs:151-162 | leaves an empty log with counter 0 |
| LineFormats.EntryFormatIsLawful | src/storage/wal.rs:88-92 | log entries have a line format that meets the laws assumed |
| LineFormats.EntryFormatRefusesJoins | src/storage/wal.rs:88-92 | and does not parse joined lines |
| Snapshots.NamesSortByTimeIff | src/storage/snapshot.rs:30-31 | an earlier save's name sorts before a later one's if and only if its number is at most the leading digits, as many as it has, of the later one's |
| Decimal.RenderedValue | src/storage/snapshot.rs:30-31 | the digits in a name stand for the clock reading, without leading zeros |
| Snapshots.LastNameIsNewestIff | src/storage/snapshot.rs:112-126 | the last name is the newest save's if and only if that holds of every other save against the newest |
| Snapshots.LastNameIsIff | src/storage/snapshot.rs:112-126 | the same for any save, later ones included |
| Snapshots.CleanupKeepsLastName | src/storage/snapshot.rs:129-157 | cleanup keeps the save whose name sorts last if any is kept, and it still sorts last |
| Snapshots.NameChoicesAreTimeChoices | src/storage/snapshot.rs:112-157 | while it holds of every pair, the last name is the newest save and cleanup by name is cleanup by time |
| Snapshots.EqualDigitsInTimeOrder | src/storage/snapshot.rs:30-31 | it holds of saves with equally many digits |
| Snapshots.NamesFollowTimes | src/storage/snapshot.rs:112-125 | for any saves, the sorted names are the names of the times sorted by name, other files ignored |
| Snapshots.LastNameIsLatest | src/storage/snapshot.rs:112-126 | the file whose name sorts last holds the save last by name, and there is none exactly when nothing was saved |
| Snapshots.CleanupKeepsLatest | src/storage/snapshot.rs:129-157 | cleaning up keeps the latest table if at least one is kept and leaves nothing if none is |
| Snapshots.CleanedExactly | src/storage/snapshot.rs:129-157 | cleanup leaves `keep` saves, or all if there are no more, unchanged, each beyond all that are dropped |
| Snapshots.StrayFileIgnored | src/storage/snapshot.rs:112-124 | a file whose name lacks the prefix or the suffix changes no listing |
| Snapshots.SnapshotManager.Save | src/storage/snapshot.rs:25-56 | at any clock reading the directory then maps it to the saved table, other saves unchanged |
| Snapshots.SnapshotManager.LoadLatest | src/storage/snapshot.rs:59-68 | returns the table whose name sorts last, the newest save's while names are in time order, or nothing |
| Snapshots.SnapshotManager.Cleanup | src/storage/snapshot.rs:129-157 | keeps exactly the saves with fewer than `keep` beyond them, by name and so by time while names are in time order, and counts the rest |
| Durability.EngineRefinesHistory | src/storage/engine.rs:47-169 | in every disciplined run memory (off in-flight keys) and the recoverable table answer every later get like the last write of the key |
| Durability.RunInv | src/storage/engine.rs:98-169 | every disciplined run keeps disk, memory, in-flight writes and flush capture related |
| Durability.LogWriteInv | src/storage/engine.rs:98-104 | logging a write keeps the relation, the key being in flight |
| Durability.ApplyWriteInv | src/storage/engine.rs:106-112 | applying a logged write brings memory back in step with disk |
| Durability.EvictInv | src/storage/memtable.rs:207-221 | unlogged eviction keeps memory equal to disk up to expired entries |
| Durability.SaveInv | src/storage/engine.rs:57-71 | a log replayed over a snapshot that already holds its effects changes nothing but expired entries |
| Durability.CleanupInv | src/storage/engine.rs:160 | with at least one snapshot kept, cleanup keeps the relation |
| Durability.TruncateInv | src/storage/engine.rs:162-165 | truncating after the save keeps the relation |
| Durability.CrashDuringFlushKeepsView | src/storage/engine.rs:153-169 | a crash after any number of completed flush stages reopens on the view from before the flush |
| Durability.LastWriteDecides | src/storage/engine.rs:98-145 | through any disciplined continuation without a write of the key, the last write alone decides what is read |
| Durability.ScansSurviveRecovery | src/storage/engine.rs:148-150 | with nothing in flight every scan of memory equals the scan after recovery |
| Durability.DiskMemoryDifference | src/storage/engine.rs:98-169 | disk and memory differ only on in-flight keys and expired evicted entries |
| Durability.RecoveredCoversMemory | src/storage/engine.rs:47-85 | what a restart recovers holds all that memory held of a key not in flight, up to expiry, now and later |
| Durability.ReplayLookup | src/storage/engine.rs:57-71 | after replay a key holds its last logged value, or else the snapshot's |
| Durability.LastWriteIff | src/storage/engine.rs:66-71 | the last write of a key is the one at the largest index, tombstones included, and is missing if and only if none writes it |
| Durability.FlushDurableIffSnapshotKept | src/storage/engine.rs:153-169 | a flush and crash keep the table if and only if at least one snapshot is kept |
| Durability.TruncationForgetsUncaptured | src/storage/engine.rs:153-165 | in every interleaving, a crash after the truncation recovers exactly the captured table; a key's last write, the last logged meanwhile or else the last before, survives if and only if that table holds it |
| Durability.WriteDuringFlushIsLost | src/storage/engine.rs:153-169 | an acknowledged write completed between capture and save survives the next crash if and only if the captured table held it |
| Durability.RacingWritesAgreeIff | src/storage/engine.rs:98-112 | after any run of log and memory steps of racing writes with nothing left in flight, memory and disk agree on a key if and only if the write applied last equals the one logged last |
| Durability.SameKeyRaceDiverges | src/storage/engine.rs:98-112 | the smallest case: two writes of one key applied against log order |
| Engines.StorageEngine.constructor | src/storage/engine.rs:47-85 | recovery is the snapshot whose name sorts last, then the log: the machine's reopen step while names are in time order |
| Engines.Open | src/storage/engine.rs:47-85 | opening on any log file and any directory, torn and corrupt lines and other files included, gives the state before after a reopen, by name and so by time while names are in time order |
| Engines.CrashInsideWriteIsAllOrNothing | src/storage/engine.rs:98-104 | a crash after any number of bytes of a write's log line reopens on answers with that write or without it, for every key and all later times, on any log that ended a line and with other keys' writes in flight |
| Engines.FlushDurableIffNamedLast | src/storage/engine.rs:153-169 | a crash after a flush recovers the table whose name sorts last, the flushed one if and only if every other name sorts before it, and nothing if no snapshot is kept; clock readings in any order |
| Engines.Recover | src/storage/engine.rs:57-71 | the two loops fill the memtable with the table recovered by name |
| Engines.ReplayInto | src/storage/engine.rs:66-71 | inserting replayed entries in order is log replay |
| Engines.StorageEngine.Get | src/storage/memtable.rs:137-147 | a get returns the last write of the key while it is live and nothing otherwise |
| Engines.StorageEngine.Put | src/storage/engine.rs:98-112 | adds exactly the write's log line and the entry in memory, and asks for a flush if and only if the table is then full or one was asked for; on a log that ends a line this is one log step then one memory step of the machine |
| Engines.StorageEngine.PutRaw | src/storage/engine.rs:115-126 | as put; memory then holds the caller's bytes and time-to-live, stamped now, under the clock {node: 1} merged with the stored one |
| Engines.StorageEngine.Delete | src/storage/engine.rs:129-145 | as put, with an empty tombstone stamped now over the stored clock, and never asks for a flush |
| Engines.StorageEngine.EvictExpired | src/storage/engine.rs:195-205 | the reaper's pass is the machine's unlogged eviction |
| Engines.StorageEngine.Flush | src/storage/engine.rs:153-169 | saves, cleans up by name to at most `keep` snapshots and truncates, at any clock reading; while names are in time order the machine's capture, save, cleanup and truncate; nothing for an empty table |
| Engines.SerialOperationsInv | src/storage/engine.rs:98-169 | put, delete, flush, eviction and reopen each keep the engine's invariant |
| Engines.AcknowledgedPutLifetime | src/storage/engine.rs:115-126 | after an acknowledged put a get, from disk and from memory, answers the caller's bytes, stamp and time-to-live exactly until that runs out, in any continuation that does not write the key |
| Engines.DeletedKeyStaysAbsent | src/storage/engine.rs:129-145 | a deleted key stays absent from disk and memory until written again |
| HashRings.LabelInjective | src/ring/consistent_hash.rs:52 | labels of distinct (id, index) pairs differ, whatever characters ids contain |
| HashRings.WalkIsOneRotation | src/ring/consistent_hash.rs:99-114 | the walk that revisits the suffix has the first occurrences of one clockwise rotation |
| HashRings.FirstDistinct | src/ring/consistent_hash.rs:95-114 | the loop returns the first distinct ids of its walk, as many as the target, and one for a target of 0 |
| HashRings.HashRing.GetNodes | src/ring/consistent_hash.rs:88-117 | the preference list: distinct ring ids of one rotation from the key, min(rf, ids on the ring) of them, and one for rf 0 on a ring that is not empty |
| HashRings.PreferenceListShape | src/ring/consistent_hash.rs:86-117 | ids are distinct ring ids; for rf at least 1 there are min(rf, ids on the ring) of them, for rf 0 one unless the ring is empty; the list for rf is a prefix of that for rf + 1 |
| HashRings.PreferenceListHead | src/ring/consistent_hash.rs:72-84 | the head of the list is the node get_node returns |
| HashRings.HashRing.AddNode | src/ring/consistent_hash.rs:49-62 | every virtual-node position holds the node, all other positions are unchanged |
| HashRings.PlacedExactly | src/ring/consistent_hash.rs:49-55 | the positions that hold the node anew are exactly the hashes of "id:vnode:i" for i from 0 to the number of virtual nodes |
| HashRings.HashRing.GetAllNodes | src/ring/consistent_hash.rs:120-132 | the first occurrence of each id in ring order |
| HashRings.HashRing.IsResponsible | src/ring/consistent_hash.rs:140-142 | true exactly when the preference list has the id |
| RingMembership.RingIsImage | src/ring/consistent_hash.rs:49-69 | without cross-id collisions any run of adds and removes leaves the image of the final membership, one address per member |
| RingMembership.MembershipDecidesRing | src/ring/consistent_hash.rs:49-69 | runs with equal final membership leave equal rings |
| RingMembership.ImageIds | src/ring/consistent_hash.rs:120-132 | with at least one virtual node, the ids on the ring are exactly the members |
| RingMembership.RemoveUndoesAdd | src/ring/consistent_hash.rs:49-69 | removing a fresh node restores the ring if and only if it landed on no occupied position |
| RingMembership.RotationRemoved | src/ring/consistent_hash.rs:65-69 | removing an id drops it from every rotation and changes nothing else |
| RingMembership.RemovalDisruption | src/ring/consistent_hash.rs:65-117 | after a removal the old list without the node is a prefix of the new list |
| RingAdditions.AdditionDisruption | src/ring/consistent_hash.rs:49-117 | after any addition the new list without the node is a prefix, short by at most one, of the list of what the node did not displace, which is the whole ring if it displaced nothing |
| RingAdditions.AdditionDisruptionIff | src/ring/consistent_hash.rs:49-117 | that bound holds of the old ring's lists, for every key and replication factor, if and only if each position taken is followed by another of the same node before one of a third, or the ring was one node's and is taken whole |
| RingAdditions.PrimaryThenRest | src/ring/consistent_hash.rs:72-117 | a preference list is the primary, then the list of the ring without it |
| RingMembership.AdditionMovesPrimaryOnlyToNewNode | src/ring/consistent_hash.rs:72-84 | even with collisions a key's primary stays or becomes the new node |
| Gossip.GossipService.constructor | src/gossip/detector.rs:62-85 | starts with no peers and self placed on the ring |
| Gossip.GossipService.AddSeed | src/gossip/detector.rs:88-106 | records the peer Alive at pair (0, 0), seen now, other peers unchanged, and places it on the ring |
| Gossip.GossipService.HandleGossip | src/gossip/detector.rs:109-161 | table and ring become those of absorbing the records one by one, the clock read anew at each; the reply lists exactly the table |
| Gossip.RecordTaken | src/gossip/detector.rs:115-138 | a record about another node with a larger generation, or the same and a larger heartbeat, or of an unknown node, is taken over field by field, status 1 as Suspect, 2 as Dead, any other as Alive; any other record changes nothing |
| Gossip.RecordOnRing | src/gossip/detector.rs:141-153 | taken over as Suspect it leaves the ring alone, as Dead exactly that node leaves, as Alive exactly its virtual nodes are placed |
| Gossip.WireRoundTrip | src/gossip/detector.rs:285-300 | a record sent and received is the same peer, last seen now; statuses go as 0, 1 and 2 |
| Gossip.GossipService.CheckFailures | src/gossip/detector.rs:240-260 | in any iteration order each peer makes at most one transition and exactly the newly dead leave the ring |
| Gossip.SweepExactly | src/gossip/detector.rs:240-260 | nothing of a peer but its status changes, Alive to Suspect past the one timeout, Suspect to Dead past the other, and exactly the nodes so declared dead leave the ring |
| Gossip.GossipService.BuildGossipMessage | src/gossip/detector.rs:262-283 | the table in some order, then self with status 0, the current heartbeat, generation 1 and empty address |
| Gossip.GossipService.BuildNodeStates | src/gossip/detector.rs:285-300 | lists each peer's record once, in any order |
| GossipMembership.RingFollowsTable | src/gossip/detector.rs:72-155 | in every run over collision-free ids, self-seeding included, Alive peers are on the ring, Dead ones off it, nothing but self and non-Dead peers is on it, and self is on it if and only if its own table does not hold it as Dead |
| GossipMembership.SelfStaysOnRing | src/gossip/detector.rs:72-155 | a fresh node stays on its own ring through every run that never seeds it with its own id |
| GossipMembership.StepKeepsMembership | src/gossip/detector.rs:88-258 | seeding, any update and any sweep each keep that relation |
| GossipMembership.FreshInv | src/gossip/detector.rs:72-75 | a fresh node satisfies it |
| GossipMembership.SelfSeedLeavesRing | src/gossip/detector.rs:88-106 | an instance of leaving it: seeded with its own id and swept twice, late |
| GossipMembership.MessageIsUpdates | src/gossip/detector.rs:112-157 | handling a message is handling its records one by one, each at its own time |
| GossipMembership.RecordedPairIsMaximum | src/gossip/detector.rs:109-161 | after any run of updates, sweeps and seedings of others, at any times, the pair recorded for an id is the lexicographic maximum of the initial one and everything heard of it |
| GossipMembership.ArrivalOrderIrrelevant | src/gossip/detector.rs:109-161 | two runs that hear the same of an id, in any order, any number of times and with any sweeps between, record the same pair |
| GossipMembership.RepeatedMessageIgnored | src/gossip/detector.rs:112-157 | handling a message again, after any events that do not seed its ids, changes neither table nor ring |
| GossipMembership.DeathIsJustified | src/gossip/detector.rs:240-260 | if accepted news was Alive, Suspect and Dead imply the timeouts passed since last seen and one or two sweeps since |
| GossipMembership.DeathFromFresh | src/gossip/detector.rs:240-260 | the same for every run from a fresh node: Dead only past both timeouts and two sweeps |
| GossipMembership.SilentPeerDies | src/gossip/detector.rs:240-260 | with no newer update, a sweep past the suspect timeout and a later one past the dead timeout leave the peer Dead and off the ring, whatever else happens |
| GossipNetwork.NobodyAheadOfTheSource | src/gossip/detector.rs:192-300 | over a network that loses, duplicates, delays and reorders, no table and no message is ahead of a node's own pair |
| GossipNetwork.RecordedPairsNeverDecrease | src/gossip/detector.rs:109-161 | without another seeding the recorded pair never decreases |
| GossipNetwork.StepBounded | src/gossip/detector.rs:88-300 | every step of every node keeps the bound and never lowers a heartbeat |
| GossipNetwork.ViewAfterStep | src/gossip/detector.rs:88-260 | a network step is its node's own seeding, records or sweep and nothing at other nodes; only a gossip round moves a heartbeat, by one |
| GossipNetwork.SentAfterStep | src/gossip/detector.rs:262-283 | only a send adds a message: the report, then self with status 0, current heartbeat, generation 1 and empty address |
| GossipNetwork.EveryRingFollowsItsTable | src/gossip/detector.rs:72-161 | in every run of the network every node's ring follows its table |
| GossipNetwork.StartFollows | src/gossip/detector.rs:62-85 | as it does when the nodes start |
| Conflicts.ResolveConflicts | src/replication/coordinator.rs:290-321 | the loop, with its two dominance tests, computes the resolution fold over the live responses |
| Conflicts.ResolvedIsLiveResponse | src/replication/coordinator.rs:290-321 | nothing is returned if and only if nothing is live; otherwise a live response is returned |
| Conflicts.ResolvedIsGreatest | src/replication/coordinator.rs:301-317 | if dominance never contradicts timestamps, no live response is newer than the result or dominates it |
| Conflicts.ResolvedIsLexGreatest | src/replication/coordinator.rs:301-317 | if live clocks are pairwise comparable the result is the (clock, timestamp) maximum |
| Conflicts.ResolutionOrderIrrelevant | src/replication/coordinator.rs:290-321 | then the order of responses decides neither clock nor timestamp |
| ResolutionOrders.AlwaysGreatestIff | src/replication/coordinator.rs:290-321 | for all responses: every order gives a newest and undominated result if and only if every chain of losing live responses is beaten member by member by one winner |
| ResolutionOrders.CoveredThenGreatest | src/replication/coordinator.rs:290-321 | if chains are covered, each order's result is newest and undominated |
| ResolutionOrders.UncoveredThenBeaten | src/replication/coordinator.rs:290-321 | an uncovered chain gives an order of the same responses whose result is outdated or dominated |
| ResolutionOrders.WinnerBeatsIff | src/replication/coordinator.rs:301-317 | a winner beats exactly what is older or what it dominates, and nothing beats a winner |
| ResolutionOrders.OneWinnerDecides | src/replication/coordinator.rs:290-321 | with a single winner every order is right if and only if it is newer than or dominates each other live response |
| ResolutionOrders.AlwaysGreatestOfThoseHeardIff | src/replication/coordinator.rs:290-321 | whichever responses arrive and in whatever order the result is greatest among them, if and only if no live response dominates a newer one |
| ResolutionOrders.ConsistentIsCovered | src/replication/coordinator.rs:290-321 | where dominance agrees with timestamps all chains are covered |
| ResolutionOrders.NewestTopsAreNecessary | src/replication/coordinator.rs:301-317 | then no newest response that is undominated among the newest is dominated by an older one |
| ResolutionOrders.NewestTopsFail | src/replication/coordinator.rs:301-317 | there are responses whose newest ones meet that and which still resolve to a dominated one in some order |
| ResolutionOrders.ResolutionCycle | src/replication/coordinator.rs:303-315 | an instance that fails: three live values each beating the next, whose result depends on order, once a dominated one |
| Coordinators.WireRoundTrip | src/replication/coordinator.rs:330-350 | the wire loses exactly the tombstone flag |
| Coordinators.Put | src/replication/coordinator.rs:38-128 | only `key` changes and only at listed replicas reached; each of these, acknowledging or not, then holds the caller's bytes and time-to-live, stamped now, under the clock returned; successes are the acknowledgements, self included, successes and failures add up to the list, and an override above 0 replaces the quorum |
| Coordinators.SendPuts | src/grpc/service.rs:140-161 | the loop over peers leaves each one reached with the value as it came over the wire |
| Coordinators.Delete | src/replication/coordinator.rs:212-287 | only `key` changes and only at listed replicas reached; each of these then holds an empty five-minute tombstone, its own counter one above what it had; counting and override as for a put |
| Coordinators.SendDeletes | src/grpc/service.rs:182-195 | the loop over peers has each one reached stamp its own tombstone over its own clock |
| Coordinators.CountAnswers | src/replication/coordinator.rs:113-120 | the loop counts acknowledging peers and the rest |
| Coordinators.Get | src/replication/coordinator.rs:131-209 | the resolution of the responses; whoever answers, successes is the list length, failures 0, an override above 0 replaces the quorum, and success is reported if and only if the list is long enough |
| Coordinators.AskPeers | src/replication/coordinator.rs:192-196 | one response per peer in order, every attempt counted |
| Coordinators.ResponseOrigin | src/replication/coordinator.rs:143-196 | a response is the coordinator's own raw entry or an answering peer's entry over the wire, and all of these are responses |
| Coordinators.GetFindsIff | src/replication/coordinator.rs:131-209 | a get finds a value if and only if the listed coordinator holds a live entry or an answering peer an unexpired one |
| Coordinators.DeletedKeyFoundRemotely | src/replication/coordinator.rs:339-349 | after a delete at every replica an outside coordinator finds an empty live value exactly until the tombstones expire |
| Coordinators.UnexpiredEntryStays | src/grpc/service.rs:140-192 | through other writes, evictions and restarts of the engines an unexpired entry stays |
| Coordinators.RestartKeepsUnexpired | src/storage/engine.rs:47-85 | what an engine recovers has every unexpired entry it held in memory, of a key not in flight |
| Coordinators.QuorumsMeet | src/replication/quorum.rs:29-64 | with more acknowledgements plus answers than replicas, some replica both acknowledged and answers |
| Coordinators.QuorumIntersection | src/replication/coordinator.rs:45-208 | over any list of at most n distinct replicas, acknowledgements plus answers above n make a get see an unexpired write through any harmless events |
| Coordinators.QuorumReadSeesWrite | src/replication/coordinator.rs:45-208 | the same for the ring's preference list and the configured quorums with overrides: after a successful put, a get that R listed replicas answer has an entry with the caller's bytes among its responses and, where chains are covered, returns one at least as new and not dominated |
| Coordinators.StronglyConsistentReadSeesWrite | src/replication/quorum.rs:28-51 | the same under the configuration's own R + W > N test, without overrides |
| Coordinators.StronglyConsistentIff | src/replication/quorum.rs:28-31 | the configuration's test holds if and only if no write quorum and read quorum of the N replicas are disjoint |
| Coordinators.SilentReplicasFindNothing | src/replication/coordinator.rs:192-196 | with nobody answering a coordinator outside the list finds nothing |

## Left out

- I/O errors of appends, saves and file removal: every storage operation succeeds, so the error returns of put, delete, flush and open are not modelled.
- Snapshot encoding: bincode and the file checksum are one save step; a corrupt snapshot, which makes open fail, is not modelled.
- Engines.StorageEngine.Put: on a log cut inside a line only the file and the memtable are stated, because what the joined line parses to is the line format's; `WriteAheadLogs.AppendAfterTear` says what is lost when it does not parse.
- Engines.StorageEngine.Flush: a run of the machine, whose newest snapshot is by time, only while names are in time order; otherwise the saves kept are stated by name.
- CRC-32 strength: the checksum is a parameter; what corruption it detects is not claimed (it does not cover clock, ttl or the tombstone flag).
- Snapshot names with other than digits between prefix and suffix, or with leading zeros: only files the engine itself could have named count as saves.
- Durability.EngineRefinesHistory: for the discipline the engine relies on and does not enforce; the lemmas named above show what happens outside it.
- White space outside ASCII on a log line: it counts as text, so such a line is kept or dropped by whether it parses.
- Clock skew: the replicas of a quorum read and write share one clock.
- MemTable.delete's gap between reading the clock and writing, and lock granularity inside one table operation: each is one step.
- Machine overflow of u64 counters, u32 quorum sums and i64 timestamp + ttl: integers are unbounded.
- Node restarts in gossip: heartbeat and generation start over from fixed values, so whole-run claims are for runs without restarts.
- Target choice, timeouts, connections and background tasks: any interleaving of their effects is allowed instead.
- The gossip reply: its sender ignores it, so it is built but never delivered.
- Hinted handoff, key transfer, the public RPC service, the command-line client and configuration: thin wrappers over what is modelled.
- Key distribution and performance: the hash is an arbitrary function.
