# A verified model of LumenVec

LumenVec is a single-node vector database: vectors are stored under string ids, searched
exactly or through a neighbour graph, and kept either by a snapshot and a write-ahead log or
in an append-only data file. This project models its stateful core and proves what each part
promises over every input, every run and every crash point. Operations that the repository
writes as loops and updates in place are methods and classes proved against specification
functions and predicates; the results about whole runs are lemmas over those.

| file | what it holds |
|---|---|
| Ordering, BinaryHeap | "the k smallest of a multiset", sorting, and the one binary heap under search, top-k and paging |
| Distance, ExactSearch | distance kernels, top-k accumulator, single, blocked and chunk-parallel exact search |
| SearchWorkspace, AnnSearch, AnnGraph, AnnIndex | visited epochs, best-first search, linking and pruning, the index object |
| RecordCodec, VectorLog, FileVectorStore | record format, rebuild by scanning, the append-only store with compaction and its hot cache |
| Recency, VectorCache | recency lists; the LRU, TTL and byte-bounded cache |
| VectorStore, OrderedIds, Paging | the in-memory store, its id index, page selection and whole cursor walks |
| Wal, Recovery, RecoveryFailures | what replaying means, the persistence backend, crashes between any two durable steps, and the runs in which the code loses or mixes data |
| IdResolver, ExactIndex, ServiceState, Service, Answers | the four structures behind one service, its write path, restart and search |
| ServiceCalls, ServiceDurability | what one call can log, and the service's calls as runs of the durability protocol |
| DiskService | a service over the file store, restarted from what is left of its file |
| RateLimiter | the token bucket |

## What the proofs say about the code

- Deletes count for half of what they waste. A delete appends a tombstone and strands the record
  it deletes, but the stale counter grows by one, so of two dead records one is never counted.
  Compaction is due exactly when something is stale and overwritten puts are at least as many as
  live records (`CompactionDueIff`), so a delete helps only by lowering the number of live records.
  Without deletes the file stays below twice its live records (`SmallFile`); with deletes a store
  whose overwritten puts are fewer than its live records can put and delete one id for ever, and
  its file grows without a compaction (`Churn`).
- A restart saves the snapshot without first syncing the log that it has just replayed
  (internal/core/service.go:829-837; the ordinary snapshot path asks for a sync, at line 929, which
  does nothing when the process itself has nothing pending). After a process was killed, the
  snapshot can therefore include operations that the log holds but has not synced. If power is lost
  then, a shorter log is replayed over a snapshot that is ahead of it. That can compute a map that
  never existed, exactly when the snapshot includes at least three operations of the log and at
  least two of them are not synced (`HarmlessRestore`, `HarmfulRestore`). The logs that show it are
  ones that calls write: no id is upserted twice without a delete between (`AcceptedIsCall`,
  `CallIsAccepted`).
- Such a state is reached without any failing step when snapshots are taken less often than after
  every call (snapshotEvery above 1, as by default), and with one failing save otherwise
  (`HarmfulRestoreIsReachable`). With a snapshot after every call and no failing step nothing
  acknowledged is lost, through any kills and power losses (`SnapshotEveryCallLosesNothing`).
- A restart that fails is ignored (line 241), and the service runs on over the old log with nothing
  counted as pending. After a kill this widens what a power loss may take beyond syncEvery by what
  the killed process had not synced (`InheritedGrows`, `FailedRestartLosesMore`).
- A restart that cannot read its snapshot is ignored as well: the service then serves an empty
  store over a full disk (`FailedLoadIsInconsistent`). A restart whose replay stops at a torn,
  over-long or unreadable line of the log serves the snapshot and the operations before that line,
  and skips the rebuild of the graph, which goes on answering from the snapshot (`RestoreState`,
  `ReloadedAgrees`, `Search`); it is consistent if and only if the rest of the log changes nothing
  (`StoppedReplayIsInconsistent`). Either way the next snapshot replaces everything that was stored
  by what the restart kept and what was written since (`FailedLoadForgets`).
- A restart that recovers vectors of more than one dimension builds a graph of one of them and
  saves a snapshot that no later restart can load to its end (`RestoreState`, `LoadSnapshot`).
- A batch that is refused because of the dimension of vectors that have all been deleted is
  accepted when it comes a second time, because taking it back rebuilds the graph (`RefusedOnce`).
- A service over the file store opens what is left of its file exactly when the cut is at a record
  boundary, and panics otherwise. It then serves the records before the cut, which are all but at
  most those not yet synced (`Restart`); its structures agree if and only if those vectors pass the
  service's checks and have one dimension (`RestoredAgrees`).
- When processes end only by power loss and no load fails, every crash point of every run recovers
  a prefix that is short by fewer than syncEvery acknowledged operations, whichever syncs, saves
  and truncations fail on the way, at restarts too (`AnyCrashRecoversPrefix`).
- AddVectors and DeleteVector report a failed snapshot as an error although the change has been
  applied and logged. They do so exactly when a snapshot is due and its sync (if anything is
  pending), save or truncation fails (`AddVectors`, `DeleteVector`, with `AppliedYetReported` as an
  instance); every other error leaves the visible map as it was.
- The rate limiter's bound is sharp: a key never gets more than burst + elapsed * limit/window
  requests in a stretch (`AllowedIsBounded`), and is refused only where one more would exceed that
  (`RefusedOnlyAtTheBound`).
- Record lengths are uint32 while payloads may be longer: a scan steps over what was written
  exactly when the payload is below 2^32 bytes (`HeaderHoldsLength`).
- The design notes say that the payload store is written before the exact index
  (docs/architecture.md:116-117) and that graph results are scored again from the payload store
  (docs/architecture.md:50, docs/design.md:41, 54). The code writes the index first and returns
  the graph's own distances; the model follows the code. The distances are the true ones all the
  same, because the structures agree after every call; after a restart that stopped half-way they
  are true of the map that the graph mirrors (`Search`).

## Modelling choices

Each public call is one atomic step; the service serialises its mutations with a mutex. An I/O
step either succeeds or fails without effect; which steps of a call fail is a parameter
(`Faults`), and in runs of the durability protocol each failure is an event of its own.
Vector components are reals, and rounding to stored precision is an arbitrary idempotent
function; in the file format values are bit patterns with arbitrary conversions for which
narrow(widen(x)) == x. The square root is an arbitrary monotone function. The order in which Go
ranges over a map is a parameter or a nondeterministic choice, and so is the coin that moves the
graph's entrypoint. The B-tree of ids is a sorted list. The log is a sequence of operations of
which a prefix is synced, and the snapshot is replaced atomically.

## Model

| member | source | states |
|---|---|---|
| Ordering.SmallestIsLowerBound | internal/core/service.go:719-744 | position by position, a sorted list of the k smallest bounds any other sorted selection from below |
| Ordering.SmallestIsUnique | internal/core/list_vectors.go:74-99 | under an antisymmetric order there is only one sorted list of the k smallest |
| BinaryHeap.SiftUp | internal/core/service.go:756-765 | one wrong edge above j is repaired for every order, without losing an element |
| BinaryHeap.SiftDown | internal/core/service.go:767-784 | one wrong place below i is repaired for every order, without losing an element |
| BinaryHeap.Pop | internal/index/ann/ann_index.go:512-520 | the root comes out, is least, and the rest is a heap |
| BinaryHeap.Offer | internal/core/service.go:719-731 | a bounded heap keeps the k smallest of everything offered, and says whether it kept the last one |
| Distance.SquaredEuclideanDistance32SameLen | internal/vector/distance.go:58-73 | the loop unrolled by four and its tail compute the mathematical sum of squares |
| Distance.SquaredEuclideanDistance32 | internal/vector/distance.go:49-54 | vectors of different dimensions have no distance |
| Distance.SquaredEuclideanDistance32x4SameLen | internal/vector/distance.go:77-116 | the four-query kernel gives each query its own distance |
| Distance.DistanceOfOne | internal/vector/distance.go:58-73 | the distance of two numbers is the product of their difference with itself |
| Distance.DistanceAdds | internal/vector/distance.go:58-73 | distances add over concatenation, so a distance is the sum of those products over the components of the shorter query |
| Distance.DistanceIsSymmetric | internal/vector/distance.go:58-73 | either order of two vectors of one dimension gives the same distance |
| Distance.DistanceSeparates | internal/vector/distance.go:58-73 | it is never negative, and zero exactly between equal vectors |
| Distance.DistanceScales | internal/vector/distance.go:58-73 | scaling both vectors by c multiplies it by c * c |
| ExactSearch.Add | internal/core/service.go:719-731 | after any offers the accumulator is a max-heap of the k closest of them |
| ExactSearch.Results | internal/core/service.go:733-744 | what comes out is those k in ascending order, with roots taken |
| ExactSearch.SearchExact | internal/core/service.go:563-576 | the k closest stored vectors, in whatever order the map is ranged over; a query shorter than the stored vectors is compared with their prefixes |
| ExactSearch.ExactDistancesAreUnique | internal/core/service.go:563-576 | so the distance list does not depend on that order |
| ExactSearch.OfferToBatch | internal/core/service.go:459-489 | one stored vector reaches every query of a batch once, through blocks of four, mixed blocks and the tail |
| ExactSearch.ScanExactParallel | internal/core/service.go:430-451 | the chunks, rounded up to whole blocks, cover every query exactly once |
| ExactSearch.SearchBatchExact | internal/core/service.go:375-428 | every query of a batch gets an exact answer |
| ExactSearch.BatchAgreesWithSingle | internal/core/service.go:492-501 | and the distance list it would get on its own |
| SearchWorkspaces.SearchWorkspace.Reset | internal/index/ann/ann_index.go:323-349 | every search starts with nothing visited, after any reuse, growth or wrap-around of the epoch |
| SearchWorkspaces.SearchWorkspace.IsVisited | internal/index/ann/ann_index.go:363-365 | the stamp test is membership in the visited set |
| SearchWorkspaces.SearchWorkspace.MarkVisited | internal/index/ann/ann_index.go:367-369 | exactly one more slot is visited |
| AnnSearch.Consider | internal/index/ann/ann_index.go:279-292 | the result heap stays the ef closest seen, and a kept node is queued or already expanded |
| AnnSearch.BreakIsSafe | internal/index/ann/ann_index.go:266-272 | when the search breaks off, every kept node has been expanded |
| AnnSearch.SeenFitsGraph | internal/index/ann/ann_index.go:254-298 | no node is seen twice, which is why the loop ends |
| AnnSearch.Search | internal/index/ann/ann_index.go:254-298 | the min(ef, visited) closest visited nodes in ascending order, all reachable; a neighbour of an answer is an answer, or ef answers at least as close were found |
| AnnSearch.FinishedIsClosed | internal/index/ann/ann_index.go:254-298 | the closure half of that statement |
| AnnSearch.AnswerIsDistinct | internal/index/ann/ann_index.go:254-312 | answers are distinct, reachable, scored truly, and never none |
| AnnSearch.WideSearchFindsAll | internal/index/ann/ann_index.go:254-312 | with ef at least the number of reachable nodes, the answer is exactly the reachable set |
| AnnSearch.DrainCandidates | internal/index/ann/ann_index.go:300-312 | emptying the max-heap from the back gives the same nodes in ascending order |
| AnnGraph.SelectNearest | internal/index/ann/ann_index.go:472-483 | the k closest come first, in order, and nothing is lost |
| AnnGraph.SelectedIsSmallest | internal/index/ann/ann_index.go:418-433 | a selected head is the k smallest, sorted |
| AnnGraph.Prune | internal/index/ann/ann_index.go:385-399 | a full node keeps m distinct neighbours nearest to itself; any other keeps all of them |
| AnnGraph.LinkingKeepsGraph | internal/index/ann/ann_index.go:129-139 | linking a new node both ways keeps slots in range, no self-links, no repeats, degree from one to m, and slot numbers |
| AnnGraph.NewNodeIsNotReached | internal/index/ann/ann_index.go:113-129 | the search that links a node cannot find that node |
| AnnGraph.ConnectLast | internal/index/ann/ann_index.go:129-139 | a new node is linked, both ways, to at most m closest answers of a search of width efConstruction, and only links change |
| AnnIndexes.LiveCandidates | internal/index/ann/ann_index.go:371-383 | exactly the candidates without a tombstone, in order |
| AnnIndexes.PicksAreTrue | internal/index/ann/ann_index.go:452-470 | results are sorted, distinct, live, under their external ids and with true distances |
| AnnIndexes.AnnIndex.constructor | internal/index/ann/ann_index.go:61-85 | an empty graph with the given m, efConstruction and efSearch, or 16, 64 and 64 for those that are not positive |
| AnnIndexes.AnnIndex.AddVector | internal/index/ann/ann_index.go:87-145 | every graph and index invariant is kept; a wrong dimension changes nothing; a known id gets another vector under the links that it has; a new one is linked, both ways, to the m closest nodes that a search of width efConstruction finds from the entrypoint, no other link changes, and the entrypoint stays or moves to it |
| AnnIndexes.AnnIndex.DeleteVector | internal/index/ann/ann_index.go:187-197 | the live map loses the id; nodes, links and entrypoint stay, and the counters consistent |
| AnnIndexes.AnnIndex.SearchWithDistances | internal/index/ann/ann_index.go:169-185 | at most k live nodes with true distances, the closest live ones among those the graph search found |
| RecordCodec.Uint32RoundTrip | internal/core/file_vector_store.go:612-640 | a uint32 field reads back modulo 2^32 |
| RecordCodec.DecodeEncode | internal/core/file_vector_store.go:612-651 | a payload decodes to its op, id and narrowed values, for the current op, the legacy float64 op and the delete op |
| RecordCodec.EncodeFileVectorRecord | internal/core/file_vector_store.go:612-640 | filling the buffer by position writes the record format, and an unknown op is refused |
| RecordCodec.RecordByPosition | internal/core/file_vector_store.go:612-651 | the bytes of a record by position: length, op 1, 2 or 3, id length, id, value count and values, all numbers little-endian |
| VectorLog.RebuildIndex | internal/core/file_vector_store.go:658-709 | the scanning loop computes the rebuild specification |
| VectorLog.RebuildOfLog | internal/core/file_vector_store.go:658-709 | a file of well-formed records rebuilds to the index and counters of those records |
| VectorLog.TruncationIsDetected | internal/core/file_vector_store.go:658-709 | a cut file rebuilds if and only if the cut is at a record boundary, and then to exactly the records before it |
| VectorLog.HeaderHoldsLength | internal/core/file_vector_store.go:612-640 | a scan steps over a written record if and only if its payload is below 2^32 bytes |
| VectorLog.EncodedIsFramed | internal/core/file_vector_store.go:612-640 | within that limit what the store writes is a well-formed record with the values narrowed |
| VectorLog.IndexReadsContents | internal/core/file_vector_store.go:711-733 | exactly the live ids are indexed, and each entry reads back the last value put |
| VectorLog.LastRecordDecides | internal/core/file_vector_store.go:685-703 | an id is live exactly when it has records and the last of them is no delete, and then has the values of that record |
| VectorLog.RecordsAreAccountedFor | internal/core/file_vector_store.go:685-703 | records = live + overwritten + twice the tombstones, and stale counts overwritten plus tombstones |
| FileVectorStores.InStepMeansRebuilt | internal/core/file_vector_store.go:658-709 | in every state the store keeps, a rescan of the bytes gives the same offsets, ids and counters, and every id reads back its value |
| FileVectorStores.CollectLive | internal/core/file_vector_store.go:394-401 | a compaction collects every live vector once |
| FileVectorStores.WriteLive | internal/core/file_vector_store.go:409-430 | and writes them as one put each, indexed where they were written |
| FileVectorStores.RewriteFile | internal/core/file_vector_store.go:386-467 | a compaction changes no visible value and leaves nothing stale |
| FileVectorStores.CompactionDueIff | internal/core/file_vector_store.go:376-384 | compaction is due if and only if something is stale and overwritten puts are at least as many as live records |
| FileVectorStores.SmallWithoutDeletes | internal/core/file_vector_store.go:376-384 | a settled log without tombstones has fewer than twice its live records |
| FileVectorStores.FileVectorStore.SmallFile | internal/core/file_vector_store.go:85-146 | so has every store between calls that never deleted, since upserts, closes and reopens add no tombstone |
| FileVectorStores.ChurnIsNeverDue | internal/core/file_vector_store.go:376-384 | putting and deleting an id leaves compaction not due at either step when overwritten puts are fewer than live records |
| FileVectorStores.Churn | internal/core/file_vector_store.go:229-260 | n such pairs of calls on a store change no stored vector, compact nothing, and leave a file that grows with n |
| FileVectorStores.FileVectorStore.constructor | internal/core/file_vector_store.go:59-79 | a store holds the contents of the log it is opened on, with nothing unsynced, and syncs whenever syncEvery records are pending, or every record when that is not positive |
| FileVectorStores.FileVectorStore.UpsertVectors | internal/core/file_vector_store.go:85-146 | the map gains the batch with values narrowed; index, counters, cache and bytes stay in step; fewer records than the store was opened with as syncEvery are unsynced; the file gains exactly one put for each vector, or is compacted when that is due, and is settled again |
| FileVectorStores.LastPutWins | internal/core/file_vector_store.go:124-141 | of equal ids in a batch the last one counts, each component narrowed, and other ids keep their values |
| FileVectorStores.FileVectorStore.DeleteVector | internal/core/file_vector_store.go:229-260 | the map loses a stored id and the file gains one tombstone or is compacted; an unknown id changes nothing |
| FileVectorStores.FileVectorStore.GetVector32 | internal/core/file_vector_store.go:198-227 | a read gives the map's value, from the hot cache or from the bytes; either way the id is then the most recent of at most 1024 |
| FileVectorStores.FileVectorStore.Close | internal/core/file_vector_store.go:325-339 | everything is synced and nothing visible changes |
| FileVectorStores.FileVectorStore.EnsureOpen | internal/core/file_vector_store.go:347-374 | reopening rebuilds the index, ids and counters that were there before, and leaves the settled file as it is |
| FileVectorStores.FileVectorStore.MaybeCompact | internal/core/file_vector_store.go:376-384 | a settled file is left alone; any other is compacted to one record for each live id; afterwards it is settled |
| FileVectorStores.FileVectorStore.SyncPending | internal/core/file_vector_store.go:469-481 | pending records are synced when asked or when there are syncEvery of them |
| FileVectorStores.FileVectorStore.ListVectors | internal/core/file_vector_store.go:262-282 | every live vector once, in any order, and nothing once the store is closed |
| FileVectorStores.OpenCut | internal/core/file_vector_store.go:63-79 | a file cut short anywhere opens if and only if the cut is at a record boundary, and then holds the records before it |
| DiskServices.DiskService.LoadVectorStoreState | internal/core/service.go:978-993 | the index gets every vector of the file that passes the checks, resolver and graph those of the first one's dimension |
| DiskServices.Restart | internal/core/service.go:185-243 | after a crash that kept at least what was synced, a service starts if and only if the cut is at a record boundary, and then holds the first k records in file, index and graph; fewer records than the earlier store's syncEvery are missing, so none when it synced every record |
| DiskServices.DiskService.RestoredAgrees | internal/core/service.go:978-993 | file, index, resolver and graph then agree if and only if every surviving vector passes the checks and all have one dimension |
| DiskServices.ReadsEach | internal/core/service.go:978-993 | the vectors that a service sees are those of the file, id by id and component by component |
| Recency.ToFrontKeepsOrder | internal/core/cached_vector_store.go:234-251 | moving an element to the front puts it there and leaves the others in their order |
| VectorCache.Evict | internal/core/cached_vector_store.go:361-366 | eviction ends, and leaves exactly the longest most-recent prefix within both limits |
| VectorCache.NotEmpty | internal/core/cached_vector_store.go:361-366 | an over-full cache has an entry to evict, because sizes and counts are right |
| VectorCache.PutEntry | internal/core/cached_vector_store.go:295-319 | map, list and byte count still match, within both limits, and only entries that had to go are gone |
| VectorCache.CachedVectorStore.GetCached | internal/core/cached_vector_store.go:234-251 | a hit, for every entry that has not expired, moves it to the front and changes nothing else; an expired entry is dropped |
| VectorCache.CachedVectorStore.constructor | internal/core/cached_vector_store.go:54-75 | an empty cache with the given limits and ttl, or 8 MiB and 1024 entries for limits that are not positive |
| VectorCache.CachedVectorStore.LivesForTtl | internal/core/cached_vector_store.go:337-346 | an entry answers for ttl after it was put, and for ever when ttl is not positive |
| VectorCache.CachedVectorStore.GetVector | internal/core/cached_vector_store.go:104-117 | a read gives what an uncached read would, hit, miss, expired or evicted; a hit moves to the front, and what a miss fetches is put in front of the longest run of earlier entries that fits |
| VectorCache.CachedVectorStore.UpsertVectors | internal/core/cached_vector_store.go:81-102 | the backend gains the batch, and so does the cache, one put after the other; every entry still equals its narrowed stored value |
| VectorCache.CachedVectorStore.DeleteVector | internal/core/cached_vector_store.go:180-188 | no entry survives for an id that is gone; all others stay as they were |
| VectorStores.MemoryVectorStore.UpsertVectors | internal/core/vector_store.go:67-76 | the map gains the narrowed batch, and the id index lists exactly its keys |
| VectorStores.LastOfBatchWins | internal/core/vector_store.go:67-76 | of equal ids in a batch the last one counts, each component narrowed, and other ids keep their vectors |
| VectorStores.MemoryVectorStore.DeleteVector | internal/core/vector_store.go:108-118 | map and id index lose the id together |
| OrderedIds.OrderedIDIndex.PageAfter | internal/core/ordered_id_index.go:40-62 | the first `limit` ids after the cursor, sorted |
| OrderedIds.SelectPageIDsFromRange | internal/core/list_vectors.go:74-99 | the same page from a bounded heap over ids in any order |
| OrderedIds.PageIsUnique | internal/core/list_vectors.go:63-72 | there is only one such page, so both selections agree |
| OrderedIds.LexIsDictionaryOrder | internal/core/list_vectors.go:74-99 | an id is smaller exactly when it is a proper prefix or has the smaller character at the first difference |
| OrderedIds.PageIsInDictionaryOrder | internal/core/list_vectors.go:63-72 | a page has at most `limit` stored ids in that order, all of them after the cursor |
| OrderedIds.PageLeavesOutLater | internal/core/list_vectors.go:63-72 | and a stored id after the cursor is left out only when the page is full and the id comes after all of it |
| Paging.ListVectorsPage | internal/core/list_vectors.go:29-61 | a page with its payloads, and a next cursor exactly when ids are left |
| Paging.WalkIsIncreasing | internal/core/list_vectors.go:29-61 | following cursors lists strictly increasing ids, whatever is inserted or deleted between requests |
| Paging.WalkMissesNothing | internal/core/list_vectors.go:29-61 | an id that is present throughout a walk has been listed or lies ahead of the next cursor, so a walk that ends lists it |
| Paging.WalkOfFixedStore | internal/core/list_vectors.go:29-61 | on a fixed store a walk has at most n + 1 requests and lists every id exactly once |
| IdResolvers.IdResolver.Assign | internal/core/id_resolver.go:19-31 | a known id keeps its number, a new one gets a number never used before, and the two maps stay inverse |
| IdResolvers.IdResolver.Remove | internal/core/id_resolver.go:41-51 | both directions are removed, and the counter never goes back |
| Wal.LastWriterDecides | internal/core/service.go:874-909 | after a log each id depends on its last writer alone, or on the start |
| Wal.LastOperationDecides | internal/core/service.go:874-909 | that writer decides: a delete takes the id out, an upsert of 1 to maxVectorDim components puts it in, narrowed, and all other operations are skipped |
| Wal.ReplayTwice | internal/core/service.go:874-909 | replaying a whole log over a map that already includes it is a no-op |
| Wal.SaveThenLoad | internal/core/service.go:942-964 | loading a saved snapshot gives the map back |
| Wal.SnapshotWALBackend.SaveSnapshot | internal/core/persistence.go:52-70 | the snapshot is the listed map |
| Wal.SnapshotWALBackend.AppendWALBatch | internal/core/persistence.go:92-130 | the log grows by the batch, and is synced once syncEvery operations are pending |
| Wal.SnapshotWALBackend.Sync | internal/core/persistence.go:173-193 | afterwards nothing is pending |
| Recovery.RecoverIsState | internal/core/service.go:817-840 | restoring from the disk of any reachable state, with a snapshot that includes any part of the log, gives the map after the whole remaining history |
| Recovery.StepKeepsInv | internal/core/service.go:817-940 | every durable step, every failed sync, save and truncation, and every crash from a safe state keep the protocol's invariant |
| Recovery.RunKeepsInv | internal/core/service.go:817-940 | so does every run |
| Recovery.PowerLossLosesLittle | internal/core/persistence.go:92-130 | a power loss in a safe state leaves a prefix with everything synced, short by fewer than syncEvery acknowledged operations beyond what the process inherited unsynced, and restore computes its map |
| Recovery.PowerLossAloneIsSafe | internal/core/service.go:919-940 | when processes end only by power loss, every state of every run is safe and nothing unsynced is inherited, whichever steps fail |
| Recovery.AnyCrashRecoversPrefix | internal/core/service.go:817-940 | from a fresh start, through any number of power losses between any two steps and of failed syncs, saves and truncations, at restarts too, one more power loss leaves a prefix with everything synced, short by fewer than syncEvery acknowledged operations |
| Recovery.HarmlessRestore | internal/core/service.go:829-837 | a power loss recovers a prefix with everything synced and the same bound on acknowledged operations whenever at most one operation in the snapshot is unsynced, or it includes at most two of the log |
| RecoveryFailures.HarmfulRestore | internal/core/service.go:829-837 | in every other shape some history of calls, with a delete between any two upserts of an id, makes it compute a map that no prefix gives |
| RecoveryFailures.HarmfulRestoreIsReachable | internal/core/service.go:829-837 | a run of such calls reaches such a state with no failing step when snapshotEvery is above 1, and with one failing save otherwise |
| RecoveryFailures.SnapshotEveryCallLosesNothing | internal/core/service.go:919-940 | with a snapshot after every call and no failing step, any run of kills and power losses keeps everything acknowledged, and recovers the map after a prefix of the history |
| RecoveryFailures.InheritedGrows | internal/core/service.go:241 | a kill and a failed restart add what was pending, fewer than syncEvery operations, to what the next process inherits unsynced |
| RecoveryFailures.FailedRestartLosesMore | internal/core/service.go:241 | after one of each, and two calls that insert different ids, a power loss can take twice syncEvery - 1 acknowledged operations |
| RecoveryFailures.FailedLoadIsInconsistent | internal/core/service.go:826-828 | a failed load keeps the invariant if and only if nothing was stored |
| RecoveryFailures.StoppedReplayIsInconsistent | internal/core/persistence.go:142-159 | a replay that stops after k operations keeps it if and only if the rest of the log changes nothing |
| RecoveryFailures.FailedLoadForgets | internal/core/service.go:826-831 | after either, a due snapshot leaves only what the restart kept and what was written since |
| ServiceCalls.AcceptedIsCall | internal/core/service.go:258-298 | what AddVectors accepts logs new, distinct, well-formed ids of one dimension |
| ServiceCalls.CallIsAccepted | internal/core/service.go:258-298 | and every such insertion is accepted by a service of that dimension, so the logs of the protocol are those of calls |
| ServiceCalls.ReplayPartOfCall | internal/core/service.go:874-909 | replaying any part of one call over the map that has all of it is a no-op |
| ServiceState.UpsertedIsApplied | internal/core/service.go:280-298 | the batch in the store is the batch in the log |
| ServiceState.RemovedAgain | internal/core/service.go:794-800 | taking the ids of a new batch out again restores the map |
| ServiceState.PrefixHasOneDimension | internal/core/service.go:285-293 | every prefix of an accepted batch leaves vectors of one dimension |
| ServiceState.SaveRestores | internal/core/service.go:919-940 | replacing the snapshot never changes what a restart computes, before or after the log is emptied |
| ServiceState.RefusalStays | internal/core/service.go:259-278 | the first refused vector of a batch decides its error |
| ServiceState.BlankHasNoText | internal/core/service.go:260 | an id is blank exactly when it consists of white-space characters only |
| ServiceState.AcceptedIffFine | internal/core/service.go:249-298 | without I/O faults a batch is accepted if and only if it is not empty, its ids have text and are new and distinct, and its vectors have 1 to maxVectorDim components and the one dimension; which error each fault and a wrong dimension give |
| ServiceState.FirstBadDecides | internal/core/service.go:259-278 | the error for the first vector that is blank, empty, too long or taken |
| ServiceState.DeletedIffStored | internal/core/service.go:321-354 | a delete is accepted exactly for a stored id with text, and the error for any other |
| ServiceState.SearchedIffInRange | internal/core/service.go:547-561 | a search is accepted exactly for 1 to maxK neighbours and 1 to maxVectorDim components, and the error for any other |
| ServiceState.RefusedOnce | internal/core/service.go:285-293 | a batch refused for its dimension is accepted at the second attempt if and only if nothing is stored and its own dimensions are equal |
| ServiceState.MirrorsOne | internal/core/service.go:966-976 | through one resolver a graph mirrors one map only, so structures agree exactly if that map is the visible one |
| Services.Service.IndexAll | internal/core/service.go:258-278 | the batch is refused for its first malformed vector or taken id, with that error (`FirstBadDecides`), and otherwise accepted; what was added can be taken out again |
| Services.BuildAnn | internal/core/service.go:966-976 | a rebuilt graph mirrors, through the resolver, those vectors of the index that have the dimension of the first one listed, hence all of them when there is one dimension |
| Services.Service.Rollback | internal/core/service.go:794-800 | all four structures agree on the map from before the batch, and an empty graph has no dimension |
| Services.Service.AddVectors | internal/core/service.go:249-304 | all four structures agree afterwards; a refused batch, duplicates and mixed dimensions included, leaves map and disk as they were and gives the error of the first check that fails; an accepted one is in the map and the log, and an error then means exactly that a due snapshot failed; the graph's dimension afterwards, forgotten when a batch is taken back out of an empty store, and a graph without tombstones after any refusal; a restart would find exactly the visible map |
| Services.Service.DeleteVector | internal/core/service.go:321-354 | the same for a delete, with few tombstones left in the graph; the id loses its internal number and every other id keeps its own |
| Services.AddFine | internal/core/service.go:249-304 | on any service, every batch of well-formed new ids of its dimension, ids with spaces in them included, is stored component by component beside what was there; any other batch changes nothing |
| Services.DeleteStoredId | internal/core/service.go:321-354 | on any service, every stored id with text can be deleted and takes nothing else along; any other is refused |
| Services.Service.constructor | internal/core/service.go:185-239 | an empty service with the given options, limits and sync interval |
| Services.AppliedYetReported | internal/core/service.go:299-304 | a new service with a failing snapshot reports an error for a vector that it has stored and that a restart would find |
| Services.Service.MaybeCompactANNAfterDelete | internal/core/service.go:1091-1100 | fewer than 1024 tombstones, or fewer than a quarter of the nodes, by a rebuild only if that was not so before |
| Services.Service.MaybeSnapshot | internal/core/service.go:919-940 | reports an error exactly when a due snapshot fails; says how far disk and counters got; and never changes what a restart would find |
| Services.Service.ReplayOne | internal/core/service.go:876-903 | index and store both take the logged operation, whatever they held |
| Services.Service.LoadSnapshot | internal/core/service.go:942-964 | a snapshot is loaded to its end if and only if its usable vectors have one dimension; otherwise part of it is in index and store, and all of that but one vector in the graph |
| Services.Service.ReplayWAL | internal/core/service.go:874-909 | index and store take the operations before the line that stops it, if any, over a graph left as it was; a whole replay rebuilds the graph |
| Services.Service.RestoreState | internal/core/service.go:817-840 | what a new service holds in each structure when the files cannot be read, the snapshot stops half-way, the replay stops half-way, or both are read; that the disk is touched only in the last case; the disk and counters after each failure; and that, once saved, a later restart finds the visible map if and only if it has one dimension |
| Services.Service.ReloadedAgrees | internal/core/service.go:817-840 | after a stopped replay the structures agree if and only if the operations read change nothing, after a whole one if and only if the recovered vectors have one dimension |
| Services.Service.Search | internal/core/service.go:356-373 | at most k distinct ids with true distances, sorted, none only if nothing is stored: the closest live nodes that the graph search found, stored in the map that the graph mirrors, or the exact answer when the graph is not used, gives none or has another dimension; invalid requests refused in order |
| Answers.NamedIsStored | internal/core/service.go:588-619 | graph results name, through the resolver, the stored vectors they stand for |
| Answers.ExactIsNeverWorse | internal/core/service.go:588-619 | the i-th distance of any stored answer is never below the i-th exact distance |
| Answers.ExactIsStored | internal/core/service.go:563-576 | the exact fallback is such an answer, and is empty only over an empty store |
| ServiceDurability.CommitIsARun | internal/core/service.go:854-940 | what a call that reaches the log does to disk and counters, whichever step fails, is a run of the durability protocol; it acknowledges the whole batch exactly when no error is reported |
| ServiceDurability.RestoreIsARun | internal/core/service.go:817-840 | and so is a restart that reads its files, whichever later step fails |
| ServiceDurability.FailedLoadIsAStep | internal/core/service.go:826-828 | a restart that cannot read them is the protocol's failed load |
| ServiceDurability.StoppedReplayIsAStep | internal/core/persistence.go:142-159 | and one whose replay stops is its stopped replay |
| ServiceDurability.AcceptedBatchStaysUniform | internal/core/service.go:285-293 | wherever a crash cuts the history after an accepted batch, a restart finds one dimension |
| ServiceDurability.DeleteStaysUniform | internal/core/service.go:321-354 | and so it does after a delete |
| RateLimiters.RateLimiter.Allow | internal/api/middleware.go:59-91 | one call takes the specified decision and touches no other key |
| RateLimiters.TokensStayInRange | internal/api/middleware.go:59-91 | tokens stay between 0 and the burst even if the clock goes backwards |
| RateLimiters.AllowedIsBounded | internal/api/middleware.go:59-91 | in any stretch of calls a key gets at most burst + elapsed * limit/window requests |
| RateLimiters.SpacedIsNeverRefused | internal/api/middleware.go:59-91 | in any stretch of calls, a client spaced at least window/limit apart, and from its last call before, is never refused |
| RateLimiters.RefusedOnlyWhenSpent | internal/api/middleware.go:59-91 | in any stretch of calls, whatever the clock says, a key is refused only after it has spent all it started with |
| RateLimiters.BurstPasses | internal/api/middleware.go:59-91 | so a key that is new, or has rested for a whole window, gets its burst at once |
| RateLimiters.RefusedOnlyAtTheBound | internal/api/middleware.go:59-91 | a call is refused only if letting it pass would bring some stretch, from a call that found the bucket full, above burst + elapsed * limit/window |

## Left out

- FileVectorStores.FileVectorStore.UpsertVectors: requires that each record fits its uint32 length field; what a longer record does to a later scan is `HeaderHoldsLength`.
- FileVectorStores.FileVectorStore.constructor: opens files of well-formed records only; a damaged file is covered by `TruncationIsDetected`, and other damage is not.
- ExactSearch.SearchExact: requires that no stored vector is shorter than the query; the code does not check this and would index past the end of it.
- Services.Service.Search: requires that no stored vector is shorter than the query, as `SearchExact` does.
- Services.Service.RestoreState: which entries a snapshot of several dimensions loses depends on the order of the map; the durability protocol has no such load, since in runs that keep its invariant the history has one dimension at every point (`AcceptedBatchStaysUniform`).
- Services.Service.AddVectors: requires structures that agree, so writes after a restart that left the graph behind the index are not modelled; and a log append that fails does so without effect, where in the code a failed fsync leaves the batch in the log although it is rolled back in memory.
- SearchWorkspaces.SearchWorkspace.Reset: covers workspaces of the same index only, as the pool does; buffer capacities and reuse of the heaps' memory are not modelled.
- Paging.FetchPage: the store does not change between selecting a page and reading its payloads.
- The write path of a service over the file store or the cache: restart over the file is modelled, and each backend is proved on its own against the same map of ids to vectors.
- Batch search in graph mode, which calls the graph once per query, default query ids, sampling of graph quality, and statistics.
- Goroutine interleavings: reads that drop a lock between fetching and refilling a cache, and the pool's own synchronisation.
- I/O errors that take effect: a write, sync or rename that fails half-way.
- JSON text, base64 cursors, file modes and directories, and the operating system's part of rename and fsync.
- IEEE 754 rounding, NaN and infinities, and the value of the square root.
- Recall of graph search, and whether every node can be reached: pruning may drop all links into a node.
- HTTP and gRPC handlers, authentication, proxy parsing, metrics, configuration and clients.
