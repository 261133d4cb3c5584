# KTANN in Dafny

KTANN is a transactional vector index: a tree of partitions built in bulk or maintained online, stored through a
backend seam (in memory, RocksDB, FoundationDB), with a native HNSW graph beside it. This project models the parts of
it whose correctness rests on an argument rather than on a single function body, and proves that argument for every
input, every interleaving or every run.

`dafny verify dfyconfig.toml` checks everything. Each file holds one module:

| files | subject |
|---|---|
| `Bytes`, `Wrappers`, `Ordering`, `Ordinals`, `Checkpoints`, `Reachability` | byte order, options, sorted rows, counting ordinals, cancellation answers, directed reachability |
| `GroupSizes`, `Grouping`, `Ranks`, `Clusters`, `Passes`, `Tree`, `Scratch`, `Meters`, `Construction` | bulk construction of one tree, in memory and through scratch runs, with its byte accounting and counters |
| `Transactions`, `Replies`, `ConflictHistory`, `MemoryEngine` | the optimistic in-memory transaction engine |
| `GraphStream`, `GraphImage`, `GraphValidator`, `VisitedSlots`, `GraphRepair`, `SlotMapping` | the native graph: stream format and validator, visited bitmap, connectivity repair, slot mapping |
| `Neighbors`, `Moves`, `Refinement` | leaf refinement |
| `BlockingPool`, `IdleWaiters`, `RuntimeLifecycle`, `CommitBoundary`, `WriteActor` | the native worker pool, runtime shutdown, the commit/cancel race, the RocksDB write actor |
| `PlanCodec`, `PlanLayout`, `CoalescedReads` | the partition-plan codec and its layout, FoundationDB batch reads |

How the model is set up:

- Distances, hashes, means and centre training are function-valued fields of a `Kernel` or `Metric` value, so that every
  statement holds for all of them. Distances are reals; a statement that needs a symmetric distance says so.
- A cancellation callback is a `Control`: the answers it gives, in turn. A method that can be cancelled promises its
  result for every sequence of answers: it is cancelled exactly when the last answer it consumed refused, and otherwise
  every answer it consumed agreed.
- Code that mutates state is a class or a method on arrays, proved against specification functions. Protocols between
  threads or tasks are step relations whose steps are the atomic operations and critical sections of the code; a run is
  a sequence of states linked by steps, and the main statements are about every state of every run.
- A native result that the code only reacts to (an allocation, a spawned thread, a range reply) is a parameter.

Main results:

- *Spill independence and exactness.* Construction emits the same plans whatever the memory allowance, and those plans
  are an exact tree: dense keys, every record in one leaf, every partition in one parent, occupancy within bounds,
  every centroid the mean of what its partition holds. Children follow their centers, and each ends at the legal row
  nearest to its natural end. In-place selection and external rank scatter are proved to cut the same order, and both
  bounded heaps to keep the same sample. Scratch bytes are conserved and their peak is bounded.
- *Construction succeeds.* It fails only for an invalid ID, a ceiling below the stated need, or a counter that really
  overflows. A level creates fewer runs than twice its partitions and rewrites each row at most once per round of
  shrinking, so that a million records of any configuration, or 2^40 records in partitions of two or more, never
  overflow a counter.
- *Serializability.* Every commit in every run of the memory engine replied to its protected reads and inserts, and
  wrote, as if it had run alone just before its commit; each of those replies is the right one, told from requests and
  replies alone. Pruning evidence never lets a conflict through, and aborts a writer without a conflict exactly when
  the commits since its snapshot had at some moment outgrown the history budget.
- *Stream validation* is sound and complete: it accepts exactly the bytes that encode a legal graph and
  fit the memory limit.
- *Refinement* is a chain of rounds, each determined by the leaves it starts from: exact neighbour lists, one best move
  of exactly the members some listed leaf draws, ranked, and taken greedily while there is room. It stops early only
  after a round that moves nothing, every other round strictly lowers the cost against the centres it used, membership
  and bounds are conserved, and the log replays to the result.
- *No stranded actor, safe shutdown, exclusive commit and cancellation,* for all interleavings, with exact conditions
  where the code's promise depends on its callers.
- *No deadlock, and shutdown can always complete:* from every reachable state of the pool some step serves an open, and
  from every reachable state of the runtime every call of shutdown can still return.
- *Codecs and fast paths:* the plan codec is canonical both ways, takes every plan that construction emits, and coalesced
  reads equal point reads with one range request a pair.

Where the code differs from its own description, the model follows the code.

- `OperationContext::commit` explains that later commit attempts need no guard because a started native commit has
  already decided the race. The code spends the guard on the first attempt even if that attempt never reaches the
  boundary. `CommitBoundary.OrderedExact` gives the exact condition: cancelling protects if and only if every later
  attempt starts after the guarded one crossed the boundary. Under it an aborted operation commits nothing, whatever
  the number of attempts (`OrderedProtects`); from every state that breaks it some continuation aborts and commits
  (`EarlyStartEscapes`, with `SpentGuardEscapes` as the shortest run). The callers in this repository keep the
  condition: they retry a failed commit only on a retryable abort or an unknown outcome
  (src/runtime/lifecycle.rs:104-125), which the adapters report only once the native commit has begun, and
  `RetriesBegunOrdered` shows that this is enough.
- `wait_for_idle` wakes one waiting task when the pool falls idle. `IdleWaiters.IdlePromiseExact` shows that every
  waiting task is woken in all runs with at most `n` tasks waiting at once if and only if `n` is at most one. The
  runtime's single call of backend shutdown keeps to that.
- In the RocksDB write actor a batch whose native application fails part way stays staged but is not charged:
  `WriteActor.ChargesExact` says exactly when charges equal what is staged, and `WriteActor.BrokenBatchUncharged` the
  smallest case in which they do not.

## Model

| member | source | states |
|---|---|---|
| `GroupSizes.FanoutFeasible` | src/construction.rs:682-686 | the fanout chosen for any oversized group is between 2 and 8 and gives every child its minimum, when twice the minimum is at most the maximum |
| `GroupSizes.FanoutLeast` | src/construction.rs:682-686 | the fanout is the least number of children whose maxima hold the rows, capped by eight and the sample, and at least two |
| `GroupSizes.IntervalNonempty` | src/construction.rs:783-792 | every clamp interval is nonempty, its arithmetic neither wraps nor underflows, and each boundary in it leaves the remaining children feasible |
| `GroupSizes.Sizes` | src/construction.rs:772-797 | the sizes sum to the row count, and each lies between the minimum and three quarters of the rows |
| `GroupSizes.SizesNearest` | src/construction.rs:778-797 | every child ends at the legal row nearest to where its natural clusters end, legal meaning minimum, three quarters and room for the rest |
| `GroupSizes.LegalCountsKept` | src/construction.rs:769-771 | natural counts that already meet the bounds are returned unchanged |
| `GroupSizes.Total` | src/construction.rs:773 | the row count is the sum of the counts |
| `GroupSizes.NextBoundary` | src/construction.rs:790-792 | one clamped boundary, computed with saturating 64-bit arithmetic, is the specified one |
| `GroupSizes.ClampBoundaries` | src/construction.rs:772-797 | the loop over counts yields exactly the specified sizes |
| `Grouping.NearestIsLeast` | src/construction.rs:635-670 | with a symmetric distance, the assigned centre has least distance and, among equals, least index |
| `Grouping.NearestBatched` | src/construction.rs:638-670 | scanning in blocks of four lanes, the operands swapped for a centre alone in its block, finds the first centre of least computed distance |
| `Grouping.CountsTotal` | src/construction.rs:583-587 | label counts add up to the number of rows |
| `Clusters.SampleSmallest` | src/construction.rs:562-581 | every sampled row precedes every other row by hash and then ID |
| `Grouping.OversizedSplittable` | src/construction.rs:504-510 | label counts of any oversized group meet what boundary clamping requires |
| `Grouping.ChildMembers` | src/construction.rs:512-523 | a child holds exactly its stretch of the (label, ID) order |
| `Clusters.ChildrenByCenter` | src/construction.rs:512-523 | earlier children hold the rows of earlier centres, and within one centre of earlier IDs |
| `Clusters.NaturalChildren` | src/construction.rs:769-771 | if the natural clusters are within the bounds, each child is exactly the rows nearest to its centre |
| `Grouping.LeavesExact` | src/construction.rs:466-633 | grouping a level loses, adds and repeats no row, every group is canonical and within its bounds, and two or more rows yield strictly fewer groups |
| `Grouping.ChildShrinks` | src/construction.rs:774-777 | every recursive child has at least the minimum and at most three quarters of its parent |
| `Ranks.RankIsIndex` | src/construction.rs:598-619 | the running rank of a row is its index in the (label, ID) order |
| `Ranks.RoutedIsStretch` | src/construction.rs:610-621 | the rows whose rank falls in a child's interval, in input order, are that child's stretch in canonical order |
| `Ranks.RanksStep` | src/construction.rs:617-619 | advancing the rank of one label keeps every label's next rank right |
| `Ranks.RunningEnds` | src/construction.rs:590-597 | prefix sums of the sizes |
| `Ranks.RunningStarts` | src/construction.rs:598-606 | exclusive prefix sums of the counts |
| `Ranks.PartitionPoint` | src/construction.rs:618 | the child found is the one whose interval holds the rank |
| `Ranks.OfferKeepsSmallest` | src/construction.rs:487-496 | one bounded-heap step keeps exactly the smallest keys of everything seen |
| `Passes.SampleOrderIndependent` | src/construction.rs:562-581 | rows visited in any order, drained in any order, give the same canonical sample |
| `Passes.SampleRun` | src/construction.rs:561-581 | external sampling yields the specified sample |
| `Passes.SampleRows` | src/construction.rs:484-503 | resident sampling yields the specified sample |
| `Passes.CountRun` | src/construction.rs:583-588 | external counting gives the label counts |
| `Passes.LabelRows` | src/construction.rs:505-509 | in-place labelling stores every row's centre, changes nothing else and counts labels |
| `Passes.SelectNth` | src/construction.rs:519 | selection permutes the slice so that nothing before the cut comes after anything behind it |
| `Passes.SelectionCut` | src/construction.rs:512-521 | any such cut of a labelled slice selects exactly the prefix of its sorted order |
| `Passes.CutChild` | src/construction.rs:516-523 | one in-place cut puts the next child's rows at the front and leaves the rest pending |
| `Passes.PlanResidentCut` | src/construction.rs:484-511 | the resident pass arrives at the specified child sizes |
| `Passes.PlanRunCut` | src/construction.rs:561-589 | the external pass arrives at the same child sizes |
| `Passes.RouteRow` | src/construction.rs:616-620 | one scattered row goes to the child it belongs to |
| `Passes.AllRouted` | src/construction.rs:610-622 | the scattered runs are exactly the children, in canonical order |
| `Tree.ParentRowsCanonical` | src/construction.rs:416-448 | the encoded keys of successive partitions are strictly increasing IDs for the next level |
| `Tree.ParentRowsAt` | src/construction.rs:446-449 | the row that stands for a partition carries its key and the centroid of its plan |
| `Tree.TreeExact` | src/construction.rs:408-461 | a finished tree has dense keys with root 1, every record in one leaf, every non-root partition in one partition one level up, increasing entries and occupancy within bounds |
| `Tree.TreeCentred` | src/construction.rs:427-448 | every centroid is the mean of the rows its partition names: records on the lowest level, the centroids of its children above |
| `Tree.ReachesRoot` | src/construction.rs:169-194 | the level loop reaches a root, and how many keys it can use is bounded by the square of the row count |
| `Tree.KeysAreDense` | src/construction.rs:416-426 | the keys in use are exactly 1 to the number of partitions |
| `Meters.RoundsLogarithmic` | src/construction.rs:774-777 | shrinking to three quarters takes at most three rounds per halving |
| `Meters.ChildFits` | src/construction.rs:625-631 | the next child of a scattered group stays within what grouping all children may add to the counters |
| `Meters.ChildrenTotal` | src/construction.rs:607-631 | a group creates at most two runs fewer than twice its partitions, and writes each row once per round plus the parent rows |
| `Meters.DemandBound` | src/construction.rs:169-194 | over all levels at most twice as many runs as partitions, and each row of each level written once and once more per round |
| `Meters.PartitionsQuadratic` | src/construction.rs:169-194 | the partitions below the root number at most the square of the records |
| `Meters.HalvingReachesRoot` | src/construction.rs:169-194 | with at least two entries a partition the root is reached in logarithmically many levels, with no more partitions below it than records |
| `Meters.MillionAffordable` | src/construction.rs:311-374 | whatever the occupancy bounds, up to 2^20 records with rows of up to 64 KiB overflow no counter |
| `Meters.HalvingAffordable` | src/construction.rs:311-374 | with at least two entries a partition, neither do up to 2^40 records with rows of up to 32 KiB |
| `Construction.Workspace.constructor` | src/construction.rs:145-155 | an empty workspace |
| `Construction.Workspace.NewRun` | src/construction.rs:311-330 | a new empty run under the next file number, unless that number is the last 64-bit one |
| `Construction.Workspace.Append` | src/construction.rs:333-374 | a row is appended and charged; exactly when the ceiling would be passed, nothing changes; a counter fails only if the bytes written overflow |
| `Construction.Workspace.Remove` | src/construction.rs:394-401 | a run goes away and its bytes with it |
| `Construction.Workspace.EmitPartition` | src/construction.rs:408-461 | one partition is emitted with the next key and its row added to the parents; a counter fails only if keys, partitions or bytes written overflow |
| `Construction.Workspace.ResidentGroup` | src/construction.rs:466-526 | in-memory grouping emits the specified groups in order, needs no scratch beyond the parent rows, and overflows a counter only if those do not fit |
| `Construction.Workspace.ResidentChildren` | src/construction.rs:515-524 | the same for the loop over children of a labelled slice |
| `Construction.Workspace.OpenRuns` | src/construction.rs:607-609 | one empty run per child, unless the file numbers run out |
| `Construction.Workspace.Scatter` | src/construction.rs:607-623 | the scatter writes every child's run, needs one extra copy of the input, and overflows a counter only if that copy or its runs do not fit |
| `Construction.Workspace.Group` | src/construction.rs:530-633 | grouping a run emits the specified groups whatever the memory allowance, consumes the run, stays within one extra copy plus the parent rows, adds no more than the stated demand to the counters, holds no more rows in memory than allowed, and opens no run when the group fits |
| `Construction.Workspace.GroupInMemory` | src/construction.rs:537-546 | the resident branch |
| `Construction.Workspace.GroupOnDisk` | src/construction.rs:547-633 | the external branch |
| `Construction.Workspace.GroupChildren` | src/construction.rs:625-631 | the recursion over scattered runs |
| `Construction.Workspace.LoadInput` | src/construction.rs:156-164 | the records become the first run, all with valid IDs; an invalid ID or full scratch stops it |
| `Construction.Workspace.BuildLevel` | src/construction.rs:187-190 | one level becomes the run of its parents |
| `Construction.Workspace.EmitRoot` | src/construction.rs:172-186 | the last level becomes the root, with key 1 |
| `Construction.Workspace.BuildLevels` | src/construction.rs:169-194 | the loop ends with the specified plans, no live run and zero live bytes; it fails only below the stated need or beyond the counters |
| `Construction.Workspace.ConstructTree` | src/construction.rs:135-195 | with valid IDs, a ceiling of at least the stated need and counters that hold the stated demand, construction succeeds: the specified plans, zero live bytes and a matching report; each failure names the condition that was not met |
| `Construction.ConstructTwice` | src/construction.rs:135-195 | two constructions under any two budgets emit the same plans, an exact tree over the records with right centroids, and both succeed under the same conditions |
| `Transactions.RunCoherent` | ktann-memory/src/lib.rs:375-401 | after any requests, a transaction's view is its snapshot overlaid with its staged writes, within its budgets |
| `Transactions.StepCoherent` | ktann-memory/src/lib.rs:473-566 | each request keeps that |
| `Transactions.StepAgree` | ktann-memory/src/lib.rs:473-512 | a request answers and stages alike on snapshots that agree on what it protects |
| `Transactions.RunAgree` | ktann-memory/src/lib.rs:473-566 | so does a whole transaction |
| `Replies.RepliesRight` | ktann-memory/src/lib.rs:404-566 | every reply of every transaction is right: reads see the last staged mutation of the key or the snapshot, inserts answer by that same value, and requests are refused exactly beyond the limits |
| `Replies.RunHolds` | ktann-memory/src/lib.rs:375-401 | the write set holds exactly the last staged mutation of each key, and the counters their number and weight |
| `Replies.RunGuards` | ktann-memory/src/lib.rs:473-512 | the protected keys are exactly those some request guards |
| `Replies.AllLastWins` | ktann-memory/src/lib.rs:557-563 | in a batch the last mutation of a key stays, and no other key changes |
| `ConflictHistory.UnwrittenKeep` | ktann-memory/src/lib.rs:604-609 | keys not written since a revision look the same at every later one |
| `ConflictHistory.ConflictsExact` | ktann-memory/src/lib.rs:604-609 | the retained test refuses exactly the overwritten transactions and those behind the floor |
| `ConflictHistory.ConflictsSound` | ktann-memory/src/lib.rs:604-609 | the retained test never lets an overwritten transaction through |
| `ConflictHistory.DropOldest` | ktann-memory/src/lib.rs:119-127 | dropping the oldest revision keeps the retained interval and each key's latest retained revision right |
| `ConflictHistory.PublishRetained` | ktann-memory/src/lib.rs:667-685 | publishing extends the retained interval to the new revision |
| `ConflictHistory.PublishLatest` | ktann-memory/src/lib.rs:667-685 | and makes it the latest of every written key |
| `ConflictHistory.FittingFloor` | ktann-memory/src/lib.rs:106-118 | once the retained evidence fits its budget, the floor has passed every snapshot whose later commits ever outgrew that budget |
| `ConflictHistory.OutgrownByDrop` | ktann-memory/src/lib.rs:106-120 | evidence dropped because it does not fit passes only snapshots whose later commits outgrew the budget |
| `ConflictHistory.SerialLast` | ktann-memory/src/lib.rs:581-695 | a transaction whose protected keys were not overwritten replied and wrote as it would have on the latest state |
| `ConflictHistory.CommitSerial` | ktann-memory/src/lib.rs:581-695 | committing it keeps the whole log serializable |
| `ConflictHistory.SerialRight` | ktann-memory/src/lib.rs:581-695 | every protected reply of a commit is the right one on the state just before it, and it wrote the last mutation it staged of each key |
| `ConflictHistory.ReadsLastWrite` | ktann-memory/src/lib.rs:628-657 | at every revision a key reads as its last write up to there, and as absent if nobody wrote it |
| `MemoryEngine.MemoryBackend.constructor` | ktann-memory/src/lib.rs:137-143 | an empty store with an empty history |
| `MemoryEngine.MemoryBackend.OldestSnapshot` | ktann-memory/src/lib.rs:102-105 | the least live snapshot, or the current revision without writers |
| `MemoryEngine.MemoryBackend.DropFront` | ktann-memory/src/lib.rs:119-127 | one retained revision is dropped with its keys, bytes and latest marks, and the floor rises to it |
| `MemoryEngine.MemoryBackend.PruneHistory` | ktann-memory/src/lib.rs:101-134 | afterwards evidence is bounded, nothing expired is kept, and a live writer is behind the floor exactly when the commits since its snapshot at some moment outgrew the history budget |
| `MemoryEngine.MemoryBackend.BeginRead` | ktann-memory/src/lib.rs:191-199 | a reader sees everything committed so far |
| `MemoryEngine.MemoryBackend.BeginWrite` | ktann-memory/src/lib.rs:201-227 | a writer is registered on the current revision without disturbing others |
| `MemoryEngine.MemoryBackend.ApplyWrites` | ktann-memory/src/lib.rs:628-657 | the new root is the latest data overlaid with the writes |
| `MemoryEngine.MemoryBackend.NoteKeys` | ktann-memory/src/lib.rs:667-671 | every written key is marked with the new revision, and their bytes are counted |
| `MemoryEngine.MemoryBackend.Record` | ktann-memory/src/lib.rs:624-684 | data, marks and evidence with one more commit, the log still serializable |
| `MemoryEngine.MemoryBackend.Publish` | ktann-memory/src/lib.rs:624-685 | the commit is appended to the log, which stays serializable |
| `MemoryEngine.MemoryBackend.ReleaseWriter` | ktann-memory/src/lib.rs:90-97 | the writer is gone, the evidence only it needed is dropped, others are undisturbed |
| `MemoryEngine.LookupBatch` | ktann-memory/src/lib.rs:262-271 | all lookups in order, or none if some key is too long |
| `MemoryEngine.AdmitBatch` | ktann-memory/src/lib.rs:528-548 | the loop decides whether a whole batch is admissible |
| `MemoryEngine.WriteTxn.Get` | ktann-memory/src/lib.rs:404-408 | an unprotected read: the staged write of the key, or else its value in the snapshot |
| `MemoryEngine.WriteTxn.GetForUpdate` | ktann-memory/src/lib.rs:473-483 | the same, protecting the key |
| `MemoryEngine.WriteTxn.BatchGetForUpdate` | ktann-memory/src/lib.rs:485-491 | the same for every key, or nothing if one is too long |
| `MemoryEngine.WriteTxn.StagePoint` | ktann-memory/src/lib.rs:375-392 | one write is staged and charged, or nothing changes |
| `MemoryEngine.WriteTxn.ApplyBatch` | ktann-memory/src/lib.rs:557-563 | an admitted batch is applied in order |
| `MemoryEngine.WriteTxn.Mutate` | ktann-memory/src/lib.rs:493-519 | an admitted put or delete sets the staged write of its key and no other |
| `MemoryEngine.WriteTxn.Insert` | ktann-memory/src/lib.rs:499-512 | insertion protects the key, answers that it exists exactly when it is seen, and otherwise stages it |
| `MemoryEngine.WriteTxn.BatchMutate` | ktann-memory/src/lib.rs:520-566 | a batch is staged whole, the last mutation of a key winning, or not at all |
| `MemoryEngine.WriteTxn.HasConflict` | ktann-memory/src/lib.rs:604-609 | the loop over protected keys decides the retained test |
| `MemoryEngine.WriteTxn.CommitWith` | ktann-memory/src/lib.rs:581-695 | commits exactly when the right to commit is available, no protected key was overwritten, and the commits since the snapshot never outgrew the history budget; otherwise nothing changes |
| `MemoryEngine.WriteTxn.Drop` | ktann-memory/src/lib.rs:740-746 | dropping a transaction releases its writer and changes no data |
| `GraphStream.DivisionsExact` | ktann-usearch/src/lib.rs:181-190 | the level is the largest power of M not above the node limit |
| `GraphStream.MaxLevelAtMost16` | ktann-usearch/src/lib.rs:181-190 | no fanout gives more than 16 upper levels |
| `GraphStream.ComputeMaxLevel` | ktann-usearch/src/lib.rs:181-190 | the loop computes that level |
| `GraphStream.ValidStreamFits` | ktann-usearch/src/persistence.rs:20-29 | no valid stream is longer than the encoded bound |
| `GraphStream.EncodedBoundTight` | ktann-usearch/src/persistence.rs:20-29 | the encoded bound is the length of a stream whose nodes all have the highest level |
| `GraphStream.BuildCoversStream` | ktann-usearch/src/lib.rs:202-209 | the build bound covers the longest stream of a graph of that shape |
| `GraphStream.DecodeCovers` | ktann-usearch/src/persistence.rs:31-37 | the decode bound covers the input, the longest stream of the loaded graph, and the 22 bytes a node of levels, offsets, marks and stack |
| `GraphValidator.Cursor.Read` | ktann-usearch/src/persistence.rs:39-63 | a checked field read in native byte order |
| `GraphValidator.Cursor.Skip` | ktann-usearch/src/persistence.rs:65-75 | a checked skip |
| `GraphValidator.ReadHeader` | ktann-usearch/src/persistence.rs:126-139 | the header is accepted exactly when its fields match the shape and could name a node |
| `GraphValidator.ReadLevels` | ktann-usearch/src/persistence.rs:144-153 | the level table is accepted exactly when every level is in range, and is read back |
| `GraphValidator.EntryIsTop` | ktann-usearch/src/persistence.rs:189-195 | the entry is accepted exactly when it is a node of the maximal level |
| `GraphValidator.CheckEdges` | ktann-usearch/src/persistence.rs:172-185 | stamped marking accepts exactly in-range, self-free, duplicate-free edges to nodes present on the layer |
| `GraphValidator.CheckLayer` | ktann-usearch/src/persistence.rs:165-187 | one layer is accepted exactly when well formed; inactive slots are arbitrary |
| `GraphValidator.CheckNode` | ktann-usearch/src/persistence.rs:159-188 | one node is accepted exactly when its key, level and layers are right |
| `GraphValidator.CheckNodes` | ktann-usearch/src/persistence.rs:154-188 | so are all nodes, and the base-layer offsets are kept |
| `GraphValidator.Expand` | ktann-usearch/src/persistence.rs:206-216 | expanding one node finds exactly its new neighbours |
| `GraphValidator.StackFits` | ktann-usearch/src/persistence.rs:197-216 | the stack of the search never outgrows the graph |
| `GraphValidator.Search` | ktann-usearch/src/persistence.rs:196-220 | the search reaches all nodes exactly when all are reachable from the entry |
| `GraphValidator.Validate` | ktann-usearch/src/persistence.rs:122-220 | the single pass accepts only valid streams within the limit and calls invalid only invalid ones; it reports the limit exactly when a short, rightly headed stream needs more |
| `GraphValidator.Decode` | ktann-usearch/src/persistence.rs:115-220 | uninterrupted and with a valid shape, it passes exactly the bytes that encode a legal graph and fit the limit; the other outcomes are as exact |
| `GraphImage.LayerReread` | ktann-usearch/src/persistence.rs:165-187 | a well-formed layer reads back as a legal one that serialises to the same bytes |
| `GraphImage.SerializedValid` | ktann-usearch/src/persistence.rs:126-220 | serialising any legal graph gives a valid stream that reads back as that graph: levels, entry and base layer |
| `GraphImage.ReadSerializes` | ktann-usearch/src/persistence.rs:126-220 | a valid stream is the serialised form of the legal graph read from it, unused slots included |
| `GraphImage.StreamsAreGraphs` | ktann-usearch/src/persistence.rs:115-220 | the format predicate holds exactly of the bytes that encode a legal graph |
| `VisitedSlots.SetBit` | ktann-usearch/native/graph.cpp:126-136 | or-ing a mask sets its own bit and no other |
| `VisitedSlots.GrownRepresents` | ktann-usearch/native/graph.cpp:116-122 | copying the words and zero-filling the rest keeps the set |
| `VisitedSlots.Bitmap.constructor` | ktann-usearch/native/graph.cpp:77-82 | an empty set |
| `VisitedSlots.Bitmap.Clear` | ktann-usearch/native/graph.cpp:101-104 | the empty set, with the same room |
| `VisitedSlots.Bitmap.Reset` | ktann-usearch/native/graph.cpp:106-110 | the empty set, with no room |
| `VisitedSlots.Bitmap.Reserve` | ktann-usearch/native/graph.cpp:112-124 | room for the slots and the same set and count, or failure and no change |
| `VisitedSlots.Bitmap.Test` | ktann-usearch/native/graph.cpp:126-129 | membership |
| `VisitedSlots.Bitmap.Set` | ktann-usearch/native/graph.cpp:131-136 | the slot is added, the count stays the cardinality, and the answer is whether it was there |
| `GraphRepair.LinkedKeeps` | ktann-usearch/vendor/usearch/index.hpp:2672-2678 | ensuring a successor adds it, gives up at most the last edge of a full list, and keeps lists bounded, duplicate-free and self-free |
| `GraphRepair.CycleReaches` | ktann-usearch/native/graph.cpp:237-240 | a graph holding the cycle of successors reaches every node from any entry |
| `GraphRepair.CycledReaches` | ktann-usearch/native/graph.cpp:256-261 | linking every node to its cyclic successor makes every node reachable |
| `GraphRepair.CycledKeeps` | ktann-usearch/native/graph.cpp:256-261 | and keeps every base list within its cap, duplicate-free and self-free |
| `GraphRepair.Engine.EnsureSuccessor` | ktann-usearch/vendor/usearch/index.hpp:2672-2678 | one list is changed as specified and no other |
| `GraphRepair.Engine.Audit` | ktann-usearch/native/graph.cpp:241-255 | the breadth-first audit visits and counts exactly the nodes reachable from the entry |
| `GraphRepair.Engine.Expand` | ktann-usearch/native/graph.cpp:250-254 | one expansion queues exactly the new neighbours, and the queue never overflows |
| `GraphRepair.Engine.Repair` | ktann-usearch/native/graph.cpp:235-262 | afterwards every node is reachable, lists stay well formed, and a connected graph is left unchanged |
| `SlotMapping.InjectiveIsOnto` | ktann-usearch/src/lib.rs:253-261 | in-range targets without repetition leave no ordinal out |
| `SlotMapping.CheckMapping` | ktann-usearch/src/lib.rs:249-261 | the marking loop accepts exactly permutations |
| `Neighbors.NearestUnique` | src/refinement.rs:131-133 | there is only one list of the nearest leaves |
| `Neighbors.RetainedKeeps` | src/refinement.rs:167-181 | offering one more candidate keeps the list exact |
| `Neighbors.RetainNeighbor` | src/refinement.rs:168-181 | the in-place shift inserts the candidate at its place or leaves the list alone |
| `Neighbors.RecordPair` | src/refinement.rs:151-162 | one score recorded at both ends keeps every list exact for the pairs scored |
| `Neighbors.ScoreSource` | src/refinement.rs:143-162 | batches of four and the tail score every later leaf once |
| `Neighbors.OthersCount` | src/refinement.rs:215 | a leaf has as many candidates as there are other leaves |
| `Neighbors.LeafNeighbors` | src/refinement.rs:134-165 | with a symmetric distance every list is the sorted run of its nearest other leaves |
| `Moves.AcceptedCounts` | src/refinement.rs:246-255 | counts follow membership, and no leaf leaves the bounds it started within |
| `Moves.AcceptedLegal` | src/refinement.rs:246-255 | accepted moves are a legal choice of the offered ones |
| `Moves.AcceptedGreedy` | src/refinement.rs:248-255 | a move is taken exactly when its source can spare and its target can take a member once the moves taken before it are made |
| `Moves.NoneAccepted` | src/refinement.rs:248-259 | a round takes nothing exactly when no offered move had room |
| `Moves.CostMoved` | src/refinement.rs:183-185 | accepted moves lower the total distance to the fixed centres by exactly the sum of their gains, which is positive |
| `Moves.EventsReplay` | src/refinement.rs:248-255 | replaying the reported moves gives the membership they produce, each leaving from where it says |
| `Moves.ArrangeRanks` | src/refinement.rs:245 | moves are offered by decreasing gain, then by position |
| `Refinement.BestIsLeast` | src/refinement.rs:217-238 | the chosen leaf is nearest among its own and its neighbours, and another one only when strictly nearer |
| `Refinement.FindBest` | src/refinement.rs:217-238 | the batched scan with its tail finds it |
| `Refinement.ProposedLegal` | src/refinement.rs:212-243 | every position proposes at most once, from the leaf that holds it, with a positive gain |
| `Refinement.BestIsFirst` | src/refinement.rs:217-239 | the loop over targets ends with the first of the nearest leaves, or the own one if none is strictly nearer |
| `Refinement.DrawnProposed` | src/refinement.rs:212-243 | a member has a move exactly when some listed leaf is strictly nearer than its own, and then one: to the first nearest, gaining the difference |
| `Refinement.Propose` | src/refinement.rs:212-243 | the loops collect exactly the specified proposals |
| `Refinement.AcceptMoves` | src/refinement.rs:246-255 | the loop accepts, counts and reports exactly the specified moves |
| `Refinement.ComputedIsBest` | src/refinement.rs:210-255 | so the ranked moves of a round are the best ones of exactly the drawn members, and greedily all there is room for are taken |
| `Refinement.Distribute` | src/refinement.rs:260-265 | every position lands once in the bucket of its destination |
| `Refinement.Rebuild` | src/refinement.rs:260-273 | every leaf gets its new members in ascending order and their mean |
| `Refinement.Round` | src/refinement.rs:210-273 | one round: exact neighbours, ranked best moves, those the bounds admit, leaves rebuilt from them, and a lower cost if anything moved; cancelled rounds change nothing |
| `Refinement.RoundImproves` | src/refinement.rs:183-185 | a round that moves anything strictly lowers the total distance to the centres it used |
| `Refinement.RoundDetermined` | src/refinement.rs:209-273 | a round is determined by the leaves it starts from: its lists, proposals, moves and resulting leaves |
| `Refinement.ReportTells` | src/refinement.rs:250 | every reported event is a move some round took, under that round's number and its leaves' keys |
| `Refinement.Refine` | src/refinement.rs:193-276 | a chain of such rounds, each starting where the last ended; it stops early only after one that moves nothing, every other round lowers its cost, bounds and positions are kept, and the log is the rounds' moves and replays to the result |
| `Refinement.RefreshedUnique` | src/refinement.rs:89-90 | the leaves' centres determine all centres above them |
| `Refinement.RefreshInternalCenters` | src/refinement.rs:90-112 | every internal centre becomes the mean of its children's final centres |
| `BlockingPool.StepKeeps` | ktann-rocksdb/src/blocking.rs:136-205 | every atomic step keeps the accounting of permits, workers and active jobs, the lock, the queue and the wake-ups |
| `BlockingPool.RunKeeps` | ktann-rocksdb/src/blocking.rs:136-245 | so does every interleaving |
| `BlockingPool.LiveKept` | ktann-rocksdb/src/blocking.rs:136-152 | opens past the worker check never outnumber counted workers, which never exceed the limit |
| `BlockingPool.NoStrandedActor` | ktann-rocksdb/src/blocking.rs:130-135 | whenever a job is queued some worker is not occupied, and one is awake or about to be notified |
| `BlockingPool.NoDeadlock` | ktann-rocksdb/src/blocking.rs:130-205 | while any open is neither finished, failed nor abandoned, some step that serves an open is possible |
| `BlockingPool.WithinLimit` | ktann-rocksdb/src/blocking.rs:16-20 | queued and running jobs, workers and active jobs stay within the limit |
| `BlockingPool.NothingLeaks` | ktann-rocksdb/src/blocking.rs:171-205 | with no open in flight, however earlier ones ended, every permit is back and nothing is active |
| `BlockingPool.FinishEnabled` | ktann-rocksdb/src/blocking.rs:238-245 | a job that ends finds itself counted, so the active count cannot wrap |
| `BlockingPool.FailedLeavesNothing` | ktann-rocksdb/src/blocking.rs:136-152 | an open whose spawn failed holds no permit, lock, queue place or worker and is not active, in any later state |
| `BlockingPool.LockHolderMoves` | ktann-rocksdb/src/blocking.rs:140-151 | the spawn lock is only ever held by an open that can take a step releasing it |
| `IdleWaiters.OneAtATime` | ktann-rocksdb/src/blocking.rs:207-213 | a task asleep while nothing is active has a token waiting or a signal coming, in every state of every run whose tasks wait one at a time |
| `IdleWaiters.IdlePromiseExact` | ktann-rocksdb/src/blocking.rs:207-213 | every waiting task is woken, in all runs with at most n tasks waiting at once, if and only if n is at most one or the pool has no room |
| `IdleWaiters.TwoWaitersStrand` | ktann-rocksdb/src/blocking.rs:238-245 | in a pool of any size, a run with two waiting tasks that leaves one asleep over an idle pool with nothing to wake it |
| `BlockingPool.IdleMeansIdle` | ktann-rocksdb/src/blocking.rs:207-212 | waiting for idle ends only at a moment when no open is active |
| `RuntimeLifecycle.Lifecycle.Admit` | src/runtime.rs:741-752 | admission succeeds exactly while accepting |
| `RuntimeLifecycle.Lifecycle.BeginShutdown` | src/runtime.rs:762-771 | the closing transition |
| `RuntimeLifecycle.Lifecycle.FinishActivity` | src/runtime.rs:785-793 | one activity fewer, and release if that was the last |
| `RuntimeLifecycle.StepKeeps` | src/runtime.rs:741-816 | every critical section keeps exact activity, permits, ownership of the backend and wake-ups |
| `RuntimeLifecycle.RunKeeps` | src/runtime.rs:343-352 | so does every interleaving |
| `RuntimeLifecycle.BarredKept` | src/runtime.rs:771-777 | once the runtime stops accepting, the admission gate is closed or about to be |
| `RuntimeLifecycle.RoomToBegin` | src/runtime.rs:860-862 | the activity count never saturates |
| `RuntimeLifecycle.RunAdvances` | src/runtime.rs:881-887 | phases only advance, and nothing is admitted once the runtime stops accepting |
| `RuntimeLifecycle.PhaseExact` | src/runtime.rs:762-814 | the runtime accepts until the first call of shutdown and is closed from the end of the release on |
| `RuntimeLifecycle.AdmittedUntilShutdown` | src/runtime.rs:741-760 | whoever asks is admitted exactly if its control allows it and nobody has called shutdown |
| `RuntimeLifecycle.BackendTakenOnce` | src/runtime.rs:869-878 | the backend is taken at most once, and from then on no operation or worker is left |
| `RuntimeLifecycle.LiveHasBackend` | src/runtime.rs:741-760 | whatever is admitted finds the backend still owned |
| `RuntimeLifecycle.ShutdownReturnsClosed` | src/runtime.rs:343-352 | shutdown returns only from a closed, drained runtime |
| `RuntimeLifecycle.ShutdownProgress` | src/runtime.rs:343-352 | a shutdown under way always has activity, a release or a wake-up pending, or is over |
| `RuntimeLifecycle.ShutdownCompletes` | src/runtime.rs:343-352 | from every reachable state every waiting call of shutdown has a continuation in which it returns |
| `CommitBoundary.StepKeeps` | src/storage/backend.rs:128-184 | every step keeps each side of the boundary to what its claim allows |
| `CommitBoundary.RunSettles` | src/storage/backend.rs:151-183 | a claimed boundary never changes sides, and closed ownership stays closed |
| `CommitBoundary.FirstWins` | src/storage/backend.rs:151-183 | whoever comes to the boundary first wins it, the guarded commit or the canceller, and nothing else decides |
| `CommitBoundary.OpenCommits` | ktann-rocksdb/src/backend.rs:718-736 | from every reachable state in which the guarded commit waits and the boundary is open, some continuation commits it |
| `CommitBoundary.AbortExcludesCommit` | src/runtime.rs:526-538 | an operation is aborted only by a canceller that won, and then the guarded commit never begins |
| `CommitBoundary.CommitExcludesAbort` | src/runtime.rs:497-505 | once the guarded commit has begun, the operation is never aborted |
| `CommitBoundary.NativeAtMostOnce` | ktann-rocksdb/src/backend.rs:270-301 | an attempt commits natively at most once, and never after its future was dropped before the actor owned it |
| `CommitBoundary.DroppedNeverCommits` | ktann-rocksdb/src/backend.rs:270-301 | a future dropped before the actor took its command never commits |
| `CommitBoundary.OrderedProtects` | src/runtime.rs:463-482 | if every later attempt starts after the guarded one crossed the boundary, an operation aborted at any moment commits nothing natively at any moment |
| `CommitBoundary.RetriesBegunOrdered` | src/runtime/lifecycle.rs:104-125 | retrying only attempts that began their native commit meets that condition |
| `CommitBoundary.EarlyStartEscapes` | src/runtime.rs:463-482 | from every reachable state in which a later attempt has just started before the guarded one crossed, some continuation aborts the operation and commits it natively |
| `CommitBoundary.OrderedExact` | src/runtime.rs:463-482 | the condition holds of a run if and only if no later attempt leaves such a continuation open when it starts |
| `CommitBoundary.SpentGuardEscapes` | src/runtime.rs:471-482 | the shortest run without it: the first attempt ends before the boundary, the canceller wins, and the second attempt commits |
| `WriteActor.NextChargeExact` | ktann-rocksdb/src/backend.rs:440-456 | a charge is granted exactly within both limits; the overflow tests never decide |
| `WriteActor.ApplyCharged` | ktann-rocksdb/src/backend.rs:685-701 | mutations are charged first and applied one by one, and the charge is kept only if all applied |
| `WriteActor.AfterIsShares` | ktann-rocksdb/src/backend.rs:675-717 | what is staged is, in command order, what each command asked for within the limits, up to where the native engine broke off; an insert that found a value asks for nothing |
| `WriteActor.Serve` | ktann-rocksdb/src/backend.rs:614-747 | the actor goes on exactly after commands whose caller takes the answer, ends as its last command says, and a commit that won both claims commits once, with everything the commands before it contributed |
| `WriteActor.ChargesExact` | ktann-rocksdb/src/backend.rs:675-717 | counters stay within the limits and never exceed what is staged; they equal it if and only if no charged batch broke off part way |
| `WriteActor.BrokenBatchUncharged` | ktann-rocksdb/src/backend.rs:696-699 | a batch that breaks off part way leaves uncharged mutations staged |
| `PlanCodec.Encode` | src/bulk/plan.rs:7-25 | the loops append the specified bytes |
| `PlanLayout.EncodedLayout` | src/bulk/plan.rs:7-25 | where each field of an encoded plan lies and what it reads as |
| `PlanLayout.FloatKinds` | src/bulk/plan.rs:41-46 | a float is finite exactly when its exponent is not the highest, and zero exactly when exponent and mantissa are |
| `PlanLayout.PartsOf` | src/bulk/plan.rs:41-42 | every bit pattern has a sign, an exponent and a mantissa |
| `PlanCodec.RoundTrip` | src/bulk/plan.rs:7-85 | decoding an encoded well-formed plan gives it back with negative zeros normalised |
| `PlanCodec.Reencode` | src/bulk/plan.rs:27-85 | whatever decodes is canonical and re-encodes to the same bytes |
| `PlanCodec.EncodedInjective` | src/bulk/plan.rs:7-25 | canonical plans with equal bytes are equal |
| `PlanCodec.EarlyTestHarmless` | src/bulk/plan.rs:51-54 | the early size test refuses only bodies that cannot decode |
| `PlanCodec.DecodeEntries` | src/bulk/plan.rs:54-78 | the entry loop decodes as specified |
| `PlanCodec.DecodeBody` | src/bulk/plan.rs:29-85 | the whole decoder, with its early test, decodes as specified without it |
| `PlanCodec.Decode` | src/bulk/plan.rs:29-85 | a body decodes exactly when it encodes some canonical plan, and to that plan |
| `PlanLayout.ConstructedEncodes` | src/bulk/plan.rs:7-85 | every partition construction emits, with any finite floats as its centroid, is a plan the codec takes and gives back |
| `PlanLayout.InteriorEntries` | src/bulk/plan.rs:62-76 | above the leaves every entry is the encoded key of a partition, in increasing order |
| `CoalescedReads.PairInSpan` | ktann-foundationdb/src/backend.rs:487-521 | the pair's range holds both keys, and its end is a legal key |
| `CoalescedReads.PairSpanTight` | ktann-foundationdb/src/backend.rs:485-497 | nothing else lies in a pair's range but keys that extend the first |
| `CoalescedReads.ReadSnapshotPair` | ktann-foundationdb/src/backend.rs:510-550 | one range reply, with point reads for what it may have missed, gives both lookups; a complete or full reply needs none |
| `CoalescedReads.EncodeChunk` | ktann-foundationdb/src/backend.rs:428-431 | a chunk is refused exactly when some key is too long |
| `CoalescedReads.AnyConsecutive` | ktann-foundationdb/src/backend.rs:434-437 | the window scan finds a neighbouring pair exactly when there is one |
| `CoalescedReads.PairsExact` | ktann-foundationdb/src/backend.rs:451-466 | there is a pair to read exactly when some key neighbours the next |
| `CoalescedReads.ReadPoints` | ktann-foundationdb/src/backend.rs:439-448 | point reads in order |
| `CoalescedReads.ReadParts` | ktann-foundationdb/src/backend.rs:451-480 | pairs and single keys together give every lookup in order, with one range request a pair |
| `CoalescedReads.ReadChunk` | ktann-foundationdb/src/backend.rs:433-480 | a chunk is read by pairs only for a snapshot with neighbouring keys |
| `CoalescedReads.BatchGet` | ktann-foundationdb/src/backend.rs:420-483 | a batch equals the per-key lookups in order, or fails exactly when some key is too long; a snapshot makes one range request for each pair of a chunk, reads for update none |

## Left out

- Floating-point kernels, Lloyd training, hashing, vector preprocessing and their errors: function values without laws beyond determinism, or symmetry where a statement names it.
- The failure of a mean in refinement and of the consumer callback in construction: both only abandon private state.
- File input and output, buffering, corrupt scratch files and the memory arithmetic of `resident_rows`: a run is a sequence of rows with a byte size, and the allowance is a number of rows.
- The standard library's binary heap, selection and sorting: modelled by their contracts, with simple loops or insertion in their place.
- Construction.Workspace.ConstructTree: takes records already ordered by ID, as its caller promises; it checks ID lengths but not the order.
- GraphValidator.Decode: ends where the validated bytes are handed to the native loader, which is not part of this model.
- The native engine's own serializer, and the vendored engine's search, insertion and pruning; `ensure_successor` is modelled because repair depends on it.
- VisitedSlots.Bitmap.Reserve: moving a bitmap from one owner to another is not modelled.
- Refinement.RefreshInternalCenters: takes the partitions already sorted child before parent; the sort by level and key that precedes it is not modelled.
- Condition variables and notifications are modelled by their documented wake-up rules; memory ordering below sequential consistency is not modelled.
- The admission queue's waiting semaphore, operation deadlines and maintenance queue of the runtime: an operation that is not admitted only ever returns an error.
- CommitBoundary.AbortExcludesCommit: covers abortion by cancellation, deadline and dropped callers, not the shutdown of the executor itself.
- WriteActor.Serve: native reads, scans and the mapping of native errors are outcomes of commands.
- Scans, pagination, range clears and the diagnostic build of the memory adapter.
- CoalescedReads.BatchGet: concurrent reads are performed one after another; a failed native read is not modelled.
- Split and merge maintenance, routing, the partition cache, bulk publication and the storage codecs other than the partition plan: each would add members of the kinds above.
- Metrics, tracing, poisoned locks, configuration builders and error formatting.
