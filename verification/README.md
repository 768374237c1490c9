# GoDatabase: the storage engine, its tables and its queries, verified

The project models the core of GoDatabase and proves what it is for.

- The durable store: batches of changes are applied to a copy-on-write B+Tree of 4096-byte
  pages and published by writing pages, a free list and one of two metadata slots, with a
  sync after each. `CommitProtocol` is this protocol as a state machine in which writes can
  be lost or torn, syncs can fail and power can go at any step. `KvStore` is the code; each
  of its calls is proved to be a run of the state machine.
- The page tree (`PageTrees` to `PageTreeOps`), its pages as decoded entries (`PageNodes`)
  and as bytes (`PageBytes`, `SealedPages`). `PageShapes` shows that what an update makes
  is determined by the tree and the update, page ids apart.
- Recovery from arbitrary pages and slots (`PageLoaders`, `FreeLists`, `Recovery`), and from
  arbitrary bytes (`FileBytes`).
- The in-memory B+Tree: first on values (`BPlusTrees`), then on linked, mutable nodes with
  a chain of leaves (`MemoryNodes` to `MemoryStore`), refining the former.
- Tables: codecs, rows, secondary indexes, transactions, and SELECT with its access paths
  (`Codecs` to `Selection`, and `TableTransactions`). `Relations` says what they come to for
  a client, about rows and values alone; `DurableTables` joins the batches that they publish
  to the store.
- The read cache (`LruCache`).

Objects that the source changes in place are classes here, loops are loops, and each method
is proved against a function or predicate on values about which the laws are proved.

## Two properties that do not hold

**A removal can fail for size.** Removing the first key of a child puts a longer key in its
parent, which may have no room for it. `PageRemoval.After` computes from the tree alone
whether that happens; `PageTree.Delete` fails on a storable key exactly then, and
`PageWitnesses.RemovalCanFail` is such a tree. A caller can rule it out from the map:
`PageRemoval.OverflowMeans` says that the next key is then longer. A failed removal keeps the
root and all stored pages, but not the page ids it has taken; the update that it is part of
puts those back (`KV.TakeBack`), and `KV.Commit` leaves memory as it was.

**Recovery can reject a generation that was committed.** When opening, the code rejects an
internal root with one child and any child of at most a quarter page that would fit together
with a neighbour. Insertion splits greedily and does not keep the second condition
(`PageWitnesses.SplitCanUntidy`), and removal replaces a root by its only child without a
look at the first (`PageWitnesses.RootCanNarrow`). `TidyVersion` is the condition. In
every run, if the newest whole generation is untidy, only an older one can be opened
(`CommitWitnesses.UntidyIsLost`), and `CommitWitnesses.AcknowledgedCanBeLost` leads the code
to acknowledge a batch that is then lost. The
protocol is therefore stated for recovery without these two checks (`strict` is false in
`Recovers`), and `CrashAtomicity`, `StrictIffTidy` and `KV.Repair` say that the checks make
no difference if and only if the newest whole generation is tidy; if it is not, an older
generation or none is taken.

## Model

| member | source | states |
|---|---|---|
| `CommitProtocol.CrashAtomicity` | internal/btree/kv.go:193-324 | after any run, whatever a power loss leaves of the unsynced pages and slots, a generation is recovered; it holds all confirmed batches, or those and the one in flight, never a mixture; every page then has one owner; the occupancy checks accept it if and only if it is tidy |
| `CommitProtocol.AcknowledgedSurvives` | internal/btree/page_manager.go:244-295 | once a batch is acknowledged it stays in the confirmed history, with all batches before it in order; and what any later crash recovers is the newest confirmed generation, with exactly the confirmed batches, or the one in flight, with these and its own |
| `CommitProtocol.ReadsAtomic` | internal/btree/kv.go:193-302 | at every step of every run memory holds the confirmed batches, or those and the one in flight |
| `CommitProtocol.LogGrows` | internal/btree/kv.go:193-324 | the sequence of confirmed batches only ever grows |
| `CommitProtocol.PageConservation` | internal/btree/kv.go:193-302 | in every reachable state each page id has exactly one owner (live tree, reusable, retired, list page or pending), in memory, in the plan being written and in the list being published |
| `CommitProtocol.TreeWritesProtect` | internal/btree/page_manager.go:160-187 | no tree-page write, torn or whole, touches a page of the newest generation, of the one in flight, or of the generation before the newest |
| `CommitProtocol.ListWritesProtect` | internal/btree/page_manager.go:297-400 | no list-page write touches a page of the newest generation |
| `CommitProtocol.NextKeeps` | internal/btree/kv.go:193-324 | each of the fifteen kinds of step, failures, repairs and crashes among them, keeps the invariant that ties memory, file and history together |
| `CommitProtocol.RunInv` | internal/btree/kv.go:193-324 | the invariant holds at every state of every run |
| `CommitProtocol.CrashPicks` | internal/btree/kv.go:441-498 | whatever a crash leaves, the newest whole generation is the base or the one in flight, and nothing else is recovered |
| `PageFiles.SafeCrash` | internal/btree/page_manager.go:210-231 | a generation none of whose pages is unsynced is whole in every file that a crash can leave |
| `PageFiles.SafeWrite` | internal/btree/page_manager.go:210-231 | writing a page outside a generation leaves the generation safe |
| `PageFiles.SafeSync` | internal/btree/page_manager.go:244-295 | a sync makes every generation that is whole in the file safe |
| `PageFiles.SafeCut` | internal/btree/kv.go:291-302 | shortening the file to no less than a generation uses leaves it safe |
| `KvStore.KV.Create` | internal/btree/page_manager.go:60-129 | a new store is the initial state of the protocol: generation 0, no pages, empty map |
| `KvStore.KV.Commit` | internal/btree/kv.go:193-289 | under any injected failures the call is a run of the protocol. Success: the map is the old one with the batch applied, the batch is last in the log, the new tree is made from the old one by a chain of insertions and removals none of which is refused, and the slot of the old generation is untouched. Anything else leaves tree, pages and page manager as they were. Unchanged: every mutation removes a missing key. A failure is an injected one; or the mutation is refused by the tree at the end of the chain that the mutations before it make from the old one; or the ids above the last one are fewer than a stated number |
| `KvStore.KV.Update` | internal/btree/kv.go:193-289 | the same on top of what a repair finds, where the outcome of the last commit is not known; where nothing in the file passes all checks, and only then, it fails for that and changes nothing |
| `KvStore.KV.Finish` | internal/btree/page_manager.go:244-295 | the part of a commit after the tree pages are synced: complete, with the slot of the old generation kept and both slots durable, or memory is unchanged and the outcome is marked unknown; ids run out exactly when the free list takes more new pages than there are ids |
| `KvStore.KV.PublishRoot` | internal/btree/page_manager.go:244-295 | list, metadata and the two syncs in order; success moves memory to the new generation; ids run out exactly when the free list takes more new pages than there are ids |
| `KvStore.KV.WritePages` | internal/btree/kv.go:256-272 | tree pages are written one step at a time; failure leaves a prefix of them and the protocol in its writing phase |
| `KvStore.KV.WriteList` | internal/btree/page_manager.go:297-400 | the same for the pages of the free list |
| `KvStore.KV.WriteMetadata` | internal/btree/page_manager.go:602-625 | the slot of the new generation is written and synced, the other one is kept; a failure leaves it unpublished or in flight |
| `KvStore.KV.StoreList` | internal/btree/page_manager.go:297-400 | the list is planned, written and synced, or the commit stops in that phase |
| `KvStore.KV.TakeBack` | internal/btree/kv.go:291-302 | rollback restores the page manager and cuts the file unless the cut fails |
| `KvStore.KV.Repair` | internal/btree/kv.go:304-324 | succeeds exactly when some generation in the file passes all checks, and loads the newest that does. If the newest whole generation is tidy, it is that one and loading it is a step of the protocol; if it is not, it is an older one, namely the base where that is tidy and the newest was in flight. A failed repair changes nothing, and the file is only read |
| `KvStore.ReachablePageMap` | internal/btree/kv.go:541-558 | the pages kept in memory are exactly those of the tree |
| `KvStore.ReachablePages` | internal/btree/kv.go:541-558 | adds exactly the pages of one subtree |
| `KvStore.RunGoesOn` | internal/btree/kv.go:193-324 | what a call does continues the run before it |
| `KvUpdates.ApplyMutations` | internal/btree/kv.go:165-191 | done, the tree holds the map with all mutations applied in order, is the end of a chain of insertions and removals from the old tree none of which is refused, and has changed exactly if some mutation sets a key or removes one that is there; rejected, the mutation named is refused by the tree at the end of the chain that the mutations before it make; ids run out only if fewer pages could be reserved than a batch of this length and a tree of this height can take |
| `KvUpdates.AdvancedPrepares` | internal/btree/kv.go:193-262 | the pages an update has made are exactly what a commit may write |
| `Recovery.RecoverCommittedPages` | internal/btree/kv.go:441-498 | succeeds if and only if some generation can be recovered, loads exactly its pages, and gives every other page an owner |
| `Recovery.RecoversOnce` | internal/btree/kv.go:441-498 | the file determines what is recovered |
| `Recovery.StrictIffTidy` | internal/btree/kv.go:441-498 | the occupancy checks change the outcome of recovery exactly when the newest whole generation is not tidy |
| `Recovery.StandsWhenTidy` | internal/btree/kv.go:344-434 | what the walk accepts is the right shape and tidiness, nothing else |
| `Recovery.IntactOnce` | internal/btree/page_manager.go:515-600 | a metadata record stands for at most one pair of free list and tree |
| `Recovery.IntactFrame` | internal/btree/page_manager.go:515-600 | whether a generation is whole depends on its own pages only |
| `Recovery.RecoveredOwned` | internal/btree/kv.go:500-539 | after recovery every page id has exactly one owner |
| `Recovery.ReconcilePageOwnership` | internal/btree/kv.go:500-539 | fails if and only if some page is used twice or is out of range; otherwise the pages nobody mentions become pending, in order |
| `Recovery.ClaimAll` | internal/btree/kv.go:500-539 | claims a list of ids if and only if none is out of range, claimed already or repeated |
| `Recovery.IntactClaims` | internal/btree/kv.go:500-539 | the ownership check fails exactly when tree and lists overlap |
| `Recovery.SetAside` | internal/btree/kv.go:500-539 | every unclaimed page, once and in ascending order, becomes pending |
| `Recovery.TryGeneration` | internal/btree/kv.go:441-498 | one candidate is accepted if and only if its tree stands and no page has two uses |
| `Recovery.ReadRootMetadataSlot` | internal/btree/page_manager.go:515-600 | a slot is readable if and only if its record is in range and its free list loads |
| `Recovery.ReadCandidates` | internal/btree/kv.go:441-498 | the readable records, newest first |
| `PageLoaders.LoadCommittedPages` | internal/btree/kv.go:344-434 | for arbitrary page contents, cycles included, the walk ends; it accepts if and only if the pages form a finite unshared tidy tree of uniform depth within bounds, and returns exactly its pages |
| `PageLoaders.StandsOnce` | internal/btree/kv.go:344-434 | at most one tree is accepted from a file |
| `PageLoaders.StandsHolds` | internal/btree/kv.go:344-434 | an accepted tree satisfies the invariant of the page tree, so lookups and updates on it are correct |
| `PageLoaders.PageLoader.Walk` | internal/btree/kv.go:354-429 | accepts a subtree if and only if it is one the file holds within the given bounds and depth |
| `PageLoaders.PageLoader.CheckPage` | internal/btree/kv.go:372-392 | the checks on one page |
| `PageLoaders.PageLoader.CheckSiblings` | internal/btree/kv.go:412-424 | accepts if and only if no child is small and mergeable with a neighbour |
| `FreeLists.LoadFreeList` | internal/btree/page_manager.go:627-693 | succeeds if and only if the record and the chain of pages stand for lists, and returns them |
| `FreeLists.ListStandsOnce` | internal/btree/page_manager.go:627-693 | a record and its pages stand for one triple of lists at most |
| `FreeLists.SnapshotRoundTrip` | internal/btree/page_manager.go:297-400 | a written chain loads back as the same reusable, retired and list pages in the same order |
| `FreeLists.SearchNodeCount` | internal/btree/page_manager.go:313-332 | the page count at which the remaining ids fill the pages with none empty, old list pages taken out; or, where there is none, a count with new pages only |
| `FreeLists.PlanSnapshot` | internal/btree/page_manager.go:297-400 | every id goes to exactly one list; only list pages are reused for the list; new ids follow the last one, as many as the plan takes; it fails exactly when that is more than there are |
| `FreeLists.WriteFreeListSnapshot` | internal/btree/page_manager.go:297-400 | the same on the page manager, with the metadata that describes the result |
| `FreeLists.SnapshotOwned` | internal/btree/page_manager.go:297-400 | a snapshot keeps single ownership of every page and lists no live page |
| `FreeLists.ReadPage` | internal/btree/page_manager.go:644-683 | one page is accepted if and only if it may follow the ids read so far |
| `FreeLists.TakeIds` | internal/btree/page_manager.go:661-678 | ids are split at the recorded sequence into reusable and retired |
| `FreeLists.AssignNodes` | internal/btree/page_manager.go:334-350 | old list pages are taken from the reusable ids before new ids are; it fails exactly when too few new ids are left |
| `FreeLists.Recyclable` | internal/btree/page_manager.go:304-312 | exactly the eligible pages that already are list pages, in order |
| `PageManagers.PageManager.ReservePage` | internal/btree/page_manager.go:160-173 | the newest reusable page if there is one, else the next id; fails exactly when both run out, and else one page fewer can be reserved |
| `PageManagers.PageManager.FreePage` | internal/btree/page_manager.go:175-187 | accepts exactly allocated pages that are in none of the lists, and makes them pending |
| `PageManagers.PageManager.Restore` | internal/btree/page_manager.go:435-448 | the state becomes the given one |
| `PageBytes.EntryReads` | internal/btree/page.go:51-90 | key, value and pointer of every appended entry read back as appended, whatever was appended after it |
| `PageBytes.AppendKV` | internal/btree/page.go:96-141 | writing entry idx succeeds if and only if the index is in range, the entry is admissible and its record fits; then the entries before it are undisturbed and it follows them; a refusal changes nothing |
| `PageBytes.AppendRange` | internal/btree/page.go:143-159 | succeeds if and only if all entries of the range can follow those before the start; otherwise a prefix of them has been copied |
| `PageBytes.WrittenLaid` | internal/btree/page.go:128-139 | pointer, record and offset of a new entry overwrite nothing laid out before |
| `PageBytes.SetHeader` | internal/btree/page.go:44-49 | writes the header and nothing else; where pointers and offsets can be addressed, a buffer of any content becomes an empty node for the given count |
| `PageBytes.ValidatePage` | internal/btree/page.go:222-299 | accepts exactly the pages that store a valid node |
| `PageBytes.StoredReads` | internal/btree/page.go:222-299 | on an accepted page all accessors stay in bounds, keys ascend strictly, the used size is the size of the node, and no other node is stored |
| `PageBytes.DecodePage` | internal/btree/page.go:194-220 | returns the node a page stores and fails on every other page |
| `PageBytes.EncodePage` | internal/btree/page.go:169-192 | succeeds exactly on valid nodes, with a page that stores the node |
| `PageBytes.LaidOnce` | internal/btree/page.go:194-220 | a buffer holds at most one sequence of entries |
| `PageBytes.EncodeIsTakes` | internal/btree/page.go:96-141 | the size rule for decoded nodes is the one the byte code follows |
| `PageBytes.CheckPointers` | internal/btree/page.go:243-251 | accepts exactly pages whose pointers are zero on leaves and non-zero elsewhere |
| `SealedPages.EncodeListNode` | internal/btree/free_list.go:30-48 | succeeds exactly on nodes of 1 to 508 non-zero ids, with a page that stores the node, for every checksum function |
| `SealedPages.DecodeListNode` | internal/btree/free_list.go:50-79 | returns the list node a page stores and fails on every other page |
| `SealedPages.ListStoredOnce` | internal/btree/free_list.go:50-79 | a page stores at most one list node, and never a list node and a tree node both |
| `SealedPages.EncodeSlot` | internal/btree/page_manager.go:602-625 | writes a page that stores the metadata record |
| `SealedPages.DecodeSlot` | internal/btree/page_manager.go:515-556 | returns the record a version 3 slot stores and fails on every other page |
| `SealedPages.SealedReads` | internal/btree/free_list.go:57-62 | the comparison a reader makes holds exactly on sealed pages |
| `PageTreeOps.PageTree.Insert` | internal/btree/page_tree.go:152-210 | no page is modified; a storable entry is inserted unless fewer pages can be reserved than the insertion takes, which the tree, the key and the value determine; then the contents are the map with the key set, exactly that many pages are new, released and new pages balance, the tree has the shape that splitting each page on the path greedily gives, and it keeps sentinel, order, uniform depth, page size and no sharing |
| `PageTreeOps.PageTree.Delete` | internal/btree/page_tree.go:212-253 | no page is modified; a removal makes the tree that the old tree and the key determine, page ids apart; ids run out exactly when fewer pages can be reserved than the removal takes; else it fails on a storable key if and only if the key is present and some page above would overflow, and then the next key is longer and a page with the key as a link lacks the room; a failure keeps the root and every page that is stored, and the ids it has taken stay taken until the update is rolled back |
| `PageRemoval.LeafAfter` | internal/btree/page_tree.go:358-368 | what the exact condition of a failing removal computes for a leaf is the leaf without the key |
| `PageWitnesses.RemovalCanFail` | internal/btree/page_tree.go:312-338 | a sound, tidy tree from which a stored key cannot be removed |
| `PageWitnesses.SplitCanUntidy` | internal/btree/page_tree.go:392-447 | a tree of two leaves, tidy on whichever pages it lies, that an insertion turns, whichever pages it takes, into one whose occupancy recovery rejects |
| `PageTreeOps.PageTree.InsertNode` | internal/btree/page_tree.go:392-420 | inserts below a page at any height and returns its new content |
| `PageTreeOps.PageTree.ReplaceChild` | internal/btree/page_tree.go:422-447 | one child gives way to at most three; always fits the double-size buffer |
| `PageTreeOps.PageTree.NewRootFor` | internal/btree/page_tree.go:185-203 | a root that has to be split gets a new root above it |
| `PageTreeOps.PageTree.FirstInsert` | internal/btree/page_tree.go:160-171 | the first entry makes a leaf with the sentinel and the entry |
| `PageTreeOps.PageTree.Release` | internal/btree/page_tree.go:205-209 | every page released is accepted, so the page manager never rejects a page of the tree |
| `PageTreeOps.PageTree.New` | internal/btree/kv.go:220-234 | a stored page gets an id no page has; it fails exactly when none can be reserved |
| `PageTreeOps.PageTree.DeleteNode` | internal/btree/page_tree.go:255-310 | removes below a page; reports a missing key exactly when it is missing |
| `PageTreeOps.PageTree.ReplaceAfterDelete` | internal/btree/page_tree.go:312-338 | rebuilds the parent in one page; fails exactly when the new link does not fit |
| `PageTreeOps.PageTree.ChoosePage` | internal/btree/page_tree.go:283-304 | the changed page, or its union with a neighbour, as the sizes settle; a page that is not empty and not joined is larger than a quarter page or fits with neither neighbour |
| `PageTreeOps.PageTree.StoreUpdatedRoot` | internal/btree/page_tree.go:239-252 | a root left with the sentinel alone goes away, one with a single child gives way to it |
| `PageTreeOps.PageTree.GetValue` | internal/btree/page_tree.go:27-55 | returns the value the map has for the key, and an error for the empty key |
| `PageTreeOps.PageTree.RangeValues` | internal/btree/page_tree.go:57-102 | returns exactly the entries from start to end, each once, ascending |
| `PageTreeOps.PageTree.SeekRangeStart` | internal/btree/page_tree.go:104-124 | everything left of the position found is below the start |
| `PageTreeOps.PageTree.NextLeaf` | internal/btree/page_tree.go:126-150 | the next leaf is the first of the entries not yet visited |
| `PageRanges.InRangeSorted` | internal/btree/page_tree.go:57-102 | what a range scan returns is sorted and is the map restricted to the bounds |
| `PageNodes.NodeSplit3` | internal/btree/page_tree.go:510-540 | a node of at most 8177 bytes whose entries each fit a page always splits, into at most three non-empty pages that join to it, none with room for the first entry of the next |
| `PageNodes.GreedyOnce` | internal/btree/page_tree.go:510-540 | there is one such split |
| `PageTreeSteps.EnlargedSplits` | internal/btree/page_tree.go:422-447 | an internal node with one child replaced by at most three, or a leaf with one more entry, is within the bound for splitting |
| `PageTreeSteps.LeafPut` | internal/btree/page_tree.go:480-508 | inserting or updating at the position found is setting the key in the sorted entries |
| `PageNodes.Validate` | internal/btree/page.go:222-299 | accepts exactly valid nodes |
| `MemoryStore.Memory.Set` | internal/btree/tree.go:37-61 | the contents are the old map with the key set; the tree stays balanced, filled and chained |
| `MemoryStore.Memory.Delete` | internal/btree/tree.go:161-181 | the contents are the old map without the key; reports whether it was there |
| `MemoryStore.Memory.Get` | internal/btree/tree.go:18-35 | returns the value the map has |
| `MemoryStore.Memory.Range` | internal/btree/memory.go:38-61 | walking the leaf chain yields exactly the entries between the bounds, ascending |
| `MemoryStore.BetweenSorted` | internal/btree/memory.go:38-61 | those entries are sorted and are the map restricted to the bounds |
| `MemoryStore.LeavesHold` | internal/btree/tree.go:117-131 | the chain of leaves holds the entries of the tree in order |
| `MemoryStore.SeekLeaf` | internal/btree/memory.go:38-61 | all leaves before the one found are below the bound, all after it above |
| `MemoryStore.ScanChain` | internal/btree/memory.go:38-61 | a walk along the chain stops without missing an entry |
| `BPlusTrees.SetKeeps` | internal/btree/tree.go:37-61 | an insertion with its root split keeps depth, occupancy and separators, and sets the key |
| `BPlusTrees.DeleteKeeps` | internal/btree/tree.go:161-181 | a removal with its root collapse keeps them and removes the key |
| `BPlusTrees.InsertIsPut` | internal/btree/tree.go:69-98 | insertion below any node is setting the key in its entries, within its bounds |
| `BPlusTrees.InsertFills` | internal/btree/tree.go:69-98 | insertion keeps every node between half and full |
| `BPlusTrees.DeleteIsRemove` | internal/btree/tree.go:183-211 | removal below any node removes the key if there, keeps bounds and occupancy, and shrinks the node by at most one |
| `BPlusTrees.DepthBound` | internal/btree/tree.go:11-16 | a tree of height h holds at least 2^h entries |
| `BPlusTrees.FindBelow` | internal/btree/tree.go:18-35 | the child the search descends to has the key if any has |
| `BPlusTrees.CutWithin` | internal/btree/tree.go:133-145 | cutting a node keeps its entries and gives a separator that bounds both halves |
| `BPlusTrees.JoinWithin` | internal/btree/tree.go:281-297 | joining two neighbours around their separator keeps entries and bounds |
| `MemoryTrees.InsertNode` | internal/btree/tree.go:69-98 | on linked nodes, insertion refines the insertion on trees and keeps the leaf chain |
| `MemoryTrees.InsertIntoLeaf` | internal/btree/tree.go:100-109 | keys and values become those of the sorted entries with the key set |
| `MemoryTrees.InsertIntoInternal` | internal/btree/tree.go:111-115 | the two halves take the place of the split child |
| `MemoryTrees.SplitLeaf` | internal/btree/tree.go:117-131 | cuts a leaf in half and links the new half after it |
| `MemoryTrees.SplitInternal` | internal/btree/tree.go:133-145 | cuts an internal node and moves the middle key up |
| `MemoryTrees.DeleteFromNode` | internal/btree/tree.go:183-211 | on linked nodes, removal refines the removal on trees and keeps the leaf chain; a missing key changes nothing |
| `MemoryTrees.RebalanceChild` | internal/btree/tree.go:213-237 | refines rebalancing on trees |
| `MemoryTrees.RotateFromLeft` | internal/btree/tree.go:239-259 | the two children are their join cut one entry earlier, and the chain is unchanged |
| `MemoryTrees.RotateFromRight` | internal/btree/tree.go:261-279 | the two children are their join cut one entry later, and the chain is unchanged |
| `MemoryTrees.MergeChildren` | internal/btree/tree.go:281-297 | the two children become their join, and the chain skips the right one |
| `MemoryTrees.RepairChild` | internal/btree/tree.go:196-211 | separator and occupancy are repaired after a removal below |
| `MemoryTrees.MinimumKeyOf` | internal/btree/trace.go:70-77 | the smallest key below a node |
| `MemoryTrees.LowerBound` | internal/btree/node.go:13-19 | the first position whose key is not smaller |
| `Codecs.EscapePrefixFree` | db/table.go:342-352 | no escaped string is a proper start of another, and escaping is one to one |
| `Codecs.EscapeOrder` | db/table.go:342-352 | escaping preserves the order, whatever follows |
| `Codecs.EscapeBytes` | db/table.go:342-352 | the loop computes the escape |
| `Codecs.DecodeEscapedComponent` | db/index.go:319-336 | succeeds exactly on escaped strings and inverts the escape |
| `Codecs.BEOrder` | db/table.go:609-657 | big-endian integers of one width are ordered as numbers |
| `Schemas.ValidateSchema` | db/table.go:313-335 | accepts exactly valid schemas |
| `Schemas.ValuePrefixFree` | db/table.go:609-657 | encodings of the values of a column are prefix-free and one to one |
| `Schemas.EncodeOnce` | db/table.go:609-657 | encoding is one to one, on primary keys too |
| `Schemas.ValueOrder` | db/table.go:609-657 | encodings are ordered as the values are |
| `Schemas.PrimaryOrder` | db/table.go:609-657 | for primary keys both ways |
| `Schemas.DecodeValue` | db/table.go:547-590 | succeeds exactly on encodings and inverts them, except that primary keys of type BYTES or BOOL are never read back |
| `Schemas.DecodePrimaryKey` | db/table.go:592-600 | the same for primary keys |
| `Rows.EncodeRow` | db/table.go:441-495 | succeeds exactly for rows that name columns only, have an admitted value in each, and are short enough; returns key and value as they are stored |
| `Rows.DecodeRow` | db/table.go:497-545 | succeeds exactly on strings that are the encoding of a row, and returns it |
| `Rows.RowRoundTrip` | db/table.go:441-545 | what was encoded is decoded as the row without its primary key |
| `Rows.RowOnce` | db/table.go:497-545 | a string decodes to one row |
| `Rows.IdsAreOthers` | db/table.go:510-543 | strictly increasing column ids, as many as there are other columns, are all of the other columns |
| `Rows.ReadCell` | db/table.go:517-540 | one cell is read if and only if the bytes are those of a cell with a large enough id |
| `Descriptors.DecodeDescriptor` | db/table.go:395-439 | succeeds exactly on descriptors of valid schemas and returns the schema |
| `Descriptors.DescriptorOnce` | db/table.go:395-439 | a string describes one schema |
| `Descriptors.EncodeDescriptor` | db/table.go:354-384 | the loop writes the descriptor |
| `Descriptors.DecodeIndexMetadata` | db/index.go:246-261 | succeeds exactly on definitions of an index of that name |
| `Descriptors.IndexOnce` | db/index.go:228-244 | a definition describes one index |
| `IndexUpkeep.RunsKeepIndexes` | db/transaction_table.go:12-131 | in every run of table creations, row insertions, updates, deletions, index creations and transactions of several of them, every index holds exactly the entries of the current rows and no unique value has two owners |
| `IndexUpkeep.StepKeeps` | db/transaction_table.go:12-131 | each step keeps that, for all tables at once |
| `IndexUpkeep.ReplacedKeeps` | db/transaction_table.go:39-110 | replacing, adding or removing one row with its entries keeps a table consistent |
| `IndexUpkeep.CreatedKeeps` | db/index.go:94-154 | so does defining and filling an index |
| `IndexUpkeep.UntouchedKeeps` | db/transaction_table.go:112-131 | and any change to other tables |
| `TableData.UniqueOwner` | db/transaction_table.go:133-155 | two rows of a consistent table with the same value in a uniquely indexed column are the same row |
| `TableData.RowKeyOnce` | db/table.go:252-262 | a row key names one table and one primary key |
| `TableData.EntryPrefixOnce` | db/index.go:202-218 | an entry key names one table and one index |
| `TableData.EntryKeyOnce` | db/index.go:220-226 | and one value, and one row unless values are unique |
| `Tables.InsertRow` | db/transaction_table.go:12-31 | each outcome has its exact condition; success adds the row and its entries and nothing else; any other outcome changes nothing |
| `Tables.UpdateRow` | db/transaction_table.go:39-71 | each outcome has its exact condition; success replaces the row and its entries |
| `Tables.DeleteRow` | db/transaction_table.go:85-110 | deletes the row and its entries exactly when the row is there |
| `Tables.TransactionIndexEntries` | db/transaction_table.go:133-155 | gives the entry keys of a row if and only if no unique index refuses it |
| `Tables.MutateTable` | db/transaction_table.go:112-131 | the outcome of a row operation in a transaction is exactly what its view says; done, the view has the named row replaced with all its entries, and the buffer has just those keys; otherwise nothing changes |
| `Tables.Mutate` | db/table.go:221-238 | the same outside a transaction on the database, done exactly when nobody else is writing, the operation is admissible and all keys fit; it publishes one batch, which is one step of the database |
| `Tables.FindByIndex` | db/index.go:19-83 | succeeds exactly for a known index and an encodable value, and equals the full scan filtered by that value, in primary-key order |
| `Tables.CreateIndex` | db/index.go:94-154 | succeeds exactly when the database is open without a writer, the index is valid and new, no two rows clash under a unique index, and all bindings can be stored; then the index is defined and filled by one batch, which is one step of the database; otherwise nothing changes |
| `Tables.BackfillIndex` | db/index.go:118-146 | the entries of all rows, or none exactly when two rows share a value that must be unique |
| `Tables.LoadIndexes` | db/index.go:263-290 | the indexes loaded are exactly those defined |
| `Tables.ValidateIndex` | db/index.go:170-179 | accepts exactly valid indexes |
| `Tables.PrefixEnd` | db/index.go:308-317 | above every string with the prefix exactly when the prefix is not all 0xff, and nothing else lies between |
| `Tables.ScanPrefix` | db/index.go:292-306 | exactly the bindings whose keys start with the prefix, ascending; of a prefix of 0xff bytes, only the prefix itself and it followed by a zero byte |
| `Transactions.Database.Begin` | db/db.go:63-76 | refused exactly when closed or when a second writer would be open |
| `Transactions.Database.Set` | db/db.go:285-302 | refused exactly when closed, a writer is open, or the key is empty; the map stays what the published batches make |
| `Transactions.Database.Delete` | db/db.go:328-349 | refused exactly when closed or a writer is open; the map stays what the published batches make |
| `Transactions.Database.ApplyBatch` | db/db.go:391-414 | all changes in order, as one published batch, or none exactly when one is malformed |
| `Transactions.OrderIsOverlay` | db/db.go:233-238 | applying the buffered changes in the order of first use equals the overlay that reads see |
| `Transactions.Tx.Set` | db/db.go:98-101 | the view gains the binding, or nothing changes |
| `Transactions.Tx.Delete` | db/db.go:103-124 | the view loses the key exactly when it was there |
| `Transactions.Tx.Value` | db/db.go:240-245 | reads equal the committed map overlaid with the buffered changes |
| `Transactions.Tx.Range` | db/db.go:127-167 | exactly the overlaid bindings within the bounds, ascending |
| `Transactions.Tx.Commit` | db/db.go:170-198 | the database becomes the view of the transaction, by one batch of the buffered changes in order, or nothing changes, each with its exact condition |
| `Transactions.Tx.Rollback` | db/db.go:201-212 | changes no data and admits the next writer |
| `Selection.ExecuteSelect` | internal/sql/executor.go:114-165 | exactly the rows that satisfy all predicates, ascending by primary key, each with exactly the columns asked for and their values; fails exactly for an invalid statement or a key that cannot be asked for |
| `Selection.SelectedOnce` | internal/sql/executor.go:167-221 | that result is the same for every access path and every order of the predicates |
| `Selection.SelectRows` | internal/sql/executor.go:167-207 | whichever access path is chosen, no satisfying row is missed; it fails exactly when the first key asked for is none, or else one of the two tightest bounds |
| `Selection.KeyBounds` | internal/sql/executor.go:167-207 | the bounds hold for every satisfying row, and each is the tightest literal of its side, if there is one |
| `Selection.Matches` | internal/sql/executor.go:209-221 | a row matches exactly when it satisfies every predicate |
| `Selection.Scan` | db/table.go:51-62 | all rows of the table, in primary-key order |
| `Selection.Range` | db/table.go:66-88 | exactly the rows with primary keys within the bounds |
| `Selection.Get` | db/table.go:113-133 | exactly the row with that primary key |
| `Selection.DecodeRows` | db/table.go:90-109 | exactly the rows among the bindings given |
| `LruCache.RunTransparent` | internal/structures/cache.go:41-96 | over any run, with any calls failing, the store changes and the answers are as without the cache, except that a cached value is served where the store would have failed |
| `LruCache.StepTransparent` | internal/structures/cache.go:41-96 | the same for one call in any good state |
| `LruCache.StepKeeps` | internal/structures/cache.go:41-96 | cached values equal stored values, no key is cached twice, and at most capacity keys are cached |
| `LruCache.EvictsLeastRecent` | internal/structures/cache.go:66-72 | after any run an eviction takes exactly the key whose last successful read is oldest, and only from a full cache; otherwise a key leaves only when it is written |
| `LruCache.RunCounts` | internal/structures/cache.go:47-61 | hits and misses add up to the reads, hits and backing calls to all calls |
| `LruCache.Cache.Get` | internal/structures/cache.go:51-76 | list, map and counters follow the model step, and list and map hold the same entries |
| `LruCache.Cache.Set` | internal/structures/cache.go:77-86 | the same for writes |
| `LruCache.Cache.Delete` | internal/structures/cache.go:87-96 | the same for deletions |
| `LruCache.Cache.Invalidate` | internal/structures/cache.go:41-46 | drops the key from list and map alike |
| `LruCache.NewCache` | internal/structures/cache.go:34-39 | refuses capacities outside 1 to 256 |
| `Recovery.PassedOver` | internal/btree/kv.go:441-498 | when the newest whole generation is not tidy, what recovery accepts is strictly older |
| `KvUpdates.RefusedMeans` | internal/btree/page_tree.go:312-338 | a removal refused by a tree has a longer key after it in the map |
| `KvUpdates.ListShort` | internal/btree/page_manager.go:297-400 | a free list that no longer fits shows that the ids were fewer than the pages of the batch and of a list of all pages |
| `PageGrowth.InsertPagesBound` | internal/btree/page_tree.go:185-203 | an insertion takes at least one page a level, and at most three a level and one for a new root |
| `PageRemoval.DeletePagesBound` | internal/btree/page_tree.go:255-310 | a removal takes at most one page a level |
| `PageRemoval.OverflowMeans` | internal/btree/page_tree.go:312-338 | a removal fails for size only if the next key in the map is longer, and some page that has the key as a link has less room than the difference |
| `PageRemoval.AfterExplains` | internal/btree/page_tree.go:255-338 | what a removal leaves on a page starts as the entries without the key do; where it leaves none for size, the next key is longer and a page on the path lacks the room |
| `PageWitnesses.RootCanNarrow` | internal/btree/page_tree.go:239-252 | a sound tree in which a removal leaves the root with one entry, whose page has a single link |
| `CommitWitnesses.UntidyIsLost` | internal/btree/kv.go:412-424 | at the end of every run, if the newest whole generation that a crash leaves is untidy, acknowledged or in flight, then what passes all checks is an older generation |
| `CommitWitnesses.AcknowledgedCanBeLost` | internal/btree/kv.go:193-289 | a new store on which a commit of four entries succeeds without any fault, and after which opening the file with all checks finds the empty map, with or without a crash |
| `PageNodes.GreedyExists` | internal/btree/page_tree.go:510-540 | entries that each fit a page have a greedy split |
| `PageNodes.GreedyThree` | internal/btree/page_tree.go:510-540 | a greedy split of at most 8177 bytes has at most three parts |
| `FreeLists.NodePlanOnce` | internal/btree/page_manager.go:313-332 | there is one such count |
| `FreeLists.SnapshotNeedsBound` | internal/btree/page_manager.go:297-400 | a snapshot takes no more new pages than hold the ids of all pages |
| `FreeLists.ListPagesAre` | internal/btree/page_manager.go:304-312 | every list page among the ids, as often as it is there, and nothing else |
| `TableTransactions.Transact` | db/db.go:170-198 | once committed, the database is what the operations make of it one after the other, published as one batch, which is one step that keeps all tables; otherwise nothing changes, and then the writer was not admitted or some binding cannot be stored |
| `TableTransactions.TxRunPasses` | db/transaction_table.go:112-131 | the operations of a transaction keep tables, catalogue and indexes at every point |
| `TableTransactions.Apply` | db/transaction_table.go:112-131 | one operation of a transaction does to its view what it would do to the database |
| `DurableTables.RecoveredTables` | internal/btree/kv.go:165-324 | if every batch of a run of the store is a table operation or transaction, then in whatever a crash leaves, the recovered map has every index agree with its rows |
| `DurableTables.BatchIsList` | db/db.go:391-414 | the store and the table layer agree on what a list of changes does |
| `Selection.BoundOnce` | internal/sql/executor.go:167-207 | there is one tightest bound of a side |
| `KvUpdates.RefusedAtMeans` | internal/btree/kv.go:165-191 | a refused mutation cannot be stored, or removes a key whose successor in the map at that point is longer |
| `KvUpdates.ApplyOne` | internal/btree/kv.go:171-187 | one mutation is refused exactly by a tree that cannot take it, or else makes the tree that its insertion or removal makes |
| `KvUpdates.RefusedOnce` | internal/btree/kv.go:165-191 | no chain of accepted mutations passes a refused one, whichever pages each chain takes |
| `KvUpdates.RefusedOrAccepted` | internal/btree/kv.go:165-191 | a batch is refused at one mutation only, and then it is not accepted |
| `KvUpdates.ChainLike` | internal/btree/kv.go:165-191 | two chains of the same mutations from the same tree have the same trees, page ids apart |
| `PageShapes.AfterAlike` | internal/btree/page_tree.go:255-338 | what a removal leaves does not depend on page ids |
| `PageShapes.InsertLike` | internal/btree/page_tree.go:392-447 | insertions into trees that differ in page ids only make trees that differ in page ids only |
| `PageShapes.DeleteLike` | internal/btree/page_tree.go:212-338 | the same for removals |
| `CommitWitnesses.SplitChain` | internal/btree/page_tree.go:392-447 | four insertions into an empty store, whichever pages they take, make a tree that is tidy after the third and untidy after the fourth |
| `CommitWitnesses.StrictFindsNothing` | internal/btree/kv.go:441-498 | with the first record still beside an untidy generation, whatever a crash leaves opens as the empty store |
| `Tables.CreateTable` | db/table.go:136-162 | succeeds exactly when the database is open without a writer, the schema is valid, its name is free and its descriptor fits; then the table is catalogued, and a database of agreeing tables stays one |
| `Tables.OpenTable` | db/table.go:165-189 | what is found has the name asked for, the schema that its descriptor describes and all indexes defined for it; every table that is described and has readable definitions is found, so in a database of agreeing tables exactly the catalogued ones are |
| `Tables.OrderlyKeeps` | db/db.go:391-414 | if every published batch was one step of the database, all tables and indexes agree |
| `DurableTables.PublishedIsTabular` | db/db.go:391-414 | a store that keeps the batches published by table operations, idle ones excepted, holds the map of the table layer, and each of its batches is a table operation |
| `DurableTables.RecoveredDatabase` | internal/btree/kv.go:165-324 | in every run of the store on such batches, whatever a crash leaves, the recovered map is what the published batches make, or those and the one in flight, and every index agrees with its rows |
| `FileBytes.ReadContent` | internal/btree/page_manager.go:189-208 | both decoders together determine what a page of any bytes holds: a tree node, a list node or neither |
| `FileBytes.ReadSlot` | internal/btree/page_manager.go:515-600 | a metadata page of any bytes holds one record or none |
| `FileBytes.EncodedContent` | internal/btree/page_manager.go:602-625 | an encoded page or record holds what was encoded |
| `FileBytes.ReadFile` | internal/btree/page_manager.go:493-600 | what is read from a file of whole pages is the view that recovery is stated on |
| `FileBytes.WritesPage` | internal/btree/page_manager.go:210-231 | writing the bytes of a data page changes the view as writing what they hold, also beyond the end of the file |
| `FileBytes.WritesSlot` | internal/btree/page_manager.go:602-625 | the same for a metadata page |
| `FileBytes.CutsFile` | internal/btree/kv.go:291-302 | shortening the bytes drops the pages behind the new end |
| `FileBytes.WriteNode` | internal/btree/page_manager.go:210-231 | a valid node is encoded and written, and found again in the view; an invalid one is refused |
| `FileBytes.WriteListNode` | internal/btree/page_manager.go:297-400 | the same for a page of the free list |
| `FileBytes.WriteRecord` | internal/btree/page_manager.go:602-625 | the same for a metadata record |
| `FileBytes.NewFile` | internal/btree/page_manager.go:76-93 | a new file has the empty generation in its first slot and nothing else, as a run of the protocol starts |
| `FileBytes.OpenFile` | internal/btree/page_manager.go:60-129 | on a file of any bytes: an empty one is created; else it succeeds exactly when the size is that of whole pages and some generation passes all checks, and loads the newest of those |
| `KvStore.KV.Undo` | internal/btree/kv.go:291-302 | an update whose pages could not all be written leaves memory as it was and is a step of the protocol, whether or not the file can be shortened |
| `KvStore.KV.Abandon` | internal/btree/kv.go:273-289 | a failed publication leaves memory as it was, marks the outcome unknown and is a step of the protocol |
| `PageUpdates.StorableFits` | internal/btree/page_tree.go:456-467 | an entry may be stored exactly if its key is not empty and a leaf page can hold it behind the empty key at its front |
| `DurableTables.WellformedIsStorable` | db/db.go:391-414 | the limits of the database on keys and values are those of the store |
| `DurableTables.PublishedRefused` | internal/btree/kv.go:165-191 | a batch that the database publishes is refused by the store only at a removal whose successor in the map at that point is longer |
| `PageRemoval.ShapeJoins` | internal/btree/page_tree.go:283-304 | on every level of a removal the changed child is joined with its left neighbour, or else with its right one, exactly where recovery would reject it beside them; otherwise it stays a page of its own |
| `PageRemoval.RejoinsAt` | internal/btree/page_tree.go:283-304 | the same for the children of one page |
| `PageRemoval.RootSettled` | internal/btree/page_tree.go:239-252 | a root of the old height has at least two children, and a changed child that it keeps is none that recovery rejects |
| `Schemas.EncodesAdmitted` | db/table.go:609-657 | the values that can be encoded in a column are null where it is declared nullable, and those of its type |
| `Schemas.ColumnMayBe` | db/table.go:313-334 | a column is valid for any type; as primary key it is not nullable and has a type that can be read back |
| `Rows.MissingColumn` | db/table.go:453-461 | finds exactly a missing value in a column that is not nullable |
| `Relations.StoredRowsAdmit` | db/table.go:609-657 | in every stored row a column is null only if declared so, and otherwise has a value of its type |
| `Relations.RelationFits` | db/table.go:110-132 | the rows of a relation have all columns, with admitted values, and the key they are under |
| `Relations.VerdictMeans` | db/transaction_table.go:112-131 | the outcome of every row operation, said about the relation alone: invalid exactly if a value is not admitted or the binding cannot be stored, duplicate exactly if the key or a value that must be unique is there in another row, not found exactly if the key is missing |
| `Relations.PerformsMeans` | db/transaction_table.go:112-131 | an operation that is done changes the relation by its one row, which becomes the complete row given, or goes |
| `Relations.ReplacedRelation` | db/transaction_table.go:112-131 | replacing a stored row with its entries replaces one row of the relation and keeps all others |
| `Relations.ConflictMeans` | db/transaction_table.go:133-155 | an entry of a unique index is taken exactly if another row has the same value in that column |
| `Relations.InsertableIsAskable` | db/table.go:252-262 | the primary key of every row that can be inserted can be looked up and deleted |
| `Relations.DescriptorFits` | db/table.go:136-162 | a descriptor is refused for its size exactly if it cannot be stored |
| `Relations.ClashMeans` | db/index.go:94-154 | creating a unique index is refused exactly if two rows have the same value in its column |
| `Relations.FoundMeans` | db/index.go:19-91 | looking a value up through an index gives exactly the rows of the relation that have it |
| `Relations.LiteralMeans` | internal/sql/executor.go:287-326 | which value a literal is for a column type; null is none |
| `Relations.ValidMeans` | internal/sql/executor.go:287-326 | a predicate is valid exactly if its literal is a value of the type of its column |
| `Relations.SelectedMeans` | internal/sql/executor.go:114-165 | a SELECT returns exactly the rows of the relation that satisfy its predicates, ascending by the value of the key |
| `Relations.ComparisonsSelect` | internal/sql/executor.go:223-277 | the six comparisons on results: = selects the rows that have the value, < those with a lesser one, != the other non-null rows, <= and >= the unions, and exactly one of <, = and > each non-null row |
| `Relations.LessIsEncoded` | db/table.go:609-657 | in every column values are ordered as their encodings |
| `Relations.AndSelects` | internal/sql/executor.go:209-221 | several predicates select what each of them selects |
| `LruCache.RepeatHits` | internal/structures/cache.go:51-76 | after any history, once a read has found its key, the key is the most recent one held, and the same read is a hit with the same answer whatever the backing store does |
| `LruCache.HeldNext` | internal/structures/cache.go:51-98 | which keys are held after a call, from those held before and the history alone: the key a read has found, and every other one unless it was written or, in a full cache that takes a new key, least recently used |
| `LruCache.StepCounts` | internal/structures/cache.go:51-98 | each call counts exactly as a hit, a miss or a backing call; an eviction is counted exactly when a full cache takes a new key |
| `LruCache.FindsMeans` | internal/structures/cache.go:51-76 | a read finds a value exactly if the key is held, or the store has it and answers |
| `CommitProtocol.PagesComeBack` | internal/btree/page_manager.go:297-400 | the pages that a commit takes out of the tree, and the old list pages, are retired by it; pages retired before it are reusable after it or hold the new list |
| `KvUpdates.IdleMeans` | internal/btree/kv.go:165-191 | a batch that alters nothing only removes missing keys |
| `Codecs.LEDigit` | internal/btree/page.go:44-49 | in little-endian bytes position i has weight 256^i |
| `Codecs.BEMirrors` | db/table.go:609-657 | big-endian bytes are the mirror image |
| `SealedPages.ListRoom` | internal/btree/free_list.go:12-23 | a list page holds as many ids as there is room for behind its header |
| `PageManagers.LargestPage` | internal/btree/page_manager.go:469-478 | a page id is refused exactly if the offset of its page does not fit a signed 64-bit integer |
| `Relations.ByKeyFails` | internal/sql/executor.go:167-207 | a SELECT by primary key fails exactly if the key is no value of the column or cannot be stored |
| `Relations.ByRangeFails` | internal/sql/executor.go:167-207 | a SELECT by a range of primary keys fails exactly if one of the two bounds cannot be asked for |
| `Relations.OtherwiseReaches` | internal/sql/executor.go:167-207 | without a key or a lower bound on it a SELECT reaches all rows |
| `PageRemoval.LastKeyGone` | internal/btree/page_tree.go:239-252 | a leaf at the root goes away exactly with its last key |

## Left out

- The SQL lexer and parser, and CREATE TABLE and INSERT statements: they translate syntax into the calls modelled here.
- The durable branch of `Database`: it hands each published batch to the store, whose contract is `KvStore.KV.Commit`; `Transactions` models the in-memory branch, and a failure of the store is not passed on to it.
- CRC arithmetic: the checksum is an arbitrary function of the page; metadata versions 1 and 2 are not read.
- Torn slots: a metadata slot hit by a crash holds its old record, its new one or no readable record; that a torn record has no matching checksum is taken for granted.
- File locking and closing, and read errors while opening: a store starts as a created, synced file.
- Mutexes and goroutines: calls are sequential, as the locks make them.
- Tracing, timing, and the map and sorted-slice structures beside the B+Tree.
- Literals whose kind and Go value disagree: a literal carries a value of its kind.
- KvStore.KV.Update: when the last outcome is unknown and the newest whole generation is untidy, the case that repair goes back to an older generation is excluded, because what follows is no longer a run of the protocol; `KvStore.KV.Repair` states that case.
- KvUpdates.ApplyMutations: stops at the first page-id exhaustion, where the source finishes the operation and then reports it; the batch is abandoned either way.
- MemoryStore.Memory.constructor: takes a maximum of at least two keys, or 0 for the default of three; the source never uses one key.
- PageBytes.AppendKV: an entry beyond the next free position is not modelled; no caller writes one, and reading offsets that were never written has no meaning.
- PageBytes.AppendRange: a range beyond the next free position is not modelled, for the same reason.
- Codec widths: page ids and sequence numbers written to pages are below 2^64.
- Raw writes into the key ranges of tables: `RunsKeepIndexes` and `Transact` allow raw writes only outside them; the source does not check this.
- LruCache.RunTransparent: a failed write leaves the backing store unchanged; range reads, which pass the cache by, are not modelled.
