# Verification of MasterKeeper

A Dafny model of MasterKeeper, an embedded database, and proofs about it. The model covers the index
file (copy-on-write B+ trees that share a page allocator, with two superblocks), the write-ahead
log with its batch writer and recovery, the transaction overlay with unique validation, commit and
queries, the writer token, and the encodings of keys, pages and log records.

`dafny verify dfyconfig.toml` checks the whole project.

## How the model is organised

* **Trees as values.** `CowTree` follows insertion, deletion, splitting, merging and borrowing on trees whose
  nodes carry their page and generation, with the allocator threaded through in the order the
  program calls it. `TreeOrder`, `TreeInsert` and `TreeDelete` prove that they are search trees and
  maps, `TreePages` and `IndexFile` that pages are conserved and owned once, `TreeGens` which
  generations occur, `InsertAgain` that a generation copies a node at most once, `TreeChain`, `DeleteChains` and
  `ChainRuns` when the leaf chain survives, `TreeRange` what a scan visits, `SplitFits` that splitting
  makes nodes fit.
* **The index file as a program.** Class `PagedFile.DiskBPlusTree` has the fields and methods of the source:
  a page cache, dirty pages, free and orphan lists, a catalog, a disk of whole pages. Each method is
  proved to compute the tree functions; `PageStore` holds the reasoning about pages. `CommitCrash`,
  `Durability` and `CommitAgain` are about the commit protocol and crashes.
* **Any comparator, and the real one.** The tree theorems hold for every comparator that is a total order.
  `KeyCodec` models the comparator of the program, `KeyCompare` extends it from the keys of each
  index to a total order on all byte strings, and `SourceOrder` transfers the theorems.
* **The log.** `WalFormat` (bytes), `WalBatch` (the batch protocol as a state machine whose appends fail after any
  byte), `WalTorn` (what a torn record costs), `WalWriter` (class `WalManager`, proved to follow it),
  `WalSuccess` (when a batch succeeds), `WalRecovery`, `Replay` and `ReplayUnique`, `Recovery` and
  `RecoveryOrder`, and `CommitLog` and `LogUnique` (the log that commits write).
* **Tables.** `Overlay` (class `TableChanges`), `UniqueCheck`, `ShadowIndex`, `CommitApply`, `UniqueCommit`,
  `CommitTable`, `TableStorage`. `IndexCalls` and `CommitCalls` run a commit on the index file.
* **Queries.** `QueryPlan` (conditions, plans and their meaning), `IndexLookup`, `ValueScan` and `QueryList` (the
  lookups and loops, on the index file).
* **Encodings.** `BigEndian`, `Values`, `KeyCodec`, `PageLayout`, `NodeCodec`, `CatalogCodec`.
* **Concurrency.** `WriterToken`.

## Parameters of the model

The checksum (CRC32C in the program) is any total function; where it matters that a torn record is recognised,
that is a hypothesis on the run, `NoCollision`. The marshalling of records is a pair of
functions of which only the round trip is assumed. Failures of appends and syncs, the order in which
maps are iterated, the visitor of a scan, cancellations and the interleaving of callers are
inputs. The disk is a map from page numbers to whole pages; a torn page fails its checksum.

## Where the code does not do what one would expect

* A deletion can fail with an index out of range when it borrows (`TreeDelete.DeletePanics` gives the
  condition, `TreeDelete.DeleteFailsBesideFullLeaf` the simplest case).
* Deleting an absent key orphans live pages unless the whole path is current (`IndexFile.MissOwned`).
* Copying a leaf other than the first breaks the leaf chain (`TreeChain.InsertChain`).
* A crash between catalog and superblock write can leave a wrong end of file (`Durability.WindowOwned`), and a
  commit whose generation does not rise, as in recovery over an existing index, may stay invisible
  (`CommitCrash.CommitVisible`) and is atomic only under a condition (`CommitAgain.AtomicIff`).
* A record deleted and inserted again in one transaction is not found by id (`Overlay.TableChanges.FindById`).
* A unique value that an update gives up and another staged record takes can lose its index entry, depending on
  the order in which maps are iterated (`CommitTable.UniqueInEveryOrder`), and is lost again when that log is
  replayed (`ReplayUnique.ReplayUniques`).
* A comparison with `==` in its value or in the name of its field is planned as an equality, by id or by index
  (`QueryPlan.MistakenForEquality`).
* After an append that stopped inside a record the log writer goes on and acknowledges transactions that cannot be
  read back (`WalBatch.DurableBatches` has the condition, `WalTorn.AckedLost` and `WalTorn.LogLost` the runs).
* A composite key with a secondary part of 256 to 2047 bytes is taken for a plain value: it is out of order
  (`KeyCompare.LengthInOrder`), or equal to other keys (`KeyCompare.LengthsCollide`).
* A log record with a payload over 64 MiB is written and acknowledged but makes the log unreadable
  (`WalFormat.ReadsBackIff`); a table record of that size is stored but cannot be read
  (`TableStorage.PlacedReads`).

## Model

| member | source | states |
|---|---|---|
| KeyOrder.SearchLeaf | bplus_tree.go:1092-1094 | binary search in a leaf finds the first key not below the searched one, as the linear definition `LowerBound` does |
| KeyOrder.SearchInternal | bplus_tree.go:839-842 | binary search over separators finds the child that `UpperBound` names |
| TreeOrder.FindIsLookup | bplus_tree.go:815-845 | for any total order and any height, the descent of a lookup answers exactly the map that the tree stands for |
| TreeOrder.OnlyKid | bplus_tree.go:1132-1136 | in a tree in search order a key can only live in the child that the separators lead to |
| TreeInsert.InsertOrdered | bplus_tree.go:1065-1182 | insertion keeps search order through path copy, leaf split and internal split |
| TreeInsert.InsertContents | bplus_tree.go:1065-1182 | insertion changes the contents to `old[key := pointer]` and nothing else |
| TreeInsert.InsertBalanced | bplus_tree.go:1065-1182 | insertion keeps all leaves at one depth |
| IndexFile.NewRootValid | bplus_tree.go:918-931 | a new root over the two halves of a split root is a search tree one level higher with the same contents |
| IndexFile.InsertRootValid | bplus_tree.go:913-931 | insertion at a root gives a valid tree whose contents are `old[key := pointer]` |
| IndexFile.InsertNamedValid | bplus_tree.go:887-942 | inserting into a named index updates that map (starting an empty one for a new name) and leaves every other index alone |
| TreeDelete.DeleteRemoves | bplus_tree.go:1184-1251 | a completed deletion removes exactly the entry of its key and keeps search order and balance through merges and borrows |
| TreeDelete.DeleteMissing | bplus_tree.go:1205-1236 | a deletion reports that it found nothing if and only if the key is absent |
| TreeDelete.RebalanceMeaning | bplus_tree.go:1253-1375 | merging or borrowing keeps search order and contents whenever it completes |
| TreeDelete.DeletePanics | bplus_tree.go:1345-1351 | a deletion of a present key stops with an index out of range if and only if `BorrowFails`, a test on key counts along the path before the call |
| TreeDelete.DeleteFailsBesideFullLeaf | bplus_tree.go:1264-1351 | the simplest failing case: two leaves under one root, the left one with at least 20 keys and the right one with exactly two; removing a present key from the right one always fails |
| IndexFile.DeleteNamedValid | bplus_tree.go:984-1013 | deleting from a named index removes the key from that map only, with root collapse |
| IndexFile.CollapseValid | bplus_tree.go:997-1002 | a root with one child, and no other, gives way to that child; the tree stays valid with the same contents |
| InsertAgain.InsertCurrent | bplus_tree.go:1071-1084 | after an insertion every node on the path of its key is of its generation |
| InsertAgain.PutInPlace | bplus_tree.go:1071-1107 | replacing the pointer of a key along such a path takes no page and gives none up, so a generation copies a node at most once |
| TreePages.InsertConserves | bplus_tree.go:1065-1182 | insertion conserves pages: owners in tree, free list and orphan list change only by pages taken off the end of the file |
| TreePages.DeleteConserves | bplus_tree.go:1184-1375 | the same for a completed deletion with merges and borrows |
| IndexFile.InsertNamedOwned | bplus_tree.go:887-942 | insertion keeps every page from 3 to the end of the file with exactly one owner |
| IndexFile.DeleteNamedOwned | bplus_tree.go:984-1013 | so does a completed deletion of a present key |
| IndexFile.MissOwned | bplus_tree.go:1195-1203 | deleting an absent key keeps single ownership if and only if every node on the path is of the current generation |
| IndexFile.CommitOwned | bplus_tree.go:719-722 | recycling orphans and the old catalog and allocating the new catalog keeps single ownership |
| IndexFile.CommitReusesCatalog | bplus_tree.go:719-751 | from the second commit on the new catalog is written over the old one |
| IndexFile.StepSound | bplus_tree.go:887-1013 | one call completes and leaves the file sound if and only if it is safe, a condition on the state before the call; then it does what the maps do |
| IndexFile.RunSound | bplus_tree.go:693-1013 | every run of safe calls on several indexes goes through, keeps the file sound, and refines the same run on maps |
| IndexFile.AllocationIsFresh | bplus_tree.go:700-709 | in a sound file allocation never returns a live, orphaned or catalog page |
| KeyCompare.UnifiedTotal | bplus_tree.go:471-528 | `Unified`, the order that extends the comparator to all byte strings, is a total order |
| KeyCompare.Agrees | bplus_tree.go:471-528 | on the keys of one index (texts, int32, int64, bools, or pairs whose secondary part takes no 256 to 2047 bytes) the comparator equals `Unified` |
| KeyCompare.ComparatorTotal | bplus_tree.go:471-528 | so there the comparator is antisymmetric, transitive and zero exactly on equal bytes |
| KeyCompare.LengthInOrder | bplus_tree.go:482-488 | pairs whose secondary part is a text of a given encoded length are in order with all pairs of the other lengths if and only if the length is under 256 or at least 2048, because its leading byte is otherwise taken for the tag of a value |
| KeyCompare.LengthsCollide | bplus_tree.go:482-527 | two such keys with texts of 1019 to 1274 bytes compare equal if and only if the texts have the same length, whatever they and the primary keys are |
| SourceOrder.SourceSound | bplus_tree.go:887-1013 | calls under the comparator of the program, with keys of each index's own kind, keep the file sound exactly when safe and refine maps |
| SourceOrder.SourceFind | bplus_tree.go:815-845 | lookups under the comparator of the program answer the map |
| SourceOrder.SourceVisit | bplus_tree.go:1046-1057 | scans under the comparator of the program visit what they visit under the total order |
| PagedFile.DiskBPlusTree.Create | bplus_tree.go:556-589 | a new file is valid, holds no trees and can commit under generation 2 |
| PagedFile.DiskBPlusTree.Open | bplus_tree.go:590-643 | opening fails exactly when no superblock is valid or its catalog cannot be read; an intact file is taken up as it was shown |
| PagedFile.DiskBPlusTree.ReadNode | bplus_tree.go:645-669 | reading a page through the cache returns its node, or fails exactly when neither cache nor disk has one there, and changes no page |
| PagedFile.DiskBPlusTree.WriteNode | bplus_tree.go:680-691 | registering a node puts it in the cache and marks its page dirty |
| PagedFile.DiskBPlusTree.AllocatePageID | bplus_tree.go:700-709 | takes the last free page, or the next page at the end of the file |
| PagedFile.DiskBPlusTree.MarkOrphaned | bplus_tree.go:693-698 | pages below 3 are never orphaned |
| PagedFile.DiskBPlusTree.Touch | bplus_tree.go:1071-1084 | a node of the current generation stays on its page; another gets a new page and its old one is orphaned |
| PagedFile.DiskBPlusTree.Settle | bplus_tree.go:1108-1130 | a node that serializes is kept, another is split by count with the right half on a new page |
| PagedFile.DiskBPlusTree.InsertRecursive | bplus_tree.go:1065-1182 | the in-place insertion computes the tree function `Insert`, leaves the result on its pages, and writes only new pages and pages of its own generation |
| PagedFile.DiskBPlusTree.MergeOrRedistribute | bplus_tree.go:1287-1375 | the in-place merge step computes `Join`, or reports the index error exactly when `Join` does |
| PagedFile.DiskBPlusTree.HandleUnderflow | bplus_tree.go:1253-1285 | computes `Rebalance` on the pages |
| PagedFile.DiskBPlusTree.DeleteRecursive | bplus_tree.go:1184-1251 | the in-place deletion computes the tree function `Delete`, including its failures, under the same write discipline |
| PagedFile.DiskBPlusTree.InsertNamedNoCommit | bplus_tree.go:873-942 | computes `InsertNamed` on the whole file, keeps it valid, updates one map, and keeps the next commit atomic |
| PagedFile.DiskBPlusTree.DeleteNamedNoCommit | bplus_tree.go:970-1013 | computes `DeleteNamed`; it fails exactly when that fails, and the file stays valid if and only if the call was safe |
| PagedFile.DiskBPlusTree.FindNamed | bplus_tree.go:815-845 | returns exactly the map lookup, for any height |
| PagedFile.DiskBPlusTree.RangeNamed | bplus_tree.go:1015-1063 | over a whole leaf chain a scan visits exactly the entries between the bounds, in order, up to the visitor's stop |
| PagedFile.DiskBPlusTree.WriteDirty | bplus_tree.go:724-748 | writes the cached dirty nodes in some order, and stops at the first that does not serialize |
| PagedFile.DiskBPlusTree.WriteCatalog | bplus_tree.go:750-811 | writes the catalog and then the superblock slot not in use; fails exactly when the roots do not fit |
| PagedFile.DiskBPlusTree.WriteNewState | bplus_tree.go:711-813 | a commit succeeds exactly when its pages serialize, and writes a stated list of pages in some order; under a rising generation every point of those writes, also with the superblock torn, shows on reopening the trees before it or after it, and a failed one those before it |
| PagedFile.DiskBPlusTree.WriteAny | bplus_tree.go:711-813 | the same list of writes under any generation, also one at or below those on disk |
| CommitAgain.AtomicIff | bplus_tree.go:711-813 | under a generation that does not rise, a commit shows old or new trees at every point and in every order of its writes if and only if it changes no page of the trees before it, or keeps all roots and changes a single page of both |
| CommitAgain.RisingSwitches | bplus_tree.go:711-813 | from the state that calls under a rising generation keep, that condition always holds |
| CommitCrash.ShowsUnique | bplus_tree.go:591-640 | a disk shows at most one set of trees |
| CommitCrash.OverwritesActive | bplus_tree.go:591-640 | opening follows a valid superblock of the highest generation, and a commit overwrites that one exactly if both are valid and of the same generation |
| CommitCrash.NodesOnly | bplus_tree.go:724-748 | writes of dirty nodes change nothing that opening the file finds |
| CommitCrash.CatalogWritten | bplus_tree.go:750-759 | after the catalog write the new trees show if it replaced the old catalog, else still the old ones |
| CommitCrash.SuperTorn | bplus_tree.go:761-808 | a torn superblock write leaves what opening finds unchanged |
| CommitCrash.CrashAtomic | bplus_tree.go:711-813 | a commit stopped between any two page writes, or with a torn superblock, shows the old trees or the new trees, complete |
| CommitCrash.CommitVisible | bplus_tree.go:785-808 | under any generation, a whole commit becomes visible if and only if its superblock wins the comparison, the catalog was rewritten in place, or nothing changed |
| CommitCrash.LayOutRoots | bplus_tree.go:196-227 | the roots fit on the catalog page exactly when header, names in UTF-8 and 20 bytes each end four bytes before its end |
| Durability.WritesMissDurable | bplus_tree.go:1071-1084 | no page that a call writes is reachable from the durable catalog, a superblock, or the catalog itself |
| Durability.CallRecoverable | bplus_tree.go:887-1013 | every call that writes only permitted pages keeps the state from which a commit is atomic |
| Durability.CommitAtomic | bplus_tree.go:711-813 | crash atomicity from the state that every call keeps |
| Durability.CommitRecoverable | bplus_tree.go:711-813 | a commit re-establishes that state for the next generation |
| Durability.CrashReopens | bplus_tree.go:591-640 | what reopening finds at each point of a commit: trees, free list, end of file and catalog |
| Durability.RereadOwned | bplus_tree.go:229-232 | cutting the free list short on the catalog page loses pages but never makes two owners of one |
| Durability.WindowOwned | bplus_tree.go:750-808 | reopened between catalog and superblock write, the allocator is right if and only if no page was taken off the end since the last commit |
| Durability.CommitReopenable | bplus_tree.go:590-640 | after a commit the file can be reopened and committed again under later generations |
| TreeChain.InsertChain | bplus_tree.go:1076-1130 | an insertion keeps the chain of right siblings if and only if it does not copy a leaf other than the first |
| DeleteChains.DeleteChain | bplus_tree.go:1184-1375 | in a tree of any generations a deletion keeps the chain of leaves if and only if `ChainStays`, a condition on the path before the call, and keeps the first leaf on its page if and only if `FirstStays` |
| ChainRuns.StepKeepsChains | bplus_tree.go:887-1013 | a call on a file with whole leaf chains, of any generations, leaves them whole if and only if `KeepsChains`, decided before the call |
| ChainRuns.StepChained | bplus_tree.go:887-1013 | in a file of one generation every call under that generation keeps all chains whole |
| TreeRange.EntriesAre | bplus_tree.go:1015-1063 | the entries of a tree read from left to right are exactly its contents |
| TreeRange.EntriesAscend | bplus_tree.go:1015-1063 | and their keys strictly increase |
| TreeRange.VisitIsBetween | bplus_tree.go:1046-1057 | the loop with its two early exits shows a visitor exactly the entries between the bounds, up to its stop |
| TreeRange.LeavesAre | bplus_tree.go:1040-1060 | the leaves of a chained tree have its entries, in chain order, on their pages |
| SplitFits.FitsIff | bplus_tree.go:325-354 | for sizes in range the 16-bit arithmetic of the serializer accepts a node exactly when cells and slots take at most 16336 bytes |
| SplitFits.InsertFits | bplus_tree.go:1108-1180 | if keys have at most 280 bytes and all nodes serialize, then after an insertion all nodes serialize, both halves of every split included |
| SplitFits.InsertNamedFits | bplus_tree.go:887-942 | the same for a named insertion with a new root |
| PageLayout.WriteCells | bplus_tree.go:329-354 | filling the buffer from its end succeeds exactly when there is room, and places each cell at its offset |
| PageLayout.CellAt | bplus_tree.go:395-424 | each cell is found at the offset its slot names |
| PageLayout.CellsApart | bplus_tree.go:347-353 | cells do not overlap each other or the slots |
| NodeCodec.Serialize | bplus_tree.go:312-373 | serialization fills the page as specified, and fails exactly when `Fits` does |
| NodeCodec.NodeRoundTrip | bplus_tree.go:312-431 | deserializing a serialized node, leaf or internal, gives it back |
| NodeCodec.PageChecked | bplus_tree.go:375-394 | a page is only read as a node with its magic number and with the checksum of all its other bytes |
| CatalogCodec.CatalogPageRoundTrip | bplus_tree.go:184-300 | deserializing a serialized catalog gives all roots and the longest prefix of the free list that fits |
| CatalogCodec.FreeLongest | bplus_tree.go:229-232 | the part of the free list that is kept ends by byte 16380, and one page more would not |
| CatalogCodec.CatalogChecked | bplus_tree.go:245-300 | a page is only read as a catalog with its magic number and with the checksum of all its other bytes |
| KeyCodec.ValueRoundTrip | codec.go:139-312 | an encoded value decodes to itself, with any suffix left over, if and only if it is no string over 16 MiB |
| KeyCodec.CompositeRoundTrip | codec.go:502-553 | a composite key decodes to its two parts, with any suffix left over |
| KeyCodec.CompareEncoded | bplus_tree.go:490-527 | on encoded values of one kind the byte comparator equals comparing the values |
| KeyCodec.CompareComposites | bplus_tree.go:433-469 | on composite keys it compares the secondary values and then the primary keys |
| KeyCodec.IntegerKeys | bplus_tree.go:494-527 | encoded integers of either width compare as the numbers |
| KeyCodec.WrittenAs | codec.go:139-245 | the tag, the length and the big-endian bytes of every encoded value |
| ValueScan.ScanNumbers | bplus_tree.go:1015-1063 | a scan of an index of integers from `m` to `n`, over a whole leaf chain, shows exactly the keys from `m` to `n`, both included, in rising order |
| Values.KindOrder | state.go:277-349 | within one kind `compareValues` is antisymmetric and zero only on equal values |
| Values.KindTransitive | state.go:277-349 | and transitive |
| Values.IntegersCompare | state.go:288-298 | integers compare below, equal or above exactly as the numbers they store, across int32 and int64 |
| Values.TextsCompare | state.go:312-321 | texts compare below exactly if the first is a proper prefix or has the smaller byte at the first difference |
| Values.FlagsAndNil | state.go:277-286 | false is below true, and nil below everything else |
| Values.IntegerShown | state.go:341-348 | integers are shown, to be compared with other kinds, by their decimal digits |
| WalFormat.ReadAllRecords | wal.go:229-327 | the reading loop computes `Parse` |
| WalFormat.ReadsWhole | wal.go:186-227 | a whole record is read back whatever follows it |
| WalFormat.FoundIff | wal.go:229-327 | in bytes: a record is found exactly if magic number, operation, length and payload are right and the checksum is that of operation, transaction, generation and payload |
| WalFormat.TornLog | wal.go:229-327 | a log cut after any byte reads as the records wholly before the cut, or as an error when one to three bytes of the next magic number remain |
| WalFormat.ReadsBackIff | wal.go:285-287 | a record is read back if and only if its operation is known and its payload has at most 64 MiB; otherwise the log is unreadable |
| WalFormat.LongTorn | wal.go:229-327 | behind the first bytes of a record, header included, the reader takes whatever was written next for the missing payload: the end of the log, a bad checksum, or, if the checksums of the two agree, another record |
| WalFormat.MagicTorn | wal.go:229-327 | behind one to four bytes of a record the next one is not found, and from nine bytes on the log is corrupt |
| WalRecovery.SelectCommits | db.go:597-617 | one pass groups the records by transaction and selects those with a commit marker and no rollback marker |
| WalWriter.WalManager.ProcessTasks | wal.go:367-498 | the seven steps of a batch, with every append cut after any byte and any sync failing, extend the log as `AfterBatch` says; a task is answered without error exactly if no append failed, no sync that the mode makes failed, and its own table appends went through |
| WalWriter.WalManager.AppendRollbackMarker | wal.go:157-184 | appends one marker, or the part of it that a failed write leaves, synced only in the Sync mode |
| WalBatch.BatchOwn | wal.go:379-477 | a batch that leaves a readable commit marker for a task has left all of its records before it, wherever its appends were cut |
| WalBatch.BatchConsistent | wal.go:367-498 | every batch, whatever fails in it and after whatever byte, keeps committed transactions whole, and acknowledged ones on disk up to the first torn record |
| WalSuccess.AnsweredIff | wal.go:379-497 | the same about the answers alone |
| WalSuccess.BatchOutcome | wal.go:448-477 | on an untorn log without a failed append, a transaction is recovered with all its records exactly if its table appends went through and the syncs before the markers did; else it is rolled back |
| WalSuccess.BatchSucceeds | wal.go:367-498 | a batch in which nothing fails, in each mode: every task is answered without error and will be recovered, and in the Sync and Batched modes the whole log is on disk |
| WalSuccess.RunSucceeds | wal.go:367-498 | after a run in which nothing fails the log is whole and every transaction has been answered without error |
| WalSuccess.MutationsFirst | wal.go:404-445 | outside the Async mode a batch goes on to the tables only with its mutations on disk |
| WalSuccess.RollbackSticks | db.go:597-617 | a transaction with a rollback marker is never selected, whatever is logged later |
| WalSuccess.MarkRollsBack | wal.go:157-184 | a rollback marker written by hand takes its transaction out |
| WalBatch.RunConsistent | wal.go:367-498 | so does every run of batches and rollback markers |
| WalBatch.TornIff | wal.go:367-498 | after a run the whole log is readable if and only if no append of the run stopped inside a record |
| WalBatch.LogReads | wal.go:229-327 | what the reader makes of every prefix of such a log: its whole records up to the first torn one, or an error, provided what begins with the torn record is not itself a record with a right checksum |
| WalBatch.DurableBatches | wal.go:367-498 | for every run in the Sync or Batched mode, every failure and every crash prefix, recovery selects exactly the transactions whose commit marker is whole and precedes the first torn record, each with all its records; a synced acknowledged one is among them if and only if its marker precedes that record, so without a torn record all are |
| WalTorn.AfterTear | wal.go:367-498 | batches behind a torn record are answered like any others, and add nothing that can be read |
| WalTorn.AckedLost | wal.go:367-498 | a run of two batches, the first cut after the header of its mutation, in which the second transaction is acknowledged and lost without a read error |
| WalTorn.LogLost | wal.go:367-498 | a run of two batches, the first cut after one to four bytes, in which the second is acknowledged and the log cannot be read |
| GenSort.SortIs | db.go:619-632 | sorting by generation keeps the transactions and orders them |
| GenSort.OneOrder | db.go:619-632 | with distinct generations there is only one such order, whatever the sorting algorithm |
| Recovery.AnySortedOrder | db.go:619-632 | so with distinct generations the unstable sort of the program replays the same steps |
| RecoveryOrder.ReplaysInOrder | db.go:597-944 | if the committed transactions of a log have rising generations, what is replayed is what they submitted, one after the other in that order, however their records lie in the log |
| RecoveryOrder.CrashReplaysInOrder | db.go:597-944 | so it is after any failures and any crash, for the transactions whose markers can be read |
| RecoveryOrder.CleanRunRecovers | wal.go:367-498 | if nothing fails, everything submitted is answered, read back and replayed in order |
| RecoveryOrder.RecoveredTables | db.go:597-944 | recovering the log of a series of transactions gives every table as the last one left it: ids, records and entries, and unique entries if no value was handed over |
| Recovery.Recover | db.go:589-947 | recovery replays the committed transactions in an order in which the generations of their first records never decrease, or fails exactly when one does not decode |
| Recovery.CrashThenRecover | db.go:597-647 | after any failures and any crash prefix that can be read, what is replayed is the submitted changes of exactly the transactions with a readable commit marker; an acknowledged one is missing only if its marker lies behind a torn record |
| Recovery.RecoveryIsFold | db.go:649-944 | if all entries that a crash left in the index of a table come from some state in the history of its log, then after recovery they agree with the fold of the committed changes |
| Recovery.RecoveryUniques | db.go:649-944 | the unique indexes agree with the fold too if and only if the log gives no unique value away |
| Recovery.RecoveryFromPrefix | db.go:649-944 | so they do from an index that holds the result of any prefix of the log, as after a crash between log and index |
| Recovery.RecoveryRepeated | db.go:649-944 | and when recovery is interrupted after any step and run again |
| Replay.ReplayAgrees | db.go:664-840 | replay over indexes whose entries come from the history of the log, under dangling pointers, ends in agreement with the fold, although the table file is emptied first |
| Replay.PrefixFromHistory | db.go:664-840 | the indexes of any prefix of the log are such indexes |
| Replay.InterruptedFromHistory | db.go:664-840 | and so are those that an interrupted replay leaves |
| Replay.ReplayTwice | db.go:664-840 | a replay interrupted after any change and started over, with any table file, agrees with the fold |
| ReplayUnique.ReplayUniques | db.go:664-840 | after a replay over empty indexes, or any whose unique entries come from the history of the log, the unique indexes agree with the fold if and only if in no change a record gives up a value that another one holds and keeps to the end |
| ReplayUnique.NeverDuplicates | db.go:664-840 | a log whose tables never have duplicates does not do that |
| ReplayUnique.UniqueInterrupted | db.go:664-840 | the unique entries that an interrupted replay leaves come from the history of the log again |
| LogUnique.LogGives | tx.go:182-268 | nor does the log of transactions that leave no duplicates and hand no value over |
| LogUnique.RecoveryGivesUniques | db.go:649-944 | so recovery from that log rebuilds the unique indexes |
| CommitLog.CommitFolds | tx.go:182-268 | the records that a commit logs for a table, in any iteration order, keep the log replayable and extend its fold to the view of the transaction |
| CommitLog.LogFolds | tx.go:182-268 | so the log of a series of transactions folds to the result of the last one |
| CommitLog.RecoveryGivesViews | db.go:649-944 | and recovery from that log gives the table that the transactions left |
| TableStorage.Storage.AppendRecords | storage.go:73-108 | appends the joined records and returns their offsets and 32-bit sizes |
| TableStorage.Storage.AppendRecord | storage.go:51-71 | appends one record at the end of the file |
| TableStorage.Storage.ReadRecord | storage.go:110-133 | reads the bytes of a pointer, or fails outside the file and beyond 64 MiB |
| TableStorage.PlacedReads | storage.go:73-133 | an appended record reads back if and only if it has at most 64 MiB |
| TableStorage.Storage.Compact | storage.go:146-225 | compaction fails exactly when the bytes of a live record are not in the file; else every key reads what it read before and the file holds nothing else |
| Overlay.TableChanges.Staged | table.go:154-176 | the lookup in insertions, updates, deletions and committed records answers the view of the transaction |
| Overlay.TableChanges.InsertRecord | table.go:141-194 | succeeds exactly when the id is new to the view, and adds it |
| Overlay.TableChanges.UpdateRecord | table.go:205-276 | succeeds exactly when the id is in the view, and replaces it |
| Overlay.TableChanges.UpsertRecord | table.go:287-323 | sets the record whether or not it exists |
| Overlay.TableChanges.DeleteById | table.go:338-400 | removes the id from the view and reports whether it was there |
| Overlay.TableChanges.ClearAll | table.go:411-420 | empties the view |
| Overlay.TableChanges.FindById | table.go:33-83 | agrees with the view if and only if the id is not both deleted and inserted again |
| Overlay.TableChanges.Run | table.go:141-420 | every sequence of calls keeps the staged collections proper and acts like the same sequence on a map |
| UniqueCheck.CheckConflict | tx.go:439-492 | one staged value against the values staged before it, the released values and the index |
| UniqueCheck.ValidateIndex | tx.go:415-505 | accepts if and only if no two records of the view share a non-nil value of the index |
| UniqueCheck.ValidateUniqueIndexes | tx.go:399-508 | accepts if and only if that holds for every unique index of the table |
| UniqueCheck.ClashFreeIff | tx.go:399-508 | what validation checks, index by index, is that no two records share a value in any unique index |
| UniqueCheck.UniquesMean | db.go:1682-1737 | a unique index that agrees with a table lists exactly the non-nil values of its field |
| UniqueCheck.PairsMean | db.go:1682-1737 | any other index that agrees with it lists exactly the non-nil values of its field, with the ids of their records |
| ShadowIndex.ShadowFile.ShadowInsert | db.go:1682-1737 | enters a record in the primary, the unique and the non-unique indexes |
| ShadowIndex.ShadowFile.ShadowDelete | db.go:1739-1793 | removes an id, and the entries of its old record if that is known |
| CommitApply.ApplyCommit | tx.go:288-357 | deletions, insertions and updates in any iteration order compute `Applied` |
| CommitApply.CommitAgrees | tx.go:288-357 | the primary and non-unique indexes then agree with the view of the transaction |
| UniqueCommit.UniqueAfterCommit | tx.go:322-350 | for one iteration order, the unique indexes agree with the view if and only if no update gives up a value that an insertion or an earlier update has taken |
| CommitTable.CommitOnTable | tx.go:288-357 | commit on the table file and the indexes together: ids, pointers that read back the records, entries, and unique values |
| CommitTable.UniqueInEveryOrder | tx.go:288-357 | the unique indexes agree with the view in every iteration order if and only if no update gives up a value that another staged record takes |
| IndexCalls.InsertSpells | db.go:1682-1737 | the calls on the index file that enter a record change its entries as the map model says, and all hit what they need |
| IndexCalls.DeleteSpells | db.go:1739-1793 | so do the calls that remove one, and they delete only present keys if its entries are there |
| CommitCalls.CommitLeads | tx.go:305-350 | the calls of a commit, in any iteration order, delete only present keys and lead the index file to the indexes of `Applied` |
| CommitCalls.HitsAreSafe | bplus_tree.go:887-1013 | a run of calls that delete only present keys is safe if and only if no borrow fails |
| CommitCalls.CommitOnFile | tx.go:305-350 | so a commit keeps the page file sound and gives it the indexes of `Applied` whenever no borrow fails |
| IndexLookup.ScanFinds | query.go:231-251 | the entries that a scan shows from the pair of a value and nil up to the first other value are exactly those of the value |
| IndexLookup.FindPairs | query.go:231-251 | that scan, run on the index file over a whole leaf chain, returns exactly the ids that have the value |
| IndexLookup.FindValue | query.go:209-215 | a lookup in a unique index returns the pointer of the value |
| IndexLookup.FindId | query.go:294-304 | a lookup by id returns the pointer of the id |
| IndexLookup.ScanIds | query.go:374-403 | the open scan of the primary index shows every id with its pointer |
| QueryList.FindTargets | query.go:173-260 | the lookups of a plan on the index file give exactly its targets |
| QueryList.ReadUnstaged | query.go:281-316 | reads the committed records under the targets that are not staged |
| QueryList.ScanUnstaged | query.go:374-403 | reads all committed records that are not staged |
| QueryList.List | query.go:168-442 | the loops of a query on the index file return, each id once, the records that the plan finds and that pass all conditions; if the indexes agree and the plan follows an equality, exactly the records of the view that pass every condition |
| QueryList.Collect | query.go:262-418 | overlay of the staged changes over what the plan found |
| QueryList.Filter | query.go:420-442 | keeps the records that pass all conditions, each id once |
| QueryPlan.ConditionOnIntegers | query.go:36-94 | on integers the six comparisons hold exactly when the stored number is ==, !=, >, >=, <, <= the one asked for |
| QueryPlan.ConditionOnTexts | query.go:36-94 | on texts they go by the dictionary order of the bytes |
| QueryPlan.ConditionOnFlags | query.go:36-94 | on flags false is below true |
| QueryPlan.ConditionOnNil | query.go:36-94 | nil, also for a missing field, is below everything else |
| QueryPlan.IndexPlanIsScan | query.go:173-442 | if the condition that the plan follows is an equality with a value of the stored kind, the plan gives what a scan of the view gives |
| QueryPlan.EqualLooksEqual | query.go:36-45 | every equality is recognised as one |
| QueryPlan.MistakenForEquality | query.go:173-196 | a comparison other than an equality is answered rightly on every table if and only if it is not planned as an equality on the id or an indexed field, for `==` in the name of the field or in its value, except where no value passes it |
| WriterToken.StepConserves | db.go:176-208 | every step of any caller keeps tokens plus holders at one, and a returned token is never dropped |
| WriterToken.RunConserves | db.go:440-483 | over every interleaving at most one transaction is active and each caller returns the token as often as it took it |
| WriterToken.StartConserved | db.go:84-87 | a new database starts with one token |
| WriterToken.BecomesActive | db.go:452-462 | a transaction becomes active exactly when it enters with the token on a database that is not closed |
| WriterToken.ClosedForGood | db.go:440-483 | once the database is closed no transaction is active, and none ever becomes active |

## Left out

- Real files, fsync, rename and truncate: replaced by an abstract disk and an abstract log.
- CRC32C itself: no claim about the detection of errors is made.
- Reflection, struct tags, the type registry and the marshalling of structs: records have an id and named values.
- KeyCompare.Agrees: does not cover times, floats, byte strings and structs as keys, nor keys of different kinds in one index.
- KeyCompare.ComparatorTotal: the same kinds are missing.
- KeyCompare.LengthInOrder: for lengths of 640 to 767 the program does not answer at all, because it asks for a slice of negative length; the model reads no byte strings.
- KeyCodec.ValueRoundTrip: byte strings, times, floats and structs are not values of the model.
- Values.KindOrder: floats, times and byte strings are not values of the model; NaN and negative zero are no ordered keys.
- Values.KindTransitive: the same kinds are missing.
- Names of fields are compared exactly, not without regard to case.
- QueryList.List: looks up values of the kind of the index; a value of another kind is compared by its text.
- PagedFile.DiskBPlusTree.RangeNamed: says what a scan visits when the leaf chain is whole; `ChainRuns.StepKeepsChains` says when a call leaves it whole.
- Sorting and paging of query results, and explanations of plans.
- The auto-committing InsertNamed and DeleteNamed, which drop the orphan list before they start.
- Recovery.Recover: does not replay schema operations, which share one transaction id per session, nor start from a snapshot; it is about data transactions with distinct ids.
- Recovery.RecoveryIsFold: is about the entries of the indexes; during recovery deletions may name entries that are absent, because old records are read through dangling pointers, so single ownership of pages is not claimed there.
- Snapshot files, compaction of a whole database, backup, JSON and SQL import and export.
- Readers that run beside a writer: the code looks up the current catalog, so there is no snapshot isolation to prove.
- Appending to a log after a torn tail has been read.
- WalBatch.DurableBatches: does not cover the Async mode, in which tasks are answered before anything is synced, and supposes that a torn record with what follows it does not pass the checksum.
- WalBatch.LogReads: has the same hypothesis about the torn record.
- Superblocks are pages of their own kind; their byte layout is not modelled.
- PagedFile.DiskBPlusTree.DeleteNamedNoCommit: says nothing about the pages after an index error, because the program does not return from it.
- SplitFits.InsertFits: is about insertions only; a borrow can move a separator into an internal node that is full.
- CommitCalls.CommitOnFile: goes through when no borrow fails; the rest of a commit in which one fails does not happen.
- ReplayUnique.ReplayUniques: is about logs as commits write them, in which updates and deletions name records that are there.
