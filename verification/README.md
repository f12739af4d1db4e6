# A verified model of the server's data structures and concurrency

This project models, in Dafny, the parts of the server that hold state, and proves what
they keep:

- the B-tree index (`BTreeModel`, `BTreeIndex`, `BTreeRuns`, `BTreeMixed`, `BTreeAsWritten`);
- the sharded JSON store: routing, single-row calls, bulk insertion, paging
  (`Fnv`, `DocumentIds`, `ShardSpread`, `ShardMaps`, `BulkPlan`, `Paging`, `PageMerge`,
  `JsonEngine`, `PageTheorems`, `PageLimits`, `StoreRuns`, `ConcurrentUpdates`);
- the WebSocket send queue and connection table (`Framing`, `SendQueue`, `SendRuns`, `Registry`);
- the pool of script runtimes (`VmPool`);
- the table of rate limiters (`RateLimiter`);
- the cache with expiry (`TtlCache`).

Objects that the server updates in place are classes whose methods are proved against
functions on their contents. The B-tree is a heap of nodes; beside it stands a value, the
tree of nodes it forms, and every method says what that value becomes. Code that runs on
many goroutines is, in addition, a state machine with one action for each critical section,
channel operation or clock check. A run is any finite list of actions; an action that cannot
happen in a state changes nothing. So a statement about every run covers any number of
goroutines and every interleaving. The lemmas named `...Alone` tie the machines to the
classes: an operation whose steps nothing comes between does what the method does.

Clocks, random numbers, storage faults, the order in which shards answer, the order of rows
with equal timestamps, and the entry that a map iteration meets first are parameters, and
the results hold for all values of them.

## What the code does not do

Some properties one would expect are false of the code. For each there are lemmas that say
exactly when it holds, or exactly how far it can fail.

- `splitChild` truncates the child to `mid` keys and then reads key `mid`. Every split
  panics. `BTreeAsWritten` models this: with degree d the index is correct exactly for
  at most 2d insertions, call 2d+1 panics, and then every (d+2)-th one, each losing all
  but the d-1 smallest keys. `BTreeIndex` reads the median first, which is the evident
  intent; everything else there is as in the code.
- Keys of different types are not ordered. Insertion then still keeps the shape and loses no
  entry. After any insertions, lookups of keys of the inserted types are all right exactly if
  all inserted keys are of one supported type (`BTreeRuns.LookupsAreRightExactly`).
- `Find` asks for a page of 10000, which is replaced by 100, reads shard 0 alone and returns
  at most seven documents, and none if that query fails. It is complete exactly if the
  collection is empty, or the query succeeds, all documents are in shard 0 and they are at
  most seven (`PageTheorems.FindIsCompleteExactly`). `FindOne` says there is no document
  exactly if the query to shard 0 fails or shard 0 has none.
- `HasMore` says that the page is full, which is so exactly if the queried shards that answer
  list that many rows (`JsonEngine.FullExactly`). Some store fills a page exactly if the
  limits of the shards it reads add up to the page size (`PageLimits.CanBeFullExactly`); with
  the default size that is page 141 and later. About the rows fetched for the page the claim
  is right exactly unless they are as many as the page holds. About documents of the
  collection that the page does not show it is right exactly if either the shards list a page
  of rows and the collection has more, or they list fewer and those are the whole collection
  (`PageTheorems.ClaimIsRightExactly`, for every page and size). On the first page that comes
  to this: there are no documents; or, for pages of one, shard 0 answers, has a document, and
  the collection has another; or, for larger pages, shard 0 answers and has all documents
  within its limit (`PageTheorems.FirstPageClaimIsRightExactly`).
- Paging never shows some rows at all: of each shard, newest first, exactly those from the
  start of the first page that reads it are fetched by some page
  (`PageTheorems.RowIsFetchedExactly`). With the default size the 63 newest rows of shard 1
  are on no page. A row fetched for a page is shown exactly if fewer newer rows than fit were
  fetched with it, as far as timestamps differ (`PageMerge.ShownExactly`), and successive pages
  both fetch a row exactly where their windows overlap, which is by one row at most
  (`Paging.FetchedTwiceExactly`).
- `Update` and `Delete` look in the shard that the given collection and id are routed to.
  With another collection than the document's own they act exactly if that collection is
  routed to the same shard, and `Delete` reports success in either case. For every document of
  a collection with a non-empty name some other name is routed elsewhere
  (`StoreRuns.OtherNameDoesNothing`).
- `Update` reads and writes in two statements. In a run nothing is ever lost exactly if every
  write finds the document, outside the fields it sets, as it was read, or gone; and an update
  that reports success has written nothing exactly if the document was deleted in between
  (`ConcurrentUpdates`).
- `BulkInsert` reports failure after storing part of the failed batch: exactly the rows of the
  shards that did not fail. If the shard of the first document fails, the first one is not
  stored and the second one is (`JsonEngine.FirstFailsSecondIsStored`).
- `Broadcast` panics exactly if the connection's channel is closed when it selects, which can
  be as late as after the connection was unregistered, if the iteration met it before. A panic
  is possible from a reachable state exactly while the connection is registered or a broadcast
  holds it. `safeSend` never panics.
- A payload can be split at its newlines into the messages it was made of exactly if no
  message contains a newline.
- The connection limit can be exceeded by as many connections, less one, as are at one moment
  between beginning to count and storing, and by no more.
- A pass of the pool's cleaner evicts all stale runtimes exactly if the last stale one is as
  far from the end of the channel as there are stale ones, and leaves the minimum exactly if
  not too many of the first runtimes are stale (`VmPool.EvictsAllStaleExactly`,
  `VmPool.KeepsMinimumExactly`). Runtimes never used are stale.
- A cache lookup that finds an expired entry deletes a fresh one exactly if the key is still
  there, was set after the lookup read it, and with a late enough expiration
  (`TtlCache.LateDeleteLosesExactly`).

## Model

| member | source | states |
|---|---|---|
| IndexKeys.IsTotalOrder | lsengine/internal/jsondb/btree.go:41-72 | within one key type the comparison is a total order, that of the bytes for strings and of size for numbers, and compares equal only equal keys |
| IndexKeys.CompareFlips | lsengine/internal/jsondb/btree.go:41-72 | swapping the arguments negates the comparison, for keys of any types |
| IndexKeys.TextLessIsByteOrder | lsengine/internal/jsondb/btree.go:43-51 | one string is below another exactly if they agree up to a place where the first ends or has the smaller byte |
| IndexKeys.ComparesExactly | lsengine/internal/jsondb/btree.go:41-72 | the comparison is -1 exactly for strings in byte order and numbers in ascending order, 1 exactly the other way round, and 0 otherwise |
| IndexKeys.MixedKindsAreNotOrdered | lsengine/internal/jsondb/btree.go:41-72 | across key types it is not transitive: a string compares equal to two different integers |
| BTreeIndex.SortSearch | lsengine/internal/jsondb/btree.go:94-96 | the library's binary search, for any predicate; for a monotone one it finds the first index where it holds |
| BTreeIndex.InsertPosition | lsengine/internal/jsondb/btree.go:104-106 | the position insertion uses is where the binary search over the node's keys ends, for keys of any types |
| BTreeIndex.SearchPosition | lsengine/internal/jsondb/btree.go:158-160 | the position lookup uses, computed with the arguments swapped, is the same one |
| BTreeMixed.PositionIsLowerBound | lsengine/internal/jsondb/btree.go:94-106 | among ordered keys of one supported type that position is the lower bound of the key |
| BTreeModel.InsertedStaysSorted | lsengine/internal/jsondb/btree.go:94-102 | placing an entry at its key's lower bound keeps a list in key order, equal keys newest first |
| BTreeModel.SplitChildCorrect | lsengine/internal/jsondb/btree.go:127-150 | a split keeps the B-tree shape and leaves the in-order sequence unchanged |
| BTreeModel.SplitSizes | lsengine/internal/jsondb/btree.go:127-150 | of the 2*degree entries of a full child degree-1 stay, the next one is lifted, and degree go to the new node |
| BTreeModel.GrowRootCorrect | lsengine/internal/jsondb/btree.go:78-86 | pushing a full root down adds one level, keeps the shape and the sequence, and leaves room |
| BTreeModel.DescendAtCorrect | lsengine/internal/jsondb/btree.go:104-117 | the child chosen after a possible split has room, and the separators beside it bracket the key |
| BTreeModel.InsertKeepsShape | lsengine/internal/jsondb/btree.go:92-125 | insertion keeps all leaves at one depth, the key counts between degree-1 and 2*degree, and one child more than keys |
| BTreeModel.InsertRefinesList | lsengine/internal/jsondb/btree.go:92-125 | read in order, insertion into the tree is insertion into a sorted list at the lower bound of the key |
| BTreeModel.SearchDescends | lsengine/internal/jsondb/btree.go:157-170 | at a node without the key all entries with the key, duplicates included, are under the child the search goes to |
| BTreeModel.HeightBound | lsengine/internal/jsondb/btree.go:127-172 | a non-empty tree with leaves at depth h has at least 2*degree^h - 1 entries |
| BTreeIndex.BTreeIndex.constructor | lsengine/internal/jsondb/btree.go:25-39 | a new index is valid and empty |
| BTreeIndex.BTreeIndex.SplitChild | lsengine/internal/jsondb/btree.go:127-150 | on the heap, splitting changes only parent and child and leaves exactly the tree in which the halves and the median replaced the child, with no node shared |
| BTreeIndex.BTreeIndex.SplitNode | lsengine/internal/jsondb/btree.go:128-145 | the new node holds what is right of the median, the child keeps what is left of it |
| BTreeIndex.BTreeIndex.Link | lsengine/internal/jsondb/btree.go:147-149 | the parent gets the median and the new node directly after the child |
| BTreeIndex.BTreeIndex.InsertLeaf | lsengine/internal/jsondb/btree.go:93-102 | a leaf gets the entry at the searched position, keys and values staying aligned |
| BTreeIndex.BTreeIndex.Descend | lsengine/internal/jsondb/btree.go:103-117 | after the descent step the heap holds the specified tree and the position is that of a child, for keys of any types; lines 108-110 and 119-121 have no effect |
| BTreeIndex.BTreeIndex.InsertNonFull | lsengine/internal/jsondb/btree.go:92-125 | the recursive insertion is only called on a node with room and leaves the tree that the functional insertion gives, for keys of any types |
| BTreeIndex.BTreeIndex.Insert | lsengine/internal/jsondb/btree.go:74-90 | for keys of any types one entry more is stored, none is lost and the size grows by one; ascending keys of one supported type, strings by their bytes and numbers by size, stay ascending, the entry being placed at the lower bound of its key |
| BTreeIndex.BTreeIndex.Search | lsengine/internal/jsondb/btree.go:152-172 | for keys of any types the lookup visits at most one node per level and stops where its specification does; among keys of one supported type it answers nil exactly if no entry has the key, else the values of one that has |
| BTreeIndex.BTreeIndex.HeightIsLogarithmic | lsengine/internal/jsondb/btree.go:127-172 | size is at least 2*degree^height - 1 in every valid index |
| BTreeRuns.RunIsMultimap | lsengine/internal/jsondb/btree.go:74-125 | after any insertions the entries under a key are the values inserted under it, newest first |
| BTreeRuns.SearchAnswersMultimap | lsengine/internal/jsondb/btree.go:152-172 | what a lookup may answer after any insertions: nil exactly for a key never inserted, else one inserted value, the only one if there is only one |
| BTreeRuns.TreeHoldsRun | lsengine/internal/jsondb/btree.go:74-125 | for keys of one supported type the tree of any insertions holds the sorted list of them |
| BTreeRuns.StoredAscends | lsengine/internal/jsondb/btree.go:41-125 | after any insertions of keys of one supported type strings stand in the order of their bytes and numbers in ascending order |
| BTreeRuns.TreeHoldsAll | lsengine/internal/jsondb/btree.go:74-125 | the tree of any insertions holds exactly one entry for each, whatever the keys |
| BTreeRuns.BuildIndex | lsengine/internal/jsondb/btree.go:25-125 | every index built by insertions, of keys of any types, is valid and holds the tree of those insertions; keys of one supported type are ascending in it |
| BTreeRuns.SearchAfter | lsengine/internal/jsondb/btree.go:152-172 | insertions followed by a lookup answer as specified, and for keys of one supported type as the multimap of the insertions does |
| BTreeRuns.LookupsAreRightExactly | lsengine/internal/jsondb/btree.go:41-172 | after any insertions, lookups of keys of the inserted types are all right exactly if all inserted keys are of one supported type |
| BTreeAsWritten.IndexAsWritten.Insert | lsengine/internal/jsondb/btree.go:74-150 | with the median read after the truncation, an insertion panics exactly on a full root and then leaves only the degree-1 smallest entries |
| BTreeAsWritten.PanicsExactly | lsengine/internal/jsondb/btree.go:141-148 | the calls that panic are number 2*degree+1 and every (degree+2)-th one after it |
| BTreeAsWritten.CorrectExactlyWhileOneNodeSuffices | lsengine/internal/jsondb/btree.go:141-148 | as written, the index holds what was inserted exactly for at most 2*degree insertions |
| BTreeAsWritten.FifthInsertionLosesThree | lsengine/internal/jsondb/btree.go:141-148 | with degree 2, the fifth insertion panics and leaves the smallest of the first four entries |
| BTreeAsWritten.ReplayAsWritten | lsengine/internal/jsondb/btree.go:74-150 | calls on the index as written end with the entries the model of such runs says, and panic at exactly the calls it names |
| BTreeMixed.DescendHasRoom | lsengine/internal/jsondb/btree.go:103-123 | whatever the keys, the descent goes on in a child with room, so lines 108-110 and 119-121 have no effect |
| BTreeMixed.InsertAnyKeepsShape | lsengine/internal/jsondb/btree.go:92-125 | insertion keeps the B-tree shape for keys of any types |
| BTreeMixed.InsertLosesNothing | lsengine/internal/jsondb/btree.go:92-125 | insertion adds its entry to those stored and loses none, for keys of any types |
| BTreeMixed.InsertAnyIsInsert | lsengine/internal/jsondb/btree.go:92-125 | for keys of one type it is the insertion proved to refine the sorted list |
| BTreeMixed.InsertRootCorrect | lsengine/internal/jsondb/btree.go:74-90 | insertion with a growing root keeps the shape and adds exactly its entry, for keys of any types |
| BTreeMixed.SearchIsRight | lsengine/internal/jsondb/btree.go:152-172 | in an ordered tree of one supported key type every lookup of that type stops at an entry with the key, or at none if there is none |
| BTreeMixed.SomeLookupIsWrong | lsengine/internal/jsondb/btree.go:152-172 | in every other non-empty tree some lookup of a key whose type is stored goes wrong, namely that of a lowest key of a type other than the root's first |
| BTreeMixed.StringHidesInteger | lsengine/internal/jsondb/btree.go:41-72 | for every integer and string, a lookup of the integer stops at the string inserted after it |
| Fnv.FnvHash | lsengine/internal/plugins/plugins.go:129-136 | the loop computes the 32-bit FNV-1a hash of all bytes, in order |
| Fnv.RoundIs | lsengine/internal/plugins/plugins.go:130-134 | the hash of no bytes is the FNV offset basis; a round changes the low byte of the state alone, multiplies by the FNV prime and keeps 32 bits |
| Fnv.XorBits | lsengine/internal/plugins/plugins.go:132 | exclusive or sets exactly the bits in which its arguments differ |
| Fnv.HashOfLetter | lsengine/internal/plugins/plugins.go:129-136 | the hash of the letter a is the published value E40C292C |
| Fnv.HashFromConcat | lsengine/internal/plugins/plugins.go:129-136 | hashing a concatenation is hashing the parts one after the other |
| Fnv.StepInjective | lsengine/internal/plugins/plugins.go:131-134 | modulo each power of two up to 2^32, a hash step loses nothing of the state or the byte |
| Fnv.OneByteApart | lsengine/internal/plugins/plugins.go:129-136 | strings that differ in one byte, modulo 2^k, hash differently modulo 2^k |
| Fnv.StepCongruent | lsengine/internal/plugins/plugins.go:131-134 | the low k bits after a hash step depend only on the low k bits before it |
| DocumentIds.IdBytes | lsengine/internal/jsondb/shard.go:115 | an id is the collection, the time and the number, in decimal without leading zeros, with underscores between them; it is routed by the hash of collection, colon and id modulo 16 |
| DocumentIds.IdReadsBack | lsengine/internal/jsondb/shard.go:115 | an id can be parsed back into collection, time and number, also if the collection contains underscores |
| DocumentIds.IdsDiffer | lsengine/internal/jsondb/shard.go:115 | different collections, times or numbers make different ids |
| DocumentIds.LastDigitSpreads | lsengine/internal/jsondb/engine.go:180-184 | ids whose numbers differ only in the last digit are routed to different shards |
| ShardSpread.TwoDigitsReach | lsengine/internal/jsondb/engine.go:180-184 | from every hash state two decimal digits can lead to every shard |
| ShardSpread.EveryShardIsHit | lsengine/internal/jsondb/engine.go:180-184 | among any hundred ids that share all digits but the last two, some id is routed to any given shard |
| ShardSpread.OtherNameRoutesElsewhere | lsengine/internal/jsondb/engine.go:180-184 | for every id and non-empty collection name, changing the low bit of the name's last byte routes the id to another shard |
| ShardMaps.NoIdInTwoShards | lsengine/internal/jsondb/engine.go:180-184 | if every row is in the shard it is routed to, no id is in two shards |
| ShardMaps.LookupIsRouted | lsengine/internal/jsondb/engine.go:455-459 | looking an id up in its own shard is looking it up in the union of all shards |
| ShardMaps.PutIsRouted | lsengine/internal/jsondb/engine.go:313-319 | storing a row in its own shard stores it in the union and keeps every row in its place |
| ShardMaps.DeleteIsRouted | lsengine/internal/jsondb/engine.go:490-493 | deleting from the id's own shard deletes from the union |
| ShardMaps.GeneratedIdOwner | lsengine/internal/jsondb/engine.go:309-313 | a generated id belongs to its collection and is routed home |
| JsonEngine.JSONEngine.constructor | lsengine/internal/jsondb/engine.go:180-184 | an engine with empty shards is valid and stands for the empty table |
| JsonEngine.JSONEngine.CheckSchema | lsengine/internal/jsondb/engine.go:287-307 | the check passes exactly if every field declared as string, number or boolean that the document has holds a text, a number or a boolean |
| JsonEngine.JSONEngine.Insert | lsengine/internal/jsondb/engine.go:278-330 | success exactly for a known collection, a conforming document and a free id; then the union has that one row more, else nothing changed |
| JsonEngine.JSONEngine.Update | lsengine/internal/jsondb/engine.go:452-485 | success exactly if the id is stored where the named collection routes it; then every field of the update has its value, every other field its old one, and only the update time changes besides |
| ConcurrentUpdates.UpdateAlone | lsengine/internal/jsondb/engine.go:452-485 | a read and a write that nothing comes between do to the data what the method does |
| JsonEngine.JSONEngine.Delete | lsengine/internal/jsondb/engine.go:487-504 | success exactly without a storage fault; the id leaves the union exactly if it was looked for in its own shard |
| StoreRuns.Replay | lsengine/internal/jsondb/engine.go:278-504 | after any calls, bulk insertions included, every row is in its shard, and the shards together are what those calls make of one table |
| StoreRuns.OwnCollectionsAreTransparent | lsengine/internal/jsondb/engine.go:452-504 | if every call names the collection its id was generated for, the sharded store acts like a single table |
| StoreRuns.OtherNameDoesNothing | lsengine/internal/jsondb/engine.go:452-504 | for every stored document of a collection with a name, an update and a deletion naming a certain other collection do nothing, and both statements find no row |
| StoreRuns.RunsStoreOwnedRows | lsengine/internal/jsondb/engine.go:309-319 | after any calls every stored id is one generated for the collection of its row |
| ConcurrentUpdates.WriteLosesNothingExactly | lsengine/internal/jsondb/engine.go:452-485 | with read and write as two steps, a write after events without loss loses nothing exactly if the document, outside the fields it sets, is as it was read, or is gone |
| ConcurrentUpdates.RunLosesNothingExactly | lsengine/internal/jsondb/engine.go:452-485 | in any run of reads, writes and deletions nothing is ever lost exactly if that holds at every write |
| ConcurrentUpdates.SuccessWroteNothingExactly | lsengine/internal/jsondb/engine.go:452-504 | in every run an update that reports success wrote nothing exactly if the document was deleted between its read and its write |
| ConcurrentUpdates.HarmlessOverlapsLoseNothing | lsengine/internal/jsondb/engine.go:452-485 | in particular nothing is lost if overlapping updates set only fields that the later writer sets too |
| ConcurrentUpdates.OverlapLosesField | lsengine/internal/jsondb/engine.go:452-485 | of two updates that both read before either writes, a field that only the first changes is lost |
| BulkPlan.GroupsPartition | lsengine/internal/jsondb/shard.go:111-124 | the per-shard groups of a batch partition it |
| BulkPlan.GroupwiseIsRowwise | lsengine/internal/jsondb/shard.go:129-163 | one transaction per shard leaves each shard as storing the batch row by row would |
| BulkPlan.RowwiseIsUnion | lsengine/internal/jsondb/shard.go:151-156 | storing routed rows in the shards is storing them in the union, less the rows of failed shards |
| BulkPlan.IsStored | lsengine/internal/jsondb/shard.go:143-156 | with distinct ids every row of a shard that did not fail is stored under its id |
| BulkPlan.NotStored | lsengine/internal/jsondb/shard.go:136-161 | an id with no row in a succeeding shard keeps what it had |
| BulkPlan.AllIdsDistinct | lsengine/internal/jsondb/shard.go:88-116 | all ids of one call differ, whatever the clock does between batches |
| BulkPlan.LoadIsBalanced | lsengine/internal/jsondb/shard.go:114-124 | no shard gets more than a tenth, rounded up, of a batch whose numbering starts at a multiple of ten |
| BulkPlan.EveryBatchIsBalanced | lsengine/internal/jsondb/shard.go:88-124 | in every batch of a bulk insertion no shard gets more than a tenth of it, rounded up |
| BulkPlan.AlignedTenSpread | lsengine/internal/jsondb/shard.go:114-119 | ten documents whose numbers share all but the last digit go to ten different shards |
| JsonEngine.JSONEngine.GroupByShard | lsengine/internal/jsondb/shard.go:111-124 | the ids are those of the batch in order; exactly the shards with rows have a group, which holds their rows in batch order; and if the numbering starts at a multiple of ten no group has more than a tenth of the batch, rounded up |
| JsonEngine.JSONEngine.WriteGroups | lsengine/internal/jsondb/shard.go:126-172 | in whatever order the transactions commit, each shard that did not fail has its group and the others are unchanged; an error is reported exactly if one failed |
| JsonEngine.JSONEngine.InsertRows | lsengine/internal/jsondb/shard.go:151-156 | one transaction stores or replaces the rows of its group in order |
| JsonEngine.JSONEngine.BulkInsertBatch | lsengine/internal/jsondb/shard.go:104-182 | the union gets exactly the documents whose shard did not fail, each under its id with the data given and the time of the batch; success exactly if no shard that was to get one failed, with one id per document in order |
| JsonEngine.JSONEngine.BulkInsert | lsengine/internal/jsondb/shard.go:80-102 | every returned id names its document, which is stored under it with its data and the time of its batch of 500; failure returns the ids of the whole batches before the failed one, and stores those and the documents of that one whose shard did not fail |
| JsonEngine.ReturnedRowsAreStored | lsengine/internal/jsondb/shard.go:80-182 | every returned id is that of its document, in order, and the document is stored under it, made and updated when its batch of 500 read the clock |
| JsonEngine.FailedBatchIsPartlyStored | lsengine/internal/jsondb/shard.go:94-97 | of a failed batch exactly the documents of shards that did not fail are stored, with their data and the time of the batch |
| JsonEngine.FirstFailsSecondIsStored | lsengine/internal/jsondb/shard.go:94-172 | for every insertion of two or more documents: if the shard of the first fails, the first is not stored although the second is, with its data |
| JsonEngine.OtherRowsAreUntouched | lsengine/internal/jsondb/shard.go:80-182 | rows under ids that none of the documents gets are as before |
| JsonEngine.BulkIsDetermined | lsengine/internal/jsondb/shard.go:80-182 | the table after a bulk insertion is determined by the shards that fail, and it succeeds exactly if no row goes to one |
| Paging.EffectiveSize | lsengine/internal/jsondb/engine.go:333-335 | the page size in effect is the given one if it is from 1 to 1000, and 100 otherwise |
| Paging.OffsetIsDealt | lsengine/internal/jsondb/engine.go:369-372 | a shard skips as many rows as it would have got of the first offset rows dealt out in turn |
| Paging.OffsetSplitIsExact | lsengine/internal/jsondb/engine.go:369-372 | the rows skipped add up to the offset over all shards |
| Paging.LimitsCoverPage | lsengine/internal/jsondb/engine.go:374 | the limits add up to more than a page over all shards |
| Paging.WindowsLeaveNoHole | lsengine/internal/jsondb/engine.go:336-339 | in each shard the next page's window starts no earlier than this page's and no later than its end |
| Paging.ShardsNeverShrink | lsengine/internal/jsondb/engine.go:346-349 | a shard read for a page is read for the next one |
| Paging.ReadFromFirstReader | lsengine/internal/jsondb/engine.go:346-349 | a page reads a shard exactly from a certain page number on |
| Paging.RanksFetchedExactly | lsengine/internal/jsondb/engine.go:336-374 | over all pages of one size a shard is asked for exactly the rows from the start of the first page that reads it |
| Paging.FetchedTwiceExactly | lsengine/internal/jsondb/engine.go:336-374 | successive pages both ask a shard for a row exactly if the window moved by the shard's part of a page and the row is the first of the later window |
| Paging.DefaultPagesSkip | lsengine/internal/jsondb/engine.go:333-374 | with the default size, the 63 newest rows of shard 1 are asked for by no page |
| PageMerge.ArrivalsAgree | lsengine/internal/jsondb/engine.go:409-415 | which rows are collected does not depend on the order in which the shards answer |
| PageMerge.PageTimesUnique | lsengine/internal/jsondb/engine.go:417-423 | pages of the same rows have the same sequence of timestamps, however the sort breaks ties |
| PageMerge.PageIsTopSelection | lsengine/internal/jsondb/engine.go:417-423 | the page is newest first, as long as it can be, and no dropped row is newer than a kept one |
| PageMerge.PageHasNoRowTwice | lsengine/internal/jsondb/engine.go:417-423 | no id is twice on a page of rows with distinct ids |
| PageMerge.ShownByRank | lsengine/internal/jsondb/engine.go:417-423 | a fetched row is shown if no more rows than fit are as new, and dropped if as many as fit are newer |
| PageMerge.ShownExactly | lsengine/internal/jsondb/engine.go:417-423 | a fetched row whose timestamp no other has is shown exactly if fewer rows than fit are newer |
| JsonEngine.JSONEngine.SortByUpdatedAt | lsengine/internal/jsondb/engine.go:417-419 | the result is a permutation of the rows with descending timestamps |
| JsonEngine.JSONEngine.QueryShard | lsengine/internal/jsondb/engine.go:367-400 | a shard answers with the window of its newest-first listing of the collection, every document with the data and times that are stored |
| JsonEngine.JSONEngine.CollectAnswers | lsengine/internal/jsondb/engine.go:409-415 | the answers are joined in order of arrival, failed shards contributing nothing |
| JsonEngine.JSONEngine.FindPage | lsengine/internal/jsondb/engine.go:332-431 | a page is the first rows, newest first, of what the queried shards answered, each with the data and times stored in the shard it names; it says which page of which size it is, pages before the first counting as the first, and claims more exactly if the shards that did not fail list as many rows as a page holds |
| JsonEngine.JSONEngine.FindOne | lsengine/internal/jsondb/engine.go:441-450 | the newest row of the collection in shard 0, with the data and times stored, and none exactly if the query to shard 0 fails or shard 0 has none |
| JsonEngine.JSONEngine.Find | lsengine/internal/jsondb/engine.go:433-439 | the first seven rows of shard 0, newest first, with the data and times stored, or nothing if its query fails |
| JsonEngine.OneShardPage | lsengine/internal/jsondb/engine.go:346-423 | the first page is everything shard 0 answers, nothing if its query fails |
| JsonEngine.FullExactly | lsengine/internal/jsondb/engine.go:369-429 | a page is full exactly if the queried shards that do not fail list that many rows together |
| PageTheorems.PageContents | lsengine/internal/jsondb/engine.go:332-431 | every document on a page has the data and times stored under its id, is of the collection, and names the queried shard where it lives; no id occurs twice |
| PageTheorems.ArrivalDoesNotMatter | lsengine/internal/jsondb/engine.go:357-423 | the timestamps on a page are the same for every order of arrival |
| PageTheorems.NoMoreMeansNothingDropped | lsengine/internal/jsondb/engine.go:421-430 | a page that does not claim more rows has all that were fetched |
| PageTheorems.NothingDroppedExactly | lsengine/internal/jsondb/engine.go:421-423 | nothing fetched is dropped exactly if it fits on the page |
| PageTheorems.ClaimIsRightAboutFetchedExactly | lsengine/internal/jsondb/engine.go:421-430 | a page claims more exactly when a fetched row was dropped, exactly unless as many rows were fetched as the page holds |
| PageTheorems.ClaimIsRightExactly | lsengine/internal/jsondb/engine.go:332-430 | on every page of every size, the claim is right about documents not shown exactly if the shards list a page of rows and the collection has more, or they list fewer and those are all |
| PageTheorems.FirstPageClaimIsRightExactly | lsengine/internal/jsondb/engine.go:346-430 | on the first page of any size the claim is right exactly if there are no documents, or shard 0 answers and, for pages of one, has a document that is not the only one, and for larger pages has all documents within its limit |
| PageTheorems.FullPageNeedsEnoughShards | lsengine/internal/jsondb/engine.go:346-374 | a page has at most as many rows as the limits of the shards it reads allow |
| PageLimits.FilledStore | lsengine/internal/jsondb/engine.go:180-184 | for every collection and number there is a store with that many documents of it in each of the first shards, every row in the shard it is routed to |
| PageLimits.CanBeFullExactly | lsengine/internal/jsondb/engine.go:346-429 | some store fills the page exactly if the limits of the shards it reads add up to its size |
| PageLimits.DefaultPagesFullExactly | lsengine/internal/jsondb/engine.go:333-429 | with the default size some store fills the page exactly from the 141st page on |
| PageTheorems.EarlyPagesNeverHaveMore | lsengine/internal/jsondb/engine.go:346-429 | a page of size other than 1 within the first 1000 rows is never full; which pages can be is stated by `PageLimits.CanBeFullExactly` |
| PageTheorems.FirstListedIsCompleteExactly | lsengine/internal/jsondb/engine.go:346-423 | what shard 0 lists on the first page is all of the collection exactly if that is empty, or the query succeeds and shard 0 has all of it within the limit |
| PageTheorems.FindIsCompleteExactly | lsengine/internal/jsondb/engine.go:433-439 | a search returns all documents of a collection exactly if there are none, or shard 0 answers, has all of them, and they are at most seven |
| PageTheorems.RowIsFetchedExactly | lsengine/internal/jsondb/engine.go:336-380 | of a shard's rows, newest first, exactly those from the start of the first page that reads it are fetched by some page |
| PageTheorems.SomeDocumentIsNotFound | lsengine/internal/jsondb/engine.go:433-450 | for every collection and time there is a store with a document of it, of which shard 0 has no row |
| Framing.FramingIsReversibleExactly | lsengine/internal/websocket/ws.go:200-211 | a payload splits back into its messages exactly if none of them contains a newline |
| SendQueue.WSConnection.TrySend | lsengine/internal/websocket/ws.go:253-257 | a send on an open channel appends if there is room and counts a drop otherwise; on a closed one it panics |
| SendQueue.WSConnection.SafeSend | lsengine/internal/websocket/ws.go:245-258 | ignored on a closed connection, else enqueued at the end or counted as dropped; no panic |
| SendQueue.WSConnection.MarkClosed | lsengine/internal/websocket/ws.go:160-162 | the flag is set while the channel stays as it is |
| SendQueue.WSConnection.CloseChannel | lsengine/internal/websocket/ws.go:163 | the channel is closed, once, after the flag was set |
| SendQueue.WSConnection.Close | lsengine/internal/websocket/ws.go:159-164 | flag, then channel; the connection is valid, and safe to send to, between the two |
| SendQueue.WSConnection.WriteFrame | lsengine/internal/websocket/ws.go:196-211 | a frame takes the eleven oldest messages, or all, in order and joins them with single newlines |
| SendQueue.WSConnection.DrainAfterClose | lsengine/internal/websocket/ws.go:187-217 | on a closed channel all waiting messages are delivered in order, in as few frames as possible |
| SendQueue.Broadcast | lsengine/internal/websocket/ws.go:81-91 | panics exactly if some registered connection is closed, else every connection has the message last or one more drop |
| SendRuns.EveryRunIsSafe | lsengine/internal/websocket/ws.go:159-258 | in every interleaving the lock, the flag, the queue, the frames and the history of the calls agree |
| SendRuns.SafeSendNeverPanics | lsengine/internal/websocket/ws.go:245-258 | in no interleaving does safeSend send on the closed channel |
| SendRuns.BroadcastPanicsExactly | lsengine/internal/websocket/ws.go:81-91 | in every reachable state a broadcast that met the connection panics exactly if the channel is closed when it selects |
| SendRuns.LateBroadcastsMissTheConnection | lsengine/internal/websocket/ws.go:75-91 | a broadcast that has not met the connection when it is unregistered never selects on it |
| SendRuns.NoPanicOutOfReach | lsengine/internal/websocket/ws.go:75-91 | once the connection is unregistered and no broadcast holds it, nothing can panic on it any more |
| SendRuns.PanicIsPossibleExactly | lsengine/internal/websocket/ws.go:75-91 | from every reachable state without a panic, some continuation panics exactly if the connection is registered or some broadcast holds it |
| SendRuns.PanicAfterUnregistering | lsengine/internal/websocket/ws.go:81-91 | for every message, a broadcast that met the open connection can panic after it was unregistered |
| SendRuns.EachCallCountsOnce | lsengine/internal/websocket/ws.go:245-258 | a finished call enqueued its own message once or counted one drop if it found the connection open, and neither otherwise |
| SendRuns.OnlyFinishedCallsCount | lsengine/internal/websocket/ws.go:245-258 | an unfinished call has neither enqueued nor counted a drop |
| SendRuns.WriterKeepsOrder | lsengine/internal/websocket/ws.go:187-217 | frames, the messages in the writer's hands, and queue together are the enqueued messages in order; a failing write loses at most one frame |
| SendRuns.FramesAreWellFormed | lsengine/internal/websocket/ws.go:200-211 | every frame has one to eleven messages joined by single newlines, and the inner default never fires |
| SendRuns.CloseFrameComesLast | lsengine/internal/websocket/ws.go:191-194 | once the close frame is sent, the frames before it hold everything that was ever enqueued |
| SendRuns.WriterDeliversAll | lsengine/internal/websocket/ws.go:187-217 | from every reachable state with the channel closed, the writer alone can deliver everything and send the close frame |
| SendRuns.SafeSendAlone | lsengine/internal/websocket/ws.go:245-258 | from every reachable state with the lock free, a call that nothing comes between enqueues, drops or ignores exactly as the method does |
| SendRuns.FrameAlone | lsengine/internal/websocket/ws.go:187-217 | from every reachable state, a frame that nothing comes between holds the eleven oldest messages, or all if there are fewer |
| Registry.WSManager.CountConnections | lsengine/internal/websocket/ws.go:58-62 | ranging over the table counts its entries |
| Registry.WSManager.Register | lsengine/internal/websocket/ws.go:57-73 | alone, a registration succeeds exactly below the limit, and the counters follow the table |
| Registry.RegisterAlone | lsengine/internal/websocket/ws.go:57-73 | from every reachable state, a registration that nothing comes between is stored exactly below the limit, as by the method |
| Registry.WSManager.Unregister | lsengine/internal/websocket/ws.go:75-79 | the connection leaves the table and the active counter follows |
| Registry.EveryRunIsSafe | lsengine/internal/websocket/ws.go:57-79 | in every interleaving of ranging, storing and removing, whoever found room counted all entries that were there throughout, and the counters agree with the table |
| Registry.OvershootIsBounded | lsengine/internal/websocket/ws.go:57-79 | in every interleaving, ranging taking many steps, the table exceeds the limit by less than the largest number of registrations that were at one moment between the beginning of their range and their store; the active counter is right whenever none is half done |
| Registry.OvershootIsReached | lsengine/internal/websocket/ws.go:57-73 | for every limit and every number of racing registrations that bound is reached |
| VmPool.GojaPool.constructor | lsengine/internal/vm/vm_pool.go:45-58 | the pool starts with the minimum number of distinct unused runtimes |
| VmPool.GojaPool.Get | lsengine/internal/vm/vm_pool.go:72-85 | the runtime idle for longest with one more use, or a fresh one if none is idle |
| VmPool.GojaPool.Put | lsengine/internal/vm/vm_pool.go:87-102 | the runtime goes to the back unless it is worn out or the channel is full, which counts as evicted |
| VmPool.GojaPool.Rotate | lsengine/internal/vm/vm_pool.go:107-121 | alone, the loop ends and leaves the runtimes it did not inspect followed by the inspected ones that are not stale, in order |
| VmPool.GojaPool.CleanupPass | lsengine/internal/vm/vm_pool.go:107-121 | of the runtimes that a pass inspects exactly those used within half an hour are left, and if all were used so lately nothing changes; it also says exactly when such a pass removes all stale runtimes and when a given number is left |
| VmPool.PassKeepsExactly | lsengine/internal/vm/vm_pool.go:107-121 | of the inspected runtimes exactly those used within half an hour are left, all others stay, and a pass over runtimes used so lately changes nothing |
| VmPool.EvictsAtLeast | lsengine/internal/vm/vm_pool.go:107-121 | of n runtimes a pass evicts at least q exactly if the first n - q + 1 have q stale ones |
| VmPool.EvictsAllStaleExactly | lsengine/internal/vm/vm_pool.go:107-121 | a pass evicts every stale runtime exactly if the position of the last one plus their number is at most the length |
| VmPool.KeepsMinimumExactly | lsengine/internal/vm/vm_pool.go:107-121 | a pass leaves at least m runtimes exactly if there were as many and at most n - m of the first m are stale |
| VmPool.FirstPass | lsengine/internal/vm/vm_pool.go:107-121 | a pass over runtimes never used evicts half of them, rounded up |
| VmPool.FirstTick | lsengine/internal/vm/vm_pool.go:45-121 | with the configured sizes of 500 and 10 an unused pool falls from ten runtimes to five |
| VmPool.EveryRunIsSafe | lsengine/internal/vm/vm_pool.go:72-123 | in every interleaving of gets, puts and the cleaner each runtime has one place, the channel is within its capacity, no runtime has more than 10001 reuses, and every runtime made is idle, on loan, in the cleaner's hands, evicted or dropped |
| VmPool.GetAlone | lsengine/internal/vm/vm_pool.go:72-85 | in every run a get takes the first idle runtime with one more use, or a new one that is nowhere else |
| VmPool.PutAlone | lsengine/internal/vm/vm_pool.go:87-102 | a return that nothing comes between puts the runtime at the back of the channel or counts it as evicted exactly as the method does |
| RateLimiter.SimilarAddressesSpread | lsengine/internal/plugins/plugins.go:104 | addresses of one length that differ in one character are in different shards |
| RateLimiter.LimiterTable.Lookup | lsengine/internal/plugins/plugins.go:104-108 | the limiter registered for the address, if any |
| RateLimiter.LimiterTable.LookupOrCreate | lsengine/internal/plugins/plugins.go:111-116 | the registered limiter, or a fresh one that becomes it; other addresses keep theirs |
| RateLimiter.LimiterTable.LimiterFor | lsengine/internal/plugins/plugins.go:104-117 | a request that nothing interferes with gets the limiter its address already had, or the first one |
| RateLimiter.EveryRunIsSafe | lsengine/internal/plugins/plugins.go:104-117 | in every interleaving every limiter made is the registered one of its address, and every request uses a registered one |
| RateLimiter.OneLimiterPerAddress | lsengine/internal/plugins/plugins.go:104-117 | in every interleaving at most one limiter is made per address |
| RateLimiter.RequestsShareTheLimiter | lsengine/internal/plugins/plugins.go:104-119 | in every interleaving all requests from one address use the same limiter |
| RateLimiter.RequestAlone | lsengine/internal/plugins/plugins.go:104-117 | from every reachable state, a request that nothing comes between uses the limiter its address has, or makes the one it will have |
| TtlCache.Cache.constructor | lsengine/internal/cache/cache.go:27-36 | a new cache is empty |
| TtlCache.Cache.Set | lsengine/internal/cache/cache.go:38-58 | the key has the value with its expiry, every other entry stays, and only a full cache loses one, which is arbitrary |
| TtlCache.SetKeepsOthers | lsengine/internal/cache/cache.go:42-57 | a set gives the key its item, leaves the others, and takes at most the victim away, and that only from a full cache |
| TtlCache.Cache.Get | lsengine/internal/cache/cache.go:60-77 | alone, the stored value if it has not expired; an expired entry is removed |
| TtlCache.Cache.Del | lsengine/internal/cache/cache.go:79-83 | the key is removed and nothing else |
| TtlCache.Cache.Clear | lsengine/internal/cache/cache.go:85-89 | nothing is left |
| TtlCache.Cache.Sweep | lsengine/internal/cache/cache.go:102-109 | exactly the entries that have not expired are left, unchanged |
| TtlCache.SetStaysBounded | lsengine/internal/cache/cache.go:42-57 | a set keeps the size within the larger of 1 and maxSize |
| TtlCache.EveryRunIsSafe | lsengine/internal/cache/cache.go:38-115 | in every interleaving the cache is part of the ideal last-write map and within its bound, and every lookup that read an entry answers with the value newest at that moment exactly if it was unexpired at the check |
| TtlCache.LookupAlone | lsengine/internal/cache/cache.go:60-77 | a lookup that nothing comes between answers and deletes exactly as the method does |
| TtlCache.LateDeleteLosesExactly | lsengine/internal/cache/cache.go:60-77 | in every interleaving a lookup about to delete takes away a value unexpired at its check exactly if the key is still there and was last set after the lookup read it, to expire no earlier than the check |
| TtlCache.LateDeleteHarmsOnlyNewerValues | lsengine/internal/cache/cache.go:69-74 | the value taken away is not the one the lookup read |
| TtlCache.LateDeleteLosesFreshValue | lsengine/internal/cache/cache.go:69-74 | from every state with an expired entry, in a full cache too, a value set between a lookup's check and its deletion is lost |

## Left out

- BTreeIndex.BTreeIndex.SplitChild: reads the median before truncating the child; the code reads it afterwards and panics, which `BTreeAsWritten` models.
- BTreeIndex.BTreeIndex.Insert: floating-point keys are reals, so NaN, infinities and signed zeros are not modelled.
- BTreeIndex.BTreeIndex.constructor: requires a degree of at least 1; with degree 0 the root has no capacity and the first split has no median.
- BTreeIndex.BTreeIndex.UpperNode: the node pool is plain allocation, since no node is ever put back; the `next` field is never used.
- BTreeIndex.BTreeIndex.Search: the read and write locks make each call atomic, so concurrent calls are runs of whole calls.
- JsonEngine.JSONEngine.Insert: JSON encoding is the identity, a null document is not modelled, and a collection's metadata row cannot fail to load.
- JsonEngine.JSONEngine.Update: the read and the write are one step; the two steps of concurrent callers are in `ConcurrentUpdates`, for one document, without its timestamp, and without a later insertion under the same id.
- JsonEngine.JSONEngine.FindPage: the filter argument is ignored by the code and absent here; scan errors, which drop single rows, and the query timeout are failures of whole shards; offsets are unbounded integers.
- JsonEngine.JSONEngine.BulkInsert: the collection stays known during the call; ids of different calls within one second may repeat and then replace rows, as the contract allows.
- DocumentIds.GetShard: the hash is converted to a 64-bit integer, so that it is never negative.
- SendQueue.WSConnection.WriteFrame: errors of single writes inside a frame are ignored by the code and not modelled; deadlines and pings are absent, and a failing ping is the action `Fail`.
- SendRuns.WriterDeliversAll: states that the writer can finish, not that the scheduler lets it.
- Registry.OvershootIsBounded: the earlier identical check before the upgrade is left out, since it does not change the bound.
- VmPool.GojaPool.constructor: requires the minimum not to exceed the capacity; otherwise the code blocks for ever.
- VmPool.GojaPool.CleanupPass: one clock reading for the whole pass.
- VmPool.EveryRunIsSafe: the cleaner may evict or keep any runtime at any moment, which covers every clock.
- RateLimiter.LimiterTable.LimiterFor: the limiter itself, a token bucket of a library, and cutting the port off the address are not modelled.
- TtlCache.Cache.Get: the code's answer nil cannot be told from a stored nil; here they differ.
- The `document_count` metadata, updated in detached goroutines, has no invariant against the rows.
- SQLite, its journal and pools; each table is a map with atomic transactions.
- The Redis tier, configuration, metrics and HTTP routing, which are plumbing.
- The script runtime, its host interface and the process cluster.
- Import rewriting and path validation, which rest on regular expressions and the file system.
