# VadaDB, modelled and verified

VadaDB keeps one exclusive-or "fused" backup for several source shards and
rebuilds any one lost shard from the backup and the survivors.  This project
models its data structures, its two-log commit protocol and the database on top
of them, and proves what they are for.

* **Algebra** (`Words`).  Go's `core.Word` constraint becomes a dictionary of a
  zero and an exclusive-or with four laws; the laws are proved for 64-bit
  numbers and, in `Tables`, for key-value pairs.
* **Bit-field fused lists** (`Grids`, `Space`, `FusedLists`).  A node with its
  bits stands for a column of optional records, the list for a grid; reading one
  source across the grid gives its records.  Insert, Delete and the merging loops
  are functions on grids with a proved meaning and space bound; the linked list
  in the heap is proved to compute exactly those functions.
* **Fused tables and lists** (`Tables`, `KVLayouts`, `KVHashTables`,
  `LinkedLists`, `FusedHashTables`).  The key-value table stores no sources, so
  what it fuses is a ghost; `KVLayouts.Fuses` ties it to the tables.
* **Room** (`Storage`, `Growth`, `Savings`, `Samples`).  How many nodes and bytes
  the database's fused backup takes, and exactly when it is smaller than a full
  copy of the records: always, in some order of the Puts, or after opening.
* **Interval fused lists** (`Runs`, `Deques`).  Each source covers a run of
  nodes; `Runs` says what pushes, pops and merges do to the runs.
* **Stacks, circular queue, arrays** (`Stacks`, `Queues`, `Arrays`).
* **Commit protocol and restart** (`Logs`, `Disks`, `Protocol`, `Operations`,
  `Opening`).  Every append, file write and rename is one step, and the process
  may die between any two; a snapshot file is never written over an existing one.
* **The database** (`Databases`, with `Shards`, `Publishing` and `Rebuilding` for
  its loops over shards and files).  A class whose methods each perform a run of
  the protocol, with the in-memory shards and the fused backup tied to its state.
  A database without a directory follows the same steps over logs that exist in
  the specification only.  `Sessions` runs whole sequences of requests over it.
* **File formats** (`Codecs`, `Files`).  The bytes of each file, and the protocol
  and the restart once more, on bytes.

Where the code and its tests or comments disagree, the code is followed:
structures/listqueue_test.go:58 expects fewer nodes than elements, which
`Runs.NoSharing` refutes and `Runs.NodesBounded` replaces by the exact
condition, some node with a reference count of two or more.  The program's own
README (its line 5) promises a backup smaller than a full replica once there is
enough data.  `Savings.AlwaysSaves` and `Savings.CanSave` replace that by exact
conditions on the contents, and enough data is not what makes the difference:
with three shards any contents of 544 keys or more have an order of Puts that
ends in a backup no smaller than a copy (`Savings.ThreeShards`), and with 2, 4, 8
or 16 shards every backup but the empty one is larger (`Storage.NothingShared`).
The loop over
candidates in structures/linkedlist.go:58-60 never goes round, as an assertion in
`FusedLists.FusedList.MakeRoom` proves, so one class serves both lists; a node of
the key-value table holds its key and value as one pair.

A clock, a file that fails and a process that dies are inputs: `Fault` says
which append of a mutation fails, the function `works` which file operations of
a snapshot succeed, and `ProcessCrash` may come at any time.

## Model

| member | source | states |
|---|---|---|
| `Words.Recover` | core/xor.go:14-16 | for any position of the missing value, fusion and survivors give it back |
| `Words.FoldReplace` | core/xor.go:10-12 | replacing one value in a fusion equals the fusion of the changed values |
| `Words.XorAll` | core/xor.go:3-8 | the loop computes the fold of all values |
| `Words.WordOpsLawful` | core/xor.go:3-16 | exclusive-or on 64-bit numbers is associative, commutative, has zero, and is its own inverse |
| `Tables.RecordOpsLawful` | structures/kvhashtable.go:8-11 | so is exclusive-or on key-value pairs, key and value side by side |
| `Grids.InsertMeaning` | structures/kvhashtable.go:56-79 | Insert puts the record at its index in its own source, leaves every other source alone, and adds at most one node |
| `Grids.InsertTight` | structures/kvhashtable.go:68-77 | after Insert no node is empty and neighbours still share a source |
| `Grids.InsertPlace` | structures/kvhashtable.go:56-75 | the record comes into the node right behind its predecessor's, or the first node; a new node is made exactly when the source uses that one already or there is none |
| `Grids.MergeNodesMeaning` | structures/linkedlist.go:181-209 | the merging loops change no source's records and no source's order |
| `Grids.MergeNodesTight` | structures/linkedlist.go:181-200 | one cleared bit costs two nodes at most, and the loops end with no empty node and no disjoint neighbours |
| `Grids.DeleteMeaning` | structures/linkedlist.go:74-90 | Delete takes exactly the indexed record out of its own source and changes no other source |
| `Grids.DeleteTight` | structures/kvhashtable.go:231-250 | after Delete no node is empty and neighbours share a source; at most two nodes are gone |
| `Grids.DeletePlace` | structures/kvhashtable.go:231-250 | exactly which nodes are left: what remains of the column is joined to the left neighbour if the two share no source, then to the right one; an emptied node goes, and its neighbours are joined if they share none |
| `Grids.DeleteAsMeaning` | structures/kvhashtable.go:92-104 | whatever record the caller names, exactly the indexed one goes; the difference stays in one record of one other source that shares the node, or nowhere |
| `Grids.DeleteAsStored` | structures/kvhashtable.go:98-103 | named correctly, nothing stays behind |
| `Grids.PayloadJoin` | structures/kvhashtable.go:252-260 | merging disjoint nodes, the exclusive-or of the payloads is the payload of the joined column |
| `Grids.AlignedRecord` | structures/kvhashtable.go:197-207 | the record under a node is the one whose index counts the earlier nodes with the same bit |
| `Space.SpaceBound` | structures/kvhashtable.go:161-184 | longest source <= nodes <= records - sources in use + 1, in every list that Insert and Delete can leave |
| `Space.NodesBounded` | structures/kvhashtable.go:231-250 | each node after the first adds one record more than it adds new sources |
| `Space.LayoutBound` | structures/kvhashtable.go:161-169 | the bound, summed over all buckets |
| `Space.LongestSourceFits` | structures/kvhashtable.go:161-169 | no source has more records than the table has nodes |
| `Space.BitFieldBytes` | structures/kvhashtable.go:181-184 | a bit for each source, and less than a byte to spare |
| `FusedLists.FusedList.Insert` | structures/linkedlist.go:35-72 | the pointer list computes Grids.Insert; links stay one chain in both directions, payloads and bits follow |
| `FusedLists.FusedList.FindPlace` | structures/kvhashtable.go:56-72 | the walk finds the node after the cut and the source's next node |
| `FusedLists.FusedList.NodeAt` | structures/linkedlist.go:147-157 | finds the one node that carries the source's indexed record |
| `FusedLists.FusedList.InsertBefore` | structures/linkedlist.go:159-179 | one fresh node spliced in, everything else in place |
| `FusedLists.FusedList.RemoveNode` | structures/linkedlist.go:211-222 | exactly one node spliced out |
| `FusedLists.FusedList.Merge` | structures/linkedlist.go:202-209 | the left node becomes the joined column, the right one goes |
| `FusedLists.FusedList.MergeNodes` | structures/linkedlist.go:181-200 | computes Grids.MergeNodes and terminates |
| `FusedLists.FusedList.Delete` | structures/kvhashtable.go:98-103 | computes Grids.DeleteAs for whatever record the caller names; a list with no empty node and sharing neighbours stays one |
| `FusedLists.FusedList.Adjust` | structures/kvhashtable.go:87-89 | changes one record by a delta and no pointer |
| `FusedLists.FusedList.Subtract` | structures/linkedlist.go:105-122 | fails exactly when the number of records does not fit the bits, and otherwise takes the survivor out of every payload |
| `FusedLists.FusedList.Collect` | structures/linkedlist.go:123-127 | what is left under the missing source's bits is its records in order |
| `KVHashTables.NewFusedKVHashTable` | structures/kvhashtable.go:32-44 | fails exactly below two sources or one bucket; otherwise an empty valid table |
| `KVHashTables.FusedKVHashTable.Insert` | structures/kvhashtable.go:50-80 | fails exactly on a position out of range; else one bucket gets Grids.Insert and the size table follows |
| `KVHashTables.FusedKVHashTable.Replace` | structures/kvhashtable.go:82-90 | fails exactly on a position out of range; else one record's value changes by old ^ new, no node appears or goes and no bit changes |
| `KVHashTables.FusedKVHashTable.Delete` | structures/kvhashtable.go:92-104 | fails exactly on a position out of range, whatever key and value are named; else one bucket gets Grids.DeleteAs and the size table follows |
| `KVHashTables.FusedKVHashTable.Recover` | structures/kvhashtable.go:106-159 | accepts exactly survivors of the right numbers and sizes, in any record order; from true ones returns the missing table in key order |
| `KVHashTables.FusedKVHashTable.SortSurvivor` | structures/kvhashtable.go:115-133 | groups and sorts one survivor, and fails exactly on a bucket of another size |
| `KVHashTables.FusedKVHashTable.RecoverBucket` | structures/kvhashtable.go:136-156 | one bucket of the missing source, when the survivors match |
| `KVHashTables.FusedKVHashTable.NodeCount` | structures/kvhashtable.go:161-169 | counts the nodes of all buckets |
| `KVHashTables.FusedKVHashTable.SourceRecordCount` | structures/kvhashtable.go:171-179 | the size table adds up to all sources' records |
| `KVHashTables.FusedKVHashTable.LogicalBytes` | structures/kvhashtable.go:181-184 | nodes times 16 plus the bit field, which is the least number of bytes with a bit for each source; at most the records, less what buckets share, at that size; at least the longest source |
| `KVLayouts.PutFuses` | db/database.go:207-220 | at the rank of its key a Put's Insert or Replace never fails and the backup fuses the new tables |
| `KVLayouts.DeleteFuses` | db/database.go:248-257 | at the rank of its key a Delete never fails, hits the stored record, and the backup fuses the new tables |
| `KVLayouts.ColumnIsTable` | structures/kvhashtable.go:135-158 | the buckets of a source, put together and sorted, are its table |
| `KVLayouts.AcceptAlike` | db/database.go:458-483 | a backup grown by Put and Delete and one rebuilt accept the same survivors |
| `KVHashTables.RecoverAlike` | structures/kvhashtable.go:106-159 | and then Recover gives the same answer on both: both fail, or from true survivors both return the same missing table |
| `KVLayouts.BuildStep` | db/database.go:475-480 | each insertion at the running index of its bucket is in range and keeps the partial build |
| `KVLayouts.BuildNext` | db/database.go:464-481 | a shard inserted bucket by bucket in key order is complete |
| `Tables.ListingPut` | db/database.go:446-456 | at the rank of a key, inserting or replacing gives the listing of the changed table |
| `Tables.ListingRemove` | db/database.go:446-456 | at the rank of a key, removing gives the listing of the smaller table |
| `Tables.SortBag` | db/database.go:485-492 | any iteration order of a map, sorted by key, is the table's one listing |
| `Tables.GroupOfListing` | structures/kvhashtable.go:115-133 | a bucket's records of a listing are the bucket's listing |
| `Tables.SortedUnique` | structures/kvhashtable.go:126-128 | with distinct keys there is one sorted order, so the choice of sort.Slice does not matter |
| `LinkedLists.FusedLinkedList.Insert` | structures/linkedlist.go:35-72 | fails exactly out of range; the source is the plain list with the insertion, the list makes the step of Grids.Insert and grows by one node at most |
| `LinkedLists.FusedLinkedList.Delete` | structures/linkedlist.go:74-90 | fails exactly out of range; returns the element, leaves the plain list without it, and the list makes the step of Grids.Delete |
| `LinkedLists.FusedLinkedList.Recover` | structures/linkedlist.go:92-128 | accepts exactly survivors of the right number and lengths; from true ones returns the missing list |
| `LinkedLists.NodesBounded` | structures/linkedlist.go:137-145 | longest source <= nodes <= elements - sources in use + 1, after any inserts and deletes |
| `LinkedLists.FusedSet.Add` | structures/linkedlist.go:259-267 | a new value goes to the end of its source's list, a known one changes nothing; no list ever holds one twice |
| `LinkedLists.FusedSet.Remove` | structures/linkedlist.go:269-277 | reports membership and takes the value out of its source's list, the others in their order |
| `LinkedLists.FusedPriorityQueue.Push` | structures/linkedlist.go:298-302 | every source stays sorted; one bag gains the value |
| `LinkedLists.FusedPriorityQueue.PopMin` | structures/linkedlist.go:304-306 | returns a least element and removes just that |
| `FusedHashTables.UnpackPacked` | structures/hashtable.go:97-104 | unpacking a table's packed words puts back exactly its entries |
| `FusedHashTables.RankOfWord` | structures/hashtable.go:126-132 | binary search for an entry's word finds the rank of its key |
| `FusedHashTables.TruthfulAccepted` | structures/hashtable.go:72-105 | the true survivors are never refused |
| `FusedHashTables.FusedHashTable.DeletePacked` | structures/hashtable.go:126-132 | the search hits the exact entry, so the ignored error never occurs |
| `FusedHashTables.FusedHashTable.Put` | structures/hashtable.go:30-49 | one key of one source is set; every bucket stays the strictly increasing list of packed entries; the value it has already moves nothing |
| `FusedHashTables.FusedHashTable.Delete` | structures/hashtable.go:51-62 | one key goes, and whether it was there is reported |
| `FusedHashTables.FusedHashTable.Recover` | structures/hashtable.go:72-105 | accepts exactly survivors of the right number and bucket sizes; from true ones returns the missing map |
| `Runs.PushSound` | structures/dequeue.go:29-75 | pushes keep every run within the list and every node in use, and add one node at most |
| `Runs.LonelyDisjoint` | structures/dequeue.go:113-123 | two reference counts of one at a source's end belong to different sources, neither of which covers both nodes |
| `Runs.CloseMeaning` | structures/dequeue.go:212-224 | merging such nodes joins their columns and keeps every run contiguous and of its length |
| `Runs.PopSound` | structures/dequeue.go:85-125 | pops keep runs sound, shorten one list at one end, and lose at most two nodes |
| `Runs.PopSize` | structures/dequeue.go:97-123 | the size after a pop, counted from the reference counts of three nodes before it |
| `Runs.PopSettles` | structures/dequeue.go:113-123 | one merge is enough: the source's new end and its outer neighbour are not both of count one |
| `Runs.PushSize` | structures/dequeue.go:29-75 | a push makes a node exactly when the source has reached that end of the list |
| `Runs.FlushLongest` | structures/listqueue.go:46-68 | when all runs start at the first node, there are as many nodes as the longest source has elements |
| `Runs.ReadsBack` | structures/dequeue.go:158-167 | reading a source across the nodes gives its elements in order |
| `Runs.RunsLikePlainLists` | structures/dequeue.go:29-125 | over any run of pushes and pops, each source read off the fused list is the plain list, and nodes never outnumber elements |
| `Runs.NodesBounded` | structures/dequeue.go:169-175 | reference counts add up to the elements; nodes are fewer than elements exactly when some node is shared |
| `Runs.NoSharing` | structures/listqueue_test.go:54-60 | a counterexample: two pushes by one source make as many nodes as elements |
| `Deques.FusedDeque.PushBack` | structures/dequeue.go:29-51 | fails exactly on a bad source; the pointer structure makes the move of Runs; an empty source starts at the head of the list, any other takes the node behind its tail; a node is made exactly when there is none to take |
| `Deques.FusedDeque.PushFront` | structures/dequeue.go:53-75 | likewise at the front: an empty source starts at the tail of the list, any other takes the node before its head |
| `Deques.FusedDeque.PopFront` | structures/dequeue.go:77-79 | fails exactly on a bad or empty source; returns the first element; afterwards the source's head and the node before it are not both of count one, and the nodes lost are those the old reference counts tell |
| `Deques.FusedDeque.PopBack` | structures/dequeue.go:81-83 | fails exactly on a bad or empty source; returns the last element; the same at the tail |
| `Deques.FusedDeque.MergeAtEnd` | structures/dequeue.go:113-123 | one node goes exactly when both counts are one, and then they no longer are |
| `Deques.FusedDeque.Merge` | structures/dequeue.go:212-224 | payloads, counts, heads and tails after a merge |
| `Deques.FusedDeque.Retarget` | structures/dequeue.go:215-222 | every head and tail that named the right node names the left one, no other changes |
| `Deques.FusedDeque.Dequeue` | structures/listqueue.go:70-96 | the list queue's pop, guarded by its head pointer, fails exactly on an empty source, and merges and drops nodes as PopFront does |
| `Deques.FusedDeque.SourceLength` | structures/listqueue.go:205-214 | the walk from head to tail ends, with the source's length |
| `Deques.FusedDeque.Recover` | structures/dequeue.go:127-156 | accepts exactly survivors of the right number and lengths; from true ones returns the missing list, in the deque's way and the list queue's |
| `Deques.FusedDeque.SubtractWalking` | structures/listqueue.go:110-125 | a survivor too long or too short is refused even when the walk leaves its run |
| `Deques.FusedDeque.NodeCount` | structures/dequeue.go:169-175 | nodes never outnumber elements |
| `Deques.FusedDeque.FlushLongest` | structures/listqueue.go:46-68 | the same for the nodes in the heap, at either end |
| `Deques.ServeAll` | structures/dequeue.go:29-125 | after any run of pushes and pops from empty the sources are the plain lists; pushes at one end only make exactly as many nodes as the longest source has elements |
| `Stacks.PopDepth` | structures/liststack.go:64-70 | the last depth goes exactly when the popped source alone reached it |
| `Stacks.FusedStack.Push` | structures/stack.go:22-34 | the fusion stays as long as the deepest source, each slot the exclusive-or of its depth |
| `Stacks.FusedStack.Pop` | structures/stack.go:36-52 | likewise: trimming stops at the deepest source exactly, the zero test never blocks it |
| `Stacks.FusedListStack.Push` | structures/liststack.go:28-48 | the same, in linked nodes |
| `Stacks.FusedListStack.Pop` | structures/liststack.go:50-72 | the same, one node dropped when no tail names it |
| `Stacks.FusionsAgree` | structures/liststack.go:98-104 | with equal sources both stacks hold the same fusion |
| `Stacks.RecoverFrom` | structures/stack.go:54-72 | survivors that agree up to the missing source's depth give it back |
| `Queues.EnqueueContent` | structures/queue.go:37-50 | writing the slot at head + count appends to the queue, wherever it wraps |
| `Queues.DequeueContent` | structures/queue.go:52-67 | clearing the head slot and moving on drops the first element |
| `Queues.FusedQueue.Enqueue` | structures/queue.go:37-50 | fails exactly on a bad or full source; one queue is appended to; only the fusion's slot at head + count changes, and it stays the exclusive-or of that slot |
| `Queues.FusedQueue.Dequeue` | structures/queue.go:52-67 | fails exactly on a bad or empty source; returns the first element; only the slot at the old head changes, and the head moves on by one |
| `Queues.FusedQueue.Recover` | structures/queue.go:69-93 | accepts exactly survivors of the right number and lengths; from true ones returns the missing queue in order |
| `Arrays.XORSlices` | core/xor.go:18-32 | exactly as long as the longest slice, each place the exclusive-or of that place |
| `Arrays.LengthLeft` | structures/array.go:57-63 | the length parity without the survivors' lengths is the missing length |
| `Arrays.FusedArray.Set` | structures/array.go:28-39 | replacing in the fusion equals fusing the changed array |
| `Arrays.FusedArray.Recover` | structures/array.go:50-74 | survivors of the right lengths are always accepted; true ones give the missing array |
| `Protocol.StepKeepsInv` | db/database.go:200-260 | every single disk or memory step, failure or crash keeps the protocol's invariant |
| `Protocol.AlwaysReopens` | db/database.go:84-196 | after any run with crashes anywhere the directory opens and yields the fusion log applied in order |
| `Protocol.AcknowledgedSurvive` | db/database.go:433-444 | the fusion log is the acknowledged operations shuffled with those that a crash, one each, or the present moment caught between commit and answer: each exactly once, each list in the order of its sequence numbers, nothing else |
| `Protocol.OnePerCrash` | db/database.go:433-444 | no more operations are unanswered than the process has crashed, so the log exceeds the acknowledged operations by at most one for each crash and the one under way |
| `Protocol.MemoryFollowsLog` | db/database.go:207-222 | between operations memory is what the log describes; the next number is above every number on disk |
| `Protocol.OrphanStaysOut` | db/database.go:132-163 | a source record that was not committed never is, over any later run |
| `Protocol.SkippedSnapshotIsPublished` | db/database.go:328-330 | a snapshot skipped as current is the published one |
| `Protocol.PublishSound` | storage/snapshot.go:67-82 | publishing after all files are written keeps the invariant |
| `Protocol.UnpublishSound` | storage/snapshot.go:76-81 | so does removing the checkpoint before the second rename |
| `Disks.OpenedIsReplay` | db/database.go:93-119 | snapshot plus committed tails, shard by shard, equals the whole fusion log replayed, with or without a checkpoint |
| `Disks.SoundOpens` | db/database.go:84-196 | a sound disk passes every check of Open |
| `Disks.OpenableExactly` | db/database.go:93-189 | on any directory: Open accepts it if and only if there are two shards, the checkpoint's snapshots are there, of its number and without repeated or misrouted keys, every record is in its own shard's log, no fusion sequence repeats, and the records applied to each shard are exactly its commits after the checkpoint |
| `Disks.OpenableSound` | db/database.go:164-189 | so in an accepted directory every later commit is applied to its shard, and nothing uncommitted is |
| `Disks.OpenedRouted` | db/database.go:104-141 | and every key that is loaded is in its own shard |
| `Disks.OpenedNext` | db/database.go:93-163 | the next number is one more than the highest among checkpoint, source logs and fusion log |
| `Disks.TailIsFusionTail` | db/database.go:164-180 | a shard's committed records after the checkpoint are the fusion log's, in the same order |
| `Opening.Load` | db/database.go:93-196 | Open's loops fail exactly when a check fails, with an error that names a flaw the directory has, and otherwise compute the specified memory |
| `Opening.FlawedFails` | db/database.go:86-189 | and no directory with such a flaw is accepted |
| `Opening.ReplaySource` | db/database.go:165-183 | skips old and uncommitted records, fails exactly on a mismatch |
| `Opening.ScanFusion` | db/database.go:147-163 | fails exactly on a repeated sequence; raises the next number |
| `Opening.LoadSnapshot` | db/database.go:104-118 | fails exactly on a missing, mismatched or misrouted snapshot |
| `Operations.MutationRuns` | db/database.go:200-260 | a Put or Delete with any fault is a run of protocol steps with a known end |
| `Operations.TablesArePlainMap` | db/database.go:198 | between operations each shard's table is its routed part of the plain map |
| `Operations.MutationEnds` | db/database.go:207-222 | from a reachable state to a reachable state; success is one update of the plain map, failure none |
| `Databases.New` | db/database.go:69-82 | fails exactly below two shards; otherwise an empty database with 16 buckets, all of whose parts are new, whose first sequence number is 1 |
| `Databases.Open` | db/database.go:84-196 | on any directory fails exactly when Openable says so, with an error that names a flaw it has; otherwise every commit after the checkpoint is applied to its shard and nothing else is, every key is in its own shard, and the backup, of new objects, has as few nodes as possible; over whatever earlier runs left it never fails, and its contents are those of the fusion log |
| `Databases.Database.Put` | db/database.go:200-224 | refused exactly on a lost shard or a failed append; on success, and only then, the plain map gains the key and the fused backup makes the step of Growth.AfterPut; no fusion error can follow the commit; the logs gain the record with the next number, key % shards, key and value |
| `Databases.Database.Delete` | db/database.go:237-260 | the same for removal, with the step of Growth.AfterDelete and a record of value 0; a missing key succeeds and changes nothing |
| `Databases.Database.Get` | db/database.go:226-235 | on a healthy shard, what the plain map says |
| `Databases.Database.Scan` | db/database.go:262-276 | with no lost shard, the plain map in strictly ascending key order |
| `Databases.Database.BackupCounts` | structures/kvhashtable.go:171-179 | the fused backup has one record for each key of the plain map |
| `Databases.Database.BackupBetween` | db/database.go:296-315 | whatever it went through, the backup takes between the fewest and the most bytes that its contents determine |
| `Databases.Database.NeverSmaller` | db/database.go:296-315 | with 2, 4, 8 or 16 shards it has one node for each key too, and takes at least 17 bytes where a full copy takes 16 |
| `Databases.Database.StorageMetrics` | db/database.go:296-315 | reports the keys of the plain map, the nodes, 16 bytes for each key, and for each node 16 and the bit field |
| `Databases.Database.Snapshot` | db/database.go:317-347 | changes no contents; on success the checkpoint on disk is the last committed operation and its files list each shard's part of the plain map; refused without a directory, with ErrShardUnavailable while a shard is lost, else only for a failed write |
| `Databases.Database.CrashShard` | db/database.go:349-366 | refused exactly out of range, with ErrShardUnavailable for a shard already lost, with ErrFailureActive while another one is; contents stay |
| `Databases.Database.RecoverShard` | db/database.go:368-401 | refused exactly out of range or when the shard is not lost; otherwise always succeeds and restores the shard's part of the plain map, other shards changed meanwhile included |
| `Databases.Database.CommitWAL` | db/database.go:433-444 | source log first, fusion log second |
| `Sessions.ServeAll` | db/database.go:200-401 | after any Puts, Deletes, shard losses, recoveries and snapshots, with any faults, the contents are the plain map after the requests that succeeded |
| `Sessions.Lives` | db/database.go:84-401 | so over any number of openings of one directory, each ended by the loss of the process: every opening succeeds, and the last Scan lists that plain map |
| `Shards.BucketIndex` | db/database.go:446-456 | the rank of the key among its shard's keys of that bucket |
| `Rebuilding.RebuildFusion` | db/database.go:458-483 | no insertion fails, the result fuses all shards, and every bucket has exactly as many nodes as its longest shard |
| `Storage.InsertAligned` | db/database.go:473-480 | insertion at the running index goes into the first node the source does not use yet |
| `Storage.CompactIsLeast` | db/database.go:458-483 | with as many nodes as the longest shard, bucket by bucket, no backup of the same tables is smaller |
| `Storage.NothingShared` | structures/kvhashtable.go:161-184 | when the shard count divides the bucket count, any history leaves one node for each record, and more bytes than a full copy |
| `Storage.RoutedIsSplit` | db/database.go:198 | tables whose keys are in their own shards are the parts of one map, so the statements below are about all of them |
| `Storage.BucketCycles` | db/database.go:198 | keys below the count are their own shard or bucket, and keys that far apart share one |
| `Growth.KnownPut` | db/database.go:213-216 | a Put of a known key leaves every node and bit of the backup as it was |
| `Savings.NodesBetween` | structures/kvhashtable.go:161-184 | every fused backup of given contents has at least the sum over buckets of the fullest shard there, and at most the keys less the shards that share buckets |
| `Savings.FewestReached` | db/database.go:200-224 | Puts in key order end in the fewest nodes |
| `Savings.MostReached` | db/database.go:200-224 | Puts shard by shard in descending order end in the most nodes |
| `Savings.AlwaysSaves` | db/database.go:296-315 | whatever the contents, every backup of them is smaller than a full copy if and only if the most nodes are |
| `Savings.CanSave` | db/database.go:296-315 | some backup of them is, if and only if the fewest nodes are |
| `Savings.RebuiltSaves` | db/database.go:458-483 | and a backup built at opening is then, and only then |
| `Savings.LargeNeverSure` | db/database.go:296-315 | from a number of keys on that depends on the shard count only, any contents have an order of Puts whose backup is no smaller than a copy |
| `Savings.ThreeShards` | db/database.go:296-315 | with three shards that number is 544 |
| `Samples.SavesExactly` | db/database.go:296-315 | a corollary: some contents have a fused backup smaller than a full copy if and only if the shard count does not divide 16 |
| `Samples.OrderDecides` | db/database.go:296-315 | a corollary: for every other shard count, 2m keys that end in m nodes in one order of the Puts and in 2m - 1 in another; the second is more than a full copy from 18 keys on, the first less up to 120 shards |
| `Publishing.WriteCheckpoint` | storage/snapshot.go:67-82 | rename, or remove and rename, as a run of protocol steps |
| `Codecs.DecodeEncode` | storage/wal.go:92-122 | every record that fits its fields survives the round trip |
| `Codecs.EncodeDecode` | storage/wal.go:107-122 | what decodes is, reserved bytes apart, the encoding of its record |
| `Codecs.EncodeFormat` | storage/wal.go:92-105 | the format in numbers: 40 bytes, VDB1, version 1, 1 for Put and 2 for Delete, then sequence, shard, key and value at their offsets |
| `Codecs.DecodeFormat` | storage/wal.go:107-122 | what decodes, if and only if: length, letters, version and one of the two operations; each field is the number at its offset |
| `Codecs.HighestFirst` | storage/wal.go:100-103 | the highest digit comes first |
| `Codecs.ReplaySample` | storage/wal.go:60-84 | forty literal bytes replay as Put, sequence 1, shard 2, key 7, value 70 |
| `Codecs.EncodeRecord` | storage/wal.go:92-105 | filling the buffer field by field gives the specified bytes |
| `Codecs.WAL.Append` | storage/wal.go:43-58 | adds exactly one record to whatever log the file holds |
| `Codecs.WAL.Replay` | storage/wal.go:60-84 | fails exactly on a file that is not a whole number of decodable records; otherwise returns the one log it holds |
| `Codecs.EncodedHolds` | storage/wal.go:43-58 | the encodings of a log of records that fit, one after another, are a file that holds that log |
| `Codecs.WriteThenReplay` | storage/wal.go:43-84 | a log of records that fit, written record by record, is the log Replay returns |
| `Codecs.LoadSnapshot` | storage/snapshot.go:41-65 | accepts exactly well-formed snapshots with distinct keys |
| `Codecs.WriteSnapshot` | storage/snapshot.go:26-39 | with distinct keys, a well-formed snapshot of the records in strictly ascending key order |
| `Codecs.WriteThenLoad` | storage/snapshot.go:26-65 | a table written and loaded is its sequence and its listing |
| `Codecs.SnapshotFormat` | storage/snapshot.go:26-65 | the format in numbers, if and only if: VDS1, version 1, sequence, count, then key before value for each record |
| `Codecs.CheckpointRoundTrip` | storage/snapshot.go:67-96 | decoding the checkpoint inverts encoding and accepts nothing else |
| `Codecs.CheckpointFormat` | storage/snapshot.go:67-96 | VDC1 and the sequence |
| `Files.StoresOne` | storage/wal.go:60-122 | the bytes of a directory determine its logs, snapshots and checkpoint |
| `Files.StepStored` | db/database.go:433-444 | every step of the protocol, done in bytes, keeps the files decoding to the disk the step leaves |
| `Files.RunStored` | db/database.go:200-260 | so does any run, crashes and reopenings included, while the counters fit their fields |
| `Files.Perform` | storage/wal.go:43-58 | the log and snapshot writers do exactly these byte steps |
| `Files.ReadFiles` | db/database.go:93-131 | reading fails exactly when a log, the checkpoint or a snapshot it names does not decode; otherwise gives what they hold |
| `Files.OpenFiles` | db/database.go:84-196 | over files that decode to a disk, a restart from bytes succeeds exactly when that disk is Openable, and loads Opened of it |
| `Files.ReopenFiles` | db/database.go:84-196 | the bytes that any run leaves load memory that holds, shard by shard, the map the fusion log describes |

## Left out

- cmd/ and sim/: command parsing, printing, and a driver with random numbers and floating-point ratios.
- Torn or ambiguous writes: an append or file write happens wholly or not at all; handles, permissions, directories and Sync are not modelled.
- Bytes in Databases: the class keeps its directory decoded; Files carries the protocol's steps, its runs and the restart down to bytes.
- Concurrency: every database method holds its lock throughout and is one operation here; Close only releases files.
- Reopening with another shard count; the 64-bit sequence counter and 32-bit shard number are taken never to wrap (`Files.Narrow`).
- Shards(), StorageMetrics' percentage and its prose: listings and floating point.
- Source(), Snapshot() and Get() of the fused structures, and the hash table's NodeCount: plain readers.
- Constructors' checks of two sources, for the stacks, the queue and the array: those constructors take a number of sources that is already checked.
- The error of encodeRecord for an operation other than Put or Delete: the type of a record excludes it.
- The order of sorting and packing in the hash table's Recover: entries are sorted as records before they are packed, which orders the words alike.
- A second class for the list queue: one class serves both, with a flag in Recover that chooses the list queue's walk.
- Error values of the fused structures: their contracts say exactly when a call fails, not with which text.
