# Data-structure layer of the Wagerr node: a Dafny model

This project models the data structures on which the node keeps its peers, coins, blocks and database changes,
and proves that each of them does what it is for. Every module is self-contained Dafny 4.11; `dafny verify
dfyconfig.toml` checks the whole project.

Each component has a model on values (datatypes and functions) with its theorems, and, where the program works in
place, a class or methods over arrays, maps and counters proved to do exactly what the model says.

| component | model and theorems | in place |
|---|---|---|
| address manager | `AddrManModel`, `AddrManInvariant`, `AddrManEffects`, `AddrManRuns`, `AddrManTimes`, `AddrManCases` | `AddrMan` |
| its saved form | `AddrManStream`, `AddrManRoundTrip` | `AddrManSerialize` |
| stack of coin caches | `CoinsModel`, `CoinsTheorems` | `CoinsView` |
| parallel check queue | `CheckQueue` (a state machine over its critical sections) | |
| partial Merkle tree | `MerkleModel`, `MerkleTheorems`, `MerkleSize` | `MerkleBlock`, `BitPacking` |
| block tree and active chain | `Chain` | `Chain` |
| 256-bit arithmetic, compact targets, block proof | `CompactBits` | `ArithUint256`, `ArithDivision`, `CompactBits` |
| rolling bloom filter | `RollingBloom` | `RollingBloom` |
| database transaction and iterator | `DbOverlay` | `DbTransaction` |
| cuckoo cache | `CuckooModel` | `CuckooCache` |
| compact blocks | `CompactBlockModel` | `CompactBlock` |
| Bech32 and Base58 | `Bech32Checksum`, `Bech32Field`, `Bech32Errors`, `Bech32`, `Base58Digits`, `Base58` | `Bech32`, `Base58` |

`Arithmetic`, `Sets` and `Options` hold what several components share.

Hash functions, keys and the AS map are arbitrary functions. Random draws, clock readings, iteration orders of hash
maps and verdicts of code outside these files are arguments. Integers are unbounded except where the width matters:
limbs, compact words, generation bits, 16-bit indexes and 64-bit differences wrap or are bounded as in the code.

## Where code and documentation differ

The model follows the code. These are the places where its comments or its intent say something else:

- `Check_` and `Unserialize` key the address index by the full service, while `Find`, `Create` and `Delete` drop the
  port unless ports are discriminated. `AddrManRuns.CheckAddrExact` and `AddrManRoundTrip.LoadedIndexExact` give the
  exact conditions under which the difference does not show; `AddrManCases.IndexTestFails` and
  `AddrManCases.LoadedIndexFails` show it.
- `Check_` takes a last success at time 0 for one that never happened. `AddrManTimes.GoodTimesExact` says when `Good_`
  avoids that, `AddrManCases.TimeTestFails` shows a run that does not.
- `Clear` and `Unserialize` leave the set of pending tried collisions as it was. Without them
  `SelectTriedCollision_` never looks up id -1 (`AddrManRuns.SelectTriedCollisionKeeps`); in general it does not
  exactly under the condition of `AddrManRuns.SelectTriedCollisionExact`; `AddrManCases.ClearedCollisionAddsEntry`
  reaches a state where that fails.
- `Add_` reports a new address also when the entry is dropped again because its slot is taken:
  `AddrManCases.AddReportsExact` says exactly when, `AddrManCases.DroppedButReported` shows it.
- `ExtractMatches` returns the null digest for a rejected tree but has already filled the list of matches; soundness
  therefore asks for a root that is not null (`MerkleTheorems.NullRootReports` shows an input,
  `MerkleTheorems.SoundExact` the exact condition).
- The comment in the cuckoo cache says that the first displacement uses the first of the eight places; it uses the
  second (`CuckooModel.FirstDisplaced`).
- `ExtractMatches` clears the caller's list of ids but not the list of indexes: index i belongs to id i exactly when
  the list of indexes was empty before the call (`MerkleBlock.CPartialMerkleTree.ExtractMatches`,
  `MerkleBlock.PairedExact`). Two calls with the same lists leave them in step exactly when nothing is reported
  (`MerkleBlock.ExtractTwice`); `MerkleBlock.OneExtractedTwice` ends with one id and two indexes.
- The remark in `merkleblock.h` that N hashes come with at most 2*N-1 flag bits overlooks nodes with one child.
  `MerkleSize.TreeBitsExact` gives the number of bits, `MerkleSize.BitBoundExact` when the remark holds and
  `MerkleSize.BitBoundFails` a tree for which it does not. The stated size of 10 + ceil(32.25*N) bytes, which is
  derived from it, survives for up to 1000 transactions because short length prefixes make up for the bits
  (`MerkleSize.SizeBoundHolds`); `MerkleSize.SizeBoundExact` says exactly when it holds, and
  `MerkleSize.SizeBoundFails` shows a tree one byte larger. The two stated bounds on N hold
  (`MerkleTheorems.TreeSizeBounds`).
- `InitData` tests prefilled positions against 65535; for messages that can be received the other test implies it
  (`CompactBlockModel.IndexTestImplied`).

## Model

| member | source | states |
|---|---|---|
| `AddrManRuns.RunsKeepInvariant` | `src/addrman.cpp:424-498` | after every run of Add_, Good_, Attempt_, Connected_, SetServices_, GetAddr_, ResolveCollisions_ and SelectTriedCollision_ on a new manager the structural tests of Check_ (results -2 to -4, -7, -9 to -15 and -17 to -19; see AddrManTimes.CheckExact) pass: each known id is in exactly one tried slot with reference count 0, or in exactly as many new slots as its reference count, which is 1 to 8; each occupied slot is the hashed one; vRandom, mapInfo and the normalised address index are mutually inverse; nNew and nTried are exact |
| `AddrManRuns.ApplyKeeps` | `src/addrman.cpp:281-352` | each single operation keeps the invariant, forgets no occupied tried slot and changes the service of no entry |
| `AddrManInvariant.AddKeeps` | `src/addrman.cpp:281-352` | the same for Add_, through creation, eviction from a new slot and deletion |
| `AddrManInvariant.GoodKeeps` | `src/addrman.cpp:211-279` | the same for Good_, through MakeTried and its eviction, with and without testing before eviction |
| `AddrManInvariant.MakeTriedKeeps` | `src/addrman.cpp:163-209` | MakeTried keeps every part of the invariant |
| `AddrManEffects.MakeTriedEffect` | `src/addrman.cpp:163-209` | what MakeTried does: the entry holds its tried slot and no new slot; an evicted occupant becomes a new entry with one reference in the slot of its own source; at most one entry is lost, one whose only reference was that slot |
| `AddrManEffects.EvictEffect` | `src/addrman.cpp:181-204` | eviction gives the occupant of a tried slot the new slot of its source, and changes no other entry but the former occupant of that slot |
| `AddrManInvariant.ClearNewKeeps` | `src/addrman.cpp:148-161` | emptying a new slot keeps the invariant, in every state the other operations pass through |
| `AddrManEffects.PlaceEffect` | `src/addrman.cpp:329-352` | an entry gets the new slot of a source exactly when it is free, held by a terrible entry, or, if the entry has no slot yet, held by one with other slots; only an occupant with no other slot is lost for it |
| `AddrManEffects.AnnounceEffect` | `src/addrman.cpp:281-352` | an unknown address that is announced is known afterwards exactly when that slot could be taken, then with it as its one reference; at most one other entry is lost |
| `AddrManEffects.GoodEffect` | `src/addrman.cpp:211-279` | without a test before eviction, a known address ends up tried, with its success recorded; an unknown one changes only the time of the last success |
| `AddrManEffects.GoodWaits` | `src/addrman.cpp:256-275` | with the test, an entry whose tried slot is taken stays where it is and is queued while there is room |
| `AddrManRuns.Run` | `src/addrman.cpp:424-498` | every run from a state with the invariant ends in one |
| `AddrManInvariant.DeleteKeeps` | `src/addrman.cpp:129-146` | deleting an entry without references keeps all five views of the rest in step |
| `AddrManInvariant.SwapRandomOk` | `src/addrman.cpp:109-127` | swapping two places of vRandom keeps it inverse to the positions in the entries |
| `AddrManInvariant.UntriedInSomeBucket` | `src/addrman.cpp:238-254` | an entry that is not tried is found in some new bucket, so the search of Good_ never ends without one |
| `AddrManInvariant.PlaceKeeps` | `src/addrman.cpp:329-352` | giving an entry the new slot of a source, or dropping it when the slot is taken, keeps the invariant |
| `AddrManInvariant.AttemptKeeps` | `src/addrman.cpp:354-374` | a connection attempt keeps the invariant |
| `AddrManInvariant.ConnectedKeeps` | `src/addrman.cpp:522-540` | a connection keeps the invariant |
| `AddrManInvariant.SetServicesKeeps` | `src/addrman.cpp:542-558` | a change of services keeps the invariant |
| `AddrManRuns.GetAddrKeeps` | `src/addrman.cpp:501-520` | GetAddr_ returns distinct known entries, none terrible, at most 23 percent of all and at most 2500, and keeps the invariant |
| `AddrManRuns.ResolveFromKeeps` | `src/addrman.cpp:577-634` | resolving the pending collisions keeps the invariant, whatever the clock reads at each test |
| `AddrManRuns.TriedSlotsStayOccupied` | `src/addrman.cpp:163-209` | a tried slot occupied at one point of a run is occupied at every later point |
| `AddrManRuns.RivalKnown` | `src/addrman.cpp:636-661` | a pending collision that is still known waits for an occupied tried slot, whose occupant is known |
| `AddrManRuns.SelectTriedCollisionKeeps` | `src/addrman.cpp:636-661` | SelectTriedCollision_ never looks up id -1: it adds no entry and returns the occupant of the slot in question |
| `AddrManRuns.SelectTriedCollisionExact` | `src/addrman.cpp:636-661` | it adds no entry exactly when the id is unknown or its tried slot is occupied; Clear and Unserialize, which keep the set of pending collisions, can break that |
| `AddrManRuns.SizeIsSum` | `src/addrman.h:597-601` | the size is the sum of the two counters |
| `AddrManRuns.CheckAddrExact` | `src/addrman.cpp:424-498` | Check_ looks the index up by the full service, so its test of the index holds exactly when ports are discriminated or no entry but id 0 has a port |
| `AddrManTimes.RunsKeepTimes` | `src/addrman.cpp:424-498` | the time tests of Check_ (results -1, -6 and -8) pass after every run in which each time given to Good_ and read by ResolveCollisions_ is positive and each time given to Attempt_ is not negative |
| `AddrManTimes.GoodTimesExact` | `src/addrman.cpp:211-279` | Good_ keeps the time tests exactly when its time is positive, or it knows no such address, or the time is 0 and the entry has to wait for its tried slot |
| `AddrManTimes.AttemptTimesExact` | `src/addrman.cpp:354-374` | Attempt_ keeps the time tests exactly when its time is not negative or it knows no such address |
| `AddrManTimes.CheckExact` | `src/addrman.cpp:424-498` | in every state with the invariant, Check_ finds nothing wrong exactly when its time tests and its index test pass |
| `AddrManTimes.RunsPassCheck` | `src/addrman.cpp:424-498` | after every run with proper times Check_ finds nothing wrong exactly when ports are discriminated or no entry but id 0 has a port |
| `AddrManCases.TimeTestFails` | `src/addrman.cpp:435-437` | an announcement and a success at time 0 make an entry tried whose last success reads as never: Check_ fails |
| `AddrManCases.IndexTestFails` | `src/addrman.cpp:448-449` | two announcements reach a sound manager on which the index test of Check_ fails |
| `AddrManCases.ClearedCollisionAddsEntry` | `src/addrman.cpp:636-661` | a run that leaves a collision pending, Clear, and one announcement: SelectTriedCollision_ then adds an entry under id -1 |
| `AddrManCases.AddReportsExact` | `src/addrman.cpp:281-352` | Add_ reports a new address exactly when it is routable and unknown, and the address is unknown afterwards all the same exactly when its slot is held by an entry that is not terrible and has no other slot |
| `AddrManCases.DroppedButReported` | `src/addrman.cpp:281-352` | two announcements for one slot: the second is reported as new and is unknown afterwards |
| `AddrMan.CAddrMan.constructor` | `src/addrman.h:561-589` | a new manager is empty |
| `AddrMan.CAddrMan.Find` | `src/addrman.cpp:74-90` | finds the entry of an address under its normalised key |
| `AddrMan.CAddrMan.Create` | `src/addrman.cpp:92-107` | adds an entry under the next id to mapInfo, mapAddr and vRandom |
| `AddrMan.CAddrMan.SwapRandom` | `src/addrman.cpp:109-127` | swaps two places of vRandom together with the positions in the entries |
| `AddrMan.CAddrMan.Delete` | `src/addrman.cpp:129-146` | forgets an entry; its three assertions are the precondition, proved at every call |
| `AddrMan.CAddrMan.ClearNew` | `src/addrman.cpp:148-161` | empties a new cell; the assertion that the count is positive holds |
| `AddrMan.CAddrMan.RemoveFromNew` | `src/addrman.cpp:163-175` | the loop over all new buckets removes exactly the references of an entry |
| `AddrMan.CAddrMan.Evict` | `src/addrman.cpp:181-204` | moves a tried entry back to the new table; the cell is free when it is entered |
| `AddrMan.CAddrMan.MakeTried` | `src/addrman.cpp:163-209` | moves an entry to the tried table; each assertion of the code holds where it stands |
| `AddrMan.CAddrMan.FindBucket` | `src/addrman.cpp:238-249` | the search from a random bucket on finds a new bucket of an entry exactly when there is one |
| `AddrMan.CAddrMan.Good` | `src/addrman.cpp:211-279` | refreshes and promotes an entry, or queues a collision |
| `AddrMan.CAddrMan.Place` | `src/addrman.cpp:329-352` | the last part of Add_ |
| `AddrMan.CAddrMan.Chance` | `src/addrman.cpp:317-322` | the stochastic test: the draw is a multiple of two to the reference count |
| `AddrMan.CAddrMan.Add` | `src/addrman.cpp:281-352` | adds or refreshes an address; the result says whether it was unknown, also when the entry is dropped again at once |
| `AddrMan.CAddrMan.Attempt` | `src/addrman.cpp:354-374` | records an attempt, counting a failure at most once per success elsewhere |
| `AddrMan.CAddrMan.Connected` | `src/addrman.cpp:522-540` | refreshes the time of a connected entry, at most every 20 minutes |
| `AddrMan.CAddrMan.SetServices` | `src/addrman.cpp:542-558` | replaces the services of an entry |
| `AddrMan.CAddrMan.GetAddr` | `src/addrman.cpp:501-520` | the sampling loop, swapping a drawn place to the front each round |
| `AddrMan.CAddrMan.ResolveOne` | `src/addrman.cpp:577-634` | one pending collision: promoted, given up or kept waiting |
| `AddrMan.CAddrMan.ResolveCollisions` | `src/addrman.cpp:577-634` | all pending collisions in ascending order |
| `AddrMan.CAddrMan.SelectTriedCollision` | `src/addrman.cpp:636-661` | the occupant a picked collision waits for |
| `AddrManRoundTrip.LoadInvertsSave` | `src/addrman.h:337-559` | loading what was saved under the same AS map succeeds and gives every entry back, with the same new and tried slots, reference counts, counters and saved data, numbered anew |
| `AddrManRoundTrip.LoadedManagerInv` | `src/addrman.h:397-559` | the loaded manager satisfies the whole invariant when ports are discriminated or no entry has a port, and no collision was pending |
| `AddrManRoundTrip.LoadedIndexExact` | `src/addrman.h:450-458` | the loaded address index is keyed by the full service, so it is the one the manager uses exactly when ports are discriminated or no entry has a port |
| `AddrManCases.LoadedIndexFails` | `src/addrman.h:397-559` | one announced address with a port, saved and loaded without discriminating ports: it is not found any more |
| `AddrManRoundTrip.NewFits` | `src/addrman.h:436-441` | the number of new entries of any manager passes the range test of loading |
| `AddrManRoundTrip.TriedFits` | `src/addrman.h:443-448` | so does the number of tried entries |
| `AddrManSerialize.Serialize` | `src/addrman.h:337-394` | the three loops write the saved form; both assertions about the running ids hold |
| `AddrManSerialize.Unserialize` | `src/addrman.h:397-559` | accepts exactly the streams the loading function accepts and then rebuilds the manager it gives, for every stream |
| `AddrManSerialize.Clear` | `src/addrman.h:561-583` | empties tables, maps and counters and keeps the pending collisions |
| `AddrManSerialize.WriteBucket` | `src/addrman.h:373-386` | a bucket is written as its size and the numbers of its occupants |
| `AddrManSerialize.ReadTried` | `src/addrman.h:460-480` | tried entries whose slot is taken are lost and not counted |
| `AddrManSerialize.PlaceEntry` | `src/addrman.h:516-541` | an entry gets its slot back, or that of its source, or none |
| `AddrManSerialize.PruneEntries` | `src/addrman.h:543-553` | entries without a slot are forgotten, in ascending order |
| `CoinsTheorems.RunsAreFlat` | `src/coins.cpp:43-232` | over every run of reads, additions, spends, uncaching and flushes at any depth of a stack of caches, each level is the flat outpoint-to-coin map that the calls alone determine, and the flags stay right |
| `CoinsTheorems.ReadsAreFlat` | `src/coins.cpp:60-67` | at any point of any run a read returns the entry of the flat map |
| `CoinsTheorems.ApplyOk` | `src/coins.cpp:43-232` | the same for one call |
| `CoinsTheorems.GetCoinOk` | `src/coins.cpp:60-67` | a read returns the coin of the view and changes no view at any level |
| `CoinsTheorems.FetchCoinOk` | `src/coins.cpp:43-58` | fetching brings an entry into the cache without changing what any level stands for |
| `CoinsTheorems.AddCoinOk` | `src/coins.cpp:69-101` | under its contract an addition does not throw, sets exactly that coin in the top view, and gives the entry flags that are right |
| `CoinsTheorems.AddCoinExact` | `src/coins.cpp:69-101` | an addition neither throws nor spoils the flags exactly when it respects its contract |
| `CoinsTheorems.SpendCoinOk` | `src/coins.cpp:115-129` | a spend removes exactly that coin from the top view and hands it out |
| `CoinsTheorems.UncacheOk` | `src/coins.cpp:225-232` | dropping an unmodified entry changes no view |
| `CoinsTheorems.BatchWriteOk` | `src/coins.cpp:162-216` | writing a cache down makes the view below equal to it, and the misapplied-FRESH exception is unreachable |
| `CoinsTheorems.MergeEntryOk` | `src/coins.cpp:165-212` | one merged entry has right flags and stands for what the written entry stands for, in all states of the two |
| `CoinsTheorems.FlushOk` | `src/coins.cpp:218-223` | a flush leaves the view of the cache alone and makes the view below equal to it |
| `CoinsTheorems.FlagsOverRuns` | `src/coins.h:127-170` | at any point of any run, at any level, in terms of the calls alone: an entry that is not DIRTY agrees with the level below, and the level below has no coin where an entry is FRESH |
| `CoinsModel.FlatIsLookup` | `src/coins.h:127-170` | looking a coin up through the stack is looking it up in the flat map |
| `CoinsView.CCoinsView.Database` | `src/txdb.cpp:67-69` | the base of a stack |
| `CoinsView.CCoinsView.OnTopOf` | `src/coins.cpp:37-37` | a new cache over a view |
| `CoinsView.CCoinsView.GetCoin` | `src/coins.cpp:60-67` | reads through the stack in place |
| `CoinsView.CCoinsView.FetchCoin` | `src/coins.cpp:43-58` | fetches into the cache in place |
| `CoinsView.CCoinsView.HaveCoin` | `src/coins.cpp:142-145` | whether the view has an unspent coin, changing no view |
| `CoinsView.CCoinsView.AddCoin` | `src/coins.cpp:69-101` | adds in place, or throws |
| `CoinsView.CCoinsView.SpendCoin` | `src/coins.cpp:115-129` | spends in place |
| `CoinsView.CCoinsView.Uncache` | `src/coins.cpp:225-232` | drops an unmodified entry |
| `CoinsView.CCoinsView.BatchWrite` | `src/coins.cpp:162-216` | the loop over the entries of the cache above, or an exception exactly when FRESH was misapplied |
| `CoinsView.CCoinsView.WriteAll` | `src/txdb.cpp:90-149` | the database writes dirty entries and erases spent ones |
| `CoinsView.CCoinsView.Flush` | `src/coins.cpp:218-223` | writes down and empties the cache; it always succeeds |
| `CheckQueue.WaitIsRight` | `src/checkqueue.h:160-186` | in every interleaving of one master and any number of workers, a Wait that returns does so with true exactly when all checks added in its round are true |
| `CheckQueue.StepKeeps` | `src/checkqueue.h:68-129` | every critical section keeps the invariant: nTodo is queued plus in-flight checks, no check is lost or run twice, the verdict is exact, and no queue is popped when empty |
| `CheckQueue.AddedIsRound` | `src/checkqueue.h:166-186` | the checks accounted for are those added since the last return, so nothing carries over to the next round |
| `CheckQueue.MasterReturns` | `src/checkqueue.h:90-98` | when the master returns, every check of the round is finished and the state is that of a new round |
| `CheckQueue.SleepingMasterHasWorker` | `src/checkqueue.h:90-102` | a master asleep without a pending notification waits for a worker that still holds a batch |
| `CheckQueue.TodoNonNegative` | `src/checkqueue.h:79-102` | the counters never go below zero |
| `CheckQueue.CanAlwaysTake` | `src/checkqueue.h:107-119` | the batch size is at least one and at most the length of the queue |
| `CheckQueue.RankFalls` | `src/checkqueue.h:68-129` | while the master waits, a measure of the work left never grows, and falls with every helpful step |
| `CheckQueue.SomeHelpfulStep` | `src/checkqueue.h:68-129` | while the master waits some thread has a helpful step |
| `CheckQueue.NobodyStaysInside` | `src/checkqueue.h:68-129` | no thread stays inside the critical section |
| `CheckQueue.StaysHelpful` | `src/checkqueue.h:68-129` | what a thread can do to help it can still do after a step of another, unless Wait returns |
| `CheckQueue.FairWaitReturns` | `src/checkqueue.h:68-129` | Wait returns under every schedule in which every thread gets a turn in each of more blocks than there is work left, whatever else happens in between |
| `CheckQueue.EveryWaitReturns` | `src/checkqueue.h:68-155` | the same for every Wait that any schedule of a new queue reaches |
| `CheckQueue.TakeBatch` | `src/checkqueue.h:113-119` | the loop takes a batch off the back of the queue |
| `CheckQueue.RunChecks` | `src/checkqueue.h:123-127` | the loop runs a batch and skips the rest after a failure |
| `MerkleTheorems.ExtractMatchesSound` | `src/merkleblock.cpp:111-196` | whatever bits and hashes a partial tree holds: if it proves the root of a block with as many transactions, and no two of the pairs hashed collide, every reported transaction id is at the reported index |
| `MerkleTheorems.NullRootReports` | `src/merkleblock.cpp:165-196` | the result also signals failure, and a rejected tree still reports leaves: for a block whose root is the null digest the promise fails |
| `MerkleTheorems.SoundExact` | `src/merkleblock.cpp:165-196` | with an injective hash, for every block: whatever a partial tree with the right result reports is in the block, for all flag bits and hashes, if and only if the root of the block is not the null digest or the block has too many transactions to be accepted |
| `MerkleTheorems.RoundTrip` | `src/merkleblock.cpp:12-196` | for any list of different transaction ids within the limit and any selection: building, packing to bytes, unpacking and extracting gives the root and exactly the selected ids with their indexes, in order |
| `MerkleTheorems.BuildPackExtract` | `src/merkleblock.cpp:12-196` | without assuming different ids: the same leaves are reported, and the root exactly when no two children on the way have equal hashes |
| `MerkleTheorems.ExtractInvertsBuild` | `src/merkleblock.cpp:93-147` | extraction undoes building for every subtree and any surrounding bits and hashes |
| `MerkleTheorems.TreeSizeBounds` | `src/merkleblock.h:35-53` | a partial tree has at most as many hashes as transactions, and at most one plus the height per selected transaction |
| `MerkleSize.TreeBitsExact` | `src/merkleblock.h:26-53` | a built tree has exactly two flag bits per hash but one, and one more for each level at which a node with only one child is expanded |
| `MerkleSize.BitBoundExact` | `src/merkleblock.h:51-52` | the stated bound of 2*N-1 bits holds exactly when no level of odd width has a selected transaction below its last parent |
| `MerkleSize.BitBoundFails` | `src/merkleblock.h:51-52` | three transactions, only the last selected: four bits for two hashes |
| `MerkleSize.SizeBoundExact` | `src/merkleblock.h:35-52` | for up to 65535 transactions, the stated size of 10 + ceil(32.25*N) bytes holds exactly when the bits take fewer than 253 bytes or at most N/4 bytes, rounded up |
| `MerkleSize.SizeBoundHolds` | `src/merkleblock.h:35-52` | the stated size holds for up to 1000 transactions, and whenever at most one level has an expanded node with one child |
| `MerkleSize.SizeBoundFails` | `src/merkleblock.h:35-52` | 1025 transactions, all selected: one byte more than stated |
| `MerkleModel.WidthStep` | `src/merkleblock.h:70-72` | each level has half as many nodes as the one below, rounded up |
| `MerkleModel.RootExists` | `src/merkleblock.cpp:149-161` | the height found has exactly one node |
| `MerkleBlock.CPartialMerkleTree.Build` | `src/merkleblock.cpp:149-161` | the constructor builds the bits and hashes of the tree |
| `MerkleBlock.CPartialMerkleTree.FindHeight` | `src/merkleblock.cpp:154-157` | the loop finds the height |
| `MerkleBlock.CPartialMerkleTree.FindMatch` | `src/merkleblock.cpp:95-98` | the loop finds whether a selected leaf is below a node |
| `MerkleBlock.CPartialMerkleTree.TraverseAndBuild` | `src/merkleblock.cpp:93-109` | appends the bits and hashes of a subtree |
| `MerkleBlock.CPartialMerkleTree.TraverseAndExtract` | `src/merkleblock.cpp:111-147` | consumes a subtree, moving both cursors, reporting leaves and setting the bad flag |
| `MerkleBlock.CPartialMerkleTree.ExtractMatches` | `src/merkleblock.cpp:165-196` | the root with all six tests, null also after an earlier failure; the reported ids replace those of earlier calls, their indexes follow those of earlier calls, and index i belongs to id i exactly when the list of indexes was empty before the call |
| `MerkleBlock.PairedExact` | `src/merkleblock.h:103-108` | indexes appended to a list belong to the reported ids, and are as many, exactly when that list was empty |
| `MerkleBlock.ExtractTwice` | `src/merkleblock.cpp:165-196` | two extractions from any tree with the same lists: ids and indexes correspond afterwards exactly when nothing is reported |
| `MerkleBlock.OneExtractedTwice` | `src/merkleblock.cpp:165-196` | a tree built for one selected transaction and extracted twice ends with one id and two indexes |
| `BitPacking.UnpackInvertsPack` | `src/merkleblock.cpp:12-28` | unpacking gives the bits back, followed by fewer than eight zero bits |
| `BitPacking.BitsToBytes` | `src/merkleblock.cpp:12-19` | the packing loop |
| `BitPacking.BytesToBits` | `src/merkleblock.cpp:21-28` | the unpacking loop |
| `Chain.CBlockIndex.GetAncestor` | `src/chain.cpp:87-112` | in every block tree with right skip links the search ends and finds the block that walking back one by one finds; the assertion that a previous block exists holds |
| `Chain.CBlockIndex.BuildSkip` | `src/chain.cpp:119-123` | sets the skip link and keeps every other one right |
| `Chain.BlockManager.AddToBlockIndex` | `src/validation.cpp:3820-3846` | a header known by its hash gives its block and changes nothing; a new one gives a block after the block of its predecessor hash, if that is known, and the tree with its skip links stays right |
| `Chain.AddBlock` | `src/validation.cpp:3839-3845` | a block added to a tree with right skip links gives a larger tree with right skip links |
| `Chain.WalkFromWalk` | `src/chain.cpp:87-112` | an ancestor of an ancestor is the ancestor |
| `Chain.GetSkipHeight` | `src/chain.cpp:77-85` | a skip leads strictly down |
| `Chain.InvertLowestOneBits` | `src/chain.cpp:74-74` | clearing the lowest set bit: an odd number loses its last bit, an even one what its half loses |
| `Chain.CChain.SetTip` | `src/chain.cpp:14-24` | the chain is then exactly the ancestors of the tip, although the loop stops at the first block already in place |
| `Chain.CChain.FindFork` | `src/chain.cpp:54-63` | the result is on the chain and an ancestor of the block, and every block with both properties is an ancestor of it; null when there is none |
| `Chain.LastCommonAncestor` | `src/chain.cpp:196-211` | the result is a common ancestor of which every common ancestor is an ancestor; null exactly when there is none; the final assertion holds |
| `ArithUint256.Add` | `src/arith_uint256.h:135-145` | addition modulo 2 to the 256, also of a number to itself |
| `ArithUint256.Complement` | `src/arith_uint256.h:69-75` | the complement is 2 to the 256 minus 1 minus the number |
| `ArithUint256.Increment` | `src/arith_uint256.h:173-180` | adds one modulo 2 to the 256, stopping at the first limb that does not wrap |
| `ArithUint256.Negate` | `src/arith_uint256.h:77-84` | the negation modulo 2 to the 256 |
| `ArithUint256.Subtract` | `src/arith_uint256.h:147-151` | subtraction modulo 2 to the 256 |
| `ArithUint256.MultiplyWord` | `src/arith_uint256.cpp:54-64` | multiplication by a word modulo 2 to the 256 |
| `ArithUint256.Multiply` | `src/arith_uint256.cpp:66-80` | multiplication modulo 2 to the 256, limb by limb |
| `ArithUint256.CompareTo` | `src/arith_uint256.cpp:108-118` | orders numbers by value |
| `ArithUint256.IsZero` | `src/arith_uint256.cpp:120-132` | comparison with zero |
| `ArithUint256.WordProduct` | `src/arith_uint256.cpp:54-80` | the product of two limbs plus two limbs fits in 64 bits |
| `ArithDivision.BitLength` | `src/arith_uint256.cpp:170-183` | the number of bits: 2 to the result minus 1 is at most the number, 2 to the result is above it |
| `ArithDivision.ShiftLeft` | `src/arith_uint256.cpp:20-35` | multiplication by a power of two modulo 2 to the 256, for every shift |
| `ArithDivision.ShiftRight` | `src/arith_uint256.cpp:37-52` | division by a power of two, for every shift |
| `ArithDivision.OrDisjoint` | `src/arith_uint256.cpp:29-33` | or of numbers without a common bit is their sum |
| `ArithDivision.Divide` | `src/arith_uint256.cpp:82-106` | the true quotient for every divisor but zero, where it throws |
| `ArithDivision.DivideStep` | `src/arith_uint256.cpp:96-103` | one round keeps quotient times divisor plus remainder |
| `CompactBits.SetCompact` | `src/arith_uint256.cpp:203-221` | decodes to the number modulo 2 to the 256, with both flags |
| `CompactBits.OverflowExact` | `src/arith_uint256.cpp:216-219` | the overflow flag is raised exactly when mantissa times 256 to the size minus 3 is at least 2 to the 256 |
| `CompactBits.GetCompact` | `src/arith_uint256.cpp:223-244` | encodes; both assertions hold |
| `CompactBits.CompactRounds` | `src/arith_uint256.cpp:203-244` | for every number above zero, decoding its compact form gives no flag and a number not above it that lacks less than one part in 32768, and encoding that number gives the same compact form |
| `CompactBits.SignKept` | `src/arith_uint256.cpp:241-242` | a sign asked for comes back, except on zero |
| `CompactBits.GetBlockProof` | `src/chain.cpp:162-175` | for every target that decodes without flags and is not zero, exactly 2 to the 256 divided by the target plus 1, rounded down, without any wrap-around on the way; zero otherwise |
| `CompactBits.TargetNotMaximal` | `src/chain.cpp:162-175` | adding one to a decoded target does not wrap |
| `RollingBloom.RecentContained` | `src/bloom.cpp:333-382` | in every run of inserts, a key with at most two generations of inserts after it is contained, across any number of wraps, overwrites and wipes |
| `RollingBloom.LastElementsContained` | `src/bloom.h:108-109` | so are the last keys, as many as the filter was made for |
| `RollingBloom.EmptyContainsNothing` | `src/bloom.cpp:390-396` | an empty filter contains nothing |
| `RollingBloom.WipeTag` | `src/bloom.cpp:341-349` | the masked wipe clears exactly the positions of one generation |
| `RollingBloom.MarkTag` | `src/bloom.cpp:351-361` | marking sets the two bits of one position and no other |
| `RollingBloom.InsertKeeps` | `src/bloom.cpp:333-362` | one insert keeps the tags of the last three generations |
| `RollingBloom.CRollingBloomFilter.constructor` | `src/bloom.cpp:293-318` | a new filter is empty |
| `RollingBloom.CRollingBloomFilter.Clear` | `src/bloom.cpp:390-396` | empties the filter and takes a new tweak |
| `RollingBloom.CRollingBloomFilter.WipeGeneration` | `src/bloom.cpp:341-349` | the wiping loop |
| `RollingBloom.CRollingBloomFilter.InsertKey` | `src/bloom.cpp:333-362` | starts a generation when one is full, then marks each position of the key |
| `RollingBloom.CRollingBloomFilter.ContainsKey` | `src/bloom.cpp:370-382` | whether every position of the key is set |
| `Arithmetic.FastModBelow` | `src/bloom.cpp:329-331` | the scaled hash is in range |
| `DbOverlay.RunsAreDirect` | `src/dbwrapper.h:613-684` | after any run of writes and erases, readers of the transaction see what the same operations make of the parent; writes and deletes stay disjoint |
| `DbOverlay.VisitsView` | `src/dbwrapper.h:426-462` | from the first position an iterator visits exactly the keys readers see, each once, in order |
| `DbOverlay.SeekVisits` | `src/dbwrapper.h:438-443` | after a seek, exactly those from the key on |
| `DbOverlay.PutUsage` | `src/dbwrapper.h:613-627` | what a write adds to the exact sum of bytes in use |
| `DbOverlay.RemoveUsage` | `src/dbwrapper.h:675-684` | what an erase adds to it |
| `DbOverlay.LessTotal` | `src/dbwrapper.h:560-566` | any two keys are equal or in order |
| `DbOverlay.LessTransitive` | `src/dbwrapper.h:560-566` | the order of keys is transitive |
| `DbTransaction.CDBTransaction.constructor` | `src/dbwrapper.h:606-606` | a new transaction is empty |
| `DbTransaction.CDBTransaction.Write` | `src/dbwrapper.h:613-627` | a write is a write on what readers see, and the byte count stays exact |
| `DbTransaction.CDBTransaction.Read` | `src/dbwrapper.h:634-651` | a read gives what readers see |
| `DbTransaction.CDBTransaction.Exists` | `src/dbwrapper.h:658-668` | whether readers see the key |
| `DbTransaction.CDBTransaction.Erase` | `src/dbwrapper.h:675-684` | an erase is an erase on what readers see, and the byte count stays exact |
| `DbTransaction.CDBTransaction.Clear` | `src/dbwrapper.h:686-690` | forgets all changes |
| `DbTransaction.CDBTransaction.Commit` | `src/dbwrapper.h:692-700` | applies the changes to the target: a target equal to the parent becomes what readers saw |
| `DbTransaction.CDBTransaction.GetMemoryUsage` | `src/dbwrapper.h:706-717` | the exact sum, never negative |
| `DbTransaction.CDBTransactionIterator.SeekToFirst` | `src/dbwrapper.h:426-431` | what remains is every key readers see, in order |
| `DbTransaction.CDBTransactionIterator.Seek` | `src/dbwrapper.h:438-443` | what remains is every key readers see from a key on, in order |
| `DbTransaction.CDBTransactionIterator.HasCurrent` | `src/dbwrapper.h:445-447` | whether anything remains |
| `DbTransaction.CDBTransactionIterator.Next` | `src/dbwrapper.h:449-462` | drops exactly the first key that remains |
| `DbTransaction.CDBTransactionIterator.GetKey` | `src/dbwrapper.h:491-500` | the first key that remains |
| `DbTransaction.CDBTransactionIterator.GetValue` | `src/dbwrapper.h:513-523` | the value readers see for it |
| `DbTransaction.CDBTransactionIterator.SkipDeletedAndOverwritten` | `src/dbwrapper.h:526-534` | skips parent keys without changing what remains |
| `DbTransaction.CDBTransactionIterator.DecideCur` | `src/dbwrapper.h:536-548` | makes the smaller key current |
| `CuckooModel.RunsKeep` | `src/cuckoocache.h:288-479` | in every state of every run, every slot to keep and every slot ever written holds an element at one of its eight places, and the current epoch has at most the epoch size plus a sixteenth of it, at least one, of elements to keep |
| `CuckooModel.InsertKeeps` | `src/cuckoocache.h:392-440` | an insert keeps that, and leaves the stored elements plus the new one, but for at most one |
| `CuckooModel.InsertStores` | `src/cuckoocache.h:392-414` | an element already there, or with a place that may be overwritten, is stored and kept in the current epoch, and no slot to keep is touched |
| `CuckooModel.DisplaceStored` | `src/cuckoocache.h:403-439` | however far the displacement goes, only the overwritten element or the one still in hand is lost |
| `CuckooModel.SwapStored` | `src/cuckoocache.h:428-432` | a swap neither gains nor loses an element, counting the one in hand |
| `CuckooModel.DisplaceCount` | `src/cuckoocache.h:403-439` | displacing adds at most one element to the current epoch |
| `CuckooModel.EpochCheckRoom` | `src/cuckoocache.h:288-320` | after the check there is room for one more element in the epoch |
| `CuckooModel.EraseKeeps` | `src/cuckoocache.h:469-479` | a lookup that allows erasure changes no stored element, so the same lookup succeeds again |
| `CuckooModel.ContainsIsStored` | `src/cuckoocache.h:469-479` | a lookup succeeds exactly for stored elements |
| `CuckooModel.FirstDisplaced` | `src/cuckoocache.h:416-428` | the first place to displace is the second of the eight, where the comment says the first |
| `CuckooCache.BitPackedFlags.constructor` | `src/cuckoocache.h:60-67` | all flags are set at first |
| `CuckooCache.BitPackedFlags.Set` | `src/cuckoocache.h:90-93` | sets one flag and no other |
| `CuckooCache.BitPackedFlags.Unset` | `src/cuckoocache.h:101-104` | clears one flag and no other |
| `CuckooCache.BitPackedFlags.IsSet` | `src/cuckoocache.h:111-114` | reads one flag |
| `CuckooCache.Cache.constructor` | `src/cuckoocache.h:339-352` | the sizes, and an empty cache |
| `CuckooCache.Cache.CheckEpoch` | `src/cuckoocache.h:288-320` | counts down, or scans and perhaps ends the epoch |
| `CuckooCache.Cache.InsertElement` | `src/cuckoocache.h:392-440` | the insertion loops in place |
| `CuckooCache.Cache.PlaceElement` | `src/cuckoocache.h:403-439` | the displacement loop |
| `CuckooCache.Cache.ContainsElement` | `src/cuckoocache.h:469-479` | the lookup loop |
| `CompactBlockModel.Partition` | `src/blockencodings.cpp:68-90` | in every accepted message, prefilled transactions and short ids share the positions out: each position belongs to exactly one |
| `CompactBlockModel.IndexTestImplied` | `src/blockencodings.cpp:72-83` | for a message that can be received, the test against 65535 never decides |
| `CompactBlockModel.PlacesInRange` | `src/blockencodings.cpp:92-96` | every slot number of a short id is in range |
| `CompactBlockModel.SlotMapExact` | `src/blockencodings.cpp:92-115` | the map is as large as the list of short ids exactly when none repeats |
| `CompactBlockModel.InitOk` | `src/blockencodings.cpp:117-172` | only slots of short ids are filled, each by a transaction offered for that id, prefilled ones stay, and the count of filled slots is exact |
| `CompactBlockModel.InitFills` | `src/blockencodings.cpp:117-172` | a short id that at most one pool transaction matches, and on which all matching pool and extra transactions agree, has that transaction in its slot, early exits included |
| `CompactBlockModel.ScanFinds` | `src/blockencodings.cpp:117-172` | a short id that exactly one transaction of a list matches gets a transaction, early exit included |
| `CompactBlockModel.RebuildsBlock` | `src/blockencodings.cpp:22-207` | for a message made from a block, coinstake included, with genuine matches: the transactions still missing, in order, complete the slots to the list of the block |
| `CompactBlockModel.MadeReadyExact` | `src/blockencodings.cpp:22-113` | a receiver can use the message of a block exactly when the block has room, its prefilled transactions are not null, no bucket is too full and no two short ids of it are equal |
| `CompactBlockModel.CompleteExact` | `src/blockencodings.cpp:192-207` | a block is completed exactly when as many transactions come as slots are empty, and filled slots stay |
| `CompactBlockModel.DifferencesExist` | `src/blockencodings.h:24-29` | only increasing lists can be written as differences |
| `CompactBlockModel.DifferencesInvert` | `src/blockencodings.h:24-37` | reading the differences of a list gives it back |
| `CompactBlockModel.ReadIsIncreasing` | `src/blockencodings.h:30-37` | whatever can be read is an increasing list, and these are its differences, 64-bit wrap-around included |
| `CompactBlock.MakeMessage` | `src/blockencodings.cpp:22-37` | the message of a block |
| `CompactBlock.PartiallyDownloadedBlock.PlacePrefilled` | `src/blockencodings.cpp:68-86` | places the prefilled transactions, or rejects the message |
| `CompactBlock.PartiallyDownloadedBlock.MapShortIds` | `src/blockencodings.cpp:92-110` | gives each short id the next empty slot; slot numbers fit in 16 bits |
| `CompactBlock.PartiallyDownloadedBlock.Search` | `src/blockencodings.cpp:117-172` | the loop over the pool, or over the extra transactions, with its early exit |
| `CompactBlock.PartiallyDownloadedBlock.InitData` | `src/blockencodings.cpp:57-177` | the status and the slots, for every message |
| `CompactBlock.PartiallyDownloadedBlock.FillBlock` | `src/blockencodings.cpp:185-228` | the status, the block and the slots left, for every list of missing transactions: with too few, the slots before the first that cannot be filled have been moved out |
| `CompactBlock.DifferenceFormatter.Ser` | `src/blockencodings.h:23-29` | one difference, or an exception |
| `CompactBlock.DifferenceFormatter.Unser` | `src/blockencodings.h:30-37` | one number back, or an exception |
| `CompactBlock.DifferenceFormatter.SerAll` | `src/blockencodings.h:47-50` | a whole list |
| `CompactBlock.DifferenceFormatter.UnserAll` | `src/blockencodings.h:47-50` | a whole list back |
| `Bech32.DecodeInvertsEncode` | `src/bech32.cpp:143-190` | decoding gives back what was encoded exactly when the human-readable part is not empty, has only printable characters and the whole has at most 90 characters; otherwise it fails |
| `Bech32.EncodeInvertsDecode` | `src/bech32.cpp:143-190` | whatever decodes is, in lower case, the encoding of the result |
| `Bech32.SubstitutionDetected` | `src/bech32.cpp:114-121` | two lists of values that differ in exactly one position never both verify under one human-readable part |
| `Bech32Checksum.BurstDetected` | `src/bech32.cpp:33-90` | nor do two that differ only within six consecutive positions |
| `Bech32.BurstsDetected` | `src/bech32.cpp:158-190` | texts of the same length and human-readable part that both decode and differ only within six consecutive characters do not differ but in case |
| `Bech32.ErrorsDetected` | `src/bech32.cpp:40-45` | up to three errors anywhere are detected: texts of the same length and human-readable part that both decode and differ in at most three characters do not differ but in case |
| `Bech32.HrpErrorDetected` | `src/bech32.cpp:92-121` | an error in the human-readable part is detected, also together with one behind it: texts of the same length with the separator in the same place that both decode and differ in at most one character before and one after it do not differ but in case |
| `Bech32Errors.ThreeErrorsDetected` | `src/bech32.cpp:40-45` | two lists of values that differ in at most three positions within a window of 1023 never both verify, unless they are equal |
| `Bech32Errors.ValueIsRest` | `src/bech32.cpp:33-90` | a list and its remainder have the same value at a root of the generator |
| `Bech32Errors.RestReduction` | `src/bech32.cpp:79-89` | the five constants of the loop are the multiples of the remainder of x to the sixth: they have its value at each root |
| `Bech32Errors.ThreeRoots` | `src/bech32.cpp:40-45` | no polynomial with at most three terms within 1023 positions vanishes at all three roots of the generator |
| `Bech32Field.OrderExact` | `src/bech32.cpp:40-45` | the element whose powers are the roots has order exactly 1023 |
| `Bech32Field.Vandermonde` | `src/bech32.cpp:40-45` | sums weighted by three consecutive powers of three different positions vanish only for zero |
| `Bech32Checksum.ChecksumExact` | `src/bech32.cpp:114-135` | a list with its checksum verifies, and no other six values make it verify |
| `Bech32Checksum.ShiftLinear` | `src/bech32.cpp:60-88` | multiplying the remainder by x is linear over exclusive or |
| `Bech32Checksum.ShiftZero` | `src/bech32.cpp:60-88` | and loses nothing |
| `Bech32Checksum.RunLinear` | `src/bech32.cpp:33-90` | the difference of two remainders is the remainder of the differences |
| `Bech32.RevCodes` | `src/bech32.cpp:19-28` | the decoding table inverts the alphabet in both cases |
| `Bech32.ComputePolyMod` | `src/bech32.cpp:33-90` | the loop computes the remainder |
| `Bech32.EncodeText` | `src/bech32.cpp:143-156` | the encoder |
| `Bech32.DecodeText` | `src/bech32.cpp:159-190` | the decoder |
| `Base58.DecodeInvertsEncode` | `src/base58.cpp:38-125` | decoding gives back what was encoded, leading zeros included, exactly when the bytes are not more than allowed |
| `Base58.EncodeInvertsDecode` | `src/base58.cpp:38-125` | whatever decodes is, between the spaces, the encoding of the bytes it decodes to |
| `Base58.DecodeExact` | `src/base58.cpp:38-125` | a text decodes to given bytes exactly when it is their encoding with spaces around it |
| `Base58Digits.RoomFor58` | `src/base58.cpp:96-98` | the estimate of 138 percent plus one always suffices |
| `Base58Digits.RoomFor256` | `src/base58.cpp:53-54` | the estimate of 73.3 percent plus one always suffices |
| `Base58Digits.DigitsOfValue` | `src/base58.cpp:66-73` | a list of digits without a leading zero is the digits of its value |
| `Base58Digits.ValueOfDigits` | `src/base58.cpp:102-108` | a number is the value of its digits |
| `Base58.MultiplyAdd` | `src/base58.cpp:57-70` | the inner loop multiplies and adds in place, keeps the length minimal, and its carry is zero at the end |
| `Base58.EncodeBase58` | `src/base58.cpp:87-125` | the encoder, at every length |
| `Base58.DecodeBase58` | `src/base58.cpp:38-85` | the decoder, for every text, with spaces, bad characters and the length limit |

## Left out

- `GetChance` and the retry loops of `Select_`: floating point and termination with probability one.
- Coin caches: memory accounting, best-block tracking, cursors and what is left in memory after `AddCoin` throws.
- Check queue: the stop request, thread start-up and names; a notified waiter may wake at any later time.
- Rolling bloom filter and cuckoo cache: the floating-point computation of their sizes, which are arguments; the 32-bit product in the epoch size of very large caches.
- Bloom filter for transaction matching (`CBloomFilter`): it needs script parsing that is outside these files.
- Chain: locators, time-based search and chain work; the number of steps a skip search takes.
- Chain.BlockManager.AddToBlockIndex: the status, time, work and sequence fields of a block and the best header are not part of the model; a header whose own hash is the one it names as its predecessor is excluded.
- 256-bit arithmetic: hexadecimal text, conversion to floating point and bitwise operators other than those used above.
- Database: values of several types under one key, and the storage engine; an iterator is positioned over a transaction that does not change under it.
- Cuckoo cache: lookups that mark flags concurrently; operations happen one after the other.
- Compact blocks: the header and its hash, the choice of short ids, the bucket-size test and `CheckBlock`, which are arguments; the count of extra transactions, which is only logged, is kept as the loops compute it and nothing is claimed of it.
- AddrManSerialize.Unserialize: a stream that is rejected leaves the manager cleared or partly filled; the contract says nothing of its state in that case.
- Bech32: that four errors within 89 characters are detected as well, which the comment on the generator says of the one chosen; it rests on a search over all error patterns and not on the roots of the generator.
- Base58Check and the address formats built on the two codecs.
- Address manager: the test of `Check_` that the key is not null.
- Hash functions, key handling, networking, RPC, files and locks.
