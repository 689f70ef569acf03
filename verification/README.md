# Verified core of Bitcoin ABC

A Dafny model of the algorithmic core of Bitcoin ABC (a C++ node), with proofs of what its parts promise
over every input, every run or every reachable state. Operations that change objects are methods on classes with
the source's own fields; their contracts tie the new state to functions of the old one, and lemmas about those
functions carry the properties. Hashes are arbitrary functions; injectivity is assumed only where a contract says so.

| part | files | main results |
|---|---|---|
| UTXO cache stack | `Coins`, `CoinsView` | every legal run on a stack of caches is a run on one plain map (`Run`); every operation's effect on the cache and its flags, exactly; the "FRESH flag misapplied" exception is unreachable in such runs; when `AddCoin` is safe, as an if-and-only-if |
| Address manager | `AddrBook`, `AddrOps`, `AddrMan`, `AddrCheck`, `AddrDisk` | every run keeps the five indexes mutually consistent (`RunsAreConsistent`), and no internal assertion fails; the self-check passes exactly in stated states, and consistency is that plus what it does not look at (`Check`, `ConsistentExact`); what an announcement and a success change, field by field (`AddEffect`, `GoodEffect`); saving and loading loses nothing (`SaveAndLoad`) |
| Block assembler | `Mempool`, `Packages`, `FeeOrder`, `Miner` | the block is a part taken by priority, which ends as soon as its share is used up, followed by packages, each the best by fee rate of those left and paying enough when it was taken (`SelectTransactions`); cached package totals are never too low and exact unless the candidate failed before; the list is duplicate-free, has parents first, exact totals and only final transactions, within the size limit, and within the sigop limit unless a transaction of it was too much for an earlier prefix of it; selection ends with every pool entry included or without room, or after a thousand failures in a row near the limit, or at a package that pays too little although it is the best left |
| Check queue | `CheckQueue` | over every interleaving: conservation of checks, the exact meaning of `Wait` and `IsIdle`, and no forgotten master |
| Cuckoo cache | `Cuckoo` | an insert revives its element in place, or adds it and displaces entries along a walk that is defined on values alone: nothing is lost if the walk comes to a reusable slot in time, and exactly the element it holds then otherwise (`Insert`); epochs age exactly when due, and the current one stays bounded |
| Partial Merkle tree | `MerkleTree`, `MerkleBlock` | build, pack, unpack and extract return the Merkle root and exactly the matched ids (`RoundTrip`); any accepted tree that yields the root, whatever number of leaves it claims within the same height, yields only true leaves (`ReadAgainst`); an accepted tree has nothing to spare (`NothingToSpare`) |
| Rolling Bloom filter | `Bloom` | the filter is exactly a plain Bloom filter over the keys of the last three generations (`Contains`) |
| Block index and chain | `SkipSteps`, `BlockIndex`, `Chain` | skip pointers agree with walking back, in at most d * (d + 2) steps below height 2^d (`StepsLogarithmic`); `SetTip`, `FindFork`, `LastCommonAncestor`; locators have logarithmic length |
| 256-bit arithmetic | `Limbs`, `LimbOps`, `Arith256`, `Compact` | eight-limb operators compute modulo 2^256; division; compact targets; block proof is the exact floor |
| Compact blocks | `CompactSize`, `BlockEncodings`, `ExtraTxns`, `IndexCoding`, `CompactBlock` | without short-id collisions a block is rebuilt exactly, over the coded request (`Reconstruct`); what is found, counted and asked for, exactly, also with unused places in the extra list; a request is read exactly from what was written for a readable list (`ReadRequest`) |
| CashAddr | `CashAddr`, `CashAddrCode`, `CashAddrFormat`, `CashAddrKnown` | the checksum is the remainder of a polynomial over GF(32) modulo the generator (`RemainderExact`, `ChecksExact`); detection of every burst of eight symbols; decoding undoes encoding (`RoundTrip`); encoding undoes decoding, up to case, for exactly the strings with a payload (`ReEncode`) |
| Base58 | `Radix`, `Base58` | the alphabet, exactly; both round trips; the buffer estimates are always enough |

Where the code and its comments differ, the model follows the code:

- The comment in `src/cuckoocache.h` on the first displacement names the first slot of the element; the code takes the second (`NextLoc`).
- When `AddCoin` throws, the memory usage has already been lowered (`CoinsView.AddCoin`).
- `ExtractMatches` does not clear the index list it is given; the indices are appended (`ExtractMatches`).
- `x *= x` on one 256-bit object gives zero, because the object is cleared before it is read as the second factor (`MulAssign`, `SquareOfOne`). The product is right modulo 2^256 exactly when the two operands are different objects or the number is a multiple of 2^128 (`SquareVanishes`).
- Differential index coding is not undone for all increasing lists. Numbers are read as compact sizes, which are refused above 0x02000000, so a list comes back exactly if it has at most that many members, its first index is at most that large, at most that many numbers are skipped between an index and the next, and it only ever goes back after the largest 32-bit number, to an index that is again at most that large (`IndexTrip`). `TooFar` is an increasing list that is refused; going back needs at least 128 entries first (`Climbs`, `AfterLargest`).
- `Check_` looks an address up with an operator that creates missing entries with value zero, so it accepts a missing address of entry zero and adds it; nor does it see known addresses without an entry (`Check`, `StaleAddressPasses`, `MissingZeroPasses`).
- `Decode` takes the payload of a CashAddr string to end eight values before the end, without a test that there are eight. For every string whose body has at least eight characters this is right; for a shorter body that passes the checksum the end lies before the start (`Decode`). `utcvmmvctu:` is such a string, with no body at all (`LonePrefix`).
- The list of extra transactions is created with all its places, and those not yet used hold the hash zero and no transaction (`NullsUntilFull`). `InitData` looks at them like at the others. If no short id of the message is that of the hash zero, or every place is used, the count of found transactions is exact and no null is followed (`InitData`). Otherwise a null can be counted as found while its slot stays empty, which makes the count one too high, exactly when the mempool has no match for that short id and a null is its first extra match (`CountOff`, `NullIsCounted`); and a null is followed when that slot is filled at its turn (`MatchExtra`, `NullIsFollowed`).
- `ExtractMatches` is told the number of transactions by the sender. Within the same height of tree that number cannot mislead (`ReceivedSound`); with another height it can, so that the root of a block is returned as an id (`OtherHeight`).
- Adding a coin without announcing an overwrite is safe exactly when the view shows no coin there; otherwise it throws, or a later spend brings the base's coin back (`AddCoinExact`, `MisusedAddResurrects`).

## Model

| member | source | states |
|---|---|---|
| Coins.AddCoinExact | src/coins.cpp:103-129 | AddCoin neither throws nor breaks the flags if and only if the overwrite is announced or the view shows no coin there; the view then changes at that outpoint only |
| Coins.MisusedAddResurrects | src/coins.cpp:115-126 | an unannounced overwrite of a coin held only by the base, then a spend, shows the base's coin again |
| Coins.AddedAndSpent | src/coins.cpp:103-162 | a coin added where there is none and spent again before a flush leaves the cache as it was |
| Coins.MergeFlags | src/coins.cpp:195-249 | a merged entry is FRESH exactly if the parent had a FRESH one or, without one, the child had; a spent coin that is FRESH is forgotten |
| Coins.SpendCoinExact | src/coins.cpp:146-162 | spending removes exactly that coin from the view and keeps the flags right, whether the entry is erased or kept as spent |
| Coins.FetchExact | src/coins.cpp:70-92 | a coin fetched from the base gets right flags and changes no lookup |
| Coins.MergeExact | src/coins.cpp:195-249 | a child entry whose FRESH flag is right never trips the misapplied check, gives a rightly flagged entry, and shows the child's coin |
| Coins.MergeAllExact | src/coins.cpp:195-256 | after merging all entries the parent's view is its old view overwritten by the child's dirty entries |
| Coins.FlushKeepsView | src/coins.cpp:258-263 | writing a coherent cache to its base gives the base exactly the view the cache had |
| Coins.TotalUsageInsert | src/coins.cpp:66-68 | the usage counter of a cache after replacing one entry |
| CoinsViews.MergeInto | src/coins.cpp:195-256 | the BatchWrite loop computes the merge of all entries with exact usage, and throws if and only if some child entry is FRESH over an unspent one |
| CoinsViews.WriteRecords | src/txdb.cpp:83-148 | the database writes dirty unspent coins and erases dirty spent ones, nothing else |
| CoinsViews.CoinsView.FetchCoin | src/coins.cpp:70-92 | finds the entry or says the view has no coin; no lookup and no other entry changes; a new entry is clean, and FRESH exactly if the view has no coin there |
| CoinsViews.CoinsView.GetCoin | src/coins.cpp:94-101 | answers as the plain map does and changes no lookup |
| CoinsViews.CoinsView.AccessCoin | src/coins.cpp:166-172 | the coin of the plain map, or a spent one |
| CoinsViews.CoinsView.HaveCoin | src/coins.cpp:174-177 | true if and only if the plain map has the coin |
| CoinsViews.CoinsView.AddCoin | src/coins.cpp:103-129 | throws exactly when the entry is unspent and no overwrite was announced; otherwise sets the coin in the plain map, with a dirty entry that is FRESH exactly if the old one was or, without an announced overwrite, was not dirty; unspendable outputs change nothing |
| CoinsViews.CoinsView.SpendCoin | src/coins.cpp:146-162 | removes the coin from the plain map and moves out exactly it; the entry disappears if it was FRESH and is kept as spent and dirty otherwise |
| CoinsViews.CoinsView.Uncache | src/coins.cpp:265-271 | drops the entry exactly if it is neither dirty nor fresh; no lookup changes |
| CoinsViews.CoinsView.BatchWrite | src/coins.cpp:195-256 | exact condition of the misapplied exception; with right child flags the view is overwritten by the dirty entries |
| CoinsViews.CoinsView.Flush | src/coins.cpp:258-263 | never throws, empties the cache, changes no lookup and makes the base show the same view |
| CoinsViews.Run | src/coins.cpp:70-271 | every legal run of reads, adds, spends, fetches, uncaches, flushes and stackings gives the final map and all answers of the same run on one plain map |
| AddrBook.CreateKeeps | src/addrman.cpp:110-121 | a created entry is consistent with every index while it waits for a table |
| AddrBook.SwapRandomKeeps | src/addrman.cpp:123-141 | swapping two places of vRandom keeps all indexes inverse to each other |
| AddrBook.DeleteKeeps | src/addrman.cpp:143-154 | deleting an entry that is in no table keeps the invariant |
| AddrBook.ClearNewKeeps | src/addrman.cpp:156-168 | clearing a new slot keeps the invariant, frees the slot, and changes no other entry |
| AddrBook.LeaveNewKeeps | src/addrman.cpp:171-181 | taking an entry out of all its new slots keeps the invariant |
| AddrBook.LeaveTriedKeeps | src/addrman.cpp:195-198 | taking an entry out of the tried table keeps the invariant |
| AddrBook.EnterNewKeeps | src/addrman.cpp:206-209 | putting an entry with room left into a free new slot keeps the invariant |
| AddrBook.EnterTriedKeeps | src/addrman.cpp:211-215 | putting an entry into its free tried slot keeps the invariant |
| AddrBook.EvictKeeps | src/addrman.cpp:187-211 | moving a tried entry back to its new slot keeps the invariant and frees the tried slot |
| AddrBook.MakeTriedKeeps | src/addrman.cpp:170-216 | MakeTried keeps the whole invariant |
| AddrOps.AddKeeps | src/addrman.cpp:274-356 | Add_ keeps the whole invariant for every announcement, clock and random draw |
| AddrOps.AddEffect | src/addrman.cpp:274-356 | Add_ never changes the tried table or its entries. A known entry gets the services of both, and the announced time less the penalty exactly if its own is unset or older by more than that and an interval; nothing else of it changes. It gets one more slot exactly if the announced time is still newer, it is new with fewer than eight slots, the draw is zero and the slot yields. An unknown address is stored with its announced time less the penalty, and all else zero, exactly if its slot is free or held by an entry that is terrible or has another slot. The new table changes in that slot only, at most one other entry, one without another slot, is lost, and all others keep all their statistics. A source that announces itself has no penalty |
| AddrOps.PlaceKeeps | src/addrman.cpp:335-354 | placing an entry keeps the invariant, whether it takes a slot, is already there, or is deleted |
| AddrOps.PlaceExact | src/addrman.cpp:335-354 | an entry takes its slot, stays, or is dropped, each exactly when stated, with the whole new table and the entries lost |
| AddrOps.GoodKeeps | src/addrman.cpp:218-272 | Good_ keeps the whole invariant for every positive time |
| AddrOps.GoodEffect | src/addrman.cpp:218-272 | Good_ sets the last success everywhere, and success, try and attempts of an exactly known address; one that is new goes into its tried slot, and nothing else is lost or changed, except that an entry pushed out goes to its new slot and may cost one other entry its only slot |
| AddrOps.TimeNeverBack | src/addrman.cpp:289-297 | an announcement never sets the stored time back |
| AddrOps.RenewalTakesNothing | src/addrman.cpp:284-305 | an address that announces itself and renews its time takes no further slot |
| AddrOps.TerribleExact | src/addrman.cpp:49-77 | the ages and counts that make an entry terrible |
| AddrOps.AttemptEffect | src/addrman.cpp:358-381 | only the tries of an exactly known address change; a failure is counted if that is asked for and none was counted since the last success |
| AddrOps.CountedOnce | src/addrman.cpp:358-381 | two attempts without a success in between count at most once |
| AddrOps.ConnectedEffect | src/addrman.cpp:569-590 | only a time more than twenty minutes old is renewed, and never set back |
| AddrOps.ServicesEffect | src/addrman.cpp:592-610 | the given services replace those stored for an exactly known address; nothing else changes |
| AddrOps.MakeTriedEffect | src/addrman.cpp:170-216 | the same for MakeTried |
| AddrOps.ClearNewLoses | src/addrman.cpp:156-168 | clearing a new slot loses exactly the entry that had no other slot |
| AddrOps.BucketIsFound | src/addrman.cpp:250-266 | the search for a bucket in Good_ always succeeds, so its exit for the other case is unreachable |
| AddrOps.StepKeeps | src/addrman.cpp:274-381 | every call keeps the invariant |
| AddrOps.FreshConsistent | src/addrman.h:482-505 | a new manager satisfies the invariant |
| AddrOps.RunsAreConsistent | src/addrman.cpp:110-611 | every state of every run of Add_, Good_, Attempt_, Connected_, SetServices_ and the swaps of GetAddr_ satisfies the invariant |
| AddrMan.AddrMan.constructor | src/addrman.h:482-505 | a new object holds the empty state |
| AddrMan.AddrMan.Create | src/addrman.cpp:110-121 | the object does what the value operation says |
| AddrMan.AddrMan.SwapRandom | src/addrman.cpp:123-141 | the object does what the value operation says |
| AddrMan.AddrMan.Delete | src/addrman.cpp:143-154 | the object does what the value operation says; its assertions hold |
| AddrMan.AddrMan.ClearNew | src/addrman.cpp:156-168 | the object does what the value operation says; the reference count never becomes negative |
| AddrMan.AddrMan.LeaveNewTable | src/addrman.cpp:171-181 | all slots of the entry are freed and its reference count is zero |
| AddrMan.AddrMan.EvictSlot | src/addrman.cpp:187-211 | the object does what the value operation says; the slot used is free |
| AddrMan.AddrMan.MakeTried | src/addrman.cpp:170-216 | the object does what the value operation says; its assertions hold |
| AddrMan.AddrMan.FindBucket | src/addrman.cpp:250-266 | finds a bucket that holds the entry, whatever the random start |
| AddrMan.AddrMan.Good | src/addrman.cpp:218-272 | the object does what the value operation says |
| AddrMan.AddrMan.Add | src/addrman.cpp:274-356 | the object does what the value operation says for the number drawn, including the result |
| AddrMan.AddrMan.RefreshEntry | src/addrman.cpp:289-300 | the new time and services of a known entry, as for AddEffect |
| AddrMan.AddrMan.PlaceEntry | src/addrman.cpp:335-354 | the object does what the value operation says |
| AddrMan.Stochastic | src/addrman.cpp:317-326 | an entry with N references is taken up again exactly for one of 2^N draws |
| AddrMan.AddrMan.Attempt | src/addrman.cpp:358-381 | the object does what the value operation says |
| AddrMan.AddrMan.Connected | src/addrman.cpp:569-590 | the object does what the value operation says |
| AddrMan.AddrMan.SetServices | src/addrman.cpp:592-610 | the object does what the value operation says |
| AddrMan.AddrMan.GetAddr | src/addrman.cpp:548-567 | distinct stored addresses of good quality, at most 23 percent and 2500, and fewer only when there are no more; the stored entries do not change |
| AddrCheck.RandomSize | src/addrman.cpp:451-453 | in a consistent state vRandom lists every entry once |
| AddrCheck.PassesOrdered | src/addrman.cpp:451-487 | the size test and the positions of the entries together make vRandom the inverse of the positions |
| AddrCheck.ConsistentExact | src/addrman.cpp:447-545 | a state is consistent if and only if it passes the check, its ids are in range, every known address has its entry and that of entry zero is known |
| AddrCheck.StaleAddressPasses | src/addrman.cpp:447-545 | a state that passes and is not consistent: a known address without an entry |
| AddrCheck.MissingZeroPasses | src/addrman.cpp:477-479 | every consistent state with an entry zero still passes, and is no longer consistent, when its address is forgotten |
| AddrCheck.OneEntryConsistent | src/addrman.cpp:447-545 | a consistent state with an entry zero |
| AddrCheck.CheckEntries | src/addrman.cpp:455-487 | the first pass succeeds if and only if every entry is right by itself, and then has collected exactly the tried ids and the reference counts; it may add the address of entry zero |
| AddrCheck.CheckTried | src/addrman.cpp:496-513 | succeeds if and only if every used slot holds a tried entry that belongs there; no id is then left over exactly if every tried entry has its slot |
| AddrCheck.CheckNew | src/addrman.cpp:515-530 | succeeds if and only if every used slot holds a new entry at its position and none has more slots than it counts; nothing is then left over exactly if the counts are exact |
| AddrCheck.CheckTables | src/addrman.cpp:496-537 | the two passes succeed if and only if both tables are right |
| AddrCheck.Check | src/addrman.cpp:447-545 | zero if and only if the key is not null and everything looked at is right, in any state; a consistent manager passes unchanged, or gets -16 if the key is null |
| AddrDisk.Serialize | src/addrman.h:315-362 | the stream describes the manager: every entry once, every bucket as a list of positions in that order |
| AddrDisk.ListLength | src/addrman.h:349-361 | the lists of a bucket have as many members as the bucket has entries |
| AddrDisk.CountsFit | src/addrman.h:387-395 | the counts of a consistent manager pass the limits checked on reading |
| AddrDisk.ReadNew | src/addrman.h:397-416 | reading the new entries of an honest stream gives them consecutive ids |
| AddrDisk.ReadTried | src/addrman.h:418-437 | reading the tried entries of an honest stream loses none |
| AddrDisk.ReadRefs | src/addrman.h:439-459 | reading the bucket lists of an honest stream fills the same slots |
| AddrDisk.Prune | src/addrman.h:461-472 | entries without a reference are deleted; none of an honest stream is |
| AddrDisk.InsertSound | src/addrman.h:397-416 | one new entry read from any stream keeps the tables, reference counts and totals right |
| AddrDisk.LoadTriedSound | src/addrman.h:419-439 | one tried entry read from any stream does, too |
| AddrDisk.LoadRefSound | src/addrman.h:442-462 | one index read from any stream does, too: it is used only if its slot is free and its entry has fewer than eight |
| AddrDisk.DeleteSound | src/addrman.h:464-476 | deleting an entry without a slot does, too |
| AddrDisk.Unserialize | src/addrman.h:364-480 | refused exactly for a key size other than 32, a total over its limit, or a stream that ends early. From any other stream the random order, both tables, the reference counts and the totals are right, and every entry is in a table; from an honest one the same address and stored fields in every slot, in a consistent manager |
| AddrDisk.SaveAndLoad | src/addrman.h:315-480 | for every consistent manager, loading what was saved succeeds and gives the same stored entry, with the same address, source, last success, attempts and reference count, in every new and tried slot |
| Mempool.Pool.SumsRemove | src/miner.cpp:367-395 | package sums lose exactly the removed transaction |
| Mempool.Pool.FewerAncestors | src/miner.cpp:412-422 | a parent has fewer ancestors than its child |
| Packages.TotalsNext | src/miner.h:115-125 | lowering an entry by an included ancestor keeps its totals right: size and sigops exact for what is left, fees within the prioritisation of the ancestors taken off |
| Packages.UpdateKeeps | src/miner.cpp:367-395 | updating all descendants of an included transaction keeps every candidate's totals right |
| Packages.PoolTotalsExact | src/miner.cpp:405-410 | the pool's own totals are exact for a candidate that has no entry in the map and has not failed |
| FeeOrder.BetterIsRate | src/miner.h:70-84 | one candidate comes before another exactly if its fee rate is higher, or equal and its id smaller |
| FeeOrder.NoBetter | src/miner.h:70-84 | what is no better than something no better than a third is no better than that |
| FeeOrder.BestModified | src/miner.cpp:479-479 | the best entry of the map |
| Miner.CandidateTotals | src/miner.cpp:502-511 | the size and sigop totals used for a candidate are never below those of its package without the block, and equal to them unless it failed before; its fees are those of the package without ancestors in the block, up to their prioritisation |
| Miner.SortedIsTopological | src/miner.h:87-95 | sorting by ancestor count puts every parent before its child |
| Miner.SortForBlock | src/miner.cpp:412-422 | the package, each member once, sorted by ancestor count, ties by hash |
| Miner.UpdatePackagesForAdded | src/miner.cpp:367-395 | totals right before an inclusion are right after it; every descendant becomes a candidate and none is dropped |
| Miner.ParentsFirstClosed | src/miner.cpp:431-575 | a block list with parents first contains all ancestors of its members |
| Miner.ExtendedOk | src/miner.cpp:344-365 | adding a transaction whose parents are in the block keeps the list duplicate-free, parents first and all totals exact |
| Miner.BestIsNext | src/miner.cpp:466-498 | the best candidate by the totals used is the best of all pool entries left that there is room for |
| Miner.UsedReckoned | src/miner.cpp:502-511 | the totals used for a candidate are those of its package without the block, fees up to prioritisation, unless there was no room for it before |
| Miner.PackageTaken | src/miner.cpp:560-568 | what was taken in line stays so when a package is added |
| Miner.TurnIsNow | src/miner.cpp:612-640 | the top of the queue is next by priority among all pool entries that wait for nothing and fit |
| Miner.PriorityNext | src/miner.cpp:627-640 | taking the next by priority keeps the part taken by priority such, and open while it is not used up |
| Miner.NoRoomMade | src/miner.cpp:278-298 | inclusion makes no room: the block and what is left of a package never become smaller together |
| Miner.TurnedDownStays | src/miner.cpp:513-537 | a package that the block has no room for has none after any other inclusion |
| Miner.TxTurnedDownStays | src/miner.cpp:300-342 | the same of a single transaction |
| Miner.RetriedFits | src/miner.cpp:513-537 | a package that fits although it was turned down before had too many signature operations then |
| Miner.BlockAssembler.constructor | src/miner.cpp:93-121 | an empty block with 1000 bytes and 100 sigops reserved |
| Miner.BlockAssembler.AddToBlock | src/miner.cpp:344-365 | the new totals and list; the invariant is kept |
| Miner.BlockAssembler.TestPackageTransactions | src/miner.cpp:278-298 | accepts only if all members are final and the sizes fit, and accepts whenever they fit strictly |
| Miner.BlockAssembler.TestForBlock | src/miner.cpp:300-342 | accepts if and only if the transaction fits by size and sigops and is final; the block is finished, and the last tries counted, exactly when stated |
| Miner.BlockAssembler.TopPriority | src/miner.cpp:613-615 | a queued transaction of the highest priority |
| Miner.BlockAssembler.AddPriorityTxs | src/miner.cpp:577-657 | every transaction is taken in its turn by priority, and none after the priority size was reached or one was taken that is not free; keeps the invariant and the sigop limit; unless the block is nearly full or its priority part is done, every transaction is included, waits for a parent, or has no room in the block |
| Miner.BlockAssembler.AddPackage | src/miner.cpp:560-568 | the sorted package is appended; every parent is in the block by then |
| Miner.BlockAssembler.IncludePackage | src/miner.cpp:539-573 | what is left of the package is included and the totals of all candidates stay right |
| Miner.BlockAssembler.ConsiderPackage | src/miner.cpp:504-573 | one candidate: pays too little exactly by the totals used; else what is left of its package is included, within the size limit, and within the sigop limit for the new size unless it had failed before; or the block has no room for it, told from the block, the pool and the limits alone; the block is unchanged then |
| Miner.BlockAssembler.NextCandidate | src/miner.cpp:476-498 | the next entry of the index or the best of the map: none of either is better |
| Miner.BlockAssembler.PackageStep | src/miner.cpp:475-573 | the candidate is not in the block and is next in line, the loop's measure goes down, and every index entry passed is in the block, a candidate, or turned down |
| Miner.BlockAssembler.SelectionStep | src/miner.cpp:475-573 | one step and the count of failures in a row, all of which are different transactions without room |
| Miner.BlockAssembler.AddPackageTxs | src/miner.cpp:431-575 | ends; keeps the invariant and the sigop limit; every transaction added was taken with a package that was the best left and paid enough; then every pool entry is in the block or has no room, or the block is nearly full and more than a thousand have no room, or the best package left pays too little |
| Miner.BlockAssembler.SelectTransactions | src/miner.cpp:173-177 | a part taken by priority and then packages in line, each as above; ends as stated; within the sigop limit for the block's size unless a transaction of it was too much for an earlier prefix of it, and for the largest block always, if the limit grows with the size |
| CheckQueue.NextKeeps | src/checkqueue.h:65-129 | every critical section keeps the counters, the conservation of checks, the verdict and the master's wakeup right |
| CheckQueue.RunsKeep | src/checkqueue.h:65-156 | the invariant holds in every state of every interleaving of a master and any number of workers |
| CheckQueue.WaitExact | src/checkqueue.h:142-142 | Wait returns true exactly when all checks added since the previous Wait hold, and only when all have been reported |
| CheckQueue.IdleExact | src/checkqueue.h:160-163 | the idleness test passes exactly when everything added has been reported and holds |
| CheckQueue.MasterNotForgotten | src/checkqueue.h:88-100 | a blocked master that was not notified waits for a batch in some worker's hands |
| CheckQueue.OneOwner | src/checkqueue.h:112-119 | a check added once is never in two hands, nor also queued or reported |
| CheckQueue.NextStable | src/checkqueue.h:65-129 | between steps no thread is inside a critical section |
| CheckQueue.BatchIsShare | src/checkqueue.h:101-111 | a batch is one check, or the largest number within the limit of which every thread counted could have as many |
| CheckQueue.LeavesOrWaits | src/checkqueue.h:87-99 | a thread leaves exactly if all is reported and it is the master or told to quit, and otherwise waits while there is nothing to take |
| CheckQueue.BatchStarts | src/checkqueue.h:101-123 | a thread that finds work takes the back of the queue, and the verdict so far |
| CheckQueue.TakeBackAt | src/checkqueue.h:112-119 | a batch is taken from the back of the queue, last first |
| CheckQueue.TakeBackTakes | src/checkqueue.h:112-119 | a batch takes exactly the checks that leave the queue |
| Cuckoo.Cache.constructor | src/cuckoocache.h:315-329 | an empty cache; 45 percent of the size is computed in 32 bits |
| Cuckoo.Cache.EpochCheck | src/cuckoocache.h:262-294 | ages if and only if the counter is used up and the current epoch is full: old entries are given up, current ones become old; exactly the reusable slots are then free; the new counter, and the bound on the current epoch |
| Cuckoo.Cache.CountCurrent | src/cuckoocache.h:269-274 | counts the live entries of the current epoch |
| Cuckoo.Cache.AgeEpochs | src/cuckoocache.h:277-283 | exactly the entries of the old epoch are given up |
| Cuckoo.Cache.Find | src/cuckoocache.h:374-380 | an element is in the table if and only if one of its eight slots holds it |
| Cuckoo.Cache.Contains | src/cuckoocache.h:446-457 | exact membership; erase only gives the element's own entry up for collection |
| Cuckoo.Cache.Insert | src/cuckoocache.h:368-418 | for every element: revives it in place, or adds exactly it with the current epoch; then nothing is dropped exactly if the walk comes to a reusable slot in time, and otherwise exactly the element it holds after the last displacement; epochs age before that exactly when due; placement and the epoch bound are kept |
| Cuckoo.Cache.Displacements | src/cuckoocache.h:381-417 | the table follows the walk step by step, and ends as it does |
| Cuckoo.WalkNext | src/cuckoocache.h:405-416 | one displacement is one step of the walk |
| Cuckoo.NextUnique | src/cuckoocache.h:405-407 | the slot that follows is determined |
| Cuckoo.Cache.NextLoc | src/cuckoocache.h:405-407 | the slot after the one last looked at, around the eight, and the second slot if that is none of them |
| Cuckoo.Cache.Displace | src/cuckoocache.h:405-416 | exactly one entry is exchanged |
| Cuckoo.Cache.FindFree | src/cuckoocache.h:382-389 | a free slot of the element if and only if it has one |
| Cuckoo.LiveOnce | src/cuckoocache.h:368-418 | no element is live twice, not even the default-constructed one that fills unused slots |
| Cuckoo.OwnSlots | src/cuckoocache.h:446-457 | every element lies in one of its own slots |
| MerkleTree.WidthExact | src/merkleblock.h:70-72 | a node exists exactly if its first leaf does |
| MerkleTree.ExtractBuilt | src/merkleblock.cpp:76-146 | reading back what was built for a node gives its hash and exactly the matched leaves below it, and uses up exactly what was stored |
| MerkleTree.MatchedExact | src/merkleblock.cpp:76-146 | the matched list holds exactly the matched positions, in order, with their ids |
| MerkleTree.SiblingsDiffer | src/merkleblock.cpp:133-139 | nodes side by side over distinct ids have different hashes, so an honest tree is not rejected |
| MerkleTree.BuildSizes | src/merkleblock.cpp:176-187 | a built tree has at most one hash per id and at least one bit per hash |
| MerkleTree.ExtractSound | src/merkleblock.cpp:100-146 | whatever the bits and hashes, and however many leaves are claimed: a node without equal branches that yields the true hash yields only true leaves |
| MerkleTree.BadStays | src/merkleblock.cpp:100-146 | what was found bad stays so |
| MerkleBlock.Pack | src/merkleblock.h:115-120 | the bytes hold the bits, and zeros after them |
| MerkleBlock.Unpack | src/merkleblock.h:107-114 | the bits of the bytes |
| MerkleBlock.LevelHash | src/merkleblock.cpp:55-74 | the recursive node hash is the node of the level-by-level construction |
| MerkleBlock.RootIsMerkleRoot | src/merkleblock.cpp:55-74 | the top node is the Merkle root of the list |
| MerkleBlock.TreeHeight | src/merkleblock.cpp:154-158 | the height of the lowest single node |
| MerkleBlock.PartialMerkleTree.FromTxids | src/merkleblock.cpp:148-163 | a tree that stores what building prescribes |
| MerkleBlock.PartialMerkleTree.FromBytes | src/merkleblock.h:104-114 | a tree as received |
| MerkleBlock.PartialMerkleTree.TraverseAndBuild | src/merkleblock.cpp:76-98 | appends what building prescribes for the node |
| MerkleBlock.PartialMerkleTree.TraverseAndExtract | src/merkleblock.cpp:100-146 | reads what extraction prescribes for the node |
| MerkleBlock.PartialMerkleTree.ExtractMatches | src/merkleblock.cpp:167-218 | succeeds if and only if all count and padding checks pass; zero root otherwise |
| MerkleBlock.BuiltAccepted | src/merkleblock.cpp:76-218 | a built tree padded to whole bytes passes all checks and yields the root and the matches |
| MerkleBlock.RoundTrip | src/merkleblock.cpp:76-218 | build, pack, unpack, extract: the Merkle root and exactly the matched ids and indices, for every nonempty list of distinct ids |
| MerkleBlock.ReceivedSound | src/merkleblock.cpp:133-218 | an accepted tree that yields the Merkle root of a list returns only true ids at true indices, for every announced number of leaves that gives the same height |
| MerkleBlock.OtherHeight | src/merkleblock.cpp:189-201 | a tree announced with another height can return the root as an id |
| MerkleBlock.NothingToSpare | src/merkleblock.cpp:203-215 | with further hashes, or another byte of bits, an accepted tree is refused |
| MerkleBlock.ReadAgainst | src/merkleblock.cpp:167-218 | the same on received bytes |
| Bloom.EverySlot | src/bloom.cpp:277-280 | every bit of every word pair is the position of the hash value put together from it |
| Bloom.SharedSlot | src/bloom.cpp:277-280 | two hash values share a position exactly if they have the same bit and the same word or pair of words |
| Bloom.WriteBitExact | src/bloom.cpp:281-286 | writing one bit of a word changes that bit only |
| Bloom.WipeCell | src/bloom.cpp:264-272 | the mask clears a position exactly if it holds the wiped generation |
| Bloom.Wipe | src/bloom.cpp:264-272 | exactly the positions of that generation are cleared |
| Bloom.WriteSlot | src/bloom.cpp:279-286 | exactly one position is set to the generation |
| Bloom.WipeHolds | src/bloom.cpp:257-274 | starting a generation forgets exactly the keys that leave the window |
| Bloom.InsertHolds | src/bloom.cpp:275-287 | after writing a key's positions the table is that of the longer key list |
| Bloom.ContainsExact | src/bloom.cpp:294-306 | the table answers as a plain Bloom filter over the recent keys |
| Bloom.RecentFound | src/bloom.h:119-120 | every recent key is found |
| Bloom.LastOnesRecent | src/bloom.cpp:220-226 | the last 2 * nEntriesPerGeneration keys are recent |
| Bloom.RollingBloomFilter.constructor | src/bloom.cpp:214-248 | an empty filter whose generations hold half the elements, rounded up |
| Bloom.RollingBloomFilter.Reset | src/bloom.cpp:313-320 | forgets everything |
| Bloom.RollingBloomFilter.Insert | src/bloom.cpp:257-287 | the filter of the key list with one more key |
| Bloom.RollingBloomFilter.StartGeneration | src/bloom.cpp:258-274 | the next generation number, with the keys of its former use wiped |
| Bloom.RollingBloomFilter.Contains | src/bloom.cpp:294-306 | true if and only if a plain Bloom filter over the recent keys says so; always true for the last 2 * nEntriesPerGeneration keys |
| BlockIndexes.InvertLowestOneBits | src/chain.cpp:79-81 | for every 32-bit word, read as binary digits, the arithmetic form gives what n & (n - 1) computes |
| SkipSteps.GetSkipHeight | src/chain.cpp:84-94 | always below the height |
| SkipSteps.SkipChoice | src/chain.cpp:104-111 | the pointer is followed exactly if it does not lead past the target and that of the entry before is not better |
| SkipSteps.SkipClears | src/chain.cpp:84-94 | a skip clears at least one binary one of the height |
| SkipSteps.PrevSkip | src/chain.cpp:104-111 | where the pointer of the entry before is preferred, two steps clear at least one |
| SkipSteps.StepsBound | src/chain.cpp:96-120 | two steps for each one among the lowest d digits and d^2 more lead back to any height that agrees above them |
| SkipSteps.StepsLogarithmic | src/chain.cpp:88-92 | going back from a height below 2^d takes at most d * (d + 2) steps |
| BlockIndexes.PathIsWalk | src/chain.h:288-296 | the path of an entry is what following pprev visits |
| BlockIndexes.BlockIndex.GetAncestor | src/chain.cpp:96-120 | equals walking pprev, and null outside the heights; no null pointer is followed; with all skip pointers set it takes exactly the steps that are bounded above |
| BlockIndexes.BlockIndex.BuildSkip | src/chain.cpp:126-130 | the skip pointer leads to the ancestor at the skip height |
| BlockIndexes.LinkBlock | src/validation.cpp:3210-3226 | a new entry linked to its parent keeps the tree well formed |
| BlockIndexes.AddToBlockIndex | src/validation.cpp:3201-3241 | the index stays a tree; a known hash changes nothing, a new one is linked to the entry of its parent's hash, if there is one |
| BlockIndexes.SharedPrefix | src/chain.cpp:170-186 | paths that share an entry share all before it |
| Chains.Chain.SetTip | src/chain.cpp:11-22 | the vector becomes exactly the path of the new tip |
| Chains.Chain.FindFork | src/chain.cpp:55-66 | the highest block of the entry's path that is in the chain, or null |
| Chains.Chain.GetLocator | src/chain.cpp:24-53 | strictly descending ancestors at the prescribed heights down to the first block, at most 12 + floor(log2 h) of them |
| Chains.LastCommonAncestor | src/chain.cpp:170-186 | the highest block both paths share, or null; the assertion holds |
| Chains.LocatorLength | src/chain.cpp:24-53 | the bound on the number of entries |
| Chains.ForkAt | src/chain.cpp:55-66 | an entry shared with nothing shared above it is the highest shared one |
| Limbs.ValBound | src/arith_uint256.h:26-29 | a number of i limbs is below 2^(32 i) |
| Limbs.CarryStep | src/arith_uint256.h:119-127 | one step with carry at a limb, by its weight |
| LimbOps.ProductFits | src/arith_uint256.cpp:51-74 | no intermediate result needs more than 64 bits |
| LimbOps.MultipliedStep | src/arith_uint256.cpp:62-74 | one row of the product, up to a lost multiple of 2^256 |
| LimbOps.ShiftSplit | src/arith_uint256.cpp:21-48 | the bits that leave a limb on a shift are those that enter its neighbour |
| LimbOps.ShiftUpStep | src/arith_uint256.cpp:21-33 | one limb of a left shift |
| LimbOps.ShiftDownStep | src/arith_uint256.cpp:36-48 | one limb of a right shift |
| Arith256.ArithUint256.constructor | src/arith_uint256.h:46-51 | a number below 2^64 |
| Arith256.ArithUint256.Assign | src/arith_uint256.h:78-84 | becomes a number below 2^64 |
| Arith256.ArithUint256.AddAssign | src/arith_uint256.h:119-127 | addition modulo 2^256, also of an object to itself |
| Arith256.ArithUint256.Increment | src/arith_uint256.h:152-158 | plus one modulo 2^256 |
| Arith256.ArithUint256.Complement | src/arith_uint256.h:61-66 | 2^256 - 1 minus the number |
| Arith256.ArithUint256.Negate | src/arith_uint256.h:68-74 | minus the number modulo 2^256 |
| Arith256.ArithUint256.SubAssign | src/arith_uint256.h:129-132 | subtraction modulo 2^256 |
| Arith256.ArithUint256.MulAssign32 | src/arith_uint256.cpp:51-59 | multiplication by a word modulo 2^256 |
| Arith256.ArithUint256.MulAssign | src/arith_uint256.cpp:62-74 | multiplication modulo 2^256 for different objects; zero for an object by itself; right if and only if the objects differ or the number is a multiple of 2^128 |
| Arith256.SquareVanishes | src/arith_uint256.cpp:62-74 | a square is zero in n limbs if and only if the number is a multiple of 2^(16 n), 2^128 for eight |
| Arith256.SquareOfOne | src/arith_uint256.cpp:62-74 | one multiplied by itself in place is not one |
| Arith256.ArithUint256.ShiftLeftAssign | src/arith_uint256.cpp:21-33 | times 2^shift modulo 2^256, for every shift |
| Arith256.ArithUint256.ShiftRightAssign | src/arith_uint256.cpp:36-48 | divided by 2^shift, for every shift |
| Arith256.ArithUint256.DivideBit | src/arith_uint256.cpp:90-101 | one bit of the quotient |
| Arith256.ArithUint256.DivAssign | src/arith_uint256.cpp:77-104 | the floor quotient; fails exactly for zero, leaving zero |
| Arith256.ArithUint256.CompareTo | src/arith_uint256.cpp:106-113 | the order of the numbers |
| Arith256.ArithUint256.EqualTo | src/arith_uint256.cpp:115-122 | equality with a 64-bit number |
| Arith256.ArithUint256.Bits | src/arith_uint256.cpp:151-161 | the position of the highest set bit plus one |
| Arith256.ArithUint256.GetLow64 | src/arith_uint256.h:260-263 | the number modulo 2^64 |
| Compact.CompactRoundTrip | src/arith_uint256.cpp:181-221 | decoding an encoded number reports no sign and gives the number with all but its top three bytes cleared, or two if the top bit is set |
| Compact.CompactStable | src/arith_uint256.cpp:181-221 | encoding the truncated number gives the same compact form |
| Compact.OverflowExact | src/arith_uint256.cpp:192-196 | the overflow test holds if and only if the number meant is at least 2^256 |
| Compact.BytesOfBits | src/arith_uint256.cpp:200-201 | the byte count from the bit count |
| Compact.SetCompact | src/arith_uint256.cpp:181-198 | the number meant modulo 2^256, with the exact sign and overflow flags |
| Compact.GetCompact | src/arith_uint256.cpp:200-221 | the compact form; both assertions hold |
| Compact.CompactTrip | src/arith_uint256.cpp:181-221 | the round trip on objects |
| Compact.ProofExact | src/chain.cpp:140-144 | (p - 1 - t) / (t + 1) + 1 is the floor of p / (t + 1) |
| Compact.GetBlockProof | src/chain.cpp:132-145 | floor(2^256 / (target + 1)) for every valid nonzero target, zero otherwise |
| BlockEncodings.PlacePrefilled | src/blockencodings.cpp:65-87 | accepts if and only if every prefilled transaction fits, for any 32-bit indices; from a received message every one is then at its own position, in bounds, no other slot is filled, and as many slots are free as there are short ids |
| BlockEncodings.PositionsIncrease | src/blockencodings.cpp:72-76 | the 32-bit addition alone: positions never go down, and two are the same if and only if all indices up to the later one are the largest number |
| BlockEncodings.ReceivedIncrease | src/blockencodings.cpp:72-76 | in every message that can be received the addition does not wrap and positions strictly increase |
| BlockEncodings.ReceivedPlaced | src/blockencodings.cpp:65-87 | in every message that can be received no prefilled transaction replaces another |
| BlockEncodings.WrapRepeats | src/blockencodings.cpp:72-76 | what the addition alone does with the largest number, which is never received: the position is repeated |
| BlockEncodings.MapShortIds | src/blockencodings.cpp:95-127 | succeeds if and only if the short ids are distinct and no bucket is crowded; then the i-th id stands for the i-th free slot |
| BlockEncodings.PoolOne | src/blockencodings.cpp:134-153 | one mempool transaction fills its slot, or empties it on a second match |
| BlockEncodings.MatchPool | src/blockencodings.cpp:129-161 | a slot is filled exactly if one of the transactions looked at has its short id and no second one |
| BlockEncodings.ExtraOne | src/blockencodings.cpp:164-188 | one extra entry; the same transaction again is no second match; a null is followed exactly if its slot is filled, and counted exactly if its slot had no match |
| BlockEncodings.MatchExtra | src/blockencodings.cpp:163-196 | a slot ends filled exactly if there is a wanted hash and all extra matches have it; stops at the first null that is followed; the count exceeds the number filled by one exactly if a null was the first match for its slot |
| BlockEncodings.NullsHarmless | src/blockencodings.cpp:163-196 | without nulls, or when no short id is that of the hash zero, no null is followed and none is counted |
| BlockEncodings.NullIsCounted | src/blockencodings.cpp:168-172 | a null counted as found with its slot empty |
| BlockEncodings.NullIsFollowed | src/blockencodings.cpp:180-182 | a null that is followed |
| ExtraTransactions.ExtraTxns.Add | src/net_processing.cpp:694-709 | the list holds the last transactions added, as many as it has places, and nulls in the places not yet used |
| ExtraTransactions.NullsUntilFull | src/net_processing.cpp:694-709 | a list in use has a null exactly until as many transactions were added as it has places; every entry has the hash of its transaction, or zero |
| CompactBlocks.Announce | src/blockencodings.cpp:19-30 | the first transaction in full, the others by short id in order |
| CompactBlocks.AnnouncedEncodes | src/blockencodings.cpp:19-30 | such a message stands for the block |
| CompactBlocks.FilledAgrees | src/blockencodings.cpp:129-196 | without collisions every filled slot holds the block's own transaction |
| CompactBlocks.KnownFound | src/blockencodings.cpp:129-196 | without collisions a transaction is found exactly if the mempool or the extra list has it, unless a null has its short id |
| CompactBlocks.BesideNullFound | src/blockencodings.cpp:129-196 | without collisions, and whatever nulls there are, a transaction is found exactly if the mempool has it or the first extra match looked at for its short id is it |
| CompactBlocks.CountOff | src/blockencodings.cpp:163-196 | the count is too high by at most one, exactly when the mempool has no match for the nulls' short id and its first extra match is a null |
| CompactBlocks.CountExact | src/blockencodings.cpp:163-196 | the count is exact and no null is followed if no short id of the message is that of the nulls |
| CompactBlocks.AllFullButNull | src/blockencodings.cpp:191-196 | once as many are counted as there are short ids, every slot is filled but that of a counted null |
| CompactBlocks.AllFull | src/blockencodings.cpp:154-161 | once as many slots are filled as there are short ids, the slot of every short id is, so that the search stops only with nothing left to find |
| CompactBlocks.MatchAll | src/blockencodings.cpp:129-196 | mempool then extra matching, with the number counted; each list is looked at to its end unless nothing is left to find but for a slot of a null |
| CompactBlocks.PlaceAndIndex | src/blockencodings.cpp:65-127 | the two preparations, with the exact error conditions |
| CompactBlocks.PartiallyDownloadedBlock.InitData | src/blockencodings.cpp:49-204 | invalid and failed exactly when stated; else the matched slots; mempoolCount is the number filled and no null is followed when no short id is that of a null, and off by the stated one otherwise |
| CompactBlocks.PartiallyDownloadedBlock.RequestMissing | src/net_processing.cpp:2386-2391 | exactly the empty positions, in order |
| CompactBlocks.Answer | src/net_processing.cpp:1355-1369 | the transactions at those positions, refused exactly if one is out of bounds |
| CompactBlocks.PartiallyDownloadedBlock.FillBlock | src/blockencodings.cpp:212-268 | the slots with the gaps filled in order; invalid exactly on too few or too many; used up otherwise |
| CompactBlocks.FilledIsBlock | src/blockencodings.cpp:212-238 | filling agreeing slots with the block's answer gives the block |
| CompactBlocks.Reconstruct | src/blockencodings.cpp:19-268 | for every block, mempool and extra list without collisions: received if and only if it has at most 0x02000001 transactions; refused then if and only if its own short ids are not distinct or a bucket is crowded; else rebuilt exactly, over the coded request, unless a null is followed, which needs a null and a transaction with the short id of the hash zero |
| CompactBlocks.RequestReadable | src/net_processing.cpp:2386-2391 | every request for a block of at most 0x02000001 transactions can be read back |
| CompactSize.Read | src/serialize.h:279-304 | succeeds if and only if the stream starts with the written form of a number up to the limit, and returns it and the rest |
| CompactSize.KnownSizes | src/serialize.h:263-277 | written forms of each width, byte by byte |
| CompactSize.ReadExact | src/serialize.h:279-304 | what is read is the only number written at the start, in its shortest form |
| CompactSize.WriteUnique | src/serialize.h:263-277 | no other number is written at the start of a stream than one up to the limit |
| IndexCoding.WriteRequest | src/blockencodings.h:43-76 | the count and the differences from the index before, in 32 bits, as compact sizes |
| IndexCoding.ReadNumbers | src/blockencodings.h:46-59 | the differences, read exactly if they are written there and none is above the limit |
| IndexCoding.DecodeIndices | src/blockencodings.h:61-69 | the indices, or failure exactly when a sum needs more than 32 bits |
| IndexCoding.ReadRequest | src/blockencodings.h:43-69 | reads exactly what was written for a list that can be read, and refuses every other stream |
| IndexCoding.WrittenUnique | src/blockencodings.h:43-76 | a stream starts with at most one request that can be read, and then with no other |
| IndexCoding.IndexTrip | src/blockencodings.h:40-77 | undone, with what follows untouched, if and only if the list can be read; refused otherwise |
| IndexCoding.TooFar | src/blockencodings.h:51-53 | an increasing list that is refused |
| IndexCoding.Climbs | src/blockencodings.h:61-69 | the largest 32-bit number is not reached before the 128th index |
| IndexCoding.AfterLargest | src/blockencodings.h:61-69 | a list that can be read goes back to zero after it |
| IndexCoding.ReadPrefilledIndex | src/blockencodings.h:124-129 | a received index is at most 0x02000000 |
| CashAddr.TimesLinear | src/cashaddr.cpp:80-135 | a step is linear over exclusive or |
| CashAddr.TimesInjective | src/cashaddr.cpp:80-135 | only zero is mapped to zero |
| CashAddr.RunLinear | src/cashaddr.cpp:42-147 | the remainder of a difference is the difference of the remainders |
| CashAddr.ShortRun | src/cashaddr.cpp:42-147 | up to eight values leave a zero remainder only if all are zero |
| CashAddr.PolyStep | src/cashaddr.cpp:99-134 | one step, with the feedback added bit by bit |
| CashAddr.PolyMod | src/cashaddr.cpp:42-147 | the remainder of the whole list, xor one |
| CashAddr.VerifyChecksum | src/cashaddr.cpp:176-178 | true if and only if the remainder is one |
| CashAddr.CreateChecksum | src/cashaddr.cpp:183-196 | eight values that complete the payload to a valid list, for every prefix and payload |
| CashAddr.BurstDetected | src/cashaddr.cpp:42-147 | two valid lists of one length under one prefix never differ only within eight consecutive values |
| CashAddrCode.MulUnits | src/cashaddr.cpp:62-68 | one and zero of the field, and the product that the comment gives as an example |
| CashAddrCode.FeedbackUnpacked | src/cashaddr.cpp:107-135 | what a step adds is the symbol shifted out times the generator without its first term, coefficient by coefficient |
| CashAddrCode.StepUnpacked | src/cashaddr.cpp:97-135 | one step of long division |
| CashAddrCode.RunDivides | src/cashaddr.cpp:42-147 | the polynomial of a list of values is a multiple of the generator plus what the loop computes |
| CashAddrCode.QuotientUnique | src/cashaddr.cpp:42-147 | division by the generator has one answer |
| CashAddrCode.RemainderExact | src/cashaddr.cpp:43-57 | the loop computes exactly the remainder modulo the generator |
| CashAddrCode.ChecksExact | src/cashaddr.cpp:176-178 | a checksum is valid if and only if the polynomial of prefix and payload leaves the remainder one |
| CashAddrKnown.KnownAddress | src/test/cashaddr_tests.cpp:45-45 | the string whose payload is every value in order, with its checksum |
| CashAddrFormat.CharInverse | src/cashaddr.cpp:14-29 | the reverse table undoes the character set |
| CashAddrFormat.ValueInverse | src/cashaddr.cpp:14-29 | the character set undoes the reverse table up to case |
| CashAddrFormat.Scan | src/cashaddr.cpp:223-262 | accepts exactly the strings with one case and at most one separator, after letters only |
| CashAddrFormat.Encode | src/cashaddr.cpp:205-216 | prefix, separator, and the characters of payload and checksum |
| CashAddrFormat.Decode | src/cashaddr.cpp:221-297 | refused exactly if the string is not well formed or its values do not check; else its prefix and payload if it has eight values or more, and a payload that would end before its start if it has fewer |
| CashAddrFormat.LonePrefix | src/cashaddr.cpp:290-296 | a string with no body passes every test |
| CashAddrFormat.RoundTrip | src/cashaddr.cpp:205-297 | decoding undoes encoding for every nonempty lower-case prefix and every payload |
| CashAddrFormat.OnlyChecksum | src/cashaddr.cpp:183-196 | a payload has only one checksum |
| CashAddrFormat.ReEncode | src/cashaddr.cpp:205-297 | a string has a payload to encode exactly if it is well formed and checks with eight values or more; encoding that gives its own prefix, or the default one, and its own body back in lower case |
| Radix.DigitsFit | src/base58.cpp:36-39 | when n digits of one base fit in k digits of another |
| Radix.MinimalUnique | src/base58.cpp:62-66 | a number has only one digit list without a leading zero |
| Radix.MultiplyAdd | src/base58.cpp:47-56 | the buffer is multiplied and increased in place; with enough room no carry is left |
| Base58.SpaceExact | src/base58.cpp:23-33 | the six characters that count as space |
| Base58.AlphabetExact | src/base58.cpp:20-21 | the digits and letters without 0, I, O and l, and no other characters |
| Base58.AlphabetOrdered | src/base58.cpp:20-21 | in the order of the characters |
| Base58.Room58 | src/base58.cpp:88-90 | n * 138 / 100 + 1 base-58 digits are enough for n bytes |
| Base58.Room256 | src/base58.cpp:35-37 | n * 733 / 1000 + 1 bytes are enough for n base-58 digits |
| Base58.Convert | src/base58.cpp:92-113 | the digits of the same number in the other base, without a leading zero; the carry assertion holds |
| Base58.Encode | src/base58.cpp:79-120 | a one for each leading zero byte, then the digits of the rest |
| Base58.Decode | src/base58.cpp:23-77 | accepts exactly text in the alphabet with white space around it; the bytes of that text |
| Base58.RoundTrip | src/base58.cpp:23-120 | decoding undoes encoding for every byte list |
| Base58.TextTrip | src/base58.cpp:23-120 | encoding undoes decoding for every accepted text without white space; refused exactly if a character is not in the alphabet |

## Left out

- Networking, RPC, storage, script execution, key handling, wallet, chain parameters and consensus rules outside the parts above.
- Secure and non-cryptographic hash functions: arbitrary functions here.
- `Select_` and `GetChance` of the address manager, and all other uses of probability except the ranges of the numbers drawn.
- hashBlock of the coin cache, partial database batches and crash recovery.
- Locking in the address manager, the mempool and the coin cache; memory orders and bit packing of the cuckoo cache's collection flags, which are an array of booleans here.
- Integer widths, where they cannot matter within the block and memory limits: times, ids and counters of the address manager, block totals, chain heights, locator steps, the number of transactions of a partial Merkle tree (its width computation could wrap at 32 bits).
- Service flags are a set of bit numbers.
- AddrDisk.Serialize: reads and writes values instead of the manager's arrays; the byte format of single fields and the reader for older versions' sources are not modelled.
- AddrDisk.Unserialize: requires nonnegative counts. For a stream that describes no consistent manager the index by address and the times are not stated: two entries with one address are both read.
- Packages.TotalsNext: the cached fees take an ancestor off with its base fee or its modified fee, as the code does, so they are stated up to the difference of the two for the ancestors taken off.
- FeeOrder.BetterIsRate: fee rates are compared exactly where the source multiplies in floating point; transaction ids are numbers.
- Miner.BlockAssembler.TopPriority: takes any of several transactions with the same priority, where the source compares their fees; priorities are given as real numbers, computed elsewhere.
- The coinbase, the final block template and its validity test.
- How the mempool keeps its own ancestor totals: they are assumed exact.
- The sigop limit for the block's own size when a transaction of it was too much for an earlier prefix of it: its totals may be too high when it is tried again, so only the limit for the largest block is stated then.
- Cuckoo.Cache.constructor: the depth limit is a parameter where the source takes a rounded logarithm.
- Bloom.RollingBloomFilter.constructor: the numbers of hash functions and words are parameters where the source computes them from the false-positive rate; at least one element is required, since with none the source's table is empty and every insert divides by its size.
- MerkleBlock.PartialMerkleTree.ExtractMatches: on failure only the zero root is stated.
- The path of the block tree that reads entries from disk; times, work and validity of its entries.
- Decrement, the bitwise operators between two numbers, conversion to text and floating point of the 256-bit integer.
- GetBlockProofEquivalentTime.
- CompactBlocks.PartiallyDownloadedBlock.InitData: bucket sizes of the hash table are an arbitrary function, and the count of extra transactions, a statistic, is not kept. The slots after a refused message are not stated, nor anything after a null was followed. The entries of the extra list are required to hold a transaction with its hash, or none with the hash zero, as the only caller's list does. The limit on the number of transactions, the maximal block size divided by 100, is required to fit in 32 bits.
- The serialization of whole compact block messages, except their numbers; the steps of a thousand in which a received list grows.
- CheckBlock is an arbitrary function of the transactions.
- Conversion of CashAddr payloads between 8-bit and 5-bit groups.
- Base58.Decode: characters are read first and converted afterwards, where the source does both in one loop; a text ends at its end, not at a zero byte; Base58Check is not modelled.
