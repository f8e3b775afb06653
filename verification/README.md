# Verified models of a Bitcoin/Zcash-derived node

This project models the parts of the node whose correctness is not visible from any single function: a
write-back cache that must behave like a plain map, a lock protocol, an address table with five redundant
indexes, index arithmetic on a Merkle mountain range, multi-limb arithmetic, several codecs, the block tree,
a rolling Bloom filter and the payment of budget proposals. For each of them it proves what the code is for, over
every input, every run or every interleaving. Where the code does not do what one would expect, there is a lemma
with a concrete input, listed below, and a lemma that says exactly when it does; for amounts out of range the latter
only says when they are safe.

Code that changes things step by step is modelled by classes and methods with loops. Each such method is
proved to compute a function on values; the properties are then proved about those functions.

`dafny verify dfyconfig.toml` checks the whole project.

| files | component |
|---|---|
| `Prelude`, `Arithmetic` | shared types and facts |
| `Coins`, `CoinsCache`, `AnchorCache`, `NullifierCache`, `CoinsViewCache` | the stacked cache of coins, anchors and nullifiers |
| `CheckQueue` | the parallel verification queue |
| `AddrMan`, `AddrManLaws`, `AddrManager` | the address manager, as values, by its laws and as an object |
| `AddrManFile`, `AddrManFileLaws`, `AddrManRead`, `AddrManRestore`, `AddrManStream`, `AddrManStore` | writing the address manager to a stream and reading it back |
| `HistoryTree` | finding the nodes to preload from a Merkle mountain range |
| `Words`, `Limbs`, `ArithUint`, `ArithShift`, `ArithDivide`, `Compact` | 256-bit arithmetic and compact difficulty targets |
| `SkipSearch`, `SkipHeights`, `BlockTree`, `ActiveChain`, `MedianTime` | skip pointers, the active chain, locators, median time past |
| `Bech32`, `Bech32Text`, `Radix`, `Base58`, `AddressFormats` | address text encodings |
| `VarInt`, `Amounts`, `ScriptCompressor`, `CoinsCodec`, `CodecFormats` | the stored form of unspent outputs |
| `RollingBloom` | the rolling Bloom filter |
| `Budget`, `BudgetLaws` | filling and validating budget payment blocks |

## Main results

- Every stack of caches over a database, under every run of reads, writes, creations, flushes, pushed and dropped
  caches, shows at each level what plain maps would hold; the database has a record of exactly the transactions with
  an unspent output, and no assertion in the merge can fail. The visible anchors and nullifiers are those of plain
  sets, and a flush passes on what was written and nothing else. As long as only
  invisible transactions are opened as new and no two trees share a root, the usage counter of each level is the memory of the coins and of the trees it caches.
- For any number of threads and any interleaving, `Wait` returns the conjunction of exactly the checks added
  since the previous `Wait`; no check runs twice, the counters are exact, and no wake-up is lost. From every
  reachable state the threads that hold batches can bring a `Wait` to its end in a bounded number of steps.
- For all hash functions, random draws and runs, the address manager passes its own consistency check, and for each
  operation it is stated which slots and which facts about an address change. What it
  writes to a stream is read back, entries renumbered one to one, with nothing lost. For every stream that is
  accepted, whatever its version, bucket count and lists, it is stated exactly when the manager read from it
  is consistent, and exactly when it passes the check, which is not the same.
- The peak search finds the mountains of a range exactly, and finds a proper cover only for numbers of nodes
  that are sizes of ranges; the extra nodes are those that become peaks when the last leaf is taken off; and the
  entries handed out name each node's own left and right child.
- The limb operations are the integer operations modulo 2^256, division is exact, and the compact
  target codec truncates, keeps order, is stable, and flags exactly the codes that do not fit.
- Bech32, Base58, variable-length integers, compressed amounts and the stored form of coins are inverted by their
  readers on exactly stated sets of inputs; Bech32 detects every error within six consecutive symbols.
- Skip-pointer search equals the walk from parent to parent. The number of its rounds is bounded by the square of
  the logarithm of the distance, wherever in the chain the search starts; among the first 2^18 blocks it is at most
  110, the figure that the source gives from simulations. The tip, the fork and the locator are what they should be;
  median time past never decreases.
- A rolling filter contains exactly the keys whose hashes all occur among the keys inserted since the filter that is
  read was cleared, which are at least the last N.
- After any run of checks by any budgets, the record of a proposal is what a simple rule says; so it is known
  exactly when a paid proposal is judged valid again, and one finalized budget never pays one twice. It is stated
  exactly which blocks are accepted. A filled block is accepted if and only if at least ten masternodes are
  enabled, provided the proposal has no record in the budget's window, its payment is not also among the outputs
  of the reward, and no other budget that is checked and pays the same proposal can mistake the outputs for its own.

## Where the code departs from what one would expect

- `ModifyNewCoins` is safe exactly when the view below has no unspent output of the transaction. That the
  transaction is invisible in the cache itself is not enough, and the comment on the function asks for something
  else (`CoinsCache.ModifyNewIsSafeIff`; at an input: `CoinsCache.ModifyNewResurrectsSpentOutput`).
- A flush by a cache that never looked at the best anchor makes its parent forget it
  (`AnchorCache.FlushKeepsBestIff`; at an input: `AnchorCache.FlushForgetsParentsBest`).
- Popping an anchor that was visible before it was pushed makes it invisible
  (`AnchorCache.PushPopRestoresIff`; at an input: `AnchorCache.PopForgetsEarlierAnchor`).
- Multiplying a number by itself in place gives zero, because the target is cleared before the factor is read
  (`ArithUint.MulAssign`; at an input: `ArithUint.ThreeTimesItself`).
- Adding an unknown address reports success even when the entry is dropped again at once
  (`AddrMan.AddUnknown`; at an input: `AddrMan.AddedButUnknown`).
- A stream that lists an address twice is accepted and can give a manager that fails its own consistency check
  (`AddrManRead.BuildPassesIff`; at an input: `AddrManRead.TwiceListedFails`). It can also give one that passes
  although an entry is not found by its address any more, because the check reads a missing address as entry 0
  (`AddrManRead.BuildIsConsistentIff`; at an input: `AddrManRead.TwiceListedPasses`).
- A negative version or height of a stored coin comes back as its lowest seven bits
  (`CoinsCodec.RestoredIff`; at an input: `CoinsCodec.NegativeHeightIsLost`). An amount whose compressed form does
  not fit into 64 bits wraps around and need not come back (`Amounts.ReadBackKeeps`; at an input:
  `Amounts.MinusTwoIsLost`).
- The payment history is shared by all budgets: another budget's check can erase the record that keeps a
  proposal from being paid again (`Budget.ValidAgainIff`; at an input: `Budget.OtherBudgetForgets`).
- The tolerance of a tenth of the masternodes is compared strictly: with fewer than ten of them no budget passes,
  not even the one with the most votes, so a filled block is rejected
  (`Budget.FilledIsAcceptedIff`; at an input: `Budget.NineMasternodesReject`).

## Model

| member | source | states |
|---|---|---|
| `Coins.CleanupIsPruned` | src/coins.h:115-120 | trimming spent outputs at the end never changes whether a value is pruned |
| `CoinsCache.GetCoinsReads` | src/coins.cpp:117-133 | a read returns what is visible, changes nothing visible at any level, and keeps the invariant tying FRESH and cached entries to the view below |
| `CoinsCache.BeginModifyReads` | src/coins.cpp:664-683 | opening a modifier hands out the visible coins, or the empty value if there are none |
| `CoinsCache.ModifyWrites` | src/coins.cpp:664-683 | a released modification changes the visible coins of its own transaction to the trimmed new value and of no other, and keeps the invariant |
| `CoinsCache.ModifyNewWrites` | src/coins.cpp:685-692 | the same for a transaction opened as new, if the view below has no unspent output of it |
| `CoinsCache.ModifyNewIsSafeIff` | src/coins.h:541-549 | creating and re-spending a transaction opened as new leaves it invisible if and only if the view below has no unspent output of it |
| `CoinsCache.ModifyNewResurrectsSpentOutput` | src/coins.cpp:685-692 | a concrete cache in which an output spent here and kept below is unspent again after such a creation |
| `CoinsCache.FreshAssertionHolds` | src/coins.cpp:835-846 | the assertion on FRESH entries inside the merge loop holds for every valid stack |
| `CoinsCache.MergeEntryOk` | src/coins.cpp:832-864 | merging an entry of the child keeps the invariant between the parent and the view below it |
| `CoinsCache.FlushKeepsView` | src/coins.cpp:880-898 | a flush leaves the visible coins unchanged, gives them to the view below, keeps the invariant and cannot trip the assertion |
| `CoinsCache.GetCoinsCharged` | src/coins.cpp:117-133 | a read keeps the usage counter of every level equal to the memory of what it caches |
| `CoinsCache.ModifyCharged` | src/coins.cpp:664-683 | a modification keeps the usage counter right |
| `CoinsCache.EndModifyCharged` | src/coins.cpp:1038-1050 | releasing a modifier corrects the counter by exactly the change in memory, including when the entry is erased |
| `CoinsCache.ModifyNewChargedIff` | src/coins.cpp:685-692 | opening as new keeps the counter right if and only if nothing was charged for the transaction before |
| `CoinsCache.StepRefines` | src/coins.cpp:117-133 | each step on the stack of caches is the same step on one plain map per level |
| `CoinsCache.RunRefinesPlainMaps` | src/coins.cpp:655-898 | over every run on every stack of caches each level shows exactly what one plain map per level holds, provided a transaction is opened as new only when the map below has no unspent output of it |
| `CoinsCache.RunKeepsDatabaseTidy` | src/txdb.cpp:248-261 | over every run the database has a record of exactly the transactions with an unspent output at the bottom, and a read of the database finds exactly those |
| `CoinsCache.ReadsLeaveNothing` | src/coins.cpp:117-133 | a read finds exactly what some level has an entry of, caches only that, and leaves nothing to write at any level |
| `CoinsCache.StepPending` | src/coins.cpp:664-692 | only what was written since the last flush is written by the next one, and a flush leaves an empty cache |
| `CoinsCache.FlushPasses` | src/coins.cpp:833-864 | a flush passes on what is pending and nothing else; in a cache below that is pending in its turn |
| `CoinsCache.StepCharged` | src/coins.cpp:664-692 | each step of a run, flushes included, keeps the coins' share of all usage counters exact |
| `CoinsCache.RunCharged` | src/coins.cpp:655-898 | over every run that opens as new only what is invisible, the coins' share of each level's usage counter is exactly the memory of the coins it caches |
| `AnchorCache.VisibleTreeHasItsRoot` | src/coins.cpp:136-157 | every visible tree has the root under which it is found |
| `AnchorCache.GetAnchorReads` | src/coins.cpp:136-157 | looking an anchor up returns what is visible and changes nothing visible at any level |
| `AnchorCache.LoadBestReads` | src/coins.cpp:719-734 | asking for the best anchor remembers it and changes nothing visible |
| `AnchorCache.MergeEntryOk` | src/coins.cpp:761-791 | merging a child's anchor entry keeps the invariant although an existing entry keeps its own tree |
| `AnchorCache.FlushKeepsAnchorsIff` | src/coins.cpp:761-791 | a flush keeps the visible anchors if and only if it does not drop the empty tree |
| `AnchorCache.FlushKeepsTrees` | src/coins.cpp:761-791 | if no two of the trees in play share a root, the visible trees are the same too, at both levels |
| `AnchorCache.FlushPasses` | src/coins.cpp:761-791 | a flush writes what is pending and nothing else; in a cache below, an entry that is there keeps its tree and becomes pending only if its visibility changes |
| `AnchorCache.FlushKeepsBestIff` | src/coins.cpp:874-876 | a flush passes the best anchor on if and only if the cache had learnt it or the parent would read the same one again |
| `AnchorCache.FlushForgetsParentsBest` | src/coins.cpp:874-876 | a concrete parent whose pushed best anchor is forgotten by such a flush |
| `AnchorCache.PushRefines` | src/coins.cpp:232-264 | pushing an anchor is adding it to the plain set and making it the best one |
| `AnchorCache.PopRefines` | src/coins.cpp:585-615 | popping asserts that the best anchor can be read, which succeeds in every allowed run, and removes the best anchor from the plain set |
| `AnchorCache.StepRefines` | src/coins.cpp:136-302 | each step acts on one plain set of anchors and one best anchor per level, and no assertion fails |
| `AnchorCache.RunRefinesPlainLevels` | src/coins.cpp:585-638 | over every allowed run no assertion fails and every level shows its plain set of anchors and its best anchor |
| `AnchorCache.PushPopRestoresIff` | src/coins.cpp:232-264 | pushing a tree and popping back restores the best anchor, and restores the visible anchors if and only if the pushed root was the best one or was not visible before |
| `AnchorCache.PopForgetsEarlierAnchor` | src/coins.cpp:585-615 | a concrete cache in which pushing the empty tree, visible all along, and popping back makes it invisible |
| `AnchorCache.GetAnchorCharged` | src/coins.cpp:136-157 | a lookup keeps the trees' share of the usage counter of every level equal to the memory of the trees it caches |
| `AnchorCache.PushChargedIff` | src/coins.cpp:232-264 | a push keeps the trees' share right if and only if it pushes the best anchor, or no tree was cached under the root, or one of the same size |
| `AnchorCache.PopCharged` | src/coins.cpp:585-615 | a pop keeps the trees' share right |
| `AnchorCache.StepCharged` | src/coins.cpp:136-264 | each step, flushes included, keeps the trees' share right if no two trees in play share a root |
| `AnchorCache.RunCharged` | src/coins.cpp:136-264 | over every allowed run in which no two trees share a root, the trees' share of each level's usage counter is exactly the memory of the trees it caches |
| `NullifierCache.GetReads` | src/coins.cpp:182-205 | looking a nullifier up, with caching of negative answers, changes nothing visible |
| `NullifierCache.SetMarks` | src/coins.cpp:640-653 | marking changes exactly the given nullifiers |
| `NullifierCache.FlushKeepsSpent` | src/coins.cpp:740-759 | a flush keeps the set of spent nullifiers and hands it to the view below |
| `NullifierCache.FlushPasses` | src/coins.cpp:740-759 | a flush passes on what is pending and nothing else; in a cache below, only what it adds or changes becomes pending |
| `NullifierCache.MarksPending` | src/coins.cpp:640-653 | marked nullifiers are pending, and a lookup leaves nothing to write |
| `NullifierCache.StepRefines` | src/coins.cpp:182-205 | each step is the same step on one plain set per level |
| `NullifierCache.RunRefinesPlainSets` | src/coins.cpp:640-653 | every run through stacked caches is a run on plain sets, so a cached negative answer never hides a spent nullifier |
| `CoinsViewCaches.CoinsViewDB.WriteCoins` | src/txdb.cpp:248-261 | the database holds afterwards what merging the dirty entries gives |
| `CoinsViewCaches.CoinsViewDB.WriteAnchors` | src/txdb.cpp:193-209 | the same for anchors |
| `CoinsViewCaches.CoinsViewDB.WriteNullifiers` | src/txdb.cpp:179-191 | the same for nullifiers |
| `CoinsViewCaches.CoinsViewCache.OnDatabase` | src/coins.cpp:100 | a cache on a database starts empty |
| `CoinsViewCaches.CoinsViewCache.OnCache` | src/coins.cpp:100 | a cache on a cache starts empty and leaves the other one as it is |
| `CoinsViewCaches.CoinsViewCache.GetCoins` | src/coins.cpp:117-133 | the object's reads act on all levels as the value model says |
| `CoinsViewCaches.CoinsViewCache.ModifyCoins` | src/coins.cpp:664-683 | opening a modifier leaves the object as the value model says and returns what was charged |
| `CoinsViewCaches.CoinsViewCache.ModifyNewCoins` | src/coins.cpp:685-692 | the same for opening as new |
| `CoinsViewCaches.CoinsViewCache.ReleaseModifier` | src/coins.cpp:1038-1050 | the destructor trims, erases a pruned FRESH entry or adjusts the counter, as the value model says |
| `CoinsViewCaches.CoinsViewCache.GetAnchorAt` | src/coins.cpp:136-157 | the object's anchor lookup, with what it charges, is the value model's |
| `CoinsViewCaches.CoinsViewCache.GetBestAnchor` | src/coins.cpp:719-734 | the best anchor is looked up through the levels once and then remembered |
| `CoinsViewCaches.CoinsViewCache.PushAnchor` | src/coins.cpp:232-264 | the object's push, with what it charges, is the value model's |
| `CoinsViewCaches.CoinsViewCache.PopAnchor` | src/coins.cpp:585-615 | the object's pop is the value model's |
| `CoinsViewCaches.CoinsViewCache.GetNullifier` | src/coins.cpp:182-205 | the object's nullifier lookup is the value model's |
| `CoinsViewCaches.CoinsViewCache.SetNullifiers` | src/coins.cpp:640-653 | the loop over a transaction's nullifiers is the value model's update |
| `CoinsViewCaches.CoinsViewCache.WriteCoins` | src/coins.cpp:832-864 | the merge loop over a child's coins gives the value model's merged map, and its additions and subtractions keep the counter equal to the memory of what is cached |
| `CoinsViewCaches.CoinsViewCache.WriteAnchors` | src/coins.cpp:761-791 | the merge loop over a child's anchors gives the value model's merged map, and charging only the trees that are new keeps the counter equal to the memory of what is cached |
| `CoinsViewCaches.CoinsViewCache.WriteNullifiers` | src/coins.cpp:740-759 | the merge loop over a child's nullifiers gives the value model's merged map |
| `CoinsViewCaches.CoinsViewCache.BatchWrite` | src/coins.cpp:822-878 | writing a child's coins, anchors and nullifiers is the three merges of the value model |
| `CoinsViewCaches.CoinsViewCache.Flush` | src/coins.cpp:880-898 | the object's flush is the value model's, on a database or on another cache |
| `CheckQueue.StepKeeps` | src/checkqueue.h:69-158 | every atomic step of every thread keeps the protocol invariant |
| `CheckQueue.RunKeeps` | src/checkqueue.h:69-158 | so does every interleaving |
| `CheckQueue.WaitReturnsConjunction` | src/checkqueue.h:139-143 | every completed Wait returned the conjunction of exactly the checks added since the previous one; a positive answer means all were run |
| `CheckQueue.NoCheckRunsTwice` | src/checkqueue.h:121-125 | no check runs twice and only added checks run |
| `CheckQueue.CountersAreExact` | src/checkqueue.h:80-104 | nTodo is what is queued plus what is in flight; nTotal minus nIdle counts the threads that hold a batch |
| `CheckQueue.IdleAfterWait` | src/checkqueue.h:164-190 | between a completed Wait and the next Add the queue is idle, so the controller's assertion holds |
| `CheckQueue.NoLostWakeup` | src/checkqueue.h:80-104 | while the master waits, some thread holds a batch or the master has been notified; asleep, it has been notified exactly if nothing is left to do |
| `CheckQueue.BatchIs` | src/checkqueue.h:107-110 | a batch is the largest within the batch size that leaves as much for every other thread, sleeping ones counted twice, but at least one check |
| `CheckQueue.AddNotifies` | src/checkqueue.h:146-158 | adding one check wakes one sleeping worker, adding more wakes all, adding none wakes nobody |
| `CheckQueue.WorkDecreases` | src/checkqueue.h:76-126 | running a check or reporting a batch strictly decreases the work left and no other step increases it |
| `CheckQueue.WorkBoundsRuns` | src/checkqueue.h:76-126 | between two calls of Add no run executes more checks and reports than the work there was at its start |
| `CheckQueue.WaitEnds` | src/checkqueue.h:69-143 | from every state of the invariant with the master inside, a run without Add and of at most one step more than the work left completes the Wait |
| `CheckQueue.RoundCompletes` | src/checkqueue.h:69-158 | whatever distinct checks are added to a fresh queue, some run completes the wait with the conjunction of their verdicts |
| `CheckQueue.RoundVerdict` | src/checkqueue.h:91-100 | when nothing is left to do, the flag is the conjunction of the round's checks |
| `CheckQueue.CheckQueueObject.Proceed` | src/checkqueue.h:91-119 | the critical section takes a batch, returns or goes to sleep as the protocol step says |
| `CheckQueue.CheckQueueObject.TakeBatch` | src/checkqueue.h:110-117 | the swap loop takes the last checks of the queue in reverse order |
| `CheckQueue.CheckQueueObject.Finish` | src/checkqueue.h:80-89 | reporting a batch updates the flag and the counter, and says that the master is to be notified exactly when the protocol step does |
| `CheckQueue.CheckQueueObject.Enqueue` | src/checkqueue.h:146-158 | adding appends the checks, counts them, and says whether one, all or none of the workers are to be notified as the protocol step does |
| `AddrMan.InsertKeeps` | src/addrman.cpp:87-97 | entering an address that is not known keeps all indexes consistent, with one entry still without a slot |
| `AddrMan.SwapRandomKeeps` | src/addrman.cpp:99-117 | swapping two places of the permutation keeps everything consistent and changes entries only in their places |
| `AddrMan.DeleteKeeps` | src/addrman.cpp:119-131 | an entry without references can be deleted, and everything stays consistent |
| `AddrMan.DeleteRemoves` | src/addrman.cpp:119-131 | deleting removes exactly one entry, its address and its place |
| `AddrMan.ClearNewKeeps` | src/addrman.cpp:133-146 | clearing a slot keeps everything consistent; the count of its holder is positive, as asserted |
| `AddrMan.ClearNewClears` | src/addrman.cpp:133-146 | clearing empties one slot and touches no other slot and no entry but the slot's own |
| `AddrMan.OwnSlotsAreRefs` | src/addrman.cpp:150-159 | looking at one slot per bucket finds every reference to an entry |
| `AddrMan.MakeTriedMoves` | src/addrman.cpp:148-194 | the entry ends in its tried slot, the former occupant returns to the new table, and at most the holder of the slot it falls back to is lost |
| `AddrMan.MakeTriedRefs` | src/addrman.cpp:148-194 | afterwards the entry has no reference and the former occupant exactly one |
| `AddrMan.EnterKeeps` | src/addrman.cpp:288-308 | taking the slot, or dropping an entry that got none, keeps everything consistent |
| `AddrMan.EnterKeepsEntryIff` | src/addrman.cpp:288-308 | an entry without references stays known if and only if it gets its slot |
| `AddrMan.EnterForgetsOnly` | src/addrman.cpp:288-308 | another entry is forgotten only if it held the slot as its last one and is terrible |
| `AddrMan.AddUnknown` | src/addrman.cpp:282-311 | adding an unknown address keeps everything consistent; the address is known afterwards if and only if its slot was free, or held by a terrible entry or by one with other slots |
| `AddrMan.AddedButUnknown` | src/addrman.cpp:282-311 | two concrete addresses that hash to one slot: the second is reported as added and is not known afterwards |
| `AddrMan.Add` | src/addrman.cpp:245-311 | adding keeps everything consistent, whatever the random draw |
| `AddrMan.Good` | src/addrman.cpp:196-243 | marking good keeps everything consistent |
| `AddrMan.GoodFindsABucket` | src/addrman.cpp:222-237 | every new entry is found in some bucket, so the bail-out is never taken |
| `AddrMan.GoodMovesToTried` | src/addrman.cpp:196-243 | a good new address ends in its tried slot without references; the former occupant survives with one; only the holder of the fallback slot can be lost |
| `AddrMan.Attempt` | src/addrman.cpp:313-333 | recording an attempt keeps everything consistent |
| `AddrMan.Connected` | src/addrman.cpp:498-516 | recording a connection keeps everything consistent |
| `AddrManLaws.AddIgnores` | src/addrman.cpp:245-248 | an address that is not routable is ignored |
| `AddrManLaws.SlotsAre` | src/addrman.cpp:11-30 | which slots an address hashes to |
| `AddrManLaws.TerribleIff` | src/addrman.cpp:32-51 | when an entry is bad enough to be overwritten |
| `AddrManLaws.EnterIs` | src/addrman.cpp:288-308 | who holds which slot after an entry competed for one, and who is forgotten |
| `AddrManLaws.AddKnownIs` | src/addrman.cpp:254-308 | adding a known address brings its services and time up to date and gives it one more slot exactly under the tests of the source; nothing else changes but a terrible holder of that slot |
| `AddrManLaws.AddUnknownIs` | src/addrman.cpp:282-311 | adding an unknown address enters it with what was heard exactly if it gets its slot; nothing else changes but the holder of that slot |
| `AddrManLaws.AttemptIs` | src/addrman.cpp:313-333 | an attempt is dated, and counted as a failure exactly if asked for and none was counted since the last success |
| `AddrManLaws.ConnectedIs` | src/addrman.cpp:498-516 | a connection renews the time stamp exactly if it is more than twenty minutes old |
| `AddrManLaws.GoodAgainIs` | src/addrman.cpp:196-217 | marking an address good that is tried already only updates it; what is not known under this port is ignored |
| `AddrManLaws.GoodNewIs` | src/addrman.cpp:148-243 | marking a new address good moves it from all its slots to its tried slot, sends the occupant to the slot of its own source, and changes no other slot and no other entry |
| `AddrMan.GetAddrGathers` | src/addrman.cpp:477-496 | the gathered addresses are the decent ones among the places passed, never more than the limit |
| `AddrMan.GetAddrPermutes` | src/addrman.cpp:477-496 | the random order is only permuted |
| `AddrMan.GetAddrAnswer` | src/addrman.cpp:477-496 | an answer has at most 23 percent of the known addresses and at most 2500, all known |
| `AddrMan.InvIsChecked` | src/addrman.cpp:400-474 | the invariant implies every condition of the consistency check |
| `AddrMan.RunPassesCheck` | src/addrman.cpp:400-474 | after every run of operations, for all hash functions and random draws, the consistency check passes |
| `AddrManager.Manager.constructor` | src/addrman.h:460-484 | a fresh manager is empty and consistent |
| `AddrManager.Manager.CreateEntry` | src/addrman.cpp:87-97 | the object after creating an entry is the value model's |
| `AddrManager.Manager.SwapRandomPlaces` | src/addrman.cpp:99-117 | the object after a swap is the value model's |
| `AddrManager.Manager.DeleteEntry` | src/addrman.cpp:119-131 | the object after a deletion is the value model's |
| `AddrManager.Manager.ClearNewSlot` | src/addrman.cpp:133-146 | the object after clearing a slot is the value model's; the assertion on the count holds |
| `AddrManager.Manager.ClearOwnSlots` | src/addrman.cpp:150-158 | the loop over the buckets clears exactly the entry's own slots and counts them |
| `AddrManager.Manager.MakeRoom` | src/addrman.cpp:166-188 | evicting the occupant of a tried slot is the value model's eviction; the asserted slot is free |
| `AddrManager.Manager.MoveToTried` | src/addrman.cpp:148-194 | the object after the move is the value model's; both assertions hold |
| `AddrManager.Manager.FindBucket` | src/addrman.cpp:222-233 | the search from a random bucket fails if and only if the entry has no slot |
| `AddrManager.Manager.MarkGood` | src/addrman.cpp:196-243 | the object after marking an address good is the value model's and consistent |
| `AddrManager.Manager.AddAddress` | src/addrman.cpp:245-311 | the object and the answer after adding an address are the value model's |
| `AddrManager.Manager.LearnKnown` | src/addrman.cpp:254-281 | a known address is refreshed and may get another slot as the value model says |
| `AddrManager.Manager.LearnUnknown` | src/addrman.cpp:282-308 | an unknown address is entered as the value model says |
| `AddrManager.Manager.EnterSlot` | src/addrman.cpp:288-308 | the shared tail is the value model's |
| `AddrManager.Manager.RecordAttempt` | src/addrman.cpp:313-333 | the object after an attempt is the value model's |
| `AddrManager.Manager.RecordConnected` | src/addrman.cpp:498-516 | the object after a connection is the value model's |
| `AddrManager.Manager.GetAddr` | src/addrman.cpp:477-496 | the object and the answer are the value model's for every choice of draws |
| `AddrManager.Factor` | src/addrman.cpp:277-279 | the stochastic factor is two to the power of the reference count |
| `AddrManFile.PlacesDelete` | src/addrman.cpp:119-131 | whatever a stream holds, an entry without slot can be deleted while reading: the assertions hold |
| `AddrManFile.PrunePlaces` | src/addrman.h:437-447 | throughout the pruning loop every entry met can be deleted |
| `AddrManFile.TablesReady` | src/addrman.h:378-417 | when the entries of any stream have been read, every index below nNew names an entry and the permutation is intact |
| `AddrManFileLaws.UnusableFileIs` | src/addrman.h:378-435 | from a stream of another version or bucket count, each new entry gets the slot of its own source, first come first served, and each tried slot goes to the first entry that leads to it |
| `AddrManFileLaws.UsableFileIs` | src/addrman.h:378-435 | from a stream of this version, a new entry gets slots only in buckets that list it, and every listed entry is served unless the slot is taken or it has eight |
| `AddrManRead.FilledTabled` | src/addrman.h:378-435 | for every stream, places, slots, reference counts and counters are right before pruning, whatever its bucket lists say |
| `AddrManRead.BuildPassesIff` | src/addrman.h:348-453 | for every stream, what is read from it passes the consistency check if and only if the key is not null and every entry that got a slot has right times and shares its address with no other entry read, except that entry 0 may share its own with entries that got no slot |
| `AddrManRead.BuildIsConsistentIff` | src/addrman.h:348-453 | for every stream, what is read from it is consistent, each entry being found by its address, if and only if every entry that got a slot has right times and shares its address with no other entry read |
| `AddrManRead.BuildIsConsistent` | src/addrman.h:348-453 | in particular it is consistent for every version and bucket count if no address is listed twice and tried entries have worked |
| `AddrManRead.TwiceListedFails` | src/addrman.h:379-395 | a concrete stream that lists an address twice fails the check whenever its two sources lead to different slots |
| `AddrManRead.TwiceListedPasses` | src/addrman.cpp:424-425 | the same stream passes the check whenever they lead to the same slot, and then the address that is left is not found any more |
| `AddrManFile.SelectAt` | src/addrman.h:312-322 | an entry is written at the index that counts the entries written before it |
| `AddrManFile.CountersMatch` | src/addrman.h:314-331 | in a consistent manager exactly nNew entries have references and exactly nTried are tried, so neither assertion of the writer fires |
| `AddrManRestore.WrittenIsSound` | src/addrman.h:298-346 | a consistent manager lists no address twice and no two of its tried entries want the same slot |
| `AddrManRestore.EntriesExact` | src/addrman.h:378-417 | reading back restores every entry and every tried slot under the new numbering; nothing is lost |
| `AddrManRestore.TakeSlot` | src/addrman.h:423-433 | each listed index finds its slot free and its entry below the reference limit, and puts it back where it was |
| `AddrManRestore.FilledExact` | src/addrman.h:419-435 | after all bucket lists exactly the written slots are taken, by the same entries |
| `AddrManRestore.BuildRestores` | src/addrman.h:348-453 | reading what a consistent manager wrote gives the same key, counters, addresses, entries, reference counts and slots under a one-to-one renumbering; nothing is pruned |
| `AddrManStream.FlipTwice` | src/addrman.h:310 | exclusive or with 2^30 undoes itself |
| `AddrManStream.ParseWritten` | src/addrman.h:348-435 | the parser reads back every file within the limits, whatever its version |
| `AddrManStream.CountersBounded` | src/addrman.h:370-376 | the counters of a consistent manager are within the limits that reading enforces |
| `AddrManStream.ReadPassesIff` | src/addrman.h:348-453 | the exact condition for passing the check, for every stream that the parser accepts |
| `AddrManStream.RoundTrip` | src/addrman.h:298-453 | every consistent manager's stream is accepted and gives back a consistent manager equal to it up to renumbering |
| `AddrManStore.WriteEntries` | src/addrman.h:312-331 | the loop over the id map writes the entries of a table in order, records their indexes, and its assertion holds |
| `AddrManStore.WriteBucket` | src/addrman.h:332-345 | a bucket is written as the number of its slots and their entries' indexes |
| `AddrManStore.Serialize` | src/addrman.h:298-346 | the stream written is the file of the value model |
| `AddrManStore.LoadNewEntry` | src/addrman.h:379-395 | reading an entry of the new table is the value model's step |
| `AddrManStore.LoadTriedEntry` | src/addrman.h:400-416 | reading an entry of the tried table, or losing it, is the value model's step |
| `AddrManStore.ReadBucket` | src/addrman.h:420-435 | reading a bucket's list is the value model's step |
| `AddrManStore.PruneAll` | src/addrman.h:437-447 | the pruning loop is the value model's |
| `AddrManStore.Unserialize` | src/addrman.h:348-453 | a fresh manager after reading any stream is what the value model builds, or the error is the one the parser gives |
| `HistoryTree.BuiltSound` | src/coins.cpp:351-366 | any number of appends gives perfect mountains of strictly descending height that cover all nodes |
| `HistoryTree.BuiltSize` | src/coins.cpp:328-332 | a range with m leaves has 2m minus the ones in m nodes |
| `HistoryTree.WalkFinds` | src/coins.cpp:367-413 | the walk over candidates takes exactly the mountains of any proper cover |
| `HistoryTree.PeaksAreTheRanges` | src/coins.cpp:367-413 | the peaks found from the number of nodes alone are those of the range that arose by appending |
| `HistoryTree.PeaksCoverIff` | src/coins.cpp:367-413 | the peaks found properly cover the nodes if and only if there is a range with this many nodes |
| `HistoryTree.PeaksInBounds` | src/coins.cpp:367-413 | for every number of nodes the peaks found are stored nodes |
| `HistoryTree.ExtraIsRightSlope` | src/coins.cpp:420-451 | the extra nodes are the right slope of the last mountain with the siblings |
| `HistoryTree.PopPeaks` | src/coins.cpp:420-451 | with the last leaf gone, the peaks are the other mountains and the left siblings among the extra nodes, so all of them have been preloaded |
| `HistoryTree.PickedAreTheRanges` | src/coins.cpp:334-454 | what is preloaded are the peaks from left to right, then on request the right slope, and all of it is perfect mountains |
| `HistoryTree.DraftsAreTheNodes` | src/coins.cpp:304-319 | each entry handed out has the data of the node at its index, is a leaf where that node is one, and otherwise names the node's own left and right child |
| `HistoryTree.ChildrenInOrder` | src/coins.cpp:312-315 | a parent comes right after its right child, and its left child is a power of two before it |
| `HistoryTree.FloorLog2` | src/coins.cpp:321-326 | the shift loop gives the floor of the binary logarithm |
| `HistoryTree.Altitude` | src/coins.cpp:328-332 | the altitude is that of the first mountain |
| `HistoryTree.CollectPeaks` | src/coins.cpp:367-413 | the loop drafts exactly the peaks of the walk, in 32-bit arithmetic that never wraps |
| `HistoryTree.CollectExtra` | src/coins.cpp:420-451 | the loop drafts exactly the children down the right slope |
| `HistoryTree.PreloadHistoryTree` | src/coins.cpp:334-454 | the entries and indexes are the drafts of the picked nodes and the result is the number of peaks; an empty history is an error |
| `ArithUint.AddAssign` | src/arith_uint256.h:136-145 | addition modulo 2^(32 WIDTH); no 64-bit carry overflows |
| `ArithUint.Increment` | src/arith_uint256.h:173-180 | one more, modulo 2^(32 WIDTH) |
| `ArithUint.Decrement` | src/arith_uint256.h:190-197 | one less, modulo 2^(32 WIDTH) |
| `ArithUint.Negate` | src/arith_uint256.h:78-85 | the negative modulo 2^(32 WIDTH) |
| `ArithUint.SubAssign` | src/arith_uint256.h:147-151 | the difference modulo 2^(32 WIDTH), also of an object and itself |
| `ArithUint.MulAssign32` | src/arith_uint256.cpp:55-65 | the product with a word, modulo 2^(32 WIDTH) |
| `ArithUint.AddRow` | src/arith_uint256.cpp:72-79 | one row of the schoolbook product adds exactly its term, up to what is carried out |
| `ArithUint.MulAssign` | src/arith_uint256.cpp:67-81 | the product modulo 2^(32 WIDTH), and zero when the target is its own factor |
| `ArithUint.ThreeTimesItself` | src/arith_uint256.cpp:67-81 | three multiplied by itself in place gives zero |
| `ArithShift.ShlValue` | src/arith_uint256.cpp:29-34 | the shifted limbs stand for the number times a power of two, modulo 2^(32 WIDTH) |
| `ArithShift.ShrValue` | src/arith_uint256.cpp:46-51 | the shifted limbs stand for the number divided by a power of two |
| `ArithShift.ShiftLeft` | src/arith_uint256.cpp:21-36 | in place, for every shift, the number times a power of two, modulo 2^(32 WIDTH) |
| `ArithShift.ShiftRight` | src/arith_uint256.cpp:38-53 | in place, for every shift, the number divided by a power of two |
| `ArithDivide.CompareTo` | src/arith_uint256.cpp:109-119 | the sign of the comparison of the numbers |
| `ArithDivide.Bits` | src/arith_uint256.cpp:171-184 | the number of bits the number takes |
| `ArithDivide.DivideStep` | src/arith_uint256.cpp:98-103 | one round keeps quotient, remainder and shifted divisor in the relation of long division |
| `ArithDivide.LongDivide` | src/arith_uint256.cpp:95-107 | the aligned loop leaves the floor of the quotient |
| `ArithDivide.DivAssign` | src/arith_uint256.cpp:83-107 | the floor of the quotient for every nonzero divisor; a zero divisor is an error that leaves zero |
| `Compact.DecodeEncoded` | src/arith_uint256.cpp:204-245 | decoding what was encoded raises no overflow, keeps the sign asked for, and gives the number without the bits below its mantissa |
| `Compact.EncodeIdempotent` | src/arith_uint256.cpp:224-245 | encoding what was decoded gives the same code |
| `Compact.TruncateMonotone` | src/arith_uint256.cpp:204-245 | decoded targets keep the order of the numbers they were encoded from |
| `Compact.DecodedIsExact` | src/arith_uint256.cpp:204-222 | every code that does not overflow stands for a number that encoding and decoding keep |
| `Compact.OverflowsIff` | src/arith_uint256.cpp:217-220 | a code of more than three bytes overflows if and only if its number does not fit into 256 bits |
| `Compact.DecodeIs` | src/arith_uint256.cpp:204-222 | a code stands for its mantissa times a power of 256, rounded towards zero, with its sign |
| `Compact.EncodeIs` | src/arith_uint256.cpp:224-245 | the code of a number has the fewest bytes that leave the sign bit clear, and its three leading bytes |
| `Compact.MantissaBits` | src/arith_uint256.cpp:236-241 | the mantissa leaves the sign bit clear, as asserted, and is normalized |
| `Compact.AssignWord` | src/arith_uint256.h:89-96 | assigning a 64-bit number sets exactly that value |
| `Compact.GetLow64` | src/arith_uint256.h:245-249 | the number modulo 2^64 |
| `Compact.SetCompact` | src/arith_uint256.cpp:204-222 | value and flags are those of the decoding function |
| `Compact.GetCompact` | src/arith_uint256.cpp:224-245 | the code is that of the encoding function; both assertions hold |
| `SkipHeights.InvertLowestOneClears` | src/chain.cpp:69-70 | exactly one bit is cleared and the number becomes smaller |
| `SkipHeights.GetSkipHeight` | src/chain.cpp:72-82 | the skip height is below the height |
| `SkipHeights.HeightsAreSound` | src/chain.cpp:69-70 | clearing lowest ones gives chains whose links are growing powers of two, and heights that end in many zeroes are far apart |
| `SkipSearch.OddRounds` | src/chain.cpp:84-108 | from an odd height each round follows two links of the chain, up to the last ones |
| `SkipSearch.BackRounds` | src/chain.cpp:84-108 | after stepping back below a height that ends in k zeroes, the rounds that are left are bounded in terms of k |
| `SkipSearch.BackWithin` | src/chain.cpp:84-108 | or in terms of n, if the target is at most 2^n below that height |
| `SkipSearch.RoundsByLinks` | src/chain.cpp:84-108 | the rounds from any height are bounded by the links of its chain that are above the target and by the rounds from the last of them |
| `SkipHeights.SearchIsShort` | src/chain.cpp:84-108 | however high two heights are, if they agree from bit n on the search takes at most as many rounds as the bound for n bits |
| `SkipHeights.NearIsShort` | src/chain.cpp:84-108 | if two heights are at most 2^n apart, for n at least 4, it takes at most as many rounds as the bound for n + 1 bits |
| `SkipSearch.BoundIsQuadratic` | src/chain.cpp:72-82 | the bound for n bits is at most (n^2 + 9n + 2) / 4 |
| `SkipHeights.AtMost110` | src/chain.cpp:78-80 | 110 rounds are enough among the first 2^18 blocks, within any later 2^18 that agree from bit 18 on, and between any two blocks at most 2^17 apart |
| `BlockTree.BlockIndex.constructor` | src/chain.cpp:115-119 | a block added under its parent extends the tree, leaves it linked and has its skip pointer |
| `BlockTree.BlockIndex.BuildSkip` | src/chain.cpp:115-119 | the skip pointer is the ancestor at the skip height |
| `BlockTree.BlockIndex.GetAncestor` | src/chain.cpp:84-108 | the search over skip pointers ends and finds the ancestor that the walk from parent to parent finds; where all skip pointers are set it takes the rounds that are bounded above |
| `BlockTree.AncestorOfAncestor` | src/chain.cpp:84-108 | an ancestor's ancestors are the block's ancestors |
| `ActiveChain.MeetsOldChain` | src/chain.cpp:24-28 | where the walk from the new tip meets the old chain, everything below is already right |
| `ActiveChain.Chain.SetTip` | src/chain.cpp:18-29 | the chain becomes exactly the block and its ancestors, despite stopping early |
| `ActiveChain.TipHeight` | src/chain.h:580-584 | the height of the chain is its tip's, or -1 if there is none |
| `ActiveChain.ContainsIff` | src/chain.h:565-569 | one look at a block's own height tells whether it is anywhere on the chain, that is, an ancestor of the tip |
| `ActiveChain.NextIsChild` | src/chain.h:571-578 | the block after one on the chain is its child there; only the tip and blocks off the chain have none |
| `ActiveChain.SameTip` | src/chain.h:558-563 | two chains with the same tip hold the same blocks |
| `ActiveChain.Chain.FindFork` | src/chain.cpp:60-67 | the highest block of the ancestry that is on the chain, or null if there is none |
| `ActiveChain.Chain.GetLocator` | src/chain.cpp:31-58 | the blocks at the locator's heights, from the block or the tip to the genesis block |
| `ActiveChain.LocatorShape` | src/chain.cpp:31-58 | a locator strictly descends the ancestors to the genesis block in at most 11 + ceil(log2 h) entries |
| `ActiveChain.LocatorGaps` | src/chain.cpp:40-56 | the first twelve entries are consecutive, then the gap doubles with every entry until the genesis block |
| `MedianTime.MedianAtLeast` | src/chain.h:376-390 | the median is at least v exactly if half of the times, rounded up, are |
| `MedianTime.GetMedianTimePast` | src/chain.h:376-390 | the buffer filled from its end and sorted gives the median of the last eleven times |
| `MedianTime.MedianNotBelowParents` | src/chain.h:160-161 | a block no earlier than its parent's median does not lower the median |
| `MedianTime.MedianNeverDecreases` | src/chain.h:160-161 | along a chain that obeys the rule the median never decreases, from the genesis block on |
| `Bech32.GenIsBits` | src/bech32.cpp:79-95 | the five conditional additions are one linear function of the leading symbol |
| `Bech32.StepInjective` | src/bech32.cpp:36-98 | no nonzero state becomes zero in a step |
| `Bech32.FromLinear` | src/bech32.cpp:36-98 | the checksum state is linear in the start and in the symbols |
| `Bech32.WindowDetermined` | src/bech32.cpp:36-98 | up to six symbols are determined by the states before and after them |
| `Bech32.CreatedVerifies` | src/bech32.cpp:122-143 | a created checksum verifies |
| `Bech32.ChecksumIsUnique` | src/bech32.cpp:122-143 | no other six symbols verify |
| `Bech32.BurstIsDetected` | src/bech32.cpp:122-129 | if a string verifies, none verifies that differs from it only within six consecutive symbols |
| `Bech32Text.DecodeEncodedIff` | src/bech32.cpp:151-202 | an encoded string decodes to what was encoded if and only if the prefix is nonempty, printable and without capitals, the data are 5-bit symbols and the length is at most 1023 |
| `Bech32Text.EncodeDecoded` | src/bech32.cpp:151-202 | encoding what was decoded gives the same string in lower case |
| `AddressFormats.CharsetIs` | src/bech32.cpp:13 | the characters of the 32 symbols |
| `AddressFormats.ShortestExample` | src/test/bech32_tests.cpp:32 | the shortest published example decodes to its prefix and no data |
| `Bech32Text.ComputePolyMod` | src/bech32.cpp:36-98 | the loop computes the checksum state |
| `Bech32Text.ConditionalAdds` | src/bech32.cpp:79-95 | one round of the loop is one step of the state |
| `Bech32Text.Expand` | src/bech32.cpp:107-119 | the loop fills in the high bits, a zero and the low bits of the prefix |
| `Bech32Text.Checksum` | src/bech32.cpp:132-143 | the loop gives the six checksum symbols |
| `Bech32Text.EncodeString` | src/bech32.cpp:151-164 | the string is that of the encoding function; symbols out of range give the empty string |
| `Bech32Text.DecodeString` | src/bech32.cpp:167-202 | the result is that of the decoding function for every string |
| `Bech32Text.Verify` | src/bech32.cpp:122-129 | verification is the condition on the checksum state |
| `Base58.EncodeBufferSuffices` | src/base58.cpp:77-78 | 138/100 of the bytes and one digit always hold the number |
| `Base58.DecodeBufferSuffices` | src/base58.cpp:34-35 | 733/1000 of the characters and one byte always hold the number |
| `Base58.ConvertBack` | src/base58.cpp:22-101 | changing the base, with leading zeroes kept, and changing it back gives the same digits |
| `Base58.DecodeSpaced` | src/base58.cpp:22-66 | spaces around a word of alphabet characters do not matter |
| `Base58.DecodeOnlySpaced` | src/base58.cpp:22-66 | nothing else decodes |
| `Base58.DecodeEncoded` | src/base58.cpp:22-101 | decoding inverts encoding on every byte string |
| `Base58.EncodeDecoded` | src/base58.cpp:22-101 | encoding inverts decoding, up to spaces around the text |
| `AddressFormats.AlphabetIs` | src/base58.cpp:20 | the alphabet is all digits and letters in ASCII order without the four that look alike |
| `AddressFormats.Base58Means` | src/base58.cpp:68-101 | a text stands for the same number as the bytes and has a leading one for each leading zero byte |
| `Base58.MulAdd` | src/base58.cpp:80-86 | a pass over the buffer multiplies and adds exactly, up to the carry it returns |
| `Base58.Apply` | src/base58.cpp:80-88 | in a large enough buffer nothing is carried out, so the assertion holds |
| `Base58.EncodeBase58` | src/base58.cpp:68-101 | the text is that of the encoding function; no carry assertion fails |
| `Base58.DecodeBase58` | src/base58.cpp:22-66 | the bytes, or the failure, are those of the decoding function; no carry assertion fails |
| `VarInt.ReadWrittenIff` | src/serialize.h:470-499 | a number is read back, with what follows it, if and only if it is not negative; otherwise its lowest seven bits are |
| `VarInt.WriteRead` | src/serialize.h:430-452 | every number has exactly one encoding |
| `VarInt.WriteVarInt` | src/serialize.h:470-485 | the loop writes the encoding of every integer, negative ones included |
| `VarInt.ReadVarIntLoop` | src/serialize.h:487-499 | the loop reads the encoding |
| `CodecFormats.WrittenMeans` | src/serialize.h:430-441 | what is written for a number is well formed and means that number by the documented formula |
| `CodecFormats.ReadMeans` | src/serialize.h:430-441 | what is well formed is read as the number it means |
| `CodecFormats.KnownNumbers` | src/serialize.h:446-451 | the documented encodings of up to two bytes, one of them corrected |
| `CodecFormats.KnownLongNumbers` | src/serialize.h:450-451 | the documented longer encodings, one of them corrected |
| `Amounts.DecompressCompressed` | src/compressor.cpp:137-180 | decompression inverts compression on every amount |
| `Amounts.CompressDecompressed` | src/compressor.cpp:137-180 | compression inverts decompression on every number |
| `Amounts.CompressFits` | src/compressor.cpp:137-154 | valid amounts compress to less than 2^58 |
| `Amounts.CompressAmount` | src/compressor.cpp:137-154 | the loop computes the compression modulo 2^64 |
| `Amounts.DecompressAmount` | src/compressor.cpp:156-180 | the loop computes the decompression modulo 2^64 |
| `Amounts.LoopsInvert` | src/compressor.cpp:137-180 | an amount survives both loops if its compressed form fits into 64 bits |
| `Amounts.ReadBackKeeps` | src/compressor.h:112-119 | an amount that is not negative and has a compressed form within 64 bits is read back |
| `Amounts.MinusTwoIsLost` | src/compressor.h:112-119 | the amount -2 comes back as a concrete positive amount |
| `CodecFormats.AmountWithDigit` | src/compressor.cpp:137-154 | how an amount with fewer than nine zeroes at its end is packed |
| `CodecFormats.AmountOfBillions` | src/compressor.cpp:137-154 | how an amount with at least nine zeroes at its end is packed |
| `CodecFormats.SmallAmounts` | src/test/compress_tests.cpp:45-48 | four of the amounts that the tests name |
| `CodecFormats.LargeAmounts` | src/test/compress_tests.cpp:49-50 | the other two |
| `ScriptCompressor.DecompressCompressed` | src/compressor.cpp:12-126 | every special script is rebuilt from its code and payload |
| `ScriptCompressor.ReadWritten` | src/compressor.h:60-93 | every script is read back with what follows it, or replaced by an invalid one if it is too long |
| `ScriptCompressor.WriteScript` | src/compressor.h:60-71 | the bytes written are those of the writing function |
| `ScriptCompressor.ReadScriptFrom` | src/compressor.h:73-93 | the script read from any bytes is that of the reading function |
| `CodecFormats.SpecialForms` | src/compressor.cpp:12-71 | the short forms of payments to key hashes, script hashes and keys of either parity |
| `CodecFormats.OtherScripts` | src/compressor.h:60-71 | other scripts are written after their length plus six |
| `CoinsCodec.ValidIsStorable` | src/compressor.cpp:137-154 | every valid amount has a compressed form within 64 bits |
| `CoinsCodec.ReadWrittenOut` | src/compressor.h:110-123 | every output is read back, its amount as both 64-bit loops leave it and an overlong script replaced; the amount itself if its compressed form fits |
| `CoinsCodec.ReadWrittenMask` | src/coins.h:198-208 | reading the bitmask stops after exactly the bytes written |
| `CoinsCodec.MaskTells` | src/coins.h:169-176 | the bitmask and the two header bits tell which outputs are left |
| `CoinsCodec.SomethingLeft` | src/coins.h:163 | the writer's assertion holds for every value that is not pruned |
| `CoinsCodec.HeaderReads` | src/coins.h:164-197 | the header code gives back the flags and the number of nonzero mask bytes |
| `CoinsCodec.TrimBlanked` | src/coins.h:115-120 | trimming what was read, however much room the mask had, is trimming what is stored of the trimmed original |
| `CoinsCodec.UnserializeSerialized` | src/coins.h:157-218 | every value that is not pruned is read back, with what follows it, as its outputs are stored and without spent ones at the end |
| `CodecFormats.FirstExample` | src/coins.h:41-54 | the first documented example, byte by byte, for every key hash |
| `CodecFormats.SecondExample` | src/coins.h:56-75 | the second documented example, byte by byte, for all key hashes |
| `CoinsCodec.RestoredIff` | src/coins.h:157-218 | the trimmed value itself comes back if and only if version and height are not negative, every amount left is read back, no script left is over the size limit and spent outputs are null |
| `CoinsCodec.StorableKeeps` | src/compressor.h:110-123 | an output whose amount has a compressed form within 64 bits comes back if and only if its script is within the size limit |
| `CoinsCodec.NegativeHeightIsLost` | src/coins.h:182-183 | a concrete coin at height -1 that comes back at height 127 |
| `CoinsCodec.AvailByte` | src/coins.h:171-174 | a mask byte has a bit for each output that is left |
| `CoinsCodec.CalcMaskSize` | src/coins.cpp:21-37 | the length of the mask and the number of its nonzero bytes |
| `CoinsCodec.SerializeCoins` | src/coins.h:157-184 | the bytes written, through the loops for numbers, amounts and the mask, are those of the writing function |
| `CoinsCodec.OutBytes` | src/compressor.h:110-123 | the bytes of one output are those of the writing function |
| `CoinsCodec.UnserializeCoins` | src/coins.h:186-218 | the value read from any bytes is that of the reading function |
| `RollingBloom.InsertStaggered` | src/bloom.cpp:220-232 | each insertion, with its staggered clears and the wrap of the counter, keeps both filters holding what they must |
| `RollingBloom.RunStaggered` | src/bloom.cpp:220-232 | so does every run |
| `RollingBloom.LastAreContained` | src/bloom.cpp:240-246 | after any run each of the last N insertions is contained, for every hash function |
| `RollingBloom.ContainsIff` | src/bloom.cpp:220-246 | after any run a key is contained if and only if each of its hashes is a hash of one of the keys inserted since the filter that is read was cleared |
| `RollingBloom.BloomFilter.Clear` | src/bloom.cpp:114-119 | all bits are cleared, and the filter is empty and not full |
| `RollingBloom.BloomFilter.InsertKey` | src/bloom.cpp:59-69 | the bits set and the flags are those of the value model; a full filter is left alone |
| `RollingBloom.BloomFilter.ContainsKey` | src/bloom.cpp:85-98 | the answer is that of the value model, for full and empty filters too |
| `RollingBloom.RollingBloomFilter.InsertKey` | src/bloom.cpp:220-232 | both filters and the counter are those of the value model |
| `RollingBloom.RollingBloomFilter.ContainsKey` | src/bloom.cpp:240-246 | the answer is that of the value model |
| `Budget.CheckBudgetIff` | src/masternode-budget.cpp:2086-2129 | a budget judges a block valid if and only if the height is in its window, exactly one output is the payment due, and the proposal has no record in the window |
| `BudgetLaws.CountIs` | src/masternode-budget.cpp:2100-2104 | the outputs that count as the payment are those with its script and its amount |
| `BudgetLaws.VerdictIs` | src/masternode-budget.cpp:2054-2129 | the verdict of a budget and the records it leaves, in terms of its payments, the outputs and the records themselves |
| `Budget.RecordSurvivesIff` | src/masternode-budget.cpp:2054-2083 | a payment record outlives a check if and only if the check does not look at the history or its budget's window covers the record |
| `Budget.RecordIs` | src/masternode-budget.cpp:2054-2083 | after any run of checks by any budgets, the record of a proposal is the one a rule on that record alone gives |
| `Budget.ValidAgainIff` | src/masternode-budget.cpp:2054-2129 | after any run of checks, a paid proposal is judged valid again if and only if the block pays it once and the run has left no record of it in the judging budget's window |
| `Budget.NotValidAgain` | src/masternode-budget.cpp:2054-2129 | in particular not while every check that looks at the history covers the height |
| `Budget.OneBudgetPaysOnce` | src/masternode-budget.cpp:2054-2129 | for one finalized budget no proposal is judged valid twice over any run |
| `Budget.OtherBudgetForgets` | src/masternode-budget.cpp:2054-2083 | a concrete run in which another budget's check lets a proposal be judged valid twice |
| `Budget.SomeBudgetAccepts` | src/masternode-budget.cpp:661-681 | a payment without a record in its budget's window is accepted, whatever the budgets checked before do to the history |
| `Budget.BlockAcceptedIff` | src/masternode-budget.cpp:630-682 | a block is accepted if and only if the best budget has a twentieth of the masternodes' votes and some budget less than a tenth behind it finds its payment once and no record in its window, counting what the checks before it record and drop |
| `BudgetLaws.CheckAllIs` | src/masternode-budget.cpp:661-681 | the checks are made in order up to the first that finds the block valid, which gives the verdict and the records |
| `BudgetLaws.AcceptedPays` | src/masternode-budget.cpp:630-682 | an accepted block has exactly one output with the script and amount of the payment due from a budget less than a tenth of the masternodes behind the best |
| `Budget.FilledIsAcceptedIff` | src/masternode-budget.cpp:480-682 | a filled budget block is accepted in the same state if and only if at least ten masternodes are enabled, for a proposal without a record in the budget's window and outputs that no checked budget can mistake |
| `Budget.FewMasternodes` | src/masternode-budget.cpp:630-682 | with fewer than ten masternodes no block is accepted as a budget payment |
| `Budget.NineMasternodesReject` | src/masternode-budget.cpp:630-682 | with nine masternodes and one budget, whatever it pays, the filled block is rejected |
| `Budget.PaymentHistory.PaidAlready` | src/masternode-budget.cpp:2054-2083 | the history and the answer are those of the value model |
| `Budget.PaymentHistory.PurgeOthers` | src/masternode-budget.cpp:2056-2071 | the loop erases exactly the records outside the window |
| `Budget.PaymentHistory.CheckByBudget` | src/masternode-budget.cpp:2086-2129 | one budget's verdict and the new history are those of the value model |
| `Budget.PaymentHistory.CheckByAll` | src/masternode-budget.cpp:630-682 | the manager's verdict and the new history are those of the value model |
| `Budget.MostVotes` | src/masternode-budget.cpp:639-651 | the loop finds the highest vote count among the budgets for the height |
| `BudgetLaws.MostIs` | src/masternode-budget.cpp:639-651 | the highest vote count is a bound that is reached |
| `BudgetLaws.PaymentBlockIff` | src/masternode-budget.cpp:603-628 | a height has a budget payment if and only if some budget for it has more than a twentieth of the masternodes' votes |
| `BudgetLaws.FilledIs` | src/masternode-budget.cpp:480-566 | a block is filled with the payment of the first of the budgets with the most votes, if that has any |
| `Budget.Fill` | src/masternode-budget.cpp:480-566 | the block is filled with the payment of the budget with the most votes |

## Left out

- AddrManStore.Unserialize: a stream with a negative count is a failure here, where the source goes on with it; the byte encoding of the items and a stream cut off inside an item are not modelled.
- HistoryTree.PreloadHistoryTree: histories of 2^31 - 1 nodes and more, for which the signed shifts of the source are undefined.
- CoinsViewCaches.CoinsViewCache.BatchWrite: the history nodes and the best block, which are written with the other maps, are not modelled.
- CoinsViewCaches.CoinsViewCache.Flush: the same.
- Amounts.ReadBackKeeps: the other direction; some amounts whose compressed form exceeds 64 bits might come back by a coincidence of two wrap-arounds.
- ScriptCompressor.ReadWritten: point compression and decompression of secp256k1 are a parameter, assumed to invert each other on valid keys.
- VarInt.ReadVarIntLoop: reading an overlong encoding into a machine integer, which overflows in the source, gives an unbounded number here; only amounts are then taken modulo 2^64.
- RollingBloom.LastAreContained: needs a nonempty bit array, as the hash is reduced by its size; how the sizes are computed from a false-positive rate (floating point) is not modelled.
- Budget.FilledIsAcceptedIff: the outputs of the block reward are a parameter; how the reward is split is not modelled.
- The cache of history nodes and the calls into librustzcash that append, delete and hash nodes.
- The best-block hash: it behaves like the best anchor without a tree.
- Sprout and Sapling are one shielded pool; the code for both is the same.
- Memory usage of a value is a stand-in function; the overhead of the maps themselves is not counted.
- The order in which the source walks hash maps while merging: the merged maps do not depend on it.
- Shutting the check queue down and interrupting its threads.
- The address manager's choice of an address to connect to (`Select_`, `GetChance`), which uses floating point and sleeping.
- The consistency check of the address manager enters an address that it does not find, as leading to entry 0; that change is not modelled.
- The documentation of variable-length integers gives wrong bytes for 16511 and 65535; the model follows the code.
- Clearing an address manager that has been used: it resets the tables but not the maps.
- `nLastGood` of the address manager is never changed by the code and so is constant here; id counters are unbounded.
- The bucket tables of the address manager are partial maps from positions, not arrays with -1 for a free slot.
- Conversions of 256-bit numbers to text and floating point, and the bitwise operators.
- Block hashes in locators are the blocks themselves.
- Bech32 errors scattered over more than six consecutive symbols.
- Base58 with a checksum, and the overloads that take strings with embedded zero characters.
- The Bloom filter's overloads for outpoints, hashes and transactions, and recomputing its flags for a filter received from a peer.
- The selection of proposals for a finalized budget, votes, orphan votes, signatures and networking of the budget code.
- Hash functions are arbitrary functions; random draws and clocks are parameters.
- RPC, HTTP, wallet, networking, storage engine, alerts, logging and configuration: input and output, or thin wrappers.
