# Verified models of a Bitcoin-derived node

This project models the parts of the node whose correctness rests on hand-kept
agreement between several data structures, and proves what the code relies on.

**Coins.** A node sees the unspent outputs through a stack of write-back caches over a
database. Entries carry a DIRTY and a FRESH flag and are linked in a circular list that a
cursor edits while it is being walked. `CoinsView` says what each operation does to a
stack of values, `CoinsRuns` relates every run to plain maps, `CoinsSaves` says what the
flags save, and `CoinsCache` (with `CoinsList` and `CoinsUsage`) holds the caches as objects
updated in place, each method proved against the specification.

**Peer addresses.** The address manager keeps every address in a map, an index, a
shuffled list, two bucket tables, reference counts and counters per network, and has a
check of its own for their consistency. `AddrState` states that consistency,
`AddrTables` and `AddrMan` give each operation as a function that keeps it, `AddrRuns`
proves what holds over every run, `AddrAdding` says exactly when an address is taken and
which entries can be forgotten, `AddrNews` what successes, failures and connections leave
behind, `AddrManager` (with `AddrCells`) is the mutable object,
`AddrListing` is the selection handed to peers, and `AddrCheck` is the check and what its
zero result means. The structures are consistent at whatever times calls are made; the
check also looks at recorded times, and `AddrTimes` says exactly which calls make it fail.
`AddrFile` saves and loads the manager and `AddrReload` proves that nothing is lost.

**Parallel checks.** `CheckQueue` is the master/worker protocol of the script-check queue
as a step relation over any number of threads, one mutex and two condition variables;
`CheckQueueRuns` proves safety over every interleaving and that a session ends.

**Block index.** `Chain` is the tree of blocks with skip pointers, ancestor searches on it
and the active-chain vector, over heap objects.

**Targets and work.** `ArithUint` is the fixed-width arithmetic on 32-bit limbs, in place
on arrays, for every limb count; `ArithUint256`, `Compact` and `MinerTarget` are the
compact target format, proof of work, and the miner's independent expansion of targets.
`Bits`, `Limbs`, `Shifts` and `Division` hold the arithmetic they rest on.

**Codecs.** `PolyMod` (over `Xors`) is the checksum polynomial of Bech32 and Bech32m,
`Bech32` the strings and `Bech32Code` what the checksum means and detects; `Base58` (over `Radix`) converts in place between bytes and
characters in buffers of estimated size. `BitStream`, `Golomb` and `CompactSize` are the
layers of the serialized block filters of `GCSFilter`.

**Compact blocks.** `CompactBlocks` says where prefilled and known transactions go, what is
asked for and when the block is rebuilt, `CompactFinds` what each position ends up with
even if short ids collide; `PartialBlock` is the object on the receiver's side.

**Proof of work.** `Sponge` is the hash around an arbitrary permutation, in the verifier's
form and the mining kernel's; `MetalDAG` is the dataset, the light verifier and the
kernel over the full dataset, and `MetalDAGLaws` shows that the mixing loses no word.

**Packet cipher.** `Hybrid` is the key schedule of the encrypted transport and its switch to
hybrid keys over ideal primitives, `HybridRuns` the runs of two peers, and `PacketCipher`
the cipher object.

Clock readings, random draws and hash functions are parameters: a claim about a call or a
run holds for all of them. Errors are results. Where a header comment and the code
differ, the model follows the code.

## Model

| member | source | states |
|---|---|---|
| `CoinsRuns.RunRefines` | src/coins.cpp:68-323 | Every run of fetches, adds, spends, uncaches, syncs, flushes, stacking, resetting and dropping of caches that a stack of plain outpoint-to-coin maps allows goes through on the real stack of caches without any error, keeps all flags truthful, and leaves each level showing exactly the coins of its plain map |
| `CoinsRuns.StepRefines` | src/coins.cpp:68-323 | One operation on any cache of the stack does to every level of lookups what it does to the plain maps; the "FRESH flag misapplied" error cannot occur |
| `CoinsRuns.UpkeepKeeps` | src/coins.cpp:279-323 | Fetching, uncaching, Sync and Flush on a cache at any depth change no lookup anywhere above; Sync and Flush make the level below equal to the cache and change no other level |
| `CoinsRuns.AddExactly` | src/coins.cpp:89-130 | A non-overwriting AddCoin throws exactly when the cache itself holds the coin unspent; when it does not throw, it keeps the flags truthful if and only if the view had no coin there |
| `CoinsRuns.MisusedAddLosesSpend` | src/coins.cpp:89-130 | If the coin was unspent in the base but not cached, the add is accepted as FRESH and a later spend brings the old coin back |
| `CoinsRuns.AddKeeps` | src/coins.cpp:89-130 | An allowed AddCoin sets exactly that coin at the top level, or nothing for an unspendable script |
| `CoinsRuns.EmplaceKeeps` | src/coins.cpp:132-140 | The internal emplace changes the view exactly when the outpoint was not cached, to the coin or, for a spent coin, to none; it keeps the flags truthful unless a spent coin still holds memory |
| `CoinsRuns.SpendKeeps` | src/coins.cpp:153-175 | SpendCoin removes exactly that outpoint from the top level, whether the entry is dropped as FRESH or kept as a spent DIRTY entry |
| `CoinsRuns.FetchKeeps` | src/coins.cpp:68-81 | Fetching a coin, filling the caches on the way or peeking past them, changes no lookup at any level |
| `CoinsRuns.UncacheKeeps` | src/coins.cpp:310-323 | Uncache drops only clean entries, so no lookup changes |
| `CoinsRuns.WriteKeeps` | src/coins.cpp:208-277 | Merging a truthful cache into its base never throws, leaves the base truthful, and gives the base exactly the coins the cache showed |
| `CoinsRuns.FlushKeeps` | src/coins.cpp:279-289 | Flush changes no lookup at the top and makes the level below equal to it |
| `CoinsRuns.SyncKeeps` | src/coins.cpp:291-300 | Sync changes no lookup at the top and makes the level below equal to it |
| `CoinsRuns.SyncKeepsEntries` | src/coins.cpp:291-300 | After a Sync the cache holds an entry exactly where it held one and a lookup finds a coin, and each of them is that coin, clean |
| `CoinsSaves.AddSpendLeavesNothing` | src/coins.cpp:89-175 | A coin added where the cache has no entry, and spent again, leaves the whole stack as it was: it is never written below |
| `CoinsSaves.AddFlushSpendLeavesNothing` | src/coins.cpp:208-277 | The same when it is flushed to the cache below in between and spent there |
| `CoinsSaves.FreshStaysFresh` | src/coins.cpp:248-272 | A coin that is FRESH in the parent cache is gone after a write exactly if the child spent it, and FRESH otherwise |
| `CoinsSaves.FetchCaches` | src/coins.cpp:68-81 | A read keeps every entry and adds the coin it found, clean, exactly if a lookup finds one; a second read then changes nothing |
| `CoinsSaves.UncacheExactly` | src/coins.cpp:310-323 | Uncaching drops the entry exactly if it is clean, and no other |
| `CoinsRuns.AddOutputsRefines` | src/coins.cpp:142-151 | Adding a transaction with the overwrite check, or for a coinbase, or when none of its outputs exists, raises no error and sets exactly its spendable outputs |
| `CoinsList.FlaggedShape` | src/coins.h:127-140 | Linking an entry into the circular list of flagged entries keeps it a ring through exactly the flagged entries, with the new one last |
| `CoinsList.UnflaggedShape` | src/coins.h:175-182 | Unlinking the k-th entry closes the ring around it |
| `CoinsCache.CoinsViewCache.AddFlags` | src/coins.h:127-140 | Sets either flag or both in place and links the entry before the sentinel if it had none |
| `CoinsCache.CoinsViewCache.SetClean` | src/coins.h:175-182 | Clears the flags in place and unlinks the entry |
| `CoinsCache.CoinsViewCache.NextAndMaybeErase` | src/coins.h:279-294 | The cursor counts the entry off and returns the one that followed it; unless the cache will be wiped, a spent entry is erased, and any other keeps its coin and loses its flags |
| `CoinsCache.CoinsViewCache.AddCoin` | src/coins.cpp:89-130 | The cache becomes what the specification of AddCoin says, the list, the dirty count and the memory total stay exact, and an error changes nothing |
| `CoinsCache.CoinsViewCache.EmplaceCoin` | src/coins.cpp:132-140 | The same for the internal emplace, for any coin |
| `CoinsCache.CoinsViewCache.SpendCoin` | src/coins.cpp:153-175 | The whole stack becomes what the specification of SpendCoin says and every cache in it stays sane |
| `CoinsCache.CoinsViewCache.Uncache` | src/coins.cpp:310-323 | Removes a clean entry and its memory, and nothing else |
| `CoinsCache.CoinsViewCache.FetchCoin` | src/coins.cpp:68-81 | The whole stack becomes what the specification of fetching says |
| `CoinsCache.CoinsViewCache.GetCoin` | src/coins.cpp:83-87 | Returns exactly the lookup of the stack, filling caches |
| `CoinsCache.CoinsViewCache.PeekCoin` | src/coins.cpp:44-50 | Returns exactly the lookup of the stack without changing any cache |
| `CoinsCache.CoinsViewCache.HaveCoin` | src/coins.cpp:188-191 | True exactly when the lookup finds a coin |
| `CoinsCache.CoinsViewCache.BatchWrite` | src/coins.cpp:208-277 | Walking the child's list while the cursor erases and unlinks its entries merges all dirty entries into this cache as the specification says, or reports the misapplied FRESH flag exactly when it should |
| `CoinsCache.CoinsViewDB.BatchWrite` | src/txdb.cpp:100-164 | The database ends up with every dirty unspent coin stored and every dirty spent one deleted |
| `CoinsCache.CoinsViewCache.Flush` | src/coins.cpp:279-289 | The stack becomes what the specification of Flush says, this cache ends empty with no dirty entries and zero usage |
| `CoinsCache.CoinsViewCache.Sync` | src/coins.cpp:291-300 | The stack becomes what the specification of Sync says; this cache keeps exactly the entries whose coin a lookup found before, each with that coin and without flags |
| `CoinsCache.CoinsViewCache.Reset` | src/coins.cpp:302-308 | The cache ends empty, its base untouched |
| `CoinsCache.CoinsViewCache.SanityCheck` | src/coins.cpp:351-381 | Recounting the memory, the dirty entries and the links finds no mismatch exactly if no entry has forbidden flags and both counters are right; every cache the operations leave behind passes |
| `CoinsCache.AddCoins` | src/coins.cpp:142-151 | Adding all outputs of a transaction does to the stack what the specification says, output by output |
| `AddrRuns.Run` | src/addrman.cpp:396-659 | After every sequence of calls started on the empty manager, with any clock readings and any random draws, all structures are consistent with each other |
| `AddrRuns.NextKeeps` | src/addrman.cpp:396-981 | Every single call keeps the consistency of the structures; calls other than a pass over the collisions leave every tried entry in its slot |
| `AddrRuns.TriedNeverEmpties` | src/addrman.cpp:495-527 | Over every run, a slot of the tried table that is filled stays filled |
| `AddrRuns.LeavesTried` | src/addrman.cpp:892-953 | Over every run, an entry loses its tried slot only in a pass over the pending collisions, to a colliding entry that wants this slot, when by the clock reading made for that collision its last success is at least four hours old and either its last try is more than a minute but less than four hours old, or it is older and the last success of the colliding entry is more than forty minutes old; at that moment it goes to its place in the new table |
| `AddrRuns.SweepKeeps` | src/addrman.cpp:892-953 | A whole pass over the pending collisions keeps consistency, keeps every tried slot filled, and replaces an entry only when it comes to a collision that wants its slot and the entry is overdue by the clock reading made for it |
| `AddrRuns.SelectFinds` | src/addrman.cpp:955-981 | Selecting a collision to test never reads an empty slot: it returns the tried entry that sits in the slot the colliding entry wants |
| `AddrMan.AddKeeps` | src/addrman.cpp:530-604 | Adding one address keeps consistency in every branch and leaves the tried table and the pending collisions alone |
| `AddrMan.GoodKeeps` | src/addrman.cpp:606-659 | Recording a success keeps consistency and moves nothing out of the tried table |
| `AddrNews.GoodExactly` | src/addrman.cpp:606-659 | A success is recorded; the entry moves to the tried table exactly if it is not there and its slot is free, and becomes a pending collision exactly if it is not there, its slot is taken and fewer than ten are pending |
| `AddrNews.FailuresCountOnce` | src/addrman.cpp:673-691 | After a success later than its last counted failure, any number of failures of an address counts as one |
| `AddrNews.FailuresIgnored` | src/addrman.cpp:673-691 | Without such a success none counts |
| `AddrNews.ConnectedExactly` | src/addrman.cpp:857-874 | The recorded time of a connected address is at most twenty minutes behind and moves only to the present, if it was further behind |
| `AddrNews.TerribleExactly` | src/addrman.cpp:49-72 | An entry is terrible exactly if it was not tried within a minute and claims a time more than ten minutes ahead, was not seen for thirty days, failed three times without success, or ten times with no success for a week |
| `AddrNews.SuccessLasts` | src/addrman.cpp:49-72 | A success keeps an entry that is seen regularly for a week, however often it fails, and after that until ten failures count |
| `AddrMan.ResolveOneKeeps` | src/addrman.cpp:896-952 | Resolving one collision keeps consistency; the tried table changes only where the entry is overdue by its recorded times, and the entry that was there is back in the new table at the slot of its own source |
| `AddrMan.ResolveOneExactly` | src/addrman.cpp:896-952 | By the recorded times alone: the tried entry loses its slot exactly if its last success is four hours old and either its last try is between one minute and four hours old, or older while the newcomer has waited forty minutes; the collision stays pending exactly if the success is old and neither holds; a collision of a gone or invalid entry is dropped and does nothing |
| `AddrAdding.AddForgetsOnlyTerrible` | src/addrman.cpp:579-603 | Adding an address never forgets an entry that is not terrible at that moment |
| `AddrAdding.AddUnknownExactly` | src/addrman.cpp:574-603 | An unknown routable address is taken, and is known afterwards, exactly if its slot for that source is empty, or the entry there is terrible or has another slot; it is then in that slot |
| `AddrAdding.AddKnownExactly` | src/addrman.cpp:544-603 | A known address gets a further slot exactly if the news is later than what is then recorded, it is not tried, has fewer than eight slots, wins the draw, and its slot for that source is empty or holds a terrible entry; it is then in that slot |
| `AddrAdding.InsertExactly` | src/addrman.cpp:579-603 | An entry gets a slot exactly if it is not in it and the slot is empty, or the entry there is terrible, or has another slot while this one has none; only a terrible entry is forgotten for it |
| `AddrAdding.TimeFollows` | src/addrman.cpp:545-551 | The recorded time never goes back, lags behind the heard time by at most the penalty and an hour or a day, and moves only to the heard time less the penalty |
| `AddrAdding.ServicesGathered` | src/addrman.cpp:553-554 | No service offered before or now is lost |
| `AddrAdding.ClearNewForgets` | src/addrman.cpp:453-469 | Clearing a slot forgets its entry exactly if it has no other slot |
| `AddrAdding.MakeTriedForgets` | src/addrman.cpp:471-528 | Moving an entry to the tried table forgets at most the entry whose only slot the returning one needs |
| `AddrAdding.ForgottenOnly` | src/addrman.cpp:396-953 | Over every run, an entry is forgotten only when an address is heard while the entry is terrible, or when its only slot is needed by an entry that loses its tried slot |
| `AddrMan.NewsKeeps` | src/addrman.cpp:673-691 | Attempts, connections and service updates change the statistics of one entry only |
| `AddrTables.SwapKeeps` | src/addrman.cpp:412-434 | Swapping two list positions keeps list and positions inverse to each other and changes nothing else |
| `AddrTables.CreateKeeps` | src/addrman.cpp:396-410 | A created entry is counted, listed and indexed; it is then the only one without a reference |
| `AddrTables.DeleteKeeps` | src/addrman.cpp:436-451 | Deleting an unreferenced entry removes it from map, index, list and counts and from nowhere else |
| `AddrTables.ClearNewKeeps` | src/addrman.cpp:453-469 | Clearing a slot of the new table takes one reference from its entry, deletes the entry if that was the last, and spares every other entry |
| `AddrTables.MakeTriedKeeps` | src/addrman.cpp:471-528 | Moving an entry to the tried table keeps consistency: it takes its slot, the entry that was there returns to the new table, every other survivor keeps its mark |
| `AddrManager.AddrManager.SwapRandom` | src/addrman.cpp:412-434 | The fields updated in place become what the specification says |
| `AddrManager.AddrManager.Delete` | src/addrman.cpp:436-451 | The same for deletion |
| `AddrManager.AddrManager.ClearNew` | src/addrman.cpp:453-469 | The same for clearing a slot |
| `AddrManager.AddrManager.RemoveFromNew` | src/addrman.cpp:475-489 | Scanning the buckets cyclically from the entry's own and stopping at zero references empties every slot of the entry; the reference count is then zero |
| `AddrManager.AddrManager.MakeTried` | src/addrman.cpp:471-528 | The fields become what the specification of moving to tried says |
| `AddrManager.AddrManager.AddSingle` | src/addrman.cpp:530-604 | The fields and the result are those of the specification of adding |
| `AddrManager.AddrManager.Add` | src/addrman.cpp:661-671 | Adding a list is adding its addresses one by one; the result says whether any was taken |
| `AddrManager.AddrManager.Good` | src/addrman.cpp:606-659 | The fields and the result are those of the specification of recording a success |
| `AddrManager.AddrManager.Attempt` | src/addrman.cpp:673-691 | The statistics become those of the specification |
| `AddrManager.AddrManager.Connected` | src/addrman.cpp:857-874 | The statistics become those of the specification |
| `AddrManager.AddrManager.SetServices` | src/addrman.cpp:876-890 | The services become those given |
| `AddrManager.AddrManager.ResolveCollisions` | src/addrman.cpp:892-953 | The loop over the set, erasing while iterating, does what the specified pass in ascending order does |
| `AddrManager.AddrManager.SelectTriedCollision` | src/addrman.cpp:955-981 | The result and the erased collision are those of the specification |
| `AddrManager.AddrManager.GetAddr` | src/addrman.cpp:792-831 | Returns addresses of different known entries that pass the filters, at most the limit; if fewer than the limit, then all that pass; only list positions change |
| `AddrManager.AddrManager.CheckAddrman` | src/addrman.cpp:1043-1146 | The manager's own check returns zero exactly when the stated conditions hold of entries, tables, references and counts |
| `AddrCheck.CheckIsExact` | src/addrman.cpp:1043-1146 | Apart from stale index entries, id bounds and uncounted networks, which it does not look at, the check passes exactly the consistent states with acceptable times |
| `AddrCheck.CheckEntries` | src/addrman.cpp:1057-1088 | The walk over the entries accepts exactly when each is in order, and gathers the tried ids, the reference counts and the counts per network |
| `AddrCheck.CheckTried` | src/addrman.cpp:1095-1110 | The walk over the tried table accepts exactly when every filled slot holds a tried entry whose slot it is |
| `AddrCheck.CheckNew` | src/addrman.cpp:1112-1125 | The walk over the new table accepts exactly when every filled slot is in its entry's place and no entry has more slots than references |
| `AddrCheck.CheckCounts` | src/addrman.cpp:1136-1143 | The counts per network are accepted exactly when they match |
| `CheckQueueRuns.StepKeeps` | src/checkqueue.h:72-137 | Every step of master and workers, in any interleaving and with spurious wake-ups, keeps the invariant |
| `CheckQueueRuns.ReachableCounted` | src/checkqueue.h:84-127 | In every reachable state the to-do count is the queue length plus all unfinished batches, and the checks added since the last verdict are those queued, taken and done |
| `CheckQueueRuns.CompleteVerdict` | src/checkqueue.h:166-169 | In every run Complete returns nothing exactly when every check added since the previous return answers nothing, and otherwise the error of one of those checks; an error left behind in a worker never leaks into a later session |
| `CheckQueueRuns.NoLostWakeup` | src/checkqueue.h:84-110 | In every run, a master that is blocked and not notified waits for a worker that holds an unfinished batch |
| `CheckQueueRuns.NotStuck` | src/checkqueue.h:72-137 | In every run, while the master is inside, some thread can go on without a spurious wake-up |
| `CheckQueueRuns.StepProgress` | src/checkqueue.h:72-137 | Every step other than a spurious wake-up either lets Complete return or lowers a measure |
| `CheckQueueRuns.CompleteBounded` | src/checkqueue.h:72-137 | So a run without spurious wake-ups in which Complete does not return has bounded length |
| `CheckQueue.BatchOfFits` | src/checkqueue.h:116-124 | The chosen batch size is at least one and at most the queue length |
| `CheckQueue.BatchIsShare` | src/checkqueue.h:116-121 | A batch is the largest one that is at most the even share of the queue and the maximal size, but never empty |
| `CheckQueueRuns.ErrorStopsWork` | src/checkqueue.h:122-137 | Once an error is recorded no thread starts on another batch, and a thread drops the rest of its batch after a check that fails |
| `Chain.GetSkipHeight` | src/chain.cpp:69-81 | The skip height is below the height |
| `Chain.BlockIndex.GetAncestor` | src/chain.cpp:83-108 | Walking by skip pointers returns what the plain walk over parents returns, and null outside the range of heights |
| `Chain.BlockIndex.BuildSkip` | src/chain.cpp:115-119 | A block added with its skip pointer keeps all skip pointers of the tree correct |
| `Chain.LastCommonAncestor` | src/chain.cpp:155-178 | Terminates and returns the highest block that is an ancestor of both, for any two blocks with the same genesis |
| `Chain.ActiveChain.SetTip` | src/chain.cpp:16-24 | From any consistent chain, every position ends up holding the new tip's ancestor at that height |
| `Chain.ActiveChain.FindFork` | src/chain.cpp:50-59 | Returns the highest block that is on the chain and an ancestor, and null only if there is none |
| `Chain.LinkedIsAncestry` | src/chain.h:402-428 | Below any of its blocks a consistent chain is that block's ancestry |
| `ArithUint.BaseUint.AddAssign` | src/arith_uint256.h:117-127 | Limb addition with carry is addition modulo 2 to the width, for every limb count |
| `ArithUint.BaseUint.Increment` | src/arith_uint256.h:155-162 | Increment is addition of one modulo 2 to the width |
| `ArithUint.BaseUint.Negate` | src/arith_uint256.h:59-66 | Complement and increment is negation modulo 2 to the width |
| `ArithUint.BaseUint.SubAssign` | src/arith_uint256.h:129-133 | Subtraction modulo 2 to the width |
| `ArithUint.BaseUint.MulAssign32` | src/arith_uint256.cpp:48-58 | Multiplication by one limb modulo 2 to the width |
| `ArithUint.BaseUint.MulAssign` | src/arith_uint256.cpp:60-74 | Row-by-row multiplication is multiplication modulo 2 to the width |
| `Limbs.ProductFits` | src/arith_uint256.cpp:66-70 | Carry plus limb plus product of two limbs fits in 64 bits |
| `ArithUint.BaseUint.ShiftLeftAssign` | src/arith_uint256.cpp:14-29 | Left shift is multiplication by a power of two modulo 2 to the width |
| `ArithUint.BaseUint.ShiftRightAssign` | src/arith_uint256.cpp:31-46 | Right shift is the integer quotient by a power of two |
| `ArithUint.BaseUint.DivAssign` | src/arith_uint256.cpp:76-100 | Shift-subtract division gives the integer quotient, and throws exactly for a zero divisor, leaving zero |
| `ArithUint.BaseUint.SubtractOnce` | src/arith_uint256.cpp:90-97 | Each round keeps remainder plus quotient times divisor equal to the dividend |
| `ArithUint.BaseUint.CompareTo` | src/arith_uint256.cpp:102-112 | Comparison of limbs from the top is comparison of values |
| `ArithUint.BaseUint.BitLength` | src/arith_uint256.cpp:156-169 | The position of the highest bit |
| `ArithUint256.SetCompact` | src/arith_uint256.cpp:176-194 | The value is the decoded number modulo 2^256; the negative and overflow flags are exact |
| `ArithUint256.GetCompact` | src/arith_uint256.cpp:196-217 | The word is the specified encoding of the value, with the sign bit set only for a negative nonzero mantissa |
| `Compact.DecodeEncode` | src/arith_uint256.cpp:176-217 | Decoding an encoded number loses less than one part in 2^15, never adds, and is exact up to two bytes |
| `Compact.EncodeMonotone` | src/arith_uint256.cpp:196-217 | Encoding is monotone |
| `Compact.EncodeIdempotent` | src/arith_uint256.cpp:176-217 | Encoding, decoding and encoding again gives the same word |
| `Compact.PublishedPairs` | src/test/arith_uint256_tests.cpp:480-524 | Published numbers and their compact forms |
| `ArithUint256.GetBitsProof` | src/chain.cpp:121-134 | The work of a header is 2^256 divided by target plus one for a valid target and zero for any other word |
| `MinerTarget.TargetWords` | miner/MetalDAGEngine.swift:298-314 | The miner's own byte-placing expansion of a header word has the value SetCompact gives, for every 32-bit word |
| `MinerTarget.PlacedBytes` | miner/MetalDAGEngine.swift:303-309 | Placing the mantissa bytes that fall inside the buffer gives the compact number cut to the width, for every exponent |
| `MinerTarget.DivideWords` | miner/MetalDAGEngine.swift:284-290 | Long division over big-endian words leaves quotient and remainder |
| `MinerTarget.TargetWordsFromDifficulty` | miner/MetalDAGEngine.swift:276-295 | The share target is 0xffff times 2^228 divided by the fixed-point difficulty |
| `MinerTarget.NeverSaturates` | miner/MetalDAGEngine.swift:291-294 | The saturating branch is never taken |
| `AddrTimes.GoodPasses` | src/addrman.cpp:606-659 | On a manager that passes its check, recording a success keeps it passing exactly if the address is unknown, the time is positive, or the time is zero and the entry stays in the new table because its tried slot is taken |
| `AddrTimes.AttemptPasses` | src/addrman.cpp:673-691 | Recording an attempt keeps the check passing exactly if the address is unknown or the time is not negative |
| `AddrTimes.NextPasses` | src/addrman.cpp:396-981 | For every call: the check passes after it exactly if the call was timely in that sense; settling collisions needs no condition on the clock |
| `AddrTimes.CheckNeverFails` | src/addrman.cpp:1028-1146 | The check passes all along a run from the empty manager exactly if every call of the run was timely |
| `AddrTimes.ZeroTimeFails` | src/addrman.cpp:606-659 | Hearing of an address, a success at time one and a success at time zero: the check passes before the last call and fails after it |
| `AddrReload.Reloads` | src/addrman.cpp:113-379 | A consistent manager of valid addresses, saved in any order of its map and loaded with the same buckets and asmap version, is the same manager up to the numbering of ids: the same two tables, entries, reference counts and counts per network; it loads exactly if the recorded successes are acceptable to the check |
| `AddrReload.SaveCounts` | src/addrman.cpp:170-189 | As many entries of each kind are written as the counters say |
| `AddrReload.TriedFollows` | src/addrman.cpp:281-302 | The tried table that is rebuilt from the entries is the one that was saved |
| `AddrReload.RestoresCells` | src/addrman.cpp:304-361 | Replaying the references bucket by bucket gives every entry its cells back |
| `PolyMod.PolyMod` | src/bech32.cpp:130-216 | The loop over the symbols computes the remainder that the checksum is defined by |
| `PolyMod.FoldLinear` | src/bech32.cpp:175-216 | The remainder of a bitwise sum is the bitwise sum of the remainders |
| `PolyMod.StepInjective` | src/bech32.cpp:189-213 | Only zero is stepped to zero, so a pattern of errors cannot vanish later |
| `PolyMod.BurstFelt` | src/bech32.cpp:175-216 | A nonzero pattern of errors within six consecutive symbols has a nonzero remainder, at any length and position |
| `Bech32.ChecksumVerifies` | src/bech32.cpp:327-353 | The six symbols the encoder appends make the whole verify for its encoding |
| `Bech32.ChecksumUnique` | src/bech32.cpp:327-353 | They are the only six symbols that do |
| `Bech32.BurstDetected` | src/bech32.cpp:327-339 | Two words that verify for the same encoding and differ in at most six consecutive symbols are equal |
| `Bech32.StringBurst` | src/bech32.cpp:374-400 | Changing up to six consecutive characters of the data part of a good string never gives another good string of the same encoding |
| `Bech32Code.StringBurstAnywhere` | src/bech32.cpp:311-400 | Two good strings of one encoding that differ in at most six consecutive characters, in prefix, data or across, are the same up to case, if the prefixes have one length and their characters the same high bits |
| `Bech32Code.ExpandShape` | src/bech32.cpp:311-325 | Every prefix character is in the checked word, its high bits in front of a zero and its low five bits behind |
| `Bech32Code.FeedbackIsProduct` | src/bech32.cpp:203-207 | The words exclusive-ored in for the bits of a coefficient make up its product in GF(32) with the generator |
| `Bech32Code.StepReduces` | src/bech32.cpp:172-209 | One round of the loop multiplies the polynomial by x, adds the symbol and subtracts the multiple of the generator that cancels the leading term |
| `Bech32Code.FoldIsRemainder` | src/bech32.cpp:130-213 | So the checksum is the remainder of the word, with a leading 1, modulo the generator over GF(32) |
| `Bech32Code.PublishedStrings` | src/test/bech32_tests.cpp:16-40 | The valid strings a12uel5l of BIP 173 and a1lqfn3a of BIP 350 are encoded and decoded |
| `Bech32Code.Alphabet` | src/bech32.cpp:22-23 | The alphabet, in order |
| `Bech32.DecodeEncode` | src/bech32.cpp:358-400 | Everything an encoder may be given comes back: encoding, prefix and values |
| `Bech32.EncodeDecode` | src/bech32.cpp:358-400 | Whatever decodes is, in lower case, what the encoder makes of the result |
| `Bech32.CheckCharacters` | src/bech32.cpp:287-309 | No error exactly if all characters are printable and no two differ in case |
| `Bech32.Encode` | src/bech32.cpp:358-371 | The string is the specified one |
| `Bech32.Decode` | src/bech32.cpp:374-400 | The result is the specified one, with every failure |
| `Base58.DecodeEncode` | src/base58.cpp:40-127 | What was encoded is decoded again, for every byte string and exactly up to the limit on its length |
| `Base58.EncodeDecode` | src/base58.cpp:40-127 | Whatever decodes, its encoding is the word between the spaces, so no two words stand for the same bytes |
| `Base58.RebaseBack` | src/base58.cpp:40-127 | Changing the base of a number and back, zeros in front included, is the identity |
| `Base58.Alphabet` | src/base58.cpp:19-20 | The alphabet is the digits and letters in their order without 0, O, I and l |
| `Base58.MulAdd` | src/base58.cpp:102-115 | One round over the buffer from its end is multiplication and addition; nothing is carried out of it, and the length in use is exactly the number of digits |
| `Base58.EncodeBase58` | src/base58.cpp:89-127 | The string is the specified one |
| `Base58.DecodeBase58` | src/base58.cpp:40-87 | The result is the specified one, for any limit, with every failure |
| `Radix.BytesFit` | src/base58.cpp:98-100 | The buffer of n * 138 / 100 + 1 characters always suffices for n bytes |
| `Radix.CharactersFit` | src/base58.cpp:53-55 | The buffer of n * 733 / 1000 + 1 bytes always suffices for n characters |
| `BitStream.BitStreamWriter.Write` | src/streams.h:329-344 | The low bits of the data are appended to the bits written so far |
| `BitStream.BitStreamWriter.Flush` | src/streams.h:349-357 | Zeros are appended up to the next byte |
| `BitStream.BitStreamReader.Read` | src/streams.h:281-300 | The value of the next bits, which are then gone; fails exactly if there are too few |
| `Golomb.DecodedCode` | src/util/golombrice.h:14-43 | Decoding a Golomb-Rice code gives the number back and leaves the rest of the stream |
| `Golomb.CodeShape` | src/util/golombrice.h:14-29 | A code has x / 2^p ones, a zero, and p bits with the value x modulo 2^p |
| `Golomb.GolombRiceEncode` | src/util/golombrice.h:14-29 | Appends the code of the number |
| `Golomb.GolombRiceDecode` | src/util/golombrice.h:31-43 | Reads the number at the front of the stream, or fails if the stream ends in it |
| `CompactSize.ReadWritten` | src/serialize.h:300-362 | A size is read back exactly if it is within the limit of 0x02000000 |
| `CompactSize.WrittenRead` | src/serialize.h:300-362 | There is one encoding of each size |
| `CompactSize.WrittenForm` | src/serialize.h:300-322 | Which sizes take one, three, five and nine bytes, with which marker, and that the bytes after it hold the size |
| `CompactSize.LittleEndianAt` | src/serialize.h:300-322 | Byte i of a number counts multiples of 256 to the i |
| `GCSFilter.EncodedValues` | src/blockfilter.cpp:49-146 | A written filter is read as its values and less than a byte of padding; it is readable exactly if its number of elements is within the limit for sizes |
| `GCSFilter.NoFalseNegatives` | src/blockfilter.cpp:74-146 | The values of a built filter that can be read are exactly the hashes of its elements, in order |
| `GCSFilter.CodesShort` | src/blockfilter.cpp:88-97 | Differences keep a filter short: p + 1 bits for each value and one more for each multiple of 2^p up to the largest |
| `GCSFilter.FastRangeIs` | src/util/fastrange.h:25-52 | The range is divided evenly among all 64-bit hashes |
| `GCSFilter.AnyIsSome` | src/blockfilter.cpp:136-146 | Asking for several elements at once is asking for each of them |
| `GCSFilter.Filter.Build` | src/blockfilter.cpp:74-102 | The filter encodes the sorted hashes of the elements; it fails exactly for 2^32 elements or more |
| `GCSFilter.Filter.Load` | src/blockfilter.cpp:49-72 | An encoding is accepted exactly if it holds as many codes as it says and less than a byte more |
| `GCSFilter.Filter.MatchInternal` | src/blockfilter.cpp:104-133 | The merge of decoded values and queries answers yes only if they share a value, and over ascending values exactly then |
| `GCSFilter.BuildAndMatch` | src/blockfilter.cpp:34-146 | A filter answers yes exactly for elements whose hash is that of one of its own, so for all of its own; it cannot be asked exactly if it has too many elements |
| `GCSFilter.BuildAndLoad` | src/blockfilter.cpp:49-102 | What a filter writes is accepted back, with the same number of elements, exactly if there are not too many |
| `CompactBlocks.LaidIs` | src/blockencodings.cpp:69-88 | Prefilled transactions end up at their positions, and exactly as many positions stay free as there are short ids |
| `CompactBlocks.IdsOntoFree` | src/blockencodings.cpp:90-116 | Without equal short ids, they are mapped one-to-one onto exactly the positions that are not prefilled, in order |
| `CompactBlocks.FindAllSound` | src/blockencodings.cpp:118-180 | The search keeps prefilled transactions, fills positions only with offered transactions that have their short id, and its count is the number of positions filled |
| `CompactBlocks.FindAllFinds` | src/blockencodings.cpp:118-180 | If no two different known transactions share a short id of the block, every one the block needs is found |
| `CompactFinds.FindExactly` | src/blockencodings.cpp:118-180 | With or without colliding short ids: of the transactions looked at, a position gets the first that has its short id, unless a second one of the pool has it or an extra one with another hash, and then it is asked for; a pass ends early only if nothing is missing |
| `CompactFinds.ShortIdMasks` | src/blockencodings.cpp:46-50 | A short id is the hash masked to 48 bits |
| `CompactBlocks.Rebuilds` | src/blockencodings.cpp:59-237 | If no known transaction is mistaken for one of the block, what was found and the transactions asked for, in order, give the original block |
| `CompactBlocks.AsksForUnknown` | src/blockencodings.cpp:59-180 | Then exactly the transactions that are neither prefilled nor known are asked for |
| `CompactBlocks.AnnounceDescribes` | src/blockencodings.cpp:20-33 | What a node announces of its own block describes that block |
| `CompactBlocks.RequestArrives` | src/blockencodings.h:22-43 | The indexes asked for survive being written as differences and read again |
| `CompactFinds.DifferencesExactly` | src/blockencodings.h:28-34 | Indexes are sent as distances from the one after the predecessor, and can be sent exactly if they ascend |
| `PartialBlock.PartiallyDownloadedBlock.InitData` | src/blockencodings.cpp:59-181 | The status is exactly determined, and on success the object holds what the search finds |
| `PartialBlock.PartiallyDownloadedBlock.MapIds` | src/blockencodings.cpp:94-112 | Scanning for the next free position gives each short id the specified position, within 16 bits |
| `PartialBlock.PartiallyDownloadedBlock.Look` | src/blockencodings.cpp:118-180 | The loop over known transactions does what the specified search does, stopping early |
| `PartialBlock.PartiallyDownloadedBlock.FillBlock` | src/blockencodings.cpp:191-237 | With exactly the missing number of transactions the block is filled in order and the object is used up; with fewer it fails half way, with more it fails after use |
| `PartialBlock.Relay` | src/blockencodings.cpp:59-237 | An announcement taken, the missing transactions sent: the original block comes out unless short ids coincide, crowd a bucket, or the block counts as mutated |
| `Sponge.Keccak` | metaldag/metaldag-ref.cpp:36-44 | The byte loop is the specified sponge around any permutation |
| `Sponge.FixedForms` | miner/MetalDAGShader.swift:41-58 | The three forms for 40, 64 and 96 bytes, written on words with their own padding, equal the general sponge on the bytes |
| `MetalDAG.CalcDatasetItem` | metaldag/metaldag-ref.cpp:75-88 | The light verifier's item is the specified one |
| `MetalDAG.DagItemKernel` | miner/MetalDAGShader.swift:63-74 | The kernel's item, over a flat cache and its own hash forms, is the same |
| `MetalDAG.BuildDag` | miner/MetalDAGEngine.swift:203-231 | The dataset built chunk by chunk holds every item at its place |
| `MetalDAG.IndexExact` | miner/MetalDAGShader.swift:78-87 | 32-bit word indexes are exact for all items exactly if there are at most 2^28 of them |
| `MetalDAG.HashimotoLight` | metaldag/metaldag-ref.cpp:92-121 | Digest and result of the light verifier, with every page inside the dataset |
| `MetalDAG.Hashimoto` | miner/MetalDAGShader.swift:91-106 | The kernel's result over the dataset, for every header and 32-bit nonce |
| `MetalDAGLaws.OneWordShows` | metaldag/metaldag-ref.cpp:116 | Two mixes that differ in exactly one word differ in exactly the digest word of its group of four |
| `MetalDAGLaws.GroupWeights` | miner/MetalDAGShader.swift:103 | A word alone in its group counts with one factor of the prime for every word of the group behind it |
| `MetalDAGLaws.CombinedShows` | metaldag/metaldag-ref.cpp:84 | Mixing items in loses no word: changing one changes the same word of the result and no other |
| `MetalDAGLaws.FnvInjective` | miner/MetalDAGShader.swift:59 | The mixing function is injective in each argument, its prime being odd |
| `MetalDAGLaws.FnvOfZero` | miner/MetalDAGShader.swift:59 | Mixing into zero gives the word; mixing zero in multiplies by the prime |
| `MetalDAG.CrossCheck` | miner/MetalDAGShader.swift:78-106 | So the miner's hash over the dataset it built is the one the node computes from the cache |
| `Hybrid.InitializedMirrored` | src/bip324.cpp:53-99 | Two sides with opposite roles and one secret send under what the other receives under, garbage terminators included |
| `Hybrid.SwitchedMirrored` | src/bip324.cpp:133-154 | So they do after both switch on the same secret, ciphertext and key |
| `Hybrid.KeysByRole` | src/bip324.cpp:53-131 | In both stages the initiator sends under the initiator keys and receives under the responder keys, and the responder the other way round; the stage-2 material is in the order of the transcript |
| `Hybrid.SelfDecrypts` | src/bip324.cpp:63-73 | A session that decrypts its own packets has sending and receiving exchanged |
| `HybridRuns.RekeysAfter224` | src/crypto/chacha20poly1305.cpp:104-134 | The ciphers of a direction change their keys after every 224th packet, after any number of packets |
| `Hybrid.SwitchBinds` | src/bip324.cpp:101-131 | Equal stage-2 session ids come from equal secrets, ciphertexts, keys and transcripts |
| `HybridRuns.OpensExactly` | src/bip324.cpp:156-192 | A packet opens to its message exactly under the cipher state and associated data it was made with and below 2^24 bytes |
| `HybridRuns.EverythingArrives` | src/bip324.cpp:133-192 | In every run in which no side switches while first-stage packets are under way to it, sends under old keys to a peer that switched or reads ahead of its own switch, each side receives what the other sent, in order |
| `HybridRuns.AfterKeeps` | src/bip324.cpp:133-192 | Each such step keeps what is under way readable |
| `HybridRuns.StagesApart` | src/bip324.cpp:133-154 | A packet of one stage never opens under the ciphers of the other, after any number of packets and rekeys |
| `HybridRuns.SwitchesOnce` | src/bip324.cpp:133-154 | A switch without kept secrets changes nothing |
| `PacketCipher.BIP324Cipher.Initialize` | src/bip324.cpp:53-99 | The four ciphers, terminators, session id and kept secrets are those of the key schedule |
| `PacketCipher.BIP324Cipher.SwitchToStage2` | src/bip324.cpp:133-154 | Succeeds exactly with kept secrets and right lengths, then replaces all ciphers and drops the secrets; a failure changes nothing |
| `PacketCipher.BIP324Cipher.Encrypt` | src/bip324.cpp:156-170 | The packet is made under the sending state, which advances |
| `PacketCipher.BIP324Cipher.ReceivePacket` | src/bip324.cpp:172-192 | Reading the length and the rest gives the specified message, and the receiving state advances in any case |

## Left out

- The best-block hash kept beside the coins, cache statistics and the reallocation of the map.
- CoinsCache.CoinsViewCache.SpendCoin: says nothing about the boolean result beyond the code's own, which is also true for a cached entry that is already spent.
- CoinsCache.CoinsViewCache.BatchWrite: does not say what both caches hold after the misapplied-FRESH error is thrown in the middle; when it is thrown is stated exactly.
- Memory accounting uses script size, not the capacity of the allocation; 64-bit overflow of the totals is not modelled.
- CoinsList.FlaggedShape: list pointers are keys of the map that owns the entries, not addresses, so aliasing of freed memory is not captured.
- The stop request and the destructor of the check queue, and checks that are moved from while running.
- Chain.BlockIndex.GetAncestor: does not bound the number of steps; the source only reports a simulation.
- Block locators and the search for the earliest block by time.
- MinerTarget.TargetWordsFromDifficulty: starts from the fixed-point number, because rounding and clamping the difficulty is floating-point arithmetic; hex input and output and floating-point values of big numbers are not modelled either.
- Address hashing: bucket and position functions are arbitrary functions within range, so nothing is said about their distribution.
- AddrManager.AddrManager.CheckAddrman: has no code for a null secret key, because the key is not modelled.
- AddrManager.AddrManager.MakeTried: each counter changes together with the table it describes, where the program updates some earlier; the state after the call is the same.
- Random selection of a peer to connect to and its floating-point chance, which are probabilistic; listing all entries of a table.
- AddrReload.Reloads: saving and loading are functions on values, not updates of the object in place; the byte format, older formats and entries lost by a change of buckets are not described.
- Bech32.Encode: asks for a prefix of 7-bit characters besides what the source asserts; locating errors and the detection of four scattered errors are not modelled.
- Base58 with a hash appended, which only adds the hash.
- GCSFilter.Filter.MatchInternal: says nothing of encodings that break off before the last code, where it may answer or fail.
- False positive rates of filters, and the choice of the elements of a block.
- PartialBlock.PartiallyDownloadedBlock.InitData: asks for at most 65535 transactions, which is what reading an announcement enforces; whether a hash bucket is too full is a parameter, and the count of extra transactions for the log is not kept.
- CompactBlocks.Announce is for a block with at least one transaction, as the program has it.
- MetalDAG.BuildDag: asks for at most 2^28 items, beyond which MetalDAG.IndexExact shows word indexes to wrap; how the cache is made, the sizes per epoch and the comparison with the target are not modelled, and the permutation of the sponge is arbitrary.
- Cryptographic primitives of the packet cipher: a key is the name of what it was derived from and a ciphertext names its cipher state; wiping of memory is not modelled.
