# KPCoin: a verified model of the node's core data structures

KPCoin is a full node in the Bitcoin Core family. This project models the parts of it whose
correctness rests on state kept across many calls, on many threads, on two passes over the same
data, or on multi-word arithmetic, and proves what those parts promise.

The parts, and the main result about each:

* **The stack of coin caches** (`CoinsModel`, `CoinsCache`). Every layer's DIRTY and FRESH flags
  keep a relation to what is visible below. A stack of any depth over the database answers every
  sequence of calls as one plain map of unspent coins would (`Replay`), and flushing layer by layer
  makes the database equal to that map (`FlushAll`). The exact caller obligation of `AddCoin` is
  derived (`AddKeepsLayerIff`), with a spend that is lost when it is ignored
  (`MisappliedFreshResurrects`).
* **The queue of script checks** (`CheckQueue`). A state machine over the steps of a master and any
  number of workers. In every interleaving each `Wait` returns the conjunction of exactly the checks
  added since the `Wait` before it (`EveryWaitIsTheConjunction`); the master never sleeps without
  help, every schedule of productive steps is finite, and a schedule that cannot go on has brought
  the master out (`SleepingMasterHasHelp`, `ProductiveRunsAreShort`, `StalledMeansReturned`).
* **The two-pass download of headers** (`HeadersModel`, `HeadersProtocol`, `HeadersSync`). Against
  any peer, a sync takes the course that a definition over whole chains prescribes, without buffer
  and stored bits: which messages made up each pass, why it ended, and exactly what is handed out.
  That is the beginning of a permitted chain, there is nothing of it unless the first pass saw the
  required work, and the commitment bits of both passes agree up to the requirement (`RunSync`,
  `MessageMatches`). An honest peer is never refused and gets every header through
  (`SyncWithHonestPeer`).
* **The address manager** (`AddrModel`, `AddrBook`, `AddrMan`, `AddrCheck`, `AddrFile`,
  `AddrRoundTrip`, `AddrRun`). Every operation keeps one invariant over two bucket tables, the
  random order, two maps and per-network counters; that invariant is what the built-in consistency
  check accepts together with a short list of facts it does not look at (`InvariantAndCheck`); the
  check fails after an operation exactly if the operation has a time at or before the epoch and is
  not harmless in its state (`AddrRun.Run`); a file loads exactly if it is sound, into a consistent
  state, and what a session ends with is there again at the next start (`Unserialize`, `SaveAndLoad`,
  `Session`).
* **256-bit numbers, compact targets and proof of work** (`ArithModel`, `ArithUint256`,
  `ArithCompact`). The limb algorithms compute the ring operations modulo 2^256, shift-and-subtract
  division is division, compact encoding is a round trip up to the low bytes, and the formula of
  `GetBlockProof` equals 2^256 / (target + 1) although 2^256 is not representable.
* **The block index** (`SkipWalk`, `BlockChain`). The skip list gives the same ancestors as the plain
  path, in every tree built block by block, and no walk takes more steps than the square of the
  number of bits of the height (`StepsAreFew`); forks, common ancestors and locators follow.
* **Text codecs** (`Base58`, `Bech32`, `Bech32Field`, `Bech32Errors`, `Bech32Text`). Both decoders
  accept exactly the encodings and return the one thing that is encoded; the buffer sizes of base58
  suffice for every length. The bech32 checksum is the remainder by the generator of the code
  (`PolyModIsRemainder`); it detects any three errors within 1023 symbols
  (`ThreeErrorsAreDetected`) and any corruption within six consecutive ones (`BurstIsDetected`),
  and a string that differs so from an accepted one is refused (`ThreeErrorsAreRefused`).
* **The cuckoo cache** (`Cuckoo`). For every hash function and depth limit, an insertion changes
  the set of live elements by the new one and at most one other; ageing leaves exactly the live
  elements of the current epoch.
* **Compact block relay** (`CompactBlock`). What is placed, matched and asked for is determined by
  the offers that are looked at, and a block sent to any mempool comes back unchanged if no ids
  collide. Nothing that the whole lists match is missed if and only if the count of matches starts
  from zero or above what it can reach (`NothingMissedIff`).

Each method of a class is proved against functions of the old state, and the properties are then
lemmas about those functions. Hash functions, network groups, the clock, random choices and the
order in which hash maps are iterated are parameters or arbitrary choices, so every result holds
for all of them.

Where the code and what is said about it differ, the model follows the code:

* `AddCoin` reduces the memory account before it throws; the account is then wrong exactly when the
  coin it met uses memory.
* `SpendCoin` reports success for an entry that is already spent.
* The comment on `CuckooCache::insert` says that the first element displaced is at the first place;
  the code displaces the one at the second.
* `CheckAddrman` does not look at four things the rest of the code relies on; `Unchecked` lists them.
* The consistency check fails after `Attempt_` on a known address with a time before the epoch, and
  after `Good_` on one with such a time, or with the epoch itself unless the address stays new. No
  other operation makes it fail; `ResolveCollisions_` never decides a collision that early.
* The branch of `ResolveCollisions_` for a slot that has become empty is unreachable, because an
  occupied tried slot is never vacated.
* `PartiallyDownloadedBlock` does not reset its count of matches, so for a second block transactions
  that are in the mempool can be asked for (`AskedForAgain`); the block is right all the same
  (`Relay`).
* The limit of 100000 transactions on a compact block never decides, since 16-bit indices are
  checked as well.

## Model

| member | source | states |
|---|---|---|
| CoinsModel.MergeKeepsTheView | src/coins.cpp:181-251 | Writing a child with right flags into its parent never meets a misapplied FRESH flag, leaves the parent right for the grandparent, and the parent then shows what the child showed |
| CoinsModel.PersistKeepsTheView | src/txdb.cpp:117-128 | Writing a layer into the database makes the database equal to what the layer showed, without spent coins |
| CoinsModel.CleanedIsRight | src/coins.cpp:266-281 | After Sync the kept entries are right for the new state below, and show the same coins |
| CoinsModel.AddKeepsLayerIff | src/coins.cpp:69-100 | Adding a coin leaves the flags right if and only if an overwrite was allowed, the layer had an entry, or the coin was not visible below; in any case the new coin is shown |
| CoinsModel.MisappliedFreshResurrects | src/coins.cpp:83-96 | In any layer where that condition is violated, adding the coin and spending it leaves the view as it was before, with the old coin visible |
| CoinsModel.SpendRemovesTheCoin | src/coins.cpp:128-148 | Erasing a FRESH entry or clearing any other removes exactly that coin from view and keeps the flags right |
| CoinsModel.EntryIsSeen | src/coins.cpp:152-164 | An entry's coin is what is seen through the layer, unless it is spent, and a spent entry holds the empty coin |
| CoinsModel.FetchKeepsTheView | src/coins.cpp:43-58 | Caching a coin from below changes nothing that can be seen |
| CoinsModel.UncacheKeepsTheView | src/coins.cpp:283-296 | Forgetting an entry without flags changes nothing that can be seen |
| CoinsModel.TotalUsageWith | src/coins.cpp:324-339 | How the total memory of a layer changes when one entry is set or cleared |
| CoinsModel.WithOutputsAt | src/coins.cpp:117-126 | Adding a transaction's outputs sets exactly the spendable outputs' own coins |
| CoinsCache.CoinsDB.BatchWrite | src/txdb.cpp:91-150 | Dirty entries are written or erased, clean ones ignored, whatever the order |
| CoinsCache.CoinsViewCache.OverDatabase | src/coins.cpp:34-37 | A new cache shows what the database holds |
| CoinsCache.CoinsViewCache.OverCache | src/coins.cpp:34-37 | A new cache shows what the cache below it shows |
| CoinsCache.CoinsViewCache.FetchCoin | src/coins.cpp:43-58 | What is visible below is cached as a clean entry; no layer's view changes, for stacks of any depth |
| CoinsCache.CoinsViewCache.GetCoin | src/coins.cpp:60-67 | The answer is the coin in the stack's view, and the view stays the same |
| CoinsCache.CoinsViewCache.AddCoin | src/coins.cpp:69-107 | When it throws; otherwise the view gains the coin and the entry gets the flags the merge relies on; the account is right unless a coin with memory made it throw |
| CoinsCache.CoinsViewCache.AddCoins | src/coins.cpp:117-126 | With or without the overwrite check the stack's view becomes the old one with the outputs, and nothing is thrown |
| CoinsCache.CoinsViewCache.SpendCoin | src/coins.cpp:128-148 | The view loses exactly this coin, the coin moved out is the one that was seen, and a coin that only existed in this layer leaves no trace |
| CoinsCache.CoinsViewCache.AccessCoin | src/coins.cpp:152-159 | The coin in view, or the empty coin |
| CoinsCache.CoinsViewCache.HaveCoin | src/coins.cpp:161-164 | True exactly for coins in view |
| CoinsCache.CoinsViewCache.WriteOne | src/coins.cpp:186-247 | One child entry is merged, or refused exactly when its FRESH flag contradicts an unspent parent entry; the memory account follows |
| CoinsCache.CoinsViewCache.BatchWrite | src/coins.cpp:181-251 | All entries of the child are merged independently of their order; it throws exactly when some FRESH flag is misapplied |
| CoinsCache.CoinsViewCache.Flush | src/coins.cpp:253-264 | Never throws on a right stack; the layer is empty, and the layer below shows what this one showed |
| CoinsCache.CoinsViewCache.Sync | src/coins.cpp:266-281 | As Flush, but the unspent coins stay cached without flags, and neither assertion in the source can fail |
| CoinsCache.CoinsViewCache.ClearFlags | src/coins.cpp:271-279 | Spent entries go and the others lose their flags, with the memory account kept |
| CoinsCache.CoinsViewCache.Uncache | src/coins.cpp:283-296 | Only an entry without flags is dropped, and the view stays |
| CoinsCache.CoinsViewCache.SanityCheck | src/coins.cpp:324-339 | Succeeds exactly when every entry has one of the legal flag combinations and the memory account is right |
| CoinsCache.CoinsViewCache.Replay | src/coins.cpp:43-296 | For every sequence of calls on a stack of any depth the answers and the final view are those of one map of unspent coins |
| CoinsCache.CoinsViewCache.FlushAll | src/coins.cpp:253-264 | Flushing every layer makes the database equal to the view from the top |
| CheckQueue.BatchLength | src/checkqueue.h:105-110 | A thread takes at least one check, never more than there are, and never more than the batch size |
| CheckQueue.InitHolds | src/checkqueue.h:130-140 | The invariant holds for a new queue with any number of workers |
| CheckQueue.NextKeeps | src/checkqueue.h:66-123 | Every enabled step of every thread keeps the invariant on counters, batches and verdicts |
| CheckQueue.RunKeeps | src/checkqueue.h:66-173 | So does every legal run |
| CheckQueue.ReadyIsEnabled | src/checkqueue.h:77-115 | No counter goes below zero: whatever the control flow leads a thread to, its preconditions hold |
| CheckQueue.EveryWaitIsTheConjunction | src/checkqueue.h:66-173 | In every interleaving every finished Wait returned the conjunction of the checks of its round; each check was called once or skipped, and skipped only after a failure; rounds split what was added in order |
| CheckQueue.RoundsSplitTheRun | src/checkqueue.h:149-173 | No check is moved between rounds or lost, from any state |
| CheckQueue.SleepingMasterHasHelp | src/checkqueue.h:77-98 | While the master sleeps un-notified a worker holds a batch, and the worker that completes the last one notifies it |
| CheckQueue.LeavingMakesARound | src/checkqueue.h:88-96 | The master leaves Wait by finishing a round and in no other way |
| CheckQueue.ProductiveStepsDecreaseWork | src/checkqueue.h:73-122 | Every step but a spurious wake-up or a new request decreases a measure |
| CheckQueue.ProductiveRunsAreShort | src/checkqueue.h:73-122 | However threads are scheduled, only so many such steps fit in |
| CheckQueue.WaitFinishes | src/checkqueue.h:149-153 | From every reachable state the threads can bring the master out of Wait, with exactly one round finished unless a stop was requested |
| CheckQueue.StalledMeansReturned | src/checkqueue.h:66-153 | There is no deadlock: a schedule that cannot be extended has brought the master out |
| HeadersModel.Env.RebuiltLinked | src/headerssync.h:21-53 | Compressing the headers of a linked chain and rebuilding them gives them back |
| HeadersModel.Env.CommitBitsPrefix | src/headerssync.cpp:196-207 | The commitments of a shorter chain begin those of a longer one |
| HeadersModel.Env.WorkWithoutOverflow | src/headerssync.cpp:209-211 | Unless the work exceeds 256 bits, the accumulated work is the sum, and the requirement is met as soon as the last value meets it |
| HeadersProtocol.Setting.MessageAdmitted | src/headerssync.cpp:140-214 | A connecting message of the first pass is taken exactly when the whole chain stays permitted and within the commitment bound |
| HeadersProtocol.Setting.PreviousBitsAreTheTips | src/headerssync.cpp:230-236 | The difficulty a header is measured against is that of its predecessor, although only compressed headers are buffered |
| HeadersProtocol.Setting.BufferGrows | src/headerssync.cpp:273-276 | A header compressed into the buffer can be rebuilt from it |
| HeadersProtocol.Setting.BitsShrink | src/headerssync.cpp:251-271 | The commitments left are always those of the heights not yet passed |
| HeadersProtocol.Setting.RedownloadGrows | src/headerssync.cpp:216-279 | Taking a header keeps the second pass in step with the first |
| HeadersProtocol.Setting.DrainedFits | src/headerssync.cpp:281-295 | What leaves the buffer is the next part of the accepted chain |
| HeadersProtocol.Setting.DrainedShape | src/headerssync.cpp:288-293 | The buffer keeps its bound, and is emptied exactly once the work is reached |
| HeadersProtocol.Setting.DrainedIsDue | src/headerssync.cpp:281-295 | After every message exactly the accepted headers below the buffered depth are out, or all once the work is reached |
| HeadersProtocol.Setting.MessageMatches | src/headerssync.cpp:216-279 | A message of the second pass is taken if and only if the whole chain stays permitted and has the commitment bits of the first pass until the work is reached |
| HeadersProtocol.Setting.HeardParts | src/headerssync.cpp:69-138 | Any messages fall into a first pass, a second pass and what came after the end, and the message that ended the sync is named with its reason |
| HeadersProtocol.Setting.HonestMatches | src/headerssync.cpp:216-279 | A chain that agrees with the first pass as far as both go matches it, wherever it is cut |
| HeadersProtocol.Setting.HonestMessageTaken | src/headerssync.cpp:216-279 | No header of a chain that matches the first pass is refused |
| HeadersProtocol.Setting.SameChainIsHonest | src/headerssync.cpp:69-138 | A peer that serves the same chain twice matches, wherever the messages are cut |
| HeadersSync.HeadersSyncState.constructor | src/headerssync.cpp:26-47 | The sync begins in the first pass with nothing accepted |
| HeadersSync.HeadersSyncState.Finalize | src/headerssync.cpp:52-64 | The whole state after the sync is given up |
| HeadersSync.HeadersSyncState.ProcessNextHeaders | src/headerssync.cpp:69-138 | For every message: when it is accepted, in terms of the chains of both passes, what is handed out, whether more is requested, and which state follows |
| HeadersSync.HeadersSyncState.ValidateAndStoreHeadersCommitments | src/headerssync.cpp:140-176 | A message of the first pass is accepted exactly when the chain stays permitted and bounded; the second pass begins exactly when the work suffices |
| HeadersSync.HeadersSyncState.ValidateAndProcessSingleHeader | src/headerssync.cpp:178-214 | When a header is admitted, and what it adds to height, work and commitments |
| HeadersSync.HeadersSyncState.ValidateAndStoreRedownloadedHeader | src/headerssync.cpp:216-279 | When a header of the second pass is taken, and what it leaves in the buffer and of the commitments |
| HeadersSync.HeadersSyncState.PopHeadersReadyForAcceptance | src/headerssync.cpp:281-295 | Exactly the headers that are deep enough, or all once the work is reached, rebuilt in order |
| HeadersSync.HeadersSyncState.RunSync | src/headerssync.cpp:69-138 | For any messages of any peer: the sync is where the headers alone put it; a first part of the messages is exactly the first pass and the next part exactly the second; if it is over, a message was refused, was not full or met the requirement; what is handed out is exactly the accepted chain but for the buffered depth, or all of it once the work is reached, and follows a first pass with the required work whose commitments it matches |
| HeadersSync.HeadersSyncState.FirstPass | src/headerssync.cpp:140-214 | A permitted chain with enough work leads to the second pass, whether or not the message that reaches the work is full |
| HeadersSync.HeadersSyncState.SecondPass | src/headerssync.cpp:216-295 | A matching chain is handed out completely and in order, whether or not the last message is full |
| HeadersSync.HeadersSyncState.SyncWithHonestPeer | src/headerssync.cpp:69-138 | A peer that serves one chain twice gets all its headers accepted, however it cuts its messages and whether or not the last ones are full |
| AddrModel.ClearCellKeeps | src/addrman.cpp:475-491 | Emptying a cell of the new table keeps references and cells in step |
| AddrModel.FillCellKeeps | src/addrman.cpp:601-625 | Filling an empty cell at the right position keeps references and cells in step |
| AddrModel.EnterTried | src/addrman.cpp:545-549 | An entry without references can take its empty tried slot |
| AddrModel.LeaveTried | src/addrman.cpp:517-531 | The occupant of a tried slot belongs there, has no references, and can leave it |
| AddrBook.CollidingOnward | src/addrman.cpp:662-665 | A recorded collision stays one while ids are not reused and tried slots not vacated |
| AddrBook.OnwardTransitively | src/addrman.cpp:493-681 | Never reusing ids and never vacating a tried slot hold over any number of steps |
| AddrBook.EvictionOk | src/addrman.cpp:517-543 | An evicted entry always finds its cell of the new table clearable, and the state is consistent again after it took it |
| AddrBook.DecidedAfterTheEpoch | src/addrman.cpp:925-950 | In a state with consistent times no collision is decided at or before the epoch |
| AddrBook.OneOccupant | src/addrman.cpp:517-531 | The only tried address that belongs to a slot is that of the entry in it |
| AddrBook.SelectableHasCell | src/addrman.cpp:752-777 | Whatever may be selected is in some bucket of its table |
| AddrMan.AddrManImpl.constructor | src/addrman.cpp:111-127 | A new address manager is consistent and knows nobody |
| AddrMan.AddrManImpl.Find | src/addrman.cpp:403-416 | Finds exactly the known addresses, and the entry of that address |
| AddrMan.AddrManImpl.Create | src/addrman.cpp:418-432 | The new entry in all four indexes and both counters |
| AddrMan.AddrManImpl.SwapRandom | src/addrman.cpp:434-456 | Two places of the random order are exchanged together with the entries' positions |
| AddrMan.AddrManImpl.Delete | src/addrman.cpp:458-473 | The entry leaves every index, by the swap with the last position |
| AddrMan.AddrManImpl.ClearNew | src/addrman.cpp:475-491 | The cell is emptied, and its entry deleted with its last reference |
| AddrMan.AddrManImpl.LeaveNew | src/addrman.cpp:497-507 | The entry leaves every bucket of the new table, and the loop stops when the last reference is found |
| AddrMan.AddrManImpl.Evict | src/addrman.cpp:517-543 | The occupant goes back to new at the cell of its own source, which is cleared for it; nobody else changes place |
| AddrMan.AddrManImpl.MakeTried | src/addrman.cpp:493-550 | The address is in its tried slot and the former occupant back in new; no assertion of the source can fail |
| AddrMan.AddrManImpl.AddSingle | src/addrman.cpp:552-626 | When an announced address is inserted, whom it displaces, what is refreshed in a known entry, what a new entry holds, and that nothing else changes |
| AddrMan.AddrManImpl.RequestCell | src/addrman.cpp:601-625 | An entry gets the cell exactly if that is free or held by a terrible or better connected entry; a new entry that does not get it is deleted |
| AddrMan.AddrManImpl.Good | src/addrman.cpp:628-681 | When the address moves to tried, who is evicted, when a collision is recorded instead, which times change, and exactly when the times are consistent afterwards |
| AddrMan.AddrManImpl.Add | src/addrman.cpp:683-693 | Each announcement of the batch has its effect in turn, the result says whether any was inserted, and nobody becomes known who is not routable |
| AddrMan.AddrManImpl.Attempt | src/addrman.cpp:695-713 | The statistics of exactly this entry change, a failure counts once per success; consistency of times is lost exactly for a negative time |
| AddrMan.AddrManImpl.ChooseTable | src/addrman.cpp:715-745 | Some bucket of the table searched holds an entry that may be selected; nothing is searched only if nothing could be selected |
| AddrMan.AddrManImpl.ScanBucket | src/addrman.cpp:752-777 | From any starting position an entry is found exactly if the bucket holds one that may be selected |
| AddrMan.AddrManImpl.GetAddr | src/addrman.cpp:808-844 | A sample without repetition of the addresses that qualify, at most as many as asked for, and all of them if that is fewer |
| AddrMan.AddrManImpl.Connected | src/addrman.cpp:870-887 | The time of exactly this entry is brought forward if it is more than twenty minutes old |
| AddrMan.AddrManImpl.SetServices | src/addrman.cpp:889-903 | The services of exactly this entry change |
| AddrMan.AddrManImpl.ResolveOne | src/addrman.cpp:910-958 | For every collision: when it is dropped, when it waits, and when its address replaces the occupant, who is then back in new; a success is noted in exactly that case, and nothing else changes |
| AddrMan.AddrManImpl.ResolveCollisions | src/addrman.cpp:905-966 | Every recorded collision is resolved once, each in the state the ones before it left; exactly the undecided ones stay recorded, and consistent times stay so whatever the clock says |
| AddrMan.AddrManImpl.SelectTriedCollision | src/addrman.cpp:968-994 | What is returned occupies the slot of a recorded collision; a stale collision is dropped |
| AddrMan.AddrManImpl.Serialize | src/addrman.cpp:135-230 | The records and bucket lists that stand for the state |
| AddrMan.AddrManImpl.Unserialize | src/addrman.cpp:233-401 | Any file is refused or leads to a state of the invariant with valid addresses only; it is taken exactly when it is acceptable, there is a key, and every record that finds a place has a fitting time of success and an address of its own; what remains is what was read without the entries that found no place |
| AddrCheck.CheckAddrman | src/addrman.cpp:1056-1159 | Success means exactly: the state is consistent and there is a key |
| AddrCheck.CheckEntries | src/addrman.cpp:1070-1101 | The pass over the entries succeeds exactly if each is consistent, and gathers the tried ids, the references and the counts per network |
| AddrCheck.CheckTried | src/addrman.cpp:1108-1123 | The pass over the tried table accepts the right cells only and crosses off each id it meets |
| AddrCheck.CheckNew | src/addrman.cpp:1125-1138 | The pass over the new table accepts the right cells only and counts down the references |
| AddrCheck.CheckCounts | src/addrman.cpp:1147-1156 | The counters per network agree with the entries |
| AddrCheck.InvariantAndCheck | src/addrman.cpp:1056-1159 | The invariant kept by all operations is what the check accepts together with a short list of facts it does not look at |
| AddrFile.LoadedLoading | src/addrman.cpp:284-390 | Whatever a file holds, the tables, references and counts it leads to agree |
| AddrFile.LoadedValid | src/addrman.cpp:284-390 | Only valid addresses find a place, so only they remain after pruning |
| AddrFile.SoundIsConsistent | src/addrman.cpp:284-400 | What is left of a file passes the consistency check if and only if its placed records have fitting times and no address twice: totals, references and counters are right for every file |
| AddrFile.WellKeptIsSound | src/addrman.cpp:284-400 | An acceptable file that records no address twice, no negative time of success, and no tried address without one is sound, and so taken, under every key and asmap |
| AddrRoundTrip.SavedComesBack | src/addrman.cpp:135-401 | What a consistent state saves is acceptable and loads, under the same key and asmap, with every address in its place and every record as it was |
| AddrRun.Run | src/addrman.cpp:1041-1254 | After every operation of every sequence: the consistency check returns zero exactly if the times are consistent, and on consistent times exactly if the operation is harmless in that state; a timely sequence never makes it fail; ids are not reused, no tried slot is vacated, and newcomers are routable |
| AddrRun.Perform | src/addrman.cpp:1170-1254 | For each operation the exact condition, on its arguments and the state before it, under which consistent times stay consistent |
| AddrRun.SuccessAtTheEpoch | src/addrman.cpp:628-681 | A first connection that succeeds at the epoch itself makes the consistency check fail, for every hash function and routable address |
| AddrRun.Session | src/addrman.cpp:135-401 | For any file and any timely sequence of operations: exactly when the file loads, what it leads to, that the check returns zero after every operation, and that what the sequence ended with can be saved and is there again, with nothing lost, at the next start |
| AddrRun.SaveAndLoad | src/addrman.cpp:135-401 | Writing a state that knows valid addresses only and reading it back loses nothing |
| ArithUint256.BaseUint.Complement | src/arith_uint256.h:59-65 | All bits inverted is the number subtracted from the largest one |
| ArithUint256.BaseUint.Negate | src/arith_uint256.h:67-74 | The additive inverse modulo 2^bits |
| ArithUint256.BaseUint.Add | src/arith_uint256.h:125-135 | Addition modulo 2^bits, also when both operands are the same object |
| ArithUint256.BaseUint.Subtract | src/arith_uint256.h:137-141 | Subtraction modulo 2^bits |
| ArithUint256.BaseUint.Increment | src/arith_uint256.h:163-170 | The successor modulo 2^bits |
| ArithUint256.BaseUint.Decrement | src/arith_uint256.h:180-187 | The predecessor modulo 2^bits |
| ArithUint256.BaseUint.ShiftLeft | src/arith_uint256.cpp:13-28 | Multiplication by a power of two modulo 2^bits, for any shift |
| ArithUint256.BaseUint.ShiftRight | src/arith_uint256.cpp:30-45 | Division by a power of two, for any shift |
| ArithUint256.BaseUint.MulWord | src/arith_uint256.cpp:47-57 | Multiplication by a 32-bit number modulo 2^bits |
| ArithUint256.BaseUint.Mul | src/arith_uint256.cpp:59-73 | Multiplication modulo 2^bits |
| ArithUint256.Accumulated | src/arith_uint256.cpp:66-66 | The 64-bit accumulator of the products cannot overflow |
| ArithUint256.BaseUint.Div | src/arith_uint256.cpp:75-99 | The quotient, by shifting and subtracting; division by zero is refused |
| ArithUint256.BaseUint.CompareTo | src/arith_uint256.cpp:101-111 | The order of the numbers |
| ArithUint256.BaseUint.Equals | src/arith_uint256.h:210-210 | The limbs are the same exactly if the numbers are |
| ArithUint256.BaseUint.Bits | src/arith_uint256.cpp:155-168 | The length of the number in bits |
| ArithCompact.SetCompact | src/arith_uint256.cpp:175-193 | The value, and both flags exactly when the word is negative or stands for a number above 256 bits |
| ArithCompact.TooLargeIsOverflow | src/arith_uint256.cpp:188-191 | The case distinction of the overflow test is exact |
| ArithCompact.GetCompact | src/arith_uint256.cpp:195-216 | Three leading bytes with the one length in bytes that the number needs, one byte longer if the sign bit would be hit |
| ArithCompact.CompactRoundTrip | src/arith_uint256.cpp:175-216 | For every number, packing and unpacking sets no flag, never enlarges it, and loses only bytes below the three kept |
| ArithCompact.RepackedIsTheSame | src/arith_uint256.cpp:175-216 | Packing what was unpacked gives the same word |
| ArithCompact.GetLow64 | src/arith_uint256.h:233-237 | The number modulo 2^64 |
| ArithCompact.WorkOf | src/chain.cpp:139-143 | The formula with complement and successor equals 2^256 / (target + 1) |
| ArithCompact.GetBlockProof | src/chain.cpp:131-144 | The work of a block, positive exactly for the words that stand for a positive number of 256 bits |
| ArithCompact.TargetsTakeWork | src/chain.cpp:131-144 | Every target takes work, and nothing else does |
| ArithCompact.ProofIsAntitone | src/chain.cpp:131-144 | A larger target never stands for more work, but always for some |
| SkipWalk.InvertedLowestOne | src/chain.cpp:79-80 | Exactly the lowest one bit is removed |
| SkipWalk.StepsAreFew | src/chain.cpp:82-118 | From any height to any lower one a walk over skips takes at most as many steps as the square of the number of bits of the height it starts from |
| SkipWalk.FromEven | src/chain.cpp:102-109 | The predecessor is preferred to the skip only if its own skip clears a one bit as well |
| SkipWalk.FromOdd | src/chain.cpp:82-91 | The skip of an odd height is never worse than that of its predecessor, and clears a one bit |
| SkipWalk.AcrossTheMiddle | src/chain.cpp:93-118 | From the upper half of an aligned block of heights to the lower one, at least every second step clears a one bit |
| BlockChain.BlockIndex.GetAncestor | src/chain.cpp:93-118 | The walk over skips ends at the ancestor the plain path leads to, or nothing outside the range; the source's assertion holds; with all skips built it takes at most the square of the number of bits of the height |
| BlockChain.BlockIndex.BuildSkip | src/chain.cpp:125-129 | The new skip leads to an ancestor, given that those below do |
| BlockChain.AddToIndex | src/chain.cpp:125-129 | In every tree grown block by block all skips are there and lead to ancestors |
| BlockChain.LinkedIsThePath | src/chain.h:446-495 | A chain vector is the path of its last block |
| BlockChain.ContainsIsAncestor | src/chain.h:476-480 | A block is in the chain exactly when it is the tip's ancestor at its height |
| BlockChain.CChain.SetTip | src/chain.cpp:21-29 | The vector becomes the path of the new tip, although the loop stops at the first block already in place |
| BlockChain.FindFork | src/chain.cpp:60-69 | The highest block that is in the chain and an ancestor of the given block |
| BlockChain.LastCommonAncestor | src/chain.cpp:163-180 | The highest common ancestor, below which all ancestors are shared, and which exists if the genesis is shared |
| BlockChain.LocatorEntries | src/chain.cpp:31-48 | Ancestors in strictly falling order from the block to the genesis, at most twelve more than the logarithm of the height |
| BlockChain.LocatorIsShort | src/chain.cpp:31-48 | The doubling step bounds the number of entries by the logarithm of the height |
| Base58.CharOfDigit | src/base58.cpp:17-36 | The alphabet and the decoding table are inverse |
| Base58.MulAdd | src/base58.cpp:99-111 | The inner loop multiplies the number in the buffer and adds a digit, whatever part of the buffer is in use |
| Base58.EncodingFits | src/base58.cpp:97-97 | The buffer of the encoder is large enough for inputs of every length |
| Base58.DecodingFits | src/base58.cpp:52-52 | The buffer of the decoder is large enough for texts of every length |
| Base58.EncodeBase58 | src/base58.cpp:87-125 | The text stands for the bytes: the same number, and a one for each leading zero |
| Base58.DecodeBase58 | src/base58.cpp:38-133 | Accepts exactly the texts that stand for something short enough, with spaces around them and no zero byte, and returns it |
| Base58.OneMeaning | src/base58.cpp:38-85 | A text stands for one string of bytes |
| Base58.OneText | src/base58.cpp:87-125 | A string of bytes has one text |
| Base58.EncodeThenDecode | src/base58.cpp:38-125 | Decoding undoes encoding for every string within the limit, and refuses it above |
| Base58.DecodeThenEncode | src/base58.cpp:38-125 | Encoding undoes decoding up to surrounding spaces, and every short enough text is accepted |
| Bech32.StepLinear | src/bech32.cpp:177-213 | The step of the checksum is linear over exclusive or |
| Bech32.StepInjective | src/bech32.cpp:193-213 | Only the zero state is led to zero by a zero |
| Bech32.BurstIsDetected | src/bech32.cpp:127-216 | Any corruption within six consecutive symbols changes the checksum, in strings of any length |
| Bech32.LastSix | src/bech32.cpp:127-216 | Six symbols at the end are added to what six zeroes would give |
| Bech32Field.ReduceIsMultiple | src/bech32.cpp:193-213 | The five constants are the multiples of the generator below x^6 over the field of 32 elements |
| Bech32Field.PolyModIsRemainder | src/bech32.cpp:130-216 | The checksum is the remainder of the polynomial with a leading one by the generator |
| Bech32Field.RemainderIsUnique | src/bech32.cpp:130-216 | There is one quotient and one remainder |
| Bech32Errors.NoShortCycle | src/bech32.cpp:155-175 | The element of the field of 1024 elements that the code is built on has order 1023 |
| Bech32Errors.GeneratorVanishes | src/bech32.cpp:155-175 | The generator has three consecutive powers of it as roots |
| Bech32Errors.ThreeErrorsAreDetected | src/bech32.cpp:137-142 | Any corruption of up to three symbols within 1023 changes the checksum |
| Bech32Text.CharsetIsInverse | src/bech32.cpp:22-36 | The two character tables are inverse, and neither has the separator |
| Bech32Text.CharsetCovers | src/bech32.cpp:22-36 | Every character with a symbol is, in lower case, that symbol's character |
| Bech32Text.CheckCharacters | src/bech32.cpp:286-309 | Exactly the offending positions in order: unprintable, or a letter of the other case than the first letter |
| Bech32Text.ExpandedUniquely | src/bech32.cpp:311-324 | Printable human-readable parts can be told from the data after them: different parts or data are never checked as the same symbols |
| Bech32Text.RunPolyMod | src/bech32.cpp:130-216 | The loop with its five tests computes the remainder defined by the recursion |
| Bech32Text.ChecksumIsTheOnlyOne | src/bech32.cpp:326-352 | Six symbols are accepted as a checksum exactly if they are the ones computed |
| Bech32Text.CreateChecksum | src/bech32.cpp:340-352 | Six symbols that make the checksum right for the encoding, whatever they are appended to |
| Bech32Text.VerifyChecksum | src/bech32.cpp:326-338 | Which of the two encodings, if any, the remainder belongs to |
| Bech32Text.Encode | src/bech32.cpp:356-370 | Part, separator, symbols and checksum |
| Bech32Text.Decode | src/bech32.cpp:372-397 | Accepts exactly the encodings in one case within the limit, and returns what is encoded |
| Bech32Text.EncodedIsAccepted | src/bech32.cpp:356-397 | What the encoder writes is accepted if and only if the human-readable part is non-empty and printable and the whole has at most ninety characters |
| Bech32Text.AcceptedAlike | src/bech32.cpp:372-397 | A string has one reading |
| Bech32Text.EncodeThenDecode | src/bech32.cpp:356-397 | Decoding undoes encoding if and only if that condition holds |
| Bech32Text.DecodeThenEncode | src/bech32.cpp:356-397 | Encoding undoes decoding up to case |
| Bech32Text.ThreeErrorsAreRefused | src/bech32.cpp:372-397 | No string that differs from an accepted one in up to three data characters is accepted as the same encoding with the same human-readable part |
| Bech32Text.BurstIsRefused | src/bech32.cpp:372-397 | Nor any that differs in data characters within six consecutive ones |
| Bech32Text.CorruptedIsAccepted | src/bech32.cpp:326-338 | A string with other data is accepted as an encoding if and only if the remainder of the errors is the difference of the two constants |
| Cuckoo.FlagsAreSeparate | src/cuckoocache.h:88-118 | Setting and clearing one packed flag leaves all others alone |
| Cuckoo.FastRange32 | src/cuckoocache.h:209-251 | The reduction of a hash always gives a place of the table |
| Cuckoo.Cache.constructor | src/cuckoocache.h:337-350 | An empty cache with at least two places and epochs of at least one element |
| Cuckoo.Cache.Contains | src/cuckoocache.h:476-486 | Finds every live element; erasing frees at most its first place and the table stays as it is |
| Cuckoo.Cache.FoundAgain | src/cuckoocache.h:449-466 | What was found and marked for erasure is still found until the next insertion |
| Cuckoo.Cache.EpochCheck | src/cuckoocache.h:287-319 | Ages exactly when the counter is used up and the epoch is full; only live elements outside the epoch become free; how long the next scan is put off, and that the epoch cannot outgrow its limit before it |
| Cuckoo.Cache.KeepIfPresent | src/cuckoocache.h:405-412 | An element in the table is kept at its first place and enters the epoch, and nothing else changes |
| Cuckoo.Cache.Settle | src/cuckoocache.h:414-422 | A free place is taken, and no live element lost |
| Cuckoo.Cache.Displace | src/cuckoocache.h:423-442 | The element displaced is the only one that leaves the table, and takes its epoch with it |
| Cuckoo.Cache.Place | src/cuckoocache.h:402-446 | The live elements are those before and the new one minus at most one, none if there was room, for every hash function and depth limit |
| Cuckoo.Cache.Insert | src/cuckoocache.h:399-447 | The same with the ageing step before it, which leaves all live elements while the epoch has room, and exactly those of the epoch when it is full |
| CompactBlock.WriteDifferences | src/blockencodings.h:28-33 | A list of indices can be written exactly if it is strictly ascending, and the differences stand for it |
| CompactBlock.ReadDifferences | src/blockencodings.h:35-41 | A list of differences is read exactly if every index fits 16 bits, wrap-around included |
| CompactBlock.WriteThenRead | src/blockencodings.h:22-42 | Ascending 16-bit indices come back; all others are refused |
| CompactBlock.MessageIsTaken | src/blockencodings.cpp:20-30 | The message made of a block is well-formed and holds its first transaction at the first place |
| CompactBlock.PartiallyDownloadedBlock.PlacePrefilled | src/blockencodings.cpp:61-76 | Prefilled transactions go to the places the differences stand for, and are refused exactly if one is null, out of reach or beyond 16 bits |
| CompactBlock.MapShortIds | src/blockencodings.cpp:83-105 | The i-th short id belongs to the i-th gap; refused exactly for repeated ids or a crowded bucket |
| CompactBlock.PartiallyDownloadedBlock.Take | src/blockencodings.cpp:110-159 | A first match fills the place, a second one empties it, an extra transaction seen again changes nothing, and the count follows |
| CompactBlock.ResultMeans | src/blockencodings.cpp:110-159 | A place is empty if nothing was offered, holds the first offer if all later ones repeat it as extra transactions, and is given up if one does not |
| CompactBlock.ClashStays | src/blockencodings.cpp:110-159 | A place that is given up is not filled again |
| CompactBlock.MatchStands | src/blockencodings.cpp:110-159 | A match stands exactly if every later offer under its id repeats it as an extra transaction |
| CompactBlock.PartiallyDownloadedBlock.TakeAll | src/blockencodings.cpp:107-165 | Exactly the offers up to the point where the count equals the number of short ids are accounted for |
| CompactBlock.FoundUnlessStale | src/blockencodings.cpp:107-165 | What the whole mempool and extra list match is matched, repeated extra transactions included, although the scans end early; unless the count started from a value that the matches can still reach |
| CompactBlock.StaleCountMisses | src/blockencodings.cpp:107-165 | With such a count there are a mempool and an extra list that match a transaction which is missed all the same |
| CompactBlock.NothingMissedIff | src/blockencodings.cpp:107-165 | Nothing that the whole lists match is missed if and only if the count starts from zero or from more than the number of short ids |
| CompactBlock.AskedForAgain | src/blockencodings.cpp:50-225 | An object that has been used for one block keeps its count and asks for a transaction of the next one that is in the mempool; the block comes back all the same |
| CompactBlock.PartiallyDownloadedBlock.InitData | src/blockencodings.cpp:50-170 | Which messages are invalid, which fail, and that otherwise every place is prefilled, matched or a gap as the offers looked at decide, also for the second block of an object |
| CompactBlock.PartiallyDownloadedBlock.FillBlock | src/blockencodings.cpp:180-225 | The block is the available transactions with the missing ones in the gaps in order; refused exactly if there are too few or too many, or it was filled before; with too few, exactly the slots before the first gap without a transaction are emptied; the count of matches stays |
| CompactBlock.MergesOnce | src/blockencodings.cpp:180-225 | There is one way to fill the gaps |
| CompactBlock.Relay | src/blockencodings.cpp:20-225 | A block sent to any object that is free, any mempool and any extra transactions comes back unchanged if no ids collide and no bucket is crowded, whatever the block check says of it; exactly what was not matched is requested, and nothing that the whole lists match if the count was not stale; the object is free again with its count gone on |

## Left out

- Block and transaction validation, script, wallet, RPC and the GUI.
- Failures of the database in Flush and Sync, `EmplaceCoinInternalDANGER`, the best-block hash, `AccessByTxid`, `HaveInputs` and the memory resource of the cache map.
- Partial batches and crash recovery of the coins database: a batch is one step here.
- Thread creation and the lock of the check queue: steps are atomic between lock operations, wake-ups are arbitrary, and no fairness is assumed; the `CCheckQueueControl` wrapper.
- `PermittedDifficultyTransition`, the work of a header and the salted hash of the headers sync are parameters; the commitment bound is a number instead of a function of time; `NextHeadersRequestLocator`.
- Heights and times are unbounded integers, except where 16, 32, 64 or 256 bits decide an outcome (indices, limbs, compact words, accumulated work).
- The retry loop of `Select_` with its probabilities, `GetChance`, `GetEntries_` and `FindAddressEntry_`; the choice of the table and the scan of a bucket are modelled.
- The bytes of peers.dat: a file is a list of records and buckets; the key is part of the hash functions, and older formats differ in the asmap checksum, which is modelled, and in bytes, which are not.
- AddrMan.AddrManImpl.Unserialize: the random order after pruning is left open, because it depends on the iteration order of a hash map.
- `getdouble`, hexadecimal conversion, and the bitwise operators `|=`, `&=` and `^=` between two numbers; `GetBlockProofEquivalentTime` and `FindEarliestAtLeast`.
- The concurrent use of the cuckoo cache's flags, `setup_bytes` and the logarithmic depth limit (any limit is allowed here). util/fastrange.h is not part of this model; the reduction is the high half of the product, as cuckoocache.h describes it.
- CheckBlock and the mutation check are parameters of FillBlock; the occupancy of hash-map buckets in InitData is an arbitrary predicate; `extra_count` is only for the log.
- `LocateErrors` of bech32, the detection of four errors within 89 characters, which rests on an exhaustive search, and the checksum of base58check.
