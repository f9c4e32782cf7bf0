# LightningCash-R in Dafny

A model of the hard parts of the LightningCash-R node, a full node descended from Bitcoin, with proofs
of what those parts are for. Every module follows one component of the C++ source; state that the
source updates in place is a class here, loops are loops, and each operation is proved against a
specification whose own laws are proved beside it. Concurrent code is modelled as a state machine over
its lock sections. Hash functions, clocks, random draws, sockets and block validation are parameters.

`dafny verify dfyconfig.toml` checks the whole project.

| file | component |
|---|---|
| Mempool.dfy, Miner.dfy | the memory pool as a graph; choosing transactions for a block template |
| AddrBook.dfy, AddrMan.dfy | the table of peer addresses: its consistency as a value, and the class that keeps it |
| CoinsLayer.dfy, CoinsStack.dfy, Coins.dfy | the stack of coin caches: one layer, a whole stack over whole runs, and the classes |
| CheckQueue.dfy | the script check queue, a master and any number of workers |
| Scheduler.dfy | the client that runs callbacks one at a time |
| CompactBlock.dfy, PartialBlock.dfy | compact block relay (BIP 152) |
| MerkleTree.dfy, PartialMerkleTree.dfy | partial Merkle trees (BIP 37) |
| Framing.dfy, Connection.dfy | messages over a byte stream cut up at will |
| Downloads.dfy, PeerLogic.dfy | which block is fetched from which peer, and the choice of blocks to fetch |
| RollingBloom.dfy | the rolling Bloom filter |
| CuckooCache.dfy | the cuckoo cache |
| SkipHeights.dfy, BlockTree.dfy, ActiveChain.dfy | the heights of skip links and the length of a search; the block index; the active chain |
| Limbs.dfy, Shifts.dfy, BaseUint.dfy | multi-limb integers of any width |
| CompactTarget.dfy | compact targets and the work they stand for |
| Radix.dfy, Base58.dfy | Base58 |
| Bech32.dfy, Bech32Text.dfy | Bech32 (BIP 173) |
| Arith.dfy, Wrappers.dfy | powers of two, facts about multiplication and division; optional values |

Where the code and its comments or documentation differ, the model follows the code. Some properties
hold only under a condition, which is then proved; several have a lemma at an input that fails:

- compact relay is lossless if and only if the block has at most 65536 transactions, since positions
  are cut to 16 bits; a larger block whose transaction at position 65536 equals its first is the only
  one that might come through (`PartialBlock.Relay`, `PartialBlock.RelayBlock`, `CompactBlock.RequestBeyond`); a
  compact block with 65536 prefilled transactions and one more makes the search for a position circle
  for ever (`PartialBlock.EndlessExactly`, `PartialBlock.EndlessExample`);
- a coin added and then spent is gone if and only if the caller of `AddCoin` kept its contract
  (`CoinsLayer.AddContractIsNeeded`, `CoinsLayer.BrokenAddThrows`, `CoinsLayer.BrokenAddExample`);
- the size tracked for a package is exact, where sizes are positive, if and only if no ancestor was
  included before its entry was created; sigops and fee are off by exactly what such ancestors have, and
  the fee also by the adjustments of the later ones: an entry that failed once and is created again
  counts what is in the block already
  (`Miner.TrackingErrors`, `Miner.TrackingExact`, `Miner.FeeErrorExample`, `Miner.RecreatedExample`), so
  that a package that fits can be left out (`Miner.LeftOutExample`);
- an address that is added is known afterwards if and only if there is room for it, although the code
  reports it as new in either case (`AddrBook.AddedIsKept`);
- the time fields of an address pass the consistency check if and only if the time given is positive
  (`AddrBook.GoodTimes`, `AddrBook.GoodTimesExample`);
- a number multiplied by itself in place becomes zero (`BaseUint.Uint.MulAssign`, `BaseUint.SquareExample`);
- a flush without a best block of its own loses the one below (`Coins.CoinsViewCache.Flush`,
  `Coins.FlushForgets`);
- the number of transactions of a Merkle proof must be known (`PartialMerkleTree.CountMatters`).

## Model

| member | source | states |
|---|---|---|
| Mempool.AncestryClosed | src/txmempool.cpp:132-200 | A transaction with its ancestors is closed under parents. |
| Mempool.AncestorCountDecreases | src/miner.h:79-86 | A proper ancestor has strictly fewer ancestors, so ancestor count is a topological order. |
| Mempool.CalculateMemPoolAncestors | src/txmempool.cpp:132-200 | True exactly when the ancestors are within all four limits; the result is then the set of all of them: the least parent-closed set that holds the parents. |
| Mempool.AncestorsOfEntry | src/txmempool.cpp:132-200 | For an entry of the pool those are its ancestors without itself. |
| Mempool.CalculateDescendants | src/txmempool.cpp:394-413 | The work-list loop finds exactly the transactions that have this one among their ancestors. |
| Mempool.TotalWeight | src/txmempool.cpp:640-650 | The weight of a set of transactions is at most four times its size, so a size bound is a weight bound. |
| Miner.TracksAfterInclusion | src/miner.h:106-116 | Taking one included ancestor off keeps every entry, failed or not, at its full totals less exactly the ancestors taken off since it was created, the first by its modified fee and the others by their plain fees. |
| Miner.FeeTrackingStep | src/miner.cpp:303-328 | One inclusion moves the error of the tracked fee by the adjustment of the included ancestor if the entry exists already, and not at all if it is created. |
| Miner.PlainFeesExact | src/miner.cpp:303-328 | Where no fee was adjusted the tracked fee of an entry that never failed is exact, and that of any other is too large by the fees included before it was created. |
| Miner.TrackingErrors | src/miner.cpp:303-328 | For every tracked entry, failed or not, how far size, sigops and fee are from the true remainder: by what was included before the entry was created, and the fee also by the adjustments of the ancestors taken off as updates. |
| Miner.TrackingExact | src/miner.cpp:303-328 | With positive sizes the tracked size is exact if and only if every included ancestor was taken off since the entry was created, as for every entry that never failed; the same for the fee if none was adjusted and all are positive. |
| Miner.TracksBounds | src/miner.h:106-116 | Tracked size and sigops lie between the true remainder and the full totals. |
| Miner.FeeErrorExample | src/miner.cpp:303-328 | A valid pool of three in a chain, one fee adjusted, in which including two leaves the third with a wrong tracked fee. |
| Miner.RecreatedExample | src/miner.cpp:303-408 | A valid pool with plain fees in which an entry fails, is created again, and counts the size and fee of a transaction already in the block. |
| Miner.LeftOutExample | src/miner.cpp:388-446 | A run in which that entry is rejected although what it still needs fits. |
| Miner.UpdateDescendants | src/miner.cpp:303-328 | Taking one included transaction off every descendant keeps the exact relation between the side index, what was taken off since, and the full totals. |
| Miner.SortedPutsAncestorsFirst | src/miner.h:79-86 | In a package sorted by ancestor count every ancestor stands before its descendants. |
| Miner.ParentStandsEarlier | src/miner.cpp:284-301 | In a block built so far every parent of a transaction stands strictly before it. |
| Miner.BlockAssembler.OnlyUnconfirmed | src/miner.cpp:245-254 | Keeps exactly the members not yet in the block. |
| Miner.BlockAssembler.TestPackageTransactions | src/miner.cpp:265-282 | True exactly when every member is final and its witness is allowed. |
| Miner.BlockAssembler.AddToBlock | src/miner.cpp:284-301 | Appends one transaction whose ancestors are in the block, with weight, sigops and fees counted; the block stays consistent and no transaction enters twice. |
| Miner.BlockAssembler.UpdatePackagesForAdded | src/miner.cpp:303-328 | After a whole package went in, that relation holds for the larger block, for every entry and every order. |
| Miner.BlockAssembler.SelectCandidate | src/miner.cpp:361-388 | Whichever candidate is chosen, the source's assertion that it is not in the block holds. |
| Miner.BlockAssembler.SortForBlock | src/miner.cpp:337-344 | A permutation of the package with every ancestor before its descendants. |
| Miner.BlockAssembler.AddPackage | src/miner.cpp:412-446 | A package enters whole, in order, and the block stays within its limits. |
| Miner.BlockAssembler.PackageFits | src/miner.cpp:256-263 | Testing with tracked totals is safe: an accepted package really fits by weight and sigops. |
| Miner.BlockAssembler.FailureIsNoRoom | src/miner.cpp:388-408 | A rejected package has no room under its full totals; and if its totals are exact, as they are when it never failed before, what it still needs has no room. |
| Miner.BlockAssembler.AddPackageTxs | src/miner.cpp:346-449 | Terminates for every pool and every order of candidates; the block is closed under ancestors with parents first and nothing twice, weight and sigops stay within limits, and when the candidates run out every transaction left out has a part that may not be mined or no room for its full totals. |
| AddrBook.RandomLength | src/addrman.cpp:372-447 | The random vector lists every known id exactly once and is as long as the two counters say. |
| AddrBook.CreateKeeps | src/addrman.cpp:96-106 | A new entry leaves every structure consistent but for its own missing reference. |
| AddrBook.SwapRandomKeeps | src/addrman.cpp:108-125 | Swapping two places of the random vector keeps everything else as it was. |
| AddrBook.DeleteKeeps | src/addrman.cpp:127-138 | Deleting an unreferenced entry removes it from all five structures consistently. |
| AddrBook.ClearNewKeeps | src/addrman.cpp:140-151 | Clearing a new slot keeps reference counts exact and deletes the entry at its last reference. |
| AddrBook.PlaceKeeps | src/addrman.cpp:282-299 | Placing an entry in its new slot, evicting or not, keeps everything consistent. |
| AddrBook.EvictKeeps | src/addrman.cpp:164-186 | The entry evicted from a tried slot goes back to its new slot, whose occupant makes way. |
| AddrBook.MakeTriedKeeps | src/addrman.cpp:153-191 | Moving an entry to the tried table leaves it there once, at its own slot, and nowhere else. |
| AddrBook.GoodKeeps | src/addrman.cpp:193-232 | A good connection keeps the whole invariant; the address is then tried. |
| AddrBook.AddEffect | src/addrman.cpp:234-300 | Adding reports a new address exactly when it is routable and was unknown; tried entries stay, and at most one other entry is lost. |
| AddrBook.AddedIsKept | src/addrman.cpp:273-300 | An unknown address is known afterwards if and only if its slot is free or its occupant is terrible or sits elsewhere too; otherwise nothing changes but the id counter. |
| AddrBook.GoodTimes | src/addrman.cpp:193-232 | The time fields pass the consistency check afterwards if and only if the time given is positive. |
| AddrBook.GoodTimesExample | src/addrman.cpp:193-232 | A consistent table that fails the check after its address is reported good at time zero. |
| AddrBook.AttemptTimes | src/addrman.cpp:302-319 | After an attempt the time fields pass the check if and only if the time given is not negative. |
| AddrBook.ListingExact | src/addrman.cpp:450-467 | The addresses listed are exactly the ones not terrible among the first examined, in order. |
| AddrBook.ListingComplete | src/addrman.cpp:450-467 | Examining all ids lists every address that is not terrible. |
| AddrBook.RunsAreConsistent | src/addrman.cpp:372-447 | After every run of adds, goods, attempts, connects, service changes and listings the whole consistency check holds. |
| AddrMan.AddrMan.Find | src/addrman.cpp:84-94 | Finds the id of an address exactly when it is known. |
| AddrMan.AddrMan.Create | src/addrman.cpp:96-106 | The new book, with the id returned. |
| AddrMan.AddrMan.SwapRandom | src/addrman.cpp:108-125 | Exchanges two places of the random vector and the positions noted for them. |
| AddrMan.AddrMan.Delete | src/addrman.cpp:127-138 | Removes the entry from all structures, moving it to the end of the random vector first. |
| AddrMan.AddrMan.ClearNew | src/addrman.cpp:140-151 | Empties a slot of the new table and lowers the reference count of its occupant. |
| AddrMan.AddrMan.MakeTried | src/addrman.cpp:153-191 | The loop over new buckets, the eviction and the move give the specified book. |
| AddrMan.AddrMan.Good | src/addrman.cpp:193-232 | The whole operation; the invariant holds afterwards. |
| AddrMan.AddrMan.Add | src/addrman.cpp:234-300 | The whole operation, with its early exits; the invariant holds afterwards and the result says whether the address is new. |
| AddrMan.AddrMan.Attempt | src/addrman.cpp:302-319 | The whole operation. |
| AddrMan.AddrMan.Connected | src/addrman.cpp:469-483 | The whole operation. |
| AddrMan.AddrMan.SetServices | src/addrman.cpp:485-497 | The whole operation. |
| AddrMan.AddrMan.GetAddr | src/addrman.cpp:450-467 | The partial shuffle lists only known addresses that are not terrible, no more than the limits allow. |
| CoinsLayer.FetchedKeeps | src/coins.cpp:57-75 | Fetching into the cache leaves the view as it was. |
| CoinsLayer.AddedKeeps | src/coins.cpp:86-110 | Adding a coin writes it in the view; a fresh mark is only given when the base has no unspent coin. |
| CoinsLayer.AddContractIsNeeded | src/coins.cpp:86-110 | When an add without permission to overwrite throws; otherwise the view shows the coin, and once the coin is spent it is gone if and only if the contract was kept: else the coin of the base comes back. |
| CoinsLayer.BrokenAddThrows | src/coins.cpp:86-213 | The next flush throws if and only if the contract was broken and the layer below has the coin in its own cache. |
| CoinsLayer.BrokenAddExample | src/coins.cpp:57-213 | Two layers in which an add goes through, its flush throws, and the spent coin comes back. |
| CoinsLayer.SpentKeeps | src/coins.cpp:124-139 | Spending erases the coin from the view, whether the entry is dropped or kept as spent. |
| CoinsLayer.UncachedKeeps | src/coins.cpp:222-228 | Dropping a clean entry leaves the view as it was. |
| CoinsLayer.MergedKeeps | src/coins.cpp:172-213 | Merging one entry of a child makes the parent show what the child shows there. |
| CoinsLayer.MergeThrows | src/coins.cpp:172-213 | Writing a whole child down throws if and only if some entry of it is fresh and dirty where the layer holds an unspent coin, whatever the order. |
| CoinsLayer.MergedAllKeeps | src/coins.cpp:172-213 | Merging a whole child, in any order, makes the parent's view the child's earlier view and never throws. |
| CoinsStack.StepRefines | src/coins.cpp:57-139 | Each step, reading and uncaching by any layer and the others by the top one, does to the views what the same step does to plain maps. |
| CoinsStack.RunRefines | src/coins.cpp:172-228 | Over any run of fetch, add, spend, uncache, push, discard and flush on a stack of any height, every layer's view is a plain map. |
| CoinsStack.FlushNeverThrows | src/coins.cpp:172-220 | The misapplied-fresh error cannot occur in a stack built by these operations. |
| Coins.CoinsViewDB.BatchWrite | src/txdb.cpp:81-113 | The database takes every dirty entry, a spent one as an erasure, whatever it held before, and the best block; from a consistent cache it becomes what the cache showed. |
| Coins.CoinsViewCache.FetchCoin | src/coins.cpp:57-75 | Every view in the stack stays as it was; found exactly when the view or a cached spent coin has it. |
| Coins.CoinsViewCache.GetCoin | src/coins.cpp:77-84 | The unspent coin of the view, if there is one. |
| Coins.CoinsViewCache.HaveCoin | src/coins.cpp:152-155 | True exactly when the view has the coin. |
| Coins.CoinsViewCache.AddCoin | src/coins.cpp:86-110 | When it throws; otherwise writes the coin in this view and no other, and a consistent stack stays so if and only if the contract was kept. |
| Coins.CoinsViewCache.SpendCoin | src/coins.cpp:124-139 | Erases the coin from this view only and hands it out. |
| Coins.CoinsViewCache.Uncache | src/coins.cpp:222-228 | No view changes. |
| Coins.CoinsViewCache.GetBestBlock | src/coins.cpp:162-166 | The best block of the nearest layer below that has one. |
| Coins.CoinsViewCache.SetBestBlock | src/coins.cpp:168-170 | Changes the best block and no view. |
| Coins.CoinsViewCache.BatchWrite | src/coins.cpp:172-213 | Throws if and only if an entry is misflagged; a consistent child makes this view the child's, with its best block. |
| Coins.CoinsViewCache.Flush | src/coins.cpp:215-220 | Throws if and only if an entry is misflagged for the cache below, and then keeps its entries; from a consistent stack the layer below shows what this one showed and this one is empty and shows the same. The best block is kept if this layer has one of its own. |
| Coins.AddCoins | src/coins.cpp:112-122 | Throws if and only if it does not look first, the transaction is no coinbase and an output is cached as unspent; otherwise all outputs appear in the view and nothing else changes, and a consistent stack stays so if it looked, for a coinbase, or if no output existed. |
| Coins.AddThenFlush | src/coins.cpp:86-220 | After an unasked add the flush throws if and only if the coin was there, the add did not notice and the cache below has it. |
| Coins.FlushForgets | src/coins.cpp:215-220 | A flush by a cache without a best block of its own changes its best block if and only if the cache below has one that differs from what lies below. |
| CheckQueue.RunChecksResult | src/checkqueue.h:85-88 | Running a batch answers true exactly when it started true and every check passes. |
| CheckQueue.AddKeeps | src/checkqueue.h:102-113 | Adding checks keeps the invariant, and with workers waiting at least one is notified. |
| CheckQueue.SettledKeeps | src/checkqueue.h:42-58 | Accounting for a finished batch, an arrival or a wake-up keeps the invariant. |
| CheckQueue.DecidedKeeps | src/checkqueue.h:58-83 | Taking a batch, waiting or returning keeps the invariant; a batch is never larger than the queue. |
| CheckQueue.RunInv | src/checkqueue.h:38-113 | In every run of any number of workers the outstanding count is the queued and held checks, every check added is in exactly one place, and the idle and total counts are exact. |
| CheckQueue.EveryWaitAnswers | src/checkqueue.h:58-67 | Every time Wait returns, all checks added since the last time have been retired, it answers true exactly when all of them pass, and the queue is clean for the next round. |
| CheckQueue.MasterNotForgotten | src/checkqueue.h:47-70 | While the master waits unnotified some worker holds checks, so it is never left asleep with nothing outstanding. |
| CheckQueue.LastWorkerNotifies | src/checkqueue.h:47-53 | The worker that retires the last check notifies the waiting master. |
| CheckQueue.LockAlwaysDefined | src/checkqueue.h:38-83 | A thread at the lock can always take its step. |
| Scheduler.StepKeeps | src/scheduler.cpp:136-188 | Every lock section keeps: at most one callback in progress, history in order, pending work on its way. |
| Scheduler.CallbacksInOrder | src/scheduler.cpp:136-188 | In every interleaving callbacks start in the order appended, each once, never two at a time, and pending ones with none running are on their way to being processed. |
| Scheduler.InternalRunsAreShort | src/scheduler.cpp:136-188 | Left to itself the client takes only so many steps. |
| Scheduler.NothingLeftBehind | src/scheduler.cpp:136-188 | Where no internal step is left, every callback appended over the whole run has been run to completion in order. |
| CompactBlock.CompactDescribes | src/blockencodings.cpp:18-30 | The compact form built from a block describes that block. |
| CompactBlock.PlacedHoles | src/blockencodings.cpp:64-78 | After prefilling there are exactly as many holes as short ids. |
| CompactBlock.IndexCoding | src/blockencodings.h:37-69 | Reading back the differential coding gives the same indexes if and only if they ascend; otherwise the reader throws. |
| CompactBlock.RequestRestores | src/net_processing.cpp:2404-2418 | The peer reads the request that is meant if and only if no missing position is beyond 16 bits; the answer to it restores the block transaction for transaction. |
| CompactBlock.RequestBeyond | src/net_processing.cpp:2404-2418 | Beyond 65536 transactions: the peer throws if a position within 16 bits is missing too, and else reads a request for the first transactions of the block. |
| CompactBlock.BeyondIsWrong | src/blockencodings.cpp:163-195 | Its answer puts the block's first transaction in the place of another. |
| PartialBlock.PlacePrefilled | src/blockencodings.cpp:64-78 | Succeeds exactly when every prefilled transaction fits, and puts each at its absolute position. |
| PartialBlock.MapShortIds | src/blockencodings.cpp:80-94 | Never ends exactly when all 16-bit positions are filled, fails exactly when ids repeat or a bucket overfills, and else maps each id to the hole it stands for, cut to 16 bits. |
| PartialBlock.MatchPass | src/blockencodings.cpp:96-150 | After a pass over a pool a position that is hit holds a transaction that hits it, and is empty only after two; stopping early loses nothing. |
| PartialBlock.PartiallyDownloadedBlock.InitData | src/blockencodings.cpp:50-155 | For every compact block, which status is returned when, and after success: a position no transaction on hand reaches is as prefilled, one reached holds such a transaction or nothing if two do, and the count is exact. |
| PartialBlock.EndlessExactly | src/blockencodings.cpp:80-86 | The search circles for ever if and only if 65536 transactions are prefilled and one more is announced. |
| PartialBlock.EndlessExample | src/blockencodings.cpp:80-86 | Such a compact block, well formed. |
| PartialBlock.SmallResolved | src/blockencodings.cpp:96-150 | Up to 65536 transactions: prefilled ones are in place, and every other position is resolved against its own short id. |
| PartialBlock.SmallCount | src/blockencodings.cpp:96-150 | Up to 65536 transactions the count of matches is what no longer has to be requested. |
| PartialBlock.InitBeyond | src/blockencodings.cpp:80-150 | Beyond 65536 transactions the last positions are never filled. |
| PartialBlock.PartiallyDownloadedBlock.MissingIndexes | src/net_processing.cpp:2404-2408 | The positions without a transaction, in order, cut to 16 bits. |
| PartialBlock.PartiallyDownloadedBlock.FillBlock | src/blockencodings.cpp:163-195 | Invalid exactly when the answer has the wrong length; otherwise the available transactions and the answer in order. |
| PartialBlock.WriteIndexes | src/blockencodings.h:63-68 | Writes the gaps of the indexes. |
| PartialBlock.ReadIndexes | src/blockencodings.h:37-62 | Adds the gaps up with a 16-bit offset, or throws. |
| PartialBlock.SendBlockTransactions | src/net_processing.cpp:1259-1272 | The block's transactions at the indexes, or nothing if one is out of bounds. |
| PartialBlock.InitGenuine | src/blockencodings.cpp:50-155 | Up to 65536 transactions: if what matches is genuine, whatever is put in place is the block's own transaction. |
| PartialBlock.Relay | src/blockencodings.cpp:18-195 | The whole exchange: when it is not accepted; once accepted, the block is rebuilt exactly if it has at most 65536 transactions, and never if it has more, unless its transaction at position 65536 equals its first. |
| PartialBlock.RelayBlock | src/blockencodings.cpp:18-195 | For the compact form the node itself sends, of a block whose first transaction no other equals: rebuilt exactly if and only if it has at most 65536 transactions. |
| PartialBlock.MakeCompact | src/blockencodings.cpp:18-30 | The first transaction in full, the rest by their ids in order. |
| MerkleTree.WidthMeans | src/merkleblock.h:26-28 | A node is within the width of its level exactly when a leaf lies under it. |
| MerkleTree.NodesDiffer | src/merkleblock.cpp:38-53 | With distinct transactions and an injective pair hash no two nodes of a level share a hash. |
| MerkleTree.BuiltSize | src/merkleblock.cpp:55-71 | A proof never has more hashes than leaves, nor more than bits. |
| MerkleTree.BuiltExtracts | src/merkleblock.cpp:73-109 | Reading back below a node finds its hash and exactly its matches and uses up exactly what was written. |
| MerkleTree.ExtractSound | src/merkleblock.cpp:73-109 | Whatever proof is read, a node that comes out with its true hash reports only true matches, ascending. |
| PartialMerkleTree.WireBits | src/merkleblock.h:46-63 | Packing bits into bytes and unpacking them only pads them. |
| PartialMerkleTree.PackBits | src/merkleblock.h:58-61 | The loop sets each bit of each byte. |
| PartialMerkleTree.CPartialMerkleTree.constructor | src/merkleblock.cpp:111-122 | The proof for the whole block. |
| PartialMerkleTree.CPartialMerkleTree.TraverseAndBuild | src/merkleblock.cpp:55-71 | Appends the proof below a node. |
| PartialMerkleTree.CPartialMerkleTree.TraverseAndExtract | src/merkleblock.cpp:73-109 | Reads below a node from the cursors, appending matches and marking what is bad. |
| PartialMerkleTree.CPartialMerkleTree.ExtractMatches | src/merkleblock.cpp:126-159 | The null hash unless every check passes; then the hash the proof commits to. |
| PartialMerkleTree.HonestProofAccepted | src/merkleblock.cpp:126-159 | An honest proof, sent or not, is accepted with the block's root and exactly the matched ids at ascending positions. |
| PartialMerkleTree.AcceptedProofTrue | src/merkleblock.cpp:126-159 | An accepted proof that comes out at a block's root reports only transactions of that block at their positions. |
| PartialMerkleTree.CountMatters | src/merkleblock.cpp:126-159 | Announced as a single transaction, the root of any block is accepted as a proof of itself. |
| PartialMerkleTree.ProveAndVerify | src/merkleblock.cpp:111-159 | Build, send, receive and extract, end to end. |
| Framing.FrameGood | src/net.cpp:2512-2530 | A message's frame is accepted and yields the message. |
| Framing.ChunksIrrelevant | src/net.cpp:665-711 | What is received depends only on the bytes, not on the chunks. |
| Framing.FeedPart | src/net.cpp:665-711 | Any first part of a stream of good frames reads as the frames fully arrived and the beginning of the next. |
| Connection.ReadHeader | src/net.cpp:732-754 | Takes as many header bytes as wanted and fails only for a size beyond all bounds. |
| Connection.ReadData | src/net.cpp:756-769 | Takes as many payload bytes as wanted; the buffer never grows past the announced size. |
| Connection.Receiver.TakeChunk | src/net.cpp:673-710 | One round of the loop takes in bytes exactly as the byte-by-byte reader does. |
| Connection.Receiver.ReceiveMsgBytes | src/net.cpp:665-711 | Any chunk takes the receiver where the byte-by-byte reader goes; false exactly when the stream is broken, with the messages before the break kept. |
| Connection.Sender.SocketSendData | src/net.cpp:778-828 | For any answers of the socket, exactly the bytes it accepts are sent and the connection closes exactly on a failed write; sent and pending bytes stay the frames of all messages pushed, offsets and sizes stay exact, and the code's assertions hold. |
| Connection.Sender.PushMessage | src/net.cpp:2512-2546 | Queues the frame behind what is pending and writes nothing if anything was; the pause flag says exactly whether the queue is over its limit. |
| Connection.Delivered | src/net.cpp:665-828 | However writes and reads are cut up, the messages completed are the first of those pushed, all whose frames arrived. |
| Connection.DeliveredUntil | src/net.cpp:665-828 | With an oversized message among those pushed, the messages before it are delivered, and the receiver fails exactly when its header has arrived. |
| Downloads.ReceivedKeeps | src/net_processing.cpp:301-325 | Receiving a block removes it from the map and from its peer's list and keeps the books consistent. |
| Downloads.InFlightKeeps | src/net_processing.cpp:327-365 | Requesting a block from a peer with room moves it there and keeps the books consistent. |
| Downloads.FinalizedKeeps | src/net_processing.cpp:567-601 | Forgetting a peer keeps the books consistent. |
| Downloads.AllGone | src/net_processing.cpp:593-599 | With no peer left nothing is in flight and every counter is zero. |
| Downloads.FetchesAll | src/net_processing.cpp:1442-1452 | A request loop with room for all its blocks asks for every one. |
| Downloads.RunsConsistent | src/net_processing.cpp:261-365 | After every run, header sync included, the map is exactly the disjoint union of the peers' lists, counts match and stay within limits, and the counters over all peers are exact. |
| PeerLogic.ScanFinds | src/net_processing.cpp:462-537 | Blocks found are wanted, ascending and no more than asked for; a scan that runs through has found all that are wanted. |
| PeerLogic.FindNextBlocksToDownload | src/net_processing.cpp:462-537 | Nothing for a peer without enough work or with no room; otherwise the batched walk is the block-by-block scan. |
| PeerLogic.PeerLogicValidation.InitializeNode | src/net_processing.cpp:553-565 | A new peer with empty books. |
| PeerLogic.PeerLogicValidation.FinalizeNode | src/net_processing.cpp:567-601 | The peer is forgotten; the assertions at the end of the function hold. |
| PeerLogic.PeerLogicValidation.UpdatePreferredDownload | src/net_processing.cpp:261-268 | The preferred counter stays the number of preferred peers. |
| PeerLogic.PeerLogicValidation.StartSync | src/net_processing.cpp:3127-3136 | Header sync starts with one peer at a time unless the best header is recent, and the counter stays the number of peers in sync. |
| PeerLogic.PeerLogicValidation.ProtectPeer | src/net_processing.cpp:1483-1495 | At most four peers are protected and the counter is exact. |
| PeerLogic.PeerLogicValidation.MarkBlockAsReceived | src/net_processing.cpp:301-325 | True exactly when the block was in flight; the books stay consistent. |
| PeerLogic.PeerLogicValidation.MarkBlockAsInFlight | src/net_processing.cpp:327-365 | False exactly when this peer has it already; the books stay consistent. |
| PeerLogic.PeerLogicValidation.DirectFetch | src/net_processing.cpp:1440-1452 | Asks until the peer has no room. |
| PeerLogic.PeerLogicValidation.RequestCompact | src/net_processing.cpp:2366-2382 | Asks only if the peer has room or is asked already. |
| PeerLogic.PeerLogicValidation.RequestBlocks | src/net_processing.cpp:3461-3477 | Asks for every block the scan finds and stays within the limit without checking again. |
| RollingBloom.WipeLabel | src/bloom.cpp:209-217 | The mask clears exactly the cells that carry the generation's label. |
| RollingBloom.MarkLabel | src/bloom.cpp:221-230 | Marking gives a cell the generation's label and leaves all others. |
| RollingBloom.RollHeld | src/bloom.cpp:203-218 | Starting a generation wipes nothing set in the last two. |
| RollingBloom.LastKept | src/bloom.cpp:202-219 | The last 2 * nEntriesPerGeneration keys are among those of the three generations kept. |
| RollingBloom.CRollingBloomFilter.Insert | src/bloom.cpp:202-231 | The keys since the reset, with one more, and the filter still holds those of the last generations. |
| RollingBloom.CRollingBloomFilter.Contains | src/bloom.cpp:238-250 | True exactly when no cell of the key is empty, and so for each of the last 2 * nEntriesPerGeneration keys. |
| RollingBloom.CRollingBloomFilter.Reset | src/bloom.cpp:257-265 | Empty again. |
| CuckooCache.ScaledInRange | src/cuckoocache.h:66-86 | A 32-bit hash scaled by the size is a valid location. |
| CuckooCache.Cache.EpochCheck | src/cuckoocache.h:93-114 | Exactly which slots become erasable, and when the next look is due. |
| CuckooCache.Cache.Insert | src/cuckoocache.h:138-171 | An element already stored is only marked as kept and in the epoch; otherwise it goes in and exactly one element goes out: the one at a free location if there is one, else one marked for erasure unless the chain reaches the depth limit; epoch flags travel with their elements, every element stays at one of its own locations, and nothing is stored that was not inserted. |
| CuckooCache.Cache.Contains | src/cuckoocache.h:173-182 | For an element other than the default, true exactly when it is stored, and only if it was inserted; erasing marks one slot that holds it and nothing else. |
| CuckooCache.OneOutMeans | src/cuckoocache.h:138-171 | After an insertion exactly the stored elements and the new one are stored, less the one put out. |
| CuckooCache.OnlyInserted | src/cuckoocache.h:138-182 | An insertion stores nothing but what was inserted before and the new element. |
| BlockTree.GetAncestor | src/chain.cpp:83-106 | The skip search is the walk along parents, or none out of range; in a tree with all skip links it follows exactly the links counted. |
| SkipHeights.SearchIsShort | src/chain.cpp:73-106 | From a height of n + 1 bits, for any height below, the search follows at most (n * n + 14 * n + 4) / 4 links. |
| SkipHeights.NearSteps | src/chain.cpp:73-106 | From a height with lowest one bit k, for a height within 2^k below: at most (k * k + 8 * k) / 4 links. |
| SkipHeights.LowCleared | src/chain.cpp:73-73 | Turning off the lowest one bit takes that power of two away and leaves a higher one. |
| BlockTree.Append | src/chain.cpp:113-116 | A tree grown with BuildSkip stays valid and keeps all its skip links: each leads to the ancestor at its skip height. |
| BlockTree.LowerLevel | src/chain.cpp:264-284 | Jumping both sides down to ancestors that differ keeps their common ancestors. |
| BlockTree.LastCommonAncestor | src/chain.cpp:264-284 | Terminates at the deepest block from which both descend. |
| ActiveChain.CChain.SetTip | src/chain.cpp:15-25 | Although it stops early, the chain is afterwards the whole path to the tip. |
| ActiveChain.CChain.FindFork | src/chain.cpp:53-62 | The deepest common ancestor with the tip, or none. |
| ActiveChain.CChain.GetLocator | src/chain.cpp:27-51 | The start, then blocks of the chain at the locator heights, strictly descending to height 0, at most eleven more than the bit length of the height; the start alone where the chain does not reach up to it. |
| Limbs.AddMod | src/arith_uint256.h:128-136 | Adding limb by limb with carries is adding modulo the range. |
| Limbs.RowSumFits | src/arith_uint256.cpp:67-79 | Each sum of the schoolbook product fits in 64 bits. |
| Limbs.MulMod | src/arith_uint256.cpp:67-79 | The rows of the schoolbook product sum to the product modulo the range. |
| Shifts.ShiftLeftMod | src/arith_uint256.cpp:24-37 | Moving limbs and bits left multiplies by a power of two modulo the range. |
| Shifts.ShiftRightDiv | src/arith_uint256.cpp:40-53 | Moving limbs and bits right divides by a power of two. |
| BaseUint.Uint.AddAssign | src/arith_uint256.h:128-136 | The sum modulo the range, also when an operand is added to itself. |
| BaseUint.Uint.Increment | src/arith_uint256.h:161-166 | Plus one modulo the range. |
| BaseUint.Uint.Decrement | src/arith_uint256.h:174-179 | Minus one modulo the range. |
| BaseUint.Uint.Complement | src/arith_uint256.h:70-75 | The greatest value minus this one. |
| BaseUint.Uint.Negate | src/arith_uint256.h:77-83 | The negative modulo the range. |
| BaseUint.Uint.SubAssign | src/arith_uint256.h:138-141 | The difference modulo the range. |
| BaseUint.Uint.CompareTo | src/arith_uint256.cpp:112-121 | The order of the values. |
| BaseUint.Uint.AddRow | src/arith_uint256.cpp:71-77 | One row of the product, every 64-bit sum in range. |
| BaseUint.Uint.MulAssign | src/arith_uint256.cpp:67-79 | The product modulo the range, and zero for a number multiplied by itself in place. |
| BaseUint.Uint.MulAssign32 | src/arith_uint256.cpp:56-64 | The product with a 32-bit number modulo the range. |
| BaseUint.Uint.ShiftLeft | src/arith_uint256.cpp:24-37 | Times a power of two modulo the range. |
| BaseUint.Uint.ShiftRight | src/arith_uint256.cpp:40-53 | Divided by a power of two. |
| BaseUint.Uint.Bits | src/arith_uint256.cpp:162-173 | The position of the highest bit set. |
| BaseUint.Uint.DivAssign | src/arith_uint256.cpp:82-110 | The floor of the quotient for every divisor but zero, which is an error. |
| BaseUint.Uint.Assign | src/arith_uint256.h:87-93 | A 64-bit number. |
| CompactTarget.OverflowExact | src/arith_uint256.cpp:203-205 | The overflow flag is set if and only if the exact value needs more than 256 bits. |
| CompactTarget.SetCompact | src/arith_uint256.cpp:190-207 | The value on limbs is the exact value modulo 2^256, and exact when the flag is clear. |
| CompactTarget.GetCompact | src/arith_uint256.cpp:209-228 | Size, mantissa and sign; the code's assertions hold. |
| CompactTarget.GreatestBelow | src/arith_uint256.cpp:190-228 | Encoding and decoding gives the greatest number with a compact form that is not above the original. |
| CompactTarget.SmallLoss | src/arith_uint256.cpp:209-228 | The loss is less than one part in 2^15. |
| CompactTarget.RoundingStable | src/arith_uint256.cpp:190-228 | Rounding is monotone and settles at once. |
| CompactTarget.WorkFormula | src/chain.cpp:129-129 | The formula for expected work is the floor of 2^256 over the target plus one. |
| CompactTarget.BaseProof | src/chain.cpp:118-129 | That number for a good target without wrapping, zero for a bad one. |
| Base58.EncodingRoom | src/base58.cpp:80-82 | 138 digits to 100 bytes are always enough. |
| Base58.DecodingRoom | src/base58.cpp:34-36 | 733 bytes to 1000 digits are always enough. |
| Base58.MulAdd | src/base58.cpp:43-52 | Multiply and add in place, stopping early; the carry is zero at the end. |
| Base58.Convert | src/base58.cpp:84-104 | The digits of the same number in the other base, without leading zeros. |
| Base58.EncodeBase58 | src/base58.cpp:72-111 | The encoding. |
| Base58.DecodeBase58 | src/base58.cpp:23-70 | The decoding, or failure, one character at a time. |
| Base58.ConvertWord | src/base58.cpp:34-56 | Stops at the first character outside the alphabet or at white space; whatever the characters before, nothing is ever carried out of the buffer. |
| Base58.DecodeEncoded | src/base58.cpp:23-111 | Decoding undoes encoding for every byte string. |
| Base58.EncodeDecoded | src/base58.cpp:23-111 | Whatever decodes is, apart from white space around it, the encoding of the result. |
| Bech32.StepLinear | src/bech32.cpp:26-49 | One step of the register is linear over exclusive or. |
| Bech32.StepKernel | src/bech32.cpp:26-49 | No state but zero steps to zero, so steps are injective. |
| Bech32.PolyLinear | src/bech32.cpp:26-49 | The register is linear over whole words. |
| Bech32.ChecksumUnique | src/bech32.cpp:68-84 | Six symbols complete a word to a valid one if and only if they are its checksum. |
| Bech32.BurstDetected | src/bech32.cpp:26-49 | A change within six symbols in a row, one symbol in particular, changes the register for words of any length. |
| Bech32.DoubleStep | src/bech32.cpp:26-49 | The register is linear over the field of 32 elements: the generators are multiples of the first. |
| Bech32.ScaleNonzero | src/bech32.cpp:26-49 | Scaling a state by a symbol that is not zero gives no zero state. |
| Bech32.PairDetected | src/bech32.cpp:26-49 | A change of one or two symbols, up to 88 apart, changes the register for words of any length. |
| Bech32Text.ChecksumVerifies | src/bech32.cpp:68-84 | The checksum created always verifies, and no other does. |
| Bech32Text.ErrorRejected | src/bech32.cpp:68-70 | Valid data changed within six symbols in a row no longer verifies. |
| Bech32Text.TwoErrorsRejected | src/bech32.cpp:68-70 | Valid data changed in one or two symbols anywhere no longer verifies, for as much data as a string of 90 characters holds. |
| Bech32Text.PrefixErrorRejected | src/bech32.cpp:55-70 | A prefix changed in one character no longer verifies. |
| Bech32Text.ComputePolyMod | src/bech32.cpp:26-49 | The loop with its five conditional generators computes the register. |
| Bech32Text.ExpandHRP | src/bech32.cpp:55-66 | High bits, zero, low bits. |
| Bech32Text.CreateChecksum | src/bech32.cpp:72-84 | The checksum. |
| Bech32Text.Encode | src/bech32.cpp:88-97 | The encoding. |
| Bech32Text.Decode | src/bech32.cpp:99-133 | The decoding, or nothing. |
| Bech32Text.DecodeEncoded | src/bech32.cpp:88-133 | Decoding undoes encoding if and only if the prefix is printable, not empty and without capitals, and the string has at most 90 characters. |
| Bech32Text.EncodeDecoded | src/bech32.cpp:88-133 | Whatever decodes is, up to capitals, the encoding of the result. |

## Left out

- PartialBlock.PartiallyDownloadedBlock.InitData: the bucket limit of the hash table is a parameter, and `extra_count`, which is only logged, is not modelled.
- CuckooCache.Cache.Insert: the depth limit, which the code takes from a floating-point logarithm, is a parameter; the collection flags are plain booleans, not bits of atomic bytes, and concurrent readers are not modelled.
- RollingBloom.CRollingBloomFilter.Contains: states no false-positive rate; the sizes come from floating-point formulas and are parameters.
- Miner.BlockAssembler.AddPackageTxs: which of two candidates is better is a parameter, since the code compares scores in floating point; the coinbase placeholder and block header are not modelled.
- Connection.Receiver.ReceiveMsgBytes: messages in the list are values, so sharing of message objects is not modelled; time stamps and byte counters are left out.
- PeerLogic.FindNextBlocksToDownload: the last common block, and whether the peer's best block has enough work, are parameters.
- PeerLogic.PeerLogicValidation.FinalizeNode: orphans and whether the connection time is updated are left out.
- Scheduler.CallbacksInOrder: callbacks started by a callback are activities of their own; the time-ordered scheduler queue and the loop of `EmptyQueue` are left out.
- CheckQueue.RunInv: thread interruption and the lock that admits one master at a time are left out.
- Coins.CoinsViewCache.BatchWrite: the memory accounting is left out.
- Bech32.PairDetected: detection of three and four changed symbols anywhere, which the format also promises, is not proved.
- AddrMan.AddrMan.GetAddr: random draws are parameters.
- `CAddrMan::Select_` ends only with probability one, and `CAddrMan::Unserialize` does not check that addresses in a file are unique.
- `CBloomFilter` and the match against a transaction's scripts would add only easy members.
- The Hive multipliers of `GetBlockProof` and all other floating-point formulas.
- Signatures, hash functions, the script interpreter, block and transaction validation, the wallet, RPC, storage and sockets.
