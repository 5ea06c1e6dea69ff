# Verified models of the market-data engine

The repository is a low-latency market-data engine in C++: two lock-free queues, two order books,
an object pool, an ITCH message parser, latency histograms and a WebSocket broadcaster. This
project states what those components guarantee and proves it in Dafny. `dafny verify
dfyconfig.toml` checks all of it.

## Components

- **Single-producer single-consumer ring** (`Spsc*.dfy`). A transition system in which every
  atomic load, atomic store and data copy of `try_push` and `try_pop` is one step, and a run is any
  interleaving of the two threads. The same transitions are read with unbounded counters and with
  64-bit words; the word machine is proved to take the same decisions on the same slots. The class
  `SPSCQueue` has the bodies of the methods, each run without interruption while the other thread
  rests anywhere inside its own call.
- **Multi-producer single-consumer queue** (`Mpsc*.dfy`). A transition system over an explicit
  heap, with any number of producers, an allocator that may reuse freed addresses, and a fault for
  every access to memory that is not allocated. That a reused address is never mistaken for its
  earlier node is proved beside it: frees follow the order of the exchanges, and a node's memory stays
  that of one allocation until its own free. The class `MPSCQueue` has the method bodies, which may
  run while pushes of other threads are in flight.
- **Order books** (`Book*.dfy`, `EnhancedOrderBook.dfy`, `OrderBook.dfy`). The order-by-order book
  keeps two maps of price levels and two totals beside its order index. Their meaning is defined
  from the live orders alone; agreement, history independence, the queries, and the simulation by
  the level-by-level book are proved over all runs. Sums are 64-bit and wrap. Spread and imbalance
  are exact reals (`BookSnapshots.dfy`).
- **Memory pool** (`Pool*.dfy`, `MemoryPool.dfy`). Chunks and the intrusive free list over explicit
  memory, where a slot is a union of an element and a link.
- **ITCH parser** (`Itch*.dfy`). Bytes are 8-bit vectors and fields are 16, 32 and 64-bit vectors;
  the shifts and masks of the byte swaps are the source's. Layouts are lists of fields, checked
  against absolute offsets and packed sizes. The encoder is the inverse the demo program uses: swap
  each number, then copy the struct.
- **Latency percentiles** (`Ranks.dfy`, `Latency*.dfy`). The bucketed histogram and the two sorting
  ones, against an order statistic defined by counting. The in-place one holds real samples, the other
  two 64-bit ones.
- **Base64 and WebSocket frames** (`Base64.dfy`, `WebSocketFrames.dfy`). The encoders' loops,
  against decoders of section 4 of RFC 4648 and section 5.2 of RFC 6455.

Where a documented expectation is false of the code, the exact condition is proved:

- Of the capacities 2^0 to 2^63, the ring is safe exactly from 2 on. At capacity 1, which the
  constructor admits, a filled slot looks free, and a run is given in which a push overwrites the item
  being popped.
- `tests/test_lock_free_queue.cpp:33-41` expects room for one item less than the capacity. The code
  takes exactly `capacity` items: four pushes into a ring of capacity 4 are accepted and the fifth is
  refused.
- `size()` is the number of items waiting exactly unless the producer is between its two stores. It
  wraps below zero exactly when moreover every item is popped, which takes the consumer's counter store
  as well. Between its own pushes the producer always reads the exact number.
- From a new book, the level index agrees with the live orders all along a run exactly when no sum
  leaves 64 bits and no order leaves from among zero-quantity orders only. A run of three commands
  loses the level of a live order, and a run of two adds makes a level of size zero.
- An imbalance lies between -1 and 1 exactly unless the 64-bit sum it divides by wraps while one side
  is below 2^63.
- The loop `while (parser.has_more())` ends exactly on well-framed buffers; a zero length, a short
  header or a truncated frame keeps it where it is forever, as three zero bytes do.
- A frame whose payload is 2^63 octets or longer has its top length bit set, which section 5.2 of
  RFC 6455 forbids: a frame is read back exactly when its payload is shorter.

## Model

| member | source | states |
|---|---|---|
| SpscModel.StepInv | include/lock_free_queue.hpp:63-109 | every atomic step of either thread keeps the ring invariant: which slots hold which items, which are free, and where each thread is |
| SpscSafety.FifoOrder | include/lock_free_queue.hpp:63-109 | in every interleaving the popped values are a prefix of the published ones, and at most `capacity` are unreleased |
| SpscSafety.SlotExclusion | include/lock_free_queue.hpp:63-109 | the data write of a push and the data read of a pop are never pending on the same slot |
| SpscSafety.PushRefusedIffFull | include/lock_free_queue.hpp:63-70 | the sequence load refuses a push if and only if exactly `capacity` items are unreleased at that moment |
| SpscSafety.PopRefusedIffEmpty | include/lock_free_queue.hpp:95-102 | the sequence load refuses a pop if and only if nothing published is left |
| SpscSafety.CountersClose | include/lock_free_queue.hpp:72-76 | head and tail differ by -1 to capacity + 1 in every reachable state, and by the number of items waiting when both threads are idle |
| SpscSafety.CapacityOneOverwrites | include/lock_free_queue.hpp:39-41 | at capacity 1, which the constructor admits, with words as with unbounded counters, a run in which a push writes the slot a pop is reading and the wrong item comes out |
| SpscSafety.SafeIffCapacityAtLeastTwo | include/lock_free_queue.hpp:35-41 | exclusion and order hold over all interleavings if and only if the capacity is at least 2 |
| SpscSafety.HoldsCapacity | include/lock_free_queue.hpp:63-77 | without pops, pushes are accepted until `capacity` items wait and refused from then on |
| SpscSafety.PushAlone | include/lock_free_queue.hpp:63-77 | the five steps of an uninterrupted push, in either arithmetic, as one transition |
| SpscSafety.PopAlone | include/lock_free_queue.hpp:95-109 | the five steps of an uninterrupted pop, in either arithmetic, as one transition |
| SpscWraparound.IndexAgrees | include/lock_free_queue.hpp:65 | masking a wrapped 64-bit counter designates the slot the unbounded counter designates modulo the capacity |
| SpscWraparound.StepAgrees | include/lock_free_queue.hpp:63-109 | one step of the word machine is the wrapped image of one step of the unbounded machine |
| SpscWraparound.WordRingRefinesUnbounded | include/lock_free_queue.hpp:35-109 | for capacity 2^k, 1 <= k <= 63, every run with 64-bit words takes the decisions and touches the slots of the run with unbounded counters |
| SpscWraparound.WordRingSafe | include/lock_free_queue.hpp:63-109 | order, slot exclusion and truthful refusals of the ring on 64-bit words, in every interleaving |
| SpscWraparound.WordRingSafeIff | include/lock_free_queue.hpp:35-41 | for the ring on 64-bit words with capacity 2^k, 0 <= k <= 63, exclusion and order hold over all interleavings if and only if k >= 1 |
| SpscWraparound.FourthPushAccepted | tests/test_lock_free_queue.cpp:33-41 | a ring of capacity 4 accepts the fourth push, which the test expects to fail, and refuses the fifth |
| SpscWraparound.SizeExactIff | include/lock_free_queue.hpp:111-115 | in every reachable state `size()` is the number of items waiting if and only if the producer is not between its two stores, and exceeds capacity + 1, having wrapped, if and only if it is and every item is popped |
| SpscWraparound.SizeLoadedApart | include/lock_free_queue.hpp:111-115 | with the two counters loaded at different moments, the result is the number waiting at the second load if and only if, modulo 2^64, nothing was published in between and nothing was uncounted at the first |
| SpscWraparound.SizeReadByProducer | include/lock_free_queue.hpp:111-115 | read by the producer between its pushes, `size()` is exact whatever pops run meanwhile |
| SpscWraparound.SizeReadByConsumer | include/lock_free_queue.hpp:111-115 | read by the consumer between its pops, `size()` is the number waiting at its first load if and only if that load is not between the producer's two stores |
| SpscWraparound.SizeCanUnderflow | include/lock_free_queue.hpp:111-119 | an item popped in full between the two stores of its push makes `size()` read 2^64 - 1 |
| Words.AndMask | include/lock_free_queue.hpp:65 | `x & (2^k - 1)` is `x % 2^k` |
| Words.ClearLowestBit | include/lock_free_queue.hpp:39-41 | `c & (c - 1)` is zero if and only if c is a power of two |
| SpscQueue.SPSCQueue.Create | include/lock_free_queue.hpp:35-51 | the constructor rejects exactly the capacities that are neither zero nor a power of two |
| SpscQueue.SPSCQueue.constructor | include/lock_free_queue.hpp:43-51 | a new ring is empty and every slot's sequence is its index |
| SpscQueue.SPSCQueue.TryPush | include/lock_free_queue.hpp:63-77 | the body is the word machine's push; wherever the consumer is, it is refused exactly when `capacity` items are unreleased, and otherwise appends |
| SpscQueue.SPSCQueue.TryPop | include/lock_free_queue.hpp:95-109 | the body is the word machine's pop; wherever the producer is, it returns nothing exactly when all that is published is popped, and otherwise the oldest item |
| SpscQueue.SPSCQueue.GetSize | include/lock_free_queue.hpp:111-115 | wherever the two threads are, the length of the contents if and only if the producer is not between its two stores, and else one less modulo 2^64 |
| SpscQueue.SPSCQueue.IsEmpty | include/lock_free_queue.hpp:117-119 | wherever the two threads are, true exactly when every item counted by the head counter is popped |
| MpscProofs.StepInv | include/lock_free_queue.hpp:152-177 | no step of any thread faults, and each keeps the list, link, data, producer and consumer conditions |
| MpscSafety.NeverFaults | include/lock_free_queue.hpp:143-177 | in every interleaving no step reads, writes or frees an address that is not allocated |
| MpscSafety.FreesInExchangeOrder | include/lock_free_queue.hpp:172-174 | the frees of any run are exactly the nodes in the order of their exchanges, the first sentinel in front, one for each value returned: no node is freed twice or out of turn |
| MpscSafety.FreeSparesOthers | include/lock_free_queue.hpp:174 | a free takes an allocated address that is no other node of the list and no node private to a producer |
| MpscSafety.SameAllocation | include/lock_free_queue.hpp:152-177 | from its exchange to its own free a node's address is neither freed nor allocated again, even though freed addresses are reused |
| MpscSafety.TouchesOwnNode | include/lock_free_queue.hpp:154-174 | every access of a producer or the consumer is to the node with its own exchange number, which is not freed yet |
| MpscSafety.HeldNodesStayAllocated | include/lock_free_queue.hpp:153-155 | the node a producer holds, private or as `prev`, is allocated and no step of any thread frees it |
| MpscSafety.ExchangeOrder | include/lock_free_queue.hpp:154-176 | returned values are a prefix of the values in the order of the exchanges on the head |
| MpscSafety.NothingIffEmptyOrUnlinked | include/lock_free_queue.hpp:165-170 | a pop finds no next node if and only if all exchanged items are popped or the next one's producer is between its exchange and its link store |
| MpscSafety.ProducerOrderKept | include/lock_free_queue.hpp:152-177 | what has been popped of one producer is a prefix of what that producer has pushed |
| MpscSafety.NoLeakWhenIdle | include/lock_free_queue.hpp:143-147 | with nobody inside, the allocated nodes are exactly the sentinel and the waiting items |
| MpscQueue.MPSCQueue.constructor | include/lock_free_queue.hpp:137-141 | an empty queue with one sentinel |
| MpscQueue.MPSCQueue.Push | include/lock_free_queue.hpp:152-156 | the body is the three steps of a push; the item joins the exchange order last |
| MpscQueue.MPSCQueue.TryPop | include/lock_free_queue.hpp:164-177 | the body is the steps of a pop; the next item in exchange order, or nothing and no change; nothing exactly when empty if no push is in flight |
| MpscQueue.MPSCQueue.Destroy | include/lock_free_queue.hpp:143-147 | the destructor terminates, takes out every remaining item in order and leaves no node allocated |
| BookAgreement.WithdrawGuards | src/enhanced_order_book.cpp:245-277 | in agreement, the level of a leaving order is found, its size and count are the rest plus the order, and the total covers it |
| BookAgreement.WithdrawMeaning | src/enhanced_order_book.cpp:245-277 | in any state, taking an order off a side: size, count and total go down under their guards, the level goes when either is zero, nothing happens without a level, and no other price changes |
| BookAgreement.DepositMeaning | src/enhanced_order_book.cpp:279-293 | in any state, putting an order on a side: size, count and total go up modulo 2^64, a missing level starts from zero, and no other price changes |
| BookAgreement.ZeroTogether | src/enhanced_order_book.cpp:254-260 | with positive quantities a level's size reaches zero exactly when its order count does |
| BookAgreement.DetachKeeps | src/enhanced_order_book.cpp:245-277 | removing an order keeps the agreement if and only if it does not leave zero-quantity orders alone on its level |
| BookAgreement.AttachKeeps | src/enhanced_order_book.cpp:279-293 | adding an order keeps the agreement if and only if its side's sum still fits in 64 bits |
| BookHistory.CommandKeepsAgreement | src/enhanced_order_book.cpp:12-128 | each of the six commands keeps the index in agreement with the live orders if and only if the sums fit and no level is lost to zero quantities |
| BookHistory.IndexAgreement | src/enhanced_order_book.cpp:12-128 | after any run with positive quantities and sums within 64 bits each side has a level at a price iff a live order rests there, with the sum and number of those orders, and the totals are the side sums |
| BookHistory.IndexByCharacter | src/enhanced_order_book.cpp:245-293 | the same index by the side characters themselves: bids and their total are those of the live orders with side 'B' or 'b', asks and theirs those of all other live orders |
| BookHistory.RunAgreesIff | src/enhanced_order_book.cpp:12-128 | over a run from a new book the index agrees after every command if and only if every command lets the sums fit and takes no order out from among zero-quantity ones |
| BookHistory.RemovalNeverMisses | src/enhanced_order_book.cpp:245-277 | in such runs the level is always found, both guards always hold, and size and count vanish together |
| BookHistory.ZeroQuantityLosesLevel | src/enhanced_order_book.cpp:257-259 | add, add with quantity zero, delete the first: the second order is live without a level |
| BookHistory.SumOverflows | src/enhanced_order_book.cpp:279-293 | two bids of 2^63 at one price leave a level and a total of size zero |
| BookHistory.HistoryIndependence | src/enhanced_order_book.cpp:12-128 | levels and totals reached by any such run are those of a fresh book filled with the surviving orders in any sequence |
| BookQueries.BestIsExtreme | src/enhanced_order_book.cpp:130-138 | the best price is p if and only if p is a live price of the side and no live price is better |
| BookQueries.NoBestIffNoOrders | src/enhanced_order_book.cpp:130-138 | there is no best price if and only if no order is live on the side |
| BookQueries.BestBidByCharacter | src/enhanced_order_book.cpp:130-133 | the best bid is p if and only if p is the highest price of a live order with side 'B' or 'b' |
| BookQueries.BestAskByCharacter | src/enhanced_order_book.cpp:135-138 | the best ask is p if and only if p is the lowest price of a live order with any other side character |
| BookQueries.BestOfLevels | src/enhanced_order_book.cpp:130-148 | in any state, the first price of a side is its highest bid or lowest ask, with that level's size, and there is none exactly when the side is empty |
| BookQueries.DepthIsBestLevels | src/enhanced_order_book.cpp:198-224 | depth n is the min(n, levels) best live prices in strict order, each with the sum and number of its orders, and every live price left out is worse |
| BookQueries.BidDepthDescends | src/enhanced_order_book.cpp:198-210 | bid depth n is min(n, levels) levels of the book in falling price order, each above every level left out |
| BookQueries.AskDepthAscends | src/enhanced_order_book.cpp:212-224 | ask depth n is min(n, levels) levels of the book in rising price order, each below every level left out |
| BookQueries.CrossedIffOrdersCross | src/enhanced_order_book.cpp:226-233 | the book is crossed if and only if some live bid is at or above some live ask |
| BookQueries.CrossedByCharacter | src/enhanced_order_book.cpp:226-233 | the book is crossed if and only if a live order with side 'B' or 'b' is priced at or above one with any other side |
| EnhancedOrderBook.EnhancedOrderBook.constructor | src/enhanced_order_book.cpp:5-10 | a new book is empty and in agreement |
| EnhancedOrderBook.EnhancedOrderBook.RemoveFromPriceLevel | src/enhanced_order_book.cpp:245-277 | one side's level and total after both guards and the erasure test: the bids for 'B' and 'b', the asks for any other character; the other side is untouched |
| EnhancedOrderBook.EnhancedOrderBook.AddToPriceLevel | src/enhanced_order_book.cpp:279-293 | one side's level and total with the order added: the bids for 'B' and 'b', the asks for any other character; the other side is untouched |
| EnhancedOrderBook.EnhancedOrderBook.AddOrder | src/enhanced_order_book.cpp:12-27 | true if and only if the id was not live, and then the order is live with the given fields; otherwise nothing changes; the side of the other characters is untouched; agreement is kept |
| EnhancedOrderBook.EnhancedOrderBook.ModifyOrder | src/enhanced_order_book.cpp:29-52 | true if and only if the id was live; quantity zero deletes, any other replaces quantity and time; no other order and not the other side; agreement is kept |
| EnhancedOrderBook.EnhancedOrderBook.CancelOrder | src/enhanced_order_book.cpp:54-76 | true if and only if the id was live; a cancel of the whole quantity or more deletes, a smaller one reduces; no other order and not the other side; agreement is kept |
| EnhancedOrderBook.EnhancedOrderBook.DeleteOrder | src/enhanced_order_book.cpp:78-91 | true if and only if the id was live, and then exactly that order is gone; the other side is untouched; agreement is kept |
| EnhancedOrderBook.EnhancedOrderBook.ExecuteOrder | src/enhanced_order_book.cpp:93-115 | true if and only if the id was live; an execution of the whole quantity or more deletes, a smaller one reduces; no other order and not the other side; agreement is kept |
| EnhancedOrderBook.EnhancedOrderBook.ReplaceOrder | src/enhanced_order_book.cpp:117-128 | true if and only if the old id was live and the new id was not, or equals it; then the new order stands in place of the old one; when only the new id is refused the old order is gone and the occupant untouched; agreement is kept |
| EnhancedOrderBook.EnhancedOrderBook.Clear | src/enhanced_order_book.cpp:235-243 | the empty book |
| EnhancedOrderBook.EnhancedOrderBook.BestBid | src/enhanced_order_book.cpp:130-133 | the highest price of the live orders with side 'B' or 'b', if any |
| EnhancedOrderBook.EnhancedOrderBook.BestAsk | src/enhanced_order_book.cpp:135-138 | the lowest price of the live orders with any other side, if any |
| EnhancedOrderBook.EnhancedOrderBook.BestBidSize | src/enhanced_order_book.cpp:140-143 | the size of the best bid level, if any |
| EnhancedOrderBook.EnhancedOrderBook.BestAskSize | src/enhanced_order_book.cpp:145-148 | the size of the best ask level, if any |
| EnhancedOrderBook.EnhancedOrderBook.GetBidDepth | src/enhanced_order_book.cpp:198-210 | the loop returns the first min(n, levels) levels in descending price order, leaving out only lower ones |
| EnhancedOrderBook.EnhancedOrderBook.GetAskDepth | src/enhanced_order_book.cpp:212-224 | the loop returns the first min(n, levels) levels in ascending price order, leaving out only higher ones |
| EnhancedOrderBook.EnhancedOrderBook.IsCrossed | src/enhanced_order_book.cpp:226-233 | true exactly when some live order with side 'B' or 'b' is priced at or above one with any other side |
| EnhancedOrderBook.EnhancedOrderBook.GetSpread | src/enhanced_order_book.cpp:150-157 | 10000 times the result is lowest ask less highest bid; zero when a side is empty |
| EnhancedOrderBook.EnhancedOrderBook.GetImbalance | src/enhanced_order_book.cpp:159-165 | times the wrapped sum of the totals, the result is bid total less ask total; zero when that sum is; in agreement the totals are the sums of the live orders |
| EnhancedOrderBook.EnhancedOrderBook.TakeSnapshot | src/enhanced_order_book.cpp:176-196 | best prices and sizes or zero, spread, imbalance of the totals, level counts, time stamp |
| BookMirror.EditMeaning | src/order_book.cpp:10-92 | what each of the four level commands does to any levels: whether the price is then there, with which size and count, and that no other price changes |
| BookMirror.CommandMirrored | src/order_book.cpp:10-92 | one order-based command and the level-based commands derived from it leave the two books with the same prices, sizes, clock and message count |
| BookMirror.RunMirrored | src/order_book.cpp:10-92 | every run of the order-based book with positive quantities and sums within 64 bits is simulated by the level-based one |
| BookMirror.RemoveMirrored | src/order_book.cpp:56-66 | removing a level is deleting every order that rests there, in any sequence, from the order-based book: prices and sizes stay equal |
| BookSnapshots.SnapshotsEqual | src/order_book.cpp:135-155 | after any such run both books publish the same best prices and sizes, spread, level counts, time stamp and message count, and the same imbalance of the best sizes |
| BookSnapshots.SpreadMeaning | src/enhanced_order_book.cpp:150-157 | 10000 times the spread is the lowest ask less the highest bid, and the spread is zero when a side is empty |
| BookSnapshots.ImbalanceMeaning | src/enhanced_order_book.cpp:159-165 | the imbalance times the wrapped sum is the first quantity less the second, and zero when that sum is zero |
| BookSnapshots.BestImbalanceMeaning | src/order_book.cpp:123-133 | the imbalance of the sizes of the highest bid and the lowest ask, and zero when a side is empty |
| BookSnapshots.SnapshotTells | src/order_book.cpp:135-155 | every field of a snapshot: level counts per side, the highest bid and lowest ask with their sizes or zero, and the spread between them |
| BookSnapshots.ImbalanceInRangeIff | src/enhanced_order_book.cpp:159-165 | an imbalance lies between -1 and 1 if and only if the 64-bit sum does not wrap or both sides are at least 2^63 |
| OrderBook.OrderBook.constructor | src/order_book.cpp:5-8 | an empty book |
| OrderBook.OrderBook.AddBid | src/order_book.cpp:10-17 | the level's size and count go up modulo 2^64, a missing level starts from zero; no other price and not the other side changes |
| OrderBook.OrderBook.AddAsk | src/order_book.cpp:19-26 | the level's size and count go up modulo 2^64, a missing level starts from zero; no other price and not the other side changes |
| OrderBook.OrderBook.ModifyBid | src/order_book.cpp:28-40 | the price is present if and only if the size is not zero, and then has that size; a missing level is made with one order; no other price and not the other side changes |
| OrderBook.OrderBook.ModifyAsk | src/order_book.cpp:42-54 | the price is present if and only if the size is not zero, and then has that size; a missing level is made with one order; no other price and not the other side changes |
| OrderBook.OrderBook.RemoveBid | src/order_book.cpp:56-60 | the level is gone; no other price and not the other side changes; the clock and the count move on |
| OrderBook.OrderBook.RemoveAsk | src/order_book.cpp:62-66 | the level is gone; no other price and not the other side changes; the clock and the count move on |
| OrderBook.OrderBook.ExecuteBid | src/order_book.cpp:68-79 | the level stays if and only if it was larger than the execution, and then has the difference; no other price and not the other side changes; the clock and the count move on even without a level |
| OrderBook.OrderBook.ExecuteAsk | src/order_book.cpp:81-92 | the level stays if and only if it was larger than the execution, and then has the difference; no other price and not the other side changes; the clock and the count move on even without a level |
| OrderBook.OrderBook.Clear | src/order_book.cpp:157-162 | the empty book |
| OrderBook.OrderBook.BestBid | src/order_book.cpp:94-97 | the highest bid level, if any |
| OrderBook.OrderBook.BestAsk | src/order_book.cpp:99-102 | the lowest ask level, if any |
| OrderBook.OrderBook.BestBidSize | src/order_book.cpp:104-107 | the size of the highest bid level, if any |
| OrderBook.OrderBook.BestAskSize | src/order_book.cpp:109-112 | the size of the lowest ask level, if any |
| OrderBook.OrderBook.GetSpread | src/order_book.cpp:114-121 | 10000 times the result is lowest ask less highest bid; zero when a side is empty |
| OrderBook.OrderBook.GetImbalance | src/order_book.cpp:123-133 | the imbalance of the two best sizes, or zero |
| OrderBook.OrderBook.TakeSnapshot | src/order_book.cpp:135-155 | best prices and sizes or zero, spread, imbalance of the best sizes, level counts, time stamp |
| PoolProofs.AllocateInv | include/memory_pool.hpp:65-75 | allocation hands out the head of the free list, of a new chunk if it was empty, and keeps the partition |
| PoolProofs.AllocateFrame | include/memory_pool.hpp:65-75 | the slot was not live before; every other live slot stays live with its contents |
| PoolProofs.DeallocateInv | include/memory_pool.hpp:77-86 | a live slot given back becomes the head of the free list and the partition is kept |
| PoolProofs.DeallocateFrame | include/memory_pool.hpp:77-86 | exactly that slot stops being live; every other live slot keeps its contents |
| PoolProofs.DeallocateKeepsIffLive | include/memory_pool.hpp:77-86 | giving back a slot of the pool leaves a finite free list without repetition if and only if the slot is live |
| PoolRuns.SlotsPartitioned | include/memory_pool.hpp:33-86 | after any valid run the free list is finite and without repetition, every slot is either on it or live, and the live ones number `allocated()` |
| PoolRuns.ChunksFollowPeak | include/memory_pool.hpp:33-75 | after any valid run there are max(1, ceil(peak live count / ChunkSize)) chunks: enough for the peak, and without the last one too few |
| PoolRuns.LastInFirstOut | include/memory_pool.hpp:64-86 | n deallocations followed by n allocations return the same slots in reverse order |
| MemoryPool.MemoryPool.constructor | include/memory_pool.hpp:49-51 | a new pool has one chunk, all of it free |
| MemoryPool.MemoryPool.AllocateChunk | include/memory_pool.hpp:33-46 | the loop links the new slots in order in front of the old free list |
| MemoryPool.MemoryPool.Alloc | include/memory_pool.hpp:64-75 | a slot that was not live; what was live stays live and unchanged; the count goes up by one, and a chunk is added exactly when the free list was empty |
| MemoryPool.MemoryPool.Dealloc | include/memory_pool.hpp:77-86 | nothing for a null pointer; otherwise exactly that slot is freed, it is the next one handed out, and the count goes down by one |
| MemoryPool.MemoryPool.Destroy | include/memory_pool.hpp:53-59 | the loop terminates, frees each chunk exactly once and leaves no memory |
| ItchWire.BigEndian16 | include/itch_parser.hpp:245-247 | swapping a loaded 16-bit number reads its bytes most significant first |
| ItchWire.BigEndian32 | include/itch_parser.hpp:249-254 | the same for 32 bits |
| ItchWire.BigEndian64 | include/itch_parser.hpp:256-265 | the same for 64 bits |
| ItchWire.FieldsRoundTrip | src/main.cpp:237-250 | fields swapped and stored come back when loaded and swapped, whatever follows |
| ItchMessages.SizesAddUp | include/itch_parser.hpp:33-167 | the packed layouts have the sizes 16, 43, 40, 44, 35, 40, 27, 23, 39 and 48 that the parser compares lengths with |
| ItchMessages.MessageRoundTrip | src/main.cpp:237-250 | decoding an encoded message of any of the ten types gives it back |
| ItchMessages.CopyThenSwapIsDecode | src/itch_parser.cpp:21-168 | in each of the ten cases, copying the struct and overwriting the listed fields swaps every number and nothing else |
| ItchOffsets.DecodeReadsOffsets | include/itch_parser.hpp:33-167 | every field of every message is read at its absolute offset, numbers most significant byte first |
| ItchOffsets.NoReadingIff | src/itch_parser.cpp:21-169 | a complete frame carries no message if and only if its third byte is none of the ten characters or the length is below that character's size |
| ItchOffsets.SystemEventReading | src/itch_parser.cpp:22-33 | a complete frame carries a system event if and only if its third byte is 'S' and its length is at least 16; every field from its absolute offset |
| ItchOffsets.StockDirectoryReading | src/itch_parser.cpp:34-47 | a complete frame carries a stock directory if and only if its third byte is 'R' and its length is at least 43; every field from its absolute offset |
| ItchOffsets.AddOrderReading | src/itch_parser.cpp:48-62 | a complete frame carries an add order if and only if its third byte is 'A' and its length is at least 40; every field from its absolute offset |
| ItchOffsets.AddOrderMPIDReading | src/itch_parser.cpp:63-77 | a complete frame carries an add order with MPID if and only if its third byte is 'F' and its length is at least 44; every field from its absolute offset |
| ItchOffsets.OrderExecutedReading | src/itch_parser.cpp:78-92 | a complete frame carries an execution if and only if its third byte is 'E' and its length is at least 35; every field from its absolute offset |
| ItchOffsets.OrderExecutedWithPriceReading | src/itch_parser.cpp:93-108 | a complete frame carries an execution with price if and only if its third byte is 'C' and its length is at least 40; every field from its absolute offset |
| ItchOffsets.OrderCancelReading | src/itch_parser.cpp:109-122 | a complete frame carries a cancel if and only if its third byte is 'X' and its length is at least 27; every field from its absolute offset |
| ItchOffsets.OrderDeleteReading | src/itch_parser.cpp:123-135 | a complete frame carries a delete if and only if its third byte is 'D' and its length is at least 23; every field from its absolute offset |
| ItchOffsets.OrderReplaceReading | src/itch_parser.cpp:136-151 | a complete frame carries a replace if and only if its third byte is 'U' and its length is at least 39; every field from its absolute offset |
| ItchOffsets.TradeReading | src/itch_parser.cpp:152-168 | a complete frame carries a trade if and only if its third byte is 'P' and its length is at least 48; every field from its absolute offset |
| ItchInverse.EncodeOfDecode | src/itch_parser.cpp:21-168 | bytes of a struct, decoded and encoded again, are the same bytes |
| ItchParser.Parser.constructor | include/itch_parser.hpp:273-274 | a new parser stands at offset zero |
| ItchParser.Parser.ParseNext | src/itch_parser.cpp:7-174 | nothing and no move on an incomplete frame; otherwise past the big-endian length, with the message that the third byte and the length call for, read from its absolute offsets |
| ItchParser.Parser.Reset | include/itch_parser.hpp:282 | back to offset zero |
| ItchParser.ParsedFromBytes | src/itch_parser.cpp:7-174 | the decoding by layouts and kinds is, on every buffer and offset, what the literal table of characters, sizes and offsets says |
| ItchParser.AdvancesUnlessStalled | src/itch_parser.cpp:8-17 | a call stays inside the buffer and fails to advance if and only if the header is incomplete, the length is zero or the frame is truncated |
| ItchParser.StalledForever | src/itch_parser.cpp:8-17 | once a call fails to advance, no later call advances or returns a message |
| ItchParser.PositionUnchangedByMore | src/itch_parser.cpp:7-174 | appending bytes leaves the offsets after complete frames as they were |
| ItchParser.ResultsUnchangedByMore | src/itch_parser.cpp:7-174 | appending bytes leaves the results of complete frames as they were |
| ItchParser.StreamRoundTrip | src/itch_parser.cpp:7-174 | for any sequence of padded messages and skipped frames, repeated calls return exactly the messages in order and end at the end of the buffer |
| ItchParser.LoopEndsIffWellFramed | src/main.cpp:261-264 | the loop that parses while there is more ends if and only if frames of non-zero length fill the buffer |
| ItchParser.ZeroLengthStalls | src/itch_parser.cpp:12-17 | on three zero bytes no call ever advances or returns a message |
| ItchInverse.AlignedIffStream | src/itch_parser.cpp:8-17 | a buffer is the encoding of a sequence of frames if and only if complete frames of three bytes or more fill it |
| ItchInverse.StreamInjective | src/itch_parser.cpp:7-174 | no two sequences of frames have the same bytes |
| ItchFeed.Feed | src/main.cpp:261-287 | on a well-framed buffer the loop terminates and the book is the one the Add Order messages give in order |
| ItchFeed.AddsOfStream | src/main.cpp:261-287 | for a stream of frames these adds are those of the frames, in order |
| ItchFeed.AddsOfMessages | src/main.cpp:261-287 | for a stream of Add Order messages only, one add a message, with its fields |
| ItchFeed.SameBookAsAdds | src/main.cpp:261-287 | feeding a stream of Add Order messages gives the same book as applying the adds directly |
| ItchFeed.FeedFillsBook | src/main.cpp:261-287 | fed any stream of frames, a book then holds exactly the orders that were there, unchanged, and one a reference of the Add Order messages, with the fields of the first message that brings it |
| Ranks.KthIffIsKth | src/benchmark.cpp:38-44 | position k of the sorted samples is the only value with fewer than k samples below it and at least k at most it |
| Ranks.KthOfMultiset | src/benchmark.cpp:38-44 | order statistics do not depend on the order of recording |
| LatencyTracker.UpToIsBelow | include/latency_tracker.hpp:68-69 | the first i buckets hold the samples below i, and all of them hold all samples |
| LatencyTracker.ExtremesAreRanks | include/latency_tracker.hpp:65-66 | the kept minimum and maximum are the first and the last order statistic |
| LatencyTracker.BucketedRank | include/latency_tracker.hpp:76-90 | with k <= n * p < k + 1, for any k: the bucketed percentile is the value that counting gives for k |
| LatencyTracker.LatencyHistogram.constructor | include/latency_tracker.hpp:54-59 | no samples, all buckets zero |
| LatencyTracker.LatencyHistogram.Record | include/latency_tracker.hpp:61-70 | buckets, count, sum, minimum and maximum are those of the samples with the new one added |
| LatencyTracker.LatencyHistogram.Percentile | include/latency_tracker.hpp:76-90 | with k <= count * p < k + 1: by counting, the k-th smallest sample cut off at the last bucket; zero when k is zero or there are no samples, the last bucket when k is beyond the count |
| LatencyTracker.LatencyHistogram.Reset | include/latency_tracker.hpp:96-104 | no samples, all buckets zero |
| LatencySorting.BucketedByCounting | include/latency_tracker.hpp:76-90 | with k <= n * q < k + 1: a value is the bucketed percentile if and only if counting says so: fewer than k samples below it and k at most it, or the last bucket with fewer than k samples below it |
| LatencySorting.InPlaceRank | include/latency_histogram.hpp:44-49 | with k <= p / 100 * (n - 1) < k + 1, for any k: the in-place percentile is order statistic k + 1 by counting |
| LatencySorting.CopiedRank | src/benchmark.cpp:35-45 | with k <= p * n < k + 1, for any k: the copying percentile is order statistic min(k, n - 1) + 1 by counting |
| LatencySorting.SampleHistogram.Record | include/latency_histogram.hpp:15-17 | the new sample joins the others |
| LatencySorting.SampleHistogram.Clear | include/latency_histogram.hpp:19-21 | no samples |
| LatencySorting.SampleHistogram.Percentile | include/latency_histogram.hpp:44-49 | with k <= p / 100 * (count - 1) < k + 1: by counting, order statistic k + 1, with the samples left sorted; zero without samples |
| LatencySorting.SortedInPlace | include/latency_histogram.hpp:44-49 | sorting for one percentile leaves every later percentile as it was |
| LatencySorting.LatencyStats.Record | src/benchmark.cpp:23-29 | minimum, maximum, sum and count are those of the samples with the new one added |
| LatencySorting.LatencyStats.Percentile | src/benchmark.cpp:35-45 | with k <= p * count < k + 1: by counting, order statistic min(k, count - 1) + 1, with the samples untouched; zero without samples |
| LatencySorting.PercentilesOrdered | src/benchmark.cpp:35-45 | for all p in [0, 1] on the same samples: bucketed <= in-place and at most the last bucket, and in-place <= copied |
| Base64.Base64Encode | src/websocket_server.cpp:15-59 | the loops over the scratch arrays produce the grouped encoding |
| Base64.WriteGroup | src/websocket_server.cpp:28-36 | three bytes give four characters of six bits each |
| Base64.WriteRest | src/websocket_server.cpp:40-56 | one or two left-over bytes, filled up with zeros, give two or three characters and the padding |
| Base64.DecodeOfEncode | src/websocket_server.cpp:15-59 | the decoder of section 4 of RFC 4648 undoes the encoder on every byte string |
| Base64.EncodeOfDecode | src/websocket_server.cpp:15-59 | that decoder accepts nothing but encodings |
| Base64.EncodeInjective | src/websocket_server.cpp:15-59 | no two byte strings share an encoding |
| Base64.EncodedLength | src/websocket_server.cpp:15-59 | 4 * ceil(n / 3) characters |
| Base64.PaddingAtEnd | src/websocket_server.cpp:40-56 | the '=' characters are exactly the last (3 - n mod 3) mod 3 |
| WebSocketFrames.Broadcast | src/websocket_server.cpp:299-319 | first octet 0x81, the length, the payload |
| WebSocketFrames.BroadcastBinary | src/websocket_server.cpp:329-346 | first octet 0x82, the length, the payload |
| WebSocketFrames.PushLength | src/websocket_server.cpp:303-315 | the length octets in the 7, 16 or 64-bit form |
| WebSocketFrames.ShortestForm | src/websocket_server.cpp:303-315 | whatever form a length is read from, the builders use no more octets for it |
| WebSocketFrames.FrameRead | src/websocket_server.cpp:299-319 | a frame is read back by the decoder of section 5.2 of RFC 6455, whatever follows, if and only if its payload is shorter than 2^63 |
| WebSocketFrames.HugeFrameRefused | src/websocket_server.cpp:310-315 | a payload of 2^63 octets is not read back |
| WebSocketFrames.StreamRead | src/websocket_server.cpp:299-346 | a concatenation of frames is read back, opcodes and payloads, if and only if every payload is shorter than 2^63 |
| WebSocketFrames.StreamInjective | src/websocket_server.cpp:299-346 | no two sequences of such frames have the same octets |
| WebSocketFrames.StreamWrittenBack | src/websocket_server.cpp:299-346 | the decoder accepts nothing but such streams |

## Left out

- SpscQueue.SPSCQueue.TryPush: requires a capacity above zero, because the code would index an empty buffer; what an item's move constructor leaves behind in a slot is not modelled.
- SpscQueue.SPSCQueue.TryPop: requires a capacity above zero, for the same reason.
- MemoryPool.MemoryPool.Dealloc: a pointer that is not live is outside the contract; `PoolProofs.DeallocateKeepsIffLive` says what it breaks.
- LatencyTracker.LatencyHistogram.Percentile: `count * p` is an exact product, and fewer than 2^64 samples are assumed so that the bucket counters have not wrapped.
- ItchFeed.Feed: the buffer must be well-framed, because the loop of the source does not end otherwise.
- ItchParser.Parser.ParseNext: `offset + length` is computed without the wrap of `size_t`, which no buffer in memory can reach.
- MemoryPool.MemoryPool.AllocateChunk: the chunk is a fresh address; a failed allocation, which the source does not check for, is not modelled.
- Weak-memory reordering, cache-line alignment and aligned allocation: threads interleave step by step.
- The move overloads of `try_push`, `push`: same steps as the copying ones.
- Prices beyond 64 bits: prices are unbounded integers, only sizes, counts, totals and sequence numbers wrap.
- Rounding of doubles in the spread, the imbalance and the percentile positions: they are exact reals here.
- `mid_price`, `average`, `mean`, cycle-to-time conversions, and the `min` and `max` scans of the sample histogram: no law beyond their own formula.
- `total_orders`, accessors and `OrderBookManager`: read a field or look up a map.
- Calls of an operator on a moved-from or destroyed object, and exceptions thrown by an item's copy constructor.
- Sockets, the accept loop, the handshake and SHA-1 in `src/websocket_server.cpp`; sending a finished frame to each client.
- `src/tick_recorder.cpp`, `src/replay_engine.cpp`: files, memory maps, clocks and threads.
- `src/strategy.cpp`: floating-point thresholds and a callback.
- `src/pcap_reader.cpp`, `include/iex_parser.hpp`, `src/marketdata_parser.cpp`: fixed-offset decoding, easier relatives of the ITCH results.
- Timers, time-stamp counters, benchmark drivers and console output.
