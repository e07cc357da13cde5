# Containers, a thread barrier and argument ranges: a Dafny model

This project models the hard parts of `cielutils` (`include/ciel`) and of the two libraries in its benchmark
directory, EASTL and Google Benchmark, and proves what they are meant to keep.

Where the program rewrites links, slots or counters in place, so does the model: the trees, the hash table and the
intrusive list are linked `class` nodes, the buffers are arrays of slots, the odometer is an array of indices, and the
loops of the program are loops here with their invariants. Each such method is proved against a specification on values
(a tree, a sequence, a set of black nodes, a ring), and lemmas about that specification say what it means.

| files | what they model |
|---|---|
| `Arithmetic`, `Sequences` | shared facts |
| `Trees`, `Orders` | trees of node references with one-hole contexts, and comparisons |
| `Replacement` | a node taking the place of another, for both kinds of trees |
| `AvlNodes`, `AvlBalance`, `AvlCursor`, `AvlErase`, `AvlInsert`, `Avl` | `ciel::avl` |
| `RedBlackNodes`, `RedBlackColors`, `RedBlackState`, `RedBlackInsert`, `RedBlackUnlink`, `RedBlackFix`, `RedBlackErase`, `RedBlackCursor` | EASTL's red-black tree |
| `PhaseBarrier`, `ThreadManagers` | Google Benchmark's `Barrier` and `ThreadManager`, any number of threads in any interleaving |
| `Slots`, `SplitBuffers` | object lifetimes in raw memory, `ciel::split_buffer` |
| `Rings`, `CircularBuffers` | `ciel::circular_buffer` |
| `DequeBlocks`, `Deques` | `ciel::deque` |
| `Primality`, `PrimeCertificates` | when a number is prime, and the certificates of the bucket counts |
| `Primes`, `HashTables` | `ciel::hashtable` |
| `IntrusiveLists` | EASTL's intrusive list base |
| `Utf8` | EASTL's UTF-8 conversions |
| `ArgRanges`, `ArgsProducts` | Google Benchmark's argument ranges and products |

How to read the specifications:

- In a tree, a cursor is a pair of a subtree and the `Path` above it; `Plug` puts them together. `Linked` says that the
  links in the heap are those of a `Tree`, parent links included, and `Inorder` lists its nodes. A position is an index
  into that sequence; `At` gives its node, or the end node behind the last one.
- A slot is `Raw`, `Moved` (constructed, but moved from) or `Live`. Only raw slots may be constructed and only
  constructed ones assigned or destroyed, and a deallocated block must be raw: a method that verifies keeps the lifetime
  rules.
- In the barrier, each part of the code that runs under the lock is one step. The bodies that run under the lock are
  class methods tied to the functions the steps use.

## Model

| member | source | states |
|---|---|---|
| AvlErase.EraseNode | include/ciel/avl.hpp:249-358 | Unlinking any node, in all four shapes, and climbing leaves distinct linked nodes with exact cached heights and balance at every node, and the in-order nodes without that one. |
| AvlErase.UnlinkInner | include/ciel/avl.hpp:266-303 | A node with two children is replaced by its predecessor; parent links, heights aside and the order of the rest hold, and the climb starts at the lowest node whose subtree has become lower. |
| AvlErase.Climb | include/ciel/avl.hpp:327-353 | From a hole that is at most one lower than its context was balanced for, the climb to the end node restores exact heights and balance everywhere and keeps the order. |
| AvlNodes.RotateRightAt | include/ciel/avl.hpp:370-388 | A right rotation anywhere in a linked tree, both height adjustments included, gives the rotated tree, correct parent links at the hole, exact heights and the same nodes. |
| AvlNodes.RotateLeftAt | include/ciel/avl.hpp:390-408 | The mirror image. |
| AvlCursor.Next | include/ciel/avl.hpp:129-140 | The increment leads from the i-th node to position i + 1, from the last node to the end node. |
| AvlCursor.Prev | include/ciel/avl.hpp:148-159 | The decrement leads from position i, the end node included, to the node before it. |
| AvlInsert.ComparisonDecides | include/ciel/avl.hpp:449-467 | In a subtree the insertion has made higher, comparing the new key with the child's key says which grandchild is higher, so the single or double rotation chosen is the one the heights need. |
| AvlInsert.Climb | include/ciel/avl.hpp:443-468 | After hanging a leaf the climb restores exact heights and balance and keeps the order; of all the places it stands at, at most one has another subtree than the step has found. |
| AvlBalance.FibonacciBound | include/ciel/avl.hpp:249-358 | A balanced tree of height h has at least Fib(h + 2) - 1 nodes. |
| Avl.Tree.SizeBound | include/ciel/avl.hpp:48-57 | In every valid tree the size is at least Fib(h + 2) - 1 for the height h cached in the root. |
| Avl.Tree.InsertNodeAt | include/ciel/avl.hpp:426-470 | A new node whose key belongs in front of position i appears there; the tree invariant holds with `start_` the first node, and the climb from the leaf to the root rebalances at most once. |
| Avl.Tree.DestroyAndDeallocateNode | include/ciel/avl.hpp:249-358 | A node that was never linked is dropped and nothing changes; the i-th node is removed from the sequence, `start_` moves on if it was the first, and the invariant holds. |
| Avl.Tree.LowerBound | include/ciel/avl.hpp:789-803 | The search loop finds the first position whose key is not less than the key. |
| Avl.Tree.UpperBound | include/ciel/avl.hpp:805-819 | The search loop finds the first position whose key is greater. |
| Avl.Tree.Find | include/ciel/avl.hpp:768-777 | The node with an equivalent key if there is one, otherwise the end node. |
| Avl.Tree.EmplaceUnique | include/ciel/avl.hpp:661-671 | The keys become the old ones with the new key inserted unless an equivalent one is stored; the flag says which, and the iterator stands at the equivalent key. |
| Avl.Tree.EmplaceUniqueHint | include/ciel/avl.hpp:680-695 | Whatever the hint, the keys are those the plain insertion gives; the iterator stands at the new node, or, when an equivalent key is stored, at a place next to it in a tree that has not changed. |
| Avl.Tree.EraseRange | include/ciel/avl.hpp:708-713 | Erasing positions i to j - 1 with a successor taken before each unlinking leaves exactly the other nodes, in order. |
| Avl.Tree.EraseKey | include/ciel/avl.hpp:715-721 | Exactly the nodes with an equivalent key go, and the count says how many. |
| Avl.Tree.RangeInsertSorted | include/ciel/avl.hpp:621-631 | The one-pass path over a non-empty sorted range with duplicates gives the same keys as inserting one by one; the cursor only moves forward, no further than to the end. |
| Avl.Tree.RangeInsertUnique | include/ciel/avl.hpp:618-640 | Both paths give the keys of inserting the range one by one. |
| Orders.InsertKeysMeaning | include/ciel/avl.hpp:618-640 | Inserting keys one by one keeps the sequence strictly increasing and gives the union of the key sets, up to equivalence. |
| Avl.Tree.Swap | include/ciel/avl.hpp:723-746 | Two trees exchange shapes, nodes and orders; each root hangs under its own end node again and each start is right, also when one tree is empty or a tree is swapped with itself. |
| RedBlackNodes.RotateLeftAt | benchmark/EASTL-3.21.12/source/red_black_tree.cpp:130-152 | A left rotation anywhere gives the rotated tree with correct links, the root in the anchor included. |
| RedBlackNodes.RotateRightAt | benchmark/EASTL-3.21.12/source/red_black_tree.cpp:160-181 | The mirror image. |
| RedBlackInsert.RBTreeInsert | benchmark/EASTL-3.21.12/source/red_black_tree.cpp:190-286 | Inserting at a free side of a node, or below the anchor of an empty tree, keeps search position, colours, equal black counts, the black root and the anchor's root, leftmost and rightmost. |
| RedBlackInsert.Climb | benchmark/EASTL-3.21.12/source/red_black_tree.cpp:225-284 | While the parent is red the grandparent is a node of the tree; the loop ends at the root or below a black parent with all other colour rules kept. |
| RedBlackErase.RBTreeErase | benchmark/EASTL-3.21.12/source/red_black_tree.cpp:294-490 | Erasing the i-th node keeps all red-black invariants and the anchor's three links and removes exactly that node from the order; no null sibling is dereferenced. |
| RedBlackErase.FixUp | benchmark/EASTL-3.21.12/source/red_black_tree.cpp:398-488 | From a subtree that is one black node short, the fix-up loop ends in a sound tree with a black root and the same order. |
| RedBlackColors.SiblingExists | benchmark/EASTL-3.21.12/source/red_black_tree.cpp:401-424 | The sibling of a short subtree is never missing. |
| RedBlackUnlink.TakeOverLinks | benchmark/EASTL-3.21.12/source/red_black_tree.cpp:364-396 | The in-place writes that put the successor in the node's place give every node the links of the tree with the successor renamed and its old place spliced. |
| RedBlackCursor.RBTreeIncrement | benchmark/EASTL-3.21.12/source/red_black_tree.cpp:44-68 | The increment leads to the next position, from the last node to the anchor. |
| RedBlackCursor.RBTreeDecrement | benchmark/EASTL-3.21.12/source/red_black_tree.cpp:75-98 | The decrement leads to the node before, also from the anchor, which its red colour tells from the root. |
| RedBlackCursor.RBTreeGetBlackCount | benchmark/EASTL-3.21.12/source/red_black_tree.cpp:108-124 | The number of black nodes from a node up to any node above it, none from a null node; from a node with a missing child it is the black height of the upper node's subtree, wherever the lower one stands. |
| RedBlackCursor.RootMet | benchmark/EASTL-3.21.12/source/red_black_tree.cpp:108-124 | Climbing from any node meets the root, so the count from the root needs no further condition. |
| RedBlackCursor.HeightBound | benchmark/EASTL-3.21.12/source/red_black_tree.cpp:108-124 | The height is at most twice the black height, and a tree of black height k has at least 2^k - 1 nodes. |
| PhaseBarrier.Barrier.Enter | benchmark/benchmark-1.8.3/src/mutex.h:132-150 | The part of `createBarrier` up to the wait is the step function of the protocol, and its check needs room. |
| PhaseBarrier.Barrier.Resume | benchmark/benchmark-1.8.3/src/mutex.h:138-149 | The rest of `createBarrier` after a wake-up is the step function of the protocol. |
| PhaseBarrier.Barrier.RemoveThread | benchmark/benchmark-1.8.3/src/mutex.h:114-118 | One running thread less; the others are notified exactly if some have entered. |
| PhaseBarrier.RunKeeps | benchmark/benchmark-1.8.3/src/mutex.h:99-151 | Every interleaving of entering, waking, resuming, notifying and leaving keeps the invariant: the counters count the live and the waiting threads, and no wake-up is lost. |
| PhaseBarrier.NobodyLeavesEarly | benchmark/benchmark-1.8.3/src/mutex.h:129-150 | When a wait returns from a phase, every live thread has entered that phase. |
| PhaseBarrier.PhasesStayTogether | benchmark/benchmark-1.8.3/src/mutex.h:132-134 | A thread that calls wait always finds `entered_ < running_threads_`, and live threads are at most one phase apart. |
| PhaseBarrier.OneTrueReturnPerPhase | benchmark/benchmark-1.8.3/src/mutex.h:103-112 | Of each completed phase exactly one wait has returned true or will once it has notified the others; of any other phase none. |
| PhaseBarrier.NoDeadlock | benchmark/benchmark-1.8.3/src/mutex.h:138-149 | When the threads inside can take no more steps and live threads are left, some live thread is outside and may enter. |
| PhaseBarrier.InternalRunsEnd | benchmark/benchmark-1.8.3/src/mutex.h:138-149 | Left to themselves the threads inside take only a bounded number of steps. |
| PhaseBarrier.SomebodyMayPass | benchmark/benchmark-1.8.3/src/mutex.h:138-143 | If all live threads are inside wait, one is awake and its condition holds. |
| ThreadManagers.PlayKeeps | benchmark/benchmark-1.8.3/src/thread_manager.h:21-37 | Every interleaving of barrier steps, decrements, notifications and the waiter's steps keeps the manager's invariant. |
| ThreadManagers.CompletionWait | benchmark/benchmark-1.8.3/src/thread_manager.h:25-37 | `WaitForAllThreads` returns only after every thread has left the barrier and decremented the count, and is not asleep once nobody is left to notify it. |
| ThreadManagers.WaiterReturns | benchmark/benchmark-1.8.3/src/thread_manager.h:33-37 | Once all threads are done it returns within two of its own steps. |
| Slots.Rotate | include/ciel/algorithm_impl/rotate.hpp:9-26 | The in-place rotation puts the values from the middle on first, both parts in order, and touches nothing else. |
| Slots.MoveBackward | include/ciel/algorithm_impl/move_backward.hpp:9-14 | Moving backwards puts the values in order before the destination and leaves moved-from slots behind, also when the ranges overlap. |
| SplitBuffers.SplitBuffer.LeftShiftN | include/ciel/split_buffer.hpp:148-199 | Shifting within the front spare constructs raw slots, assigns constructed ones and destroys every vacated slot; it keeps the values exactly if n is positive, there are none, or a value assigned to itself by a move keeps its value. |
| SplitBuffers.SplitBuffer.RightShiftN | include/ciel/split_buffer.hpp:201-249 | The mirror image. |
| SplitBuffers.SplitBuffer.ReserveTo | include/ciel/split_buffer.hpp:262-282 | The values move to their offset in the new allocation, the values already there stay, and the old allocation is raw when released. |
| SplitBuffers.SplitBuffer.Insert | include/ciel/split_buffer.hpp:284-350 | All four paths put the new values in front of the position: S[..i] + new + S[i..]. The allocation stays exactly if they fit; otherwise the new one is the first of 2c, 4c, 8c and so on (of 1, 2, 4 and so on without one) that holds them. |
| SplitBuffers.SplitBuffer.Erase | include/ciel/split_buffer.hpp:931-953 | Whichever side moves, exactly the range goes; an empty or reversed range changes nothing. |
| SplitBuffers.SplitBuffer.EmplaceBack | include/ciel/split_buffer.hpp:967-994 | The value is appended. With back spare nothing moves; with more front spare than values a shift leaves a front spare one or two above the back spare; otherwise the allocation doubles and the front spare stays. The spare memory and the relocated values change as the step function of the cost analysis says. |
| SplitBuffers.SplitBuffer.EmplaceFront | include/ciel/split_buffer.hpp:1010-1040 | The same at the front. |
| SplitBuffers.AmortisedBound | include/ciel/split_buffer.hpp:963-994 | Over any run of emplace_back, pop_front and pop_back from an empty buffer the relocations are at most twice the emplacements plus the back spare. |
| SplitBuffers.LinearCost | include/ciel/split_buffer.hpp:963-1047 | Over any run that also emplaces at the front the relocations are at most four for each emplacement. |
| SplitBuffers.SplitBuffer.ShrinkToFit | include/ciel/split_buffer.hpp:778-794 | No spare memory is left, the values stay, and the allocation stays if there was none. |
| SplitBuffers.SplitBuffer.AssignAll | include/ciel/split_buffer.hpp:548-608 | Whatever was there, exactly the new values are stored; the allocation stays exactly if they fit, and otherwise the new one is as large as they are. |
| Rings.PlusMovesOffset | include/ciel/circular_buffer.hpp:105-121 | Adding n moves the offset by n modulo the capacity. |
| Rings.MinusIsDifference | include/ciel/circular_buffer.hpp:160-194 | Subtraction is the difference of the logical offsets, wherever the ring wraps. |
| CircularBuffers.CircularBuffer.Insert | include/ciel/circular_buffer.hpp:341-403 | Whichever half moves, or with a new allocation, the new values stand in front of the position. The allocation stays exactly if a slot stays free; otherwise the new one is the first of 3c, 9c and so on (of 2, 6, 18 and so on without one) above the new size. |
| CircularBuffers.CircularBuffer.Erase | include/ciel/circular_buffer.hpp:931-953 | Whichever half moves, exactly the range goes and the iterator stands behind it. |
| CircularBuffers.CircularBuffer.EmplaceBack | include/ciel/circular_buffer.hpp:964-986 | The value is appended; a slot stays free, and the end never stands at the end of the allocation. The allocation stays exactly if the ring was not full; a full one is replaced by one of three times its capacity, but at least two slots. |
| CircularBuffers.CircularBuffer.EmplaceFront | include/ciel/circular_buffer.hpp:1003-1027 | The same at the front. |
| CircularBuffers.CircularBuffer.ReserveTo | include/ciel/circular_buffer.hpp:319-337 | The ring is laid out from the start of the new allocation in order, and the old one is raw. |
| CircularBuffers.CircularBuffer.Resize | include/ciel/circular_buffer.hpp:1036-1060 | A prefix, or all values and copies behind them; the allocation stays exactly if that fits with a free slot, and otherwise the new one has one slot more than values. |
| Deques.Deque.GetEnoughFrontSpare | include/ciel/deque.hpp:363-394 | For any block size and any count: only blocks without values come over, the values stay and new blocks are fresh. An end that lacks slots gains whole blocks, not one too many, and a block is made only when less than a block is left at the other end. A deque without blocks gets the layout `FirstFront`, and its begin and end name slots exactly if the count is at least two below the block size. |
| Deques.Deque.GetEnoughBackSpare | include/ciel/deque.hpp:396-421 | The same at the back: exactly as many blocks as are missing, taken from the front as long as a whole one is free there. |
| Deques.Deque.MoveLastToFront | include/ciel/deque.hpp:371-381 | Moving the last block to the front keeps the values and the set of blocks when that block holds none. |
| Deques.Deque.Insert | include/ciel/deque.hpp:325-360 | Whichever half moves, the new values stand in front of the position. |
| Deques.Deque.Erase | include/ciel/deque.hpp:879-902 | Whichever half moves, exactly the range goes and the iterator stands behind it. |
| Deques.Deque.EmplaceFront | include/ciel/deque.hpp:936-948 | The value is prepended, also to a deque without blocks whose blocks have at least three slots, and the end names a real slot. The slots do not come to more than before, or than the values and two blocks less one slot. |
| Deques.Deque.EmplaceBack | include/ciel/deque.hpp:912-920 | The value is appended and the end names a real slot, with the same bound on the slots: a queue does not grow when its size does not. |
| Deques.Deque.ShrinkToFit | include/ciel/deque.hpp:727-738 | No whole block is left without values at either end, except the free end, and the values stay. |
| Deques.SmallestBlock | include/ciel/deque.hpp:363-394 | In the first front spare for a count the end names a slot exactly if count + 1 is below the block size: for one value, if a block has at least three slots. |
| DequeBlocks.AdvanceMoves | include/ciel/deque.hpp:136-157 | Advancing with truncating division and sign correction moves the index by exactly n in both directions and stays inside a block. |
| DequeBlocks.DistanceIsDifference | include/ciel/deque.hpp:199-210 | Subtraction is the difference of the indices. |
| Primes.TableAscending | include/ciel/hashtable.hpp:27-48 | The 256 bucket counts strictly ascend from 2 to 4294967291. |
| Primes.TableIsPrime | include/ciel/hashtable.hpp:27-48 | Every bucket count is a prime, by the definition with divisors: the smaller ones by trial division, each larger one by elements whose orders modulo every divisor of it are known, which leaves no divisor up to the square root. |
| Primes.SmallPrimesListed | include/ciel/hashtable.hpp:27-48 | Up to a hundred the table has exactly the primes. |
| Primes.NextPrime | include/ciel/hashtable.hpp:50-55 | The least table entry above n, a prime, or n once the table ends. |
| HashTables.Increment | include/ciel/hashtable.hpp:185-200 | From the p-th node in iteration order to the next, over empty buckets. |
| HashTables.AllStored | include/ciel/hashtable.hpp:185-200 | Iteration meets every stored node exactly once. |
| HashTables.Relink | include/ciel/hashtable.hpp:369-389 | Relinking the nodes while iterating over them stores every node in the chain of its hash, loses none and repeats none. |
| HashTables.HashTable.Find | include/ciel/hashtable.hpp:753-768 | A node with an equal value, found exactly if the set has one. |
| HashTables.HashTable.EmplaceUnique | include/ciel/hashtable.hpp:621-639 | The set gains the value exactly if it had no equal one. The bucket count goes to the next table entry exactly if there were no buckets or the load factor had reached its maximum, and otherwise the buckets stay; at load factor one the size stays within the bucket count exactly if the table of primes has not run out. |
| HashTables.HashTable.Erase | include/ciel/hashtable.hpp:671-691 | Exactly that node goes, the iteration order of the others stays, and the result stands where it stood. |
| HashTables.HashTable.EraseUnique | include/ciel/hashtable.hpp:700-709 | Exactly the equal value goes, and the count says whether there was one. |
| HashTables.HashTable.RangeInsertUnique | include/ciel/hashtable.hpp:591-603 | The set becomes the union with the range. If the range asks for more buckets than there are and the table of primes has not run out, the bucket count is the next entry after that number and stays so to the end of the insertion. |
| HashTables.HashTable.Rehash | include/ciel/hashtable.hpp:838-842 | The bucket count is the next table entry after the larger of the count asked for and the buckets the values need; so it is at least both. |
| HashTables.BucketsNeededAreLeast | include/ciel/hashtable.hpp:839 | The buckets that values need at the maximum load factor are the least number that holds them at that factor. |
| HashTables.HashTable.Reserve | include/ciel/hashtable.hpp:844-846 | The next table entry after what the count asked for and the values need at the maximum load factor. |
| HashTables.HashTable.PrepareFor | include/ciel/hashtable.hpp:593-598 | The table grows exactly if the truncated quotient is above the bucket count, and then to the next entry after the quotient. |
| HashTables.SameSizeWithin | include/ciel/hashtable.hpp:858-872 | Of two sets of equal size, if one has all values of the other, they are the same. |
| HashTables.Equal | include/ciel/hashtable.hpp:858-872 | The comparison is true exactly if both tables hold the same values. |
| IntrusiveLists.Validate | benchmark/EASTL-3.21.12/source/intrusive_list.cpp:26-67 | On any closed heap the walk ends, and answers true exactly if the nodes from the anchor on form a ring with matching back links; neither "loop detected" return is reached. |
| IntrusiveLists.Reverse | benchmark/EASTL-3.21.12/source/intrusive_list.cpp:12-22 | Exchanging the links of every node of a ring gives the reversed ring. |
| IntrusiveLists.TurnedTwice | benchmark/EASTL-3.21.12/source/intrusive_list.cpp:12-22 | Reversal is its own inverse. |
| Utf8.UCS4ToUTF8 | benchmark/EASTL-3.21.12/source/string.cpp:24-71 | The bytes of the code point stand at the cursor, which moves on by their number, at most six, and no other byte changes. |
| Utf8.LongForms | benchmark/EASTL-3.21.12/source/string.cpp:39-71 | Above 0xFFFF four, five and six bytes carry the value, the lead byte tells their number and the others continue it, but for the second of five, which keeps bit 24; a value of 32 bits gives the byte 1. |
| Utf8.UTF8ToUCS4 | benchmark/EASTL-3.21.12/source/string.cpp:84-253 | The cursor decoder, with all its checks, computes the decoding function; on failure it moves on by one. |
| Utf8.DecodeAdvances | benchmark/EASTL-3.21.12/source/string.cpp:84-253 | The cursor always moves on and never beyond the end. |
| Utf8.DecoderAccepts | benchmark/EASTL-3.21.12/source/string.cpp:84-253 | Which bytes are accepted, and how many of them, as ranges of bytes: the syntax of section 4 of RFC 3629 but for surrogates, the fourth byte and the unfinished lead bytes. |
| Utf8.RoundTrip | benchmark/EASTL-3.21.12/source/string.cpp:24-253 | Every code point up to 0x10FFFF survives encoding and decoding, whatever bytes follow. |
| Utf8.ReEncode | benchmark/EASTL-3.21.12/source/string.cpp:84-253 | Accepted bytes re-encode to the same bytes exactly if the lead byte is not one the decoder leaves unfinished and, after a four-byte lead, the last byte is a continuation. |
| Utf8.ReEncodedOtherwise | benchmark/EASTL-3.21.12/source/string.cpp:168-240 | Two inputs for which it fails. |
| Utf8.EncodePart | benchmark/EASTL-3.21.12/source/string.cpp:364-375 | A chunk writes the encoding of the code points it takes within the buffer, takes at least one, and stops early only for want of room or right behind the first value of 32 bits, which is reported as a failure. |
| Utf8.DecodePart | benchmark/EASTL-3.21.12/source/string.cpp:309-317 | A chunk writes the code points of a run within the buffer and stays within the source. |
| Utf8.ConvertToUTF8 | benchmark/EASTL-3.21.12/include/EASTL/string.h:1667-1692 | Converting a buffer at a time, for any buffer of more than six bytes, gives the encoding of the whole. |
| Utf8.ConvertFromUTF8 | benchmark/EASTL-3.21.12/include/EASTL/string.h:1667-1692 | The other way, for any buffer that is not empty. |
| Utf8.RoundTripAll | benchmark/EASTL-3.21.12/source/string.cpp:309-375 | Decoding the encoding of any code points up to 0x10FFFF gives them back. |
| Utf8.ThereAndBack | benchmark/EASTL-3.21.12/source/string.cpp:309-375 | The same through both converters and any buffers. |
| ArgRanges.AddPowers | benchmark/benchmark-1.8.3/src/benchmark_register.h:16-41 | The powers of the multiplier from lo to hi are appended, and no product leaves the type. |
| ArgRanges.AddNegatedPowers | benchmark/benchmark-1.8.3/src/benchmark_register.h:43-62 | The negated powers are appended in ascending order; negation and the in-place reversal stay within the type. |
| ArgRanges.AddRange | benchmark/benchmark-1.8.3/src/benchmark_register.h:64-104 | The range is appended, and no computed value leaves the type, even at its limits. |
| ArgRanges.RangeIs | benchmark/benchmark-1.8.3/src/benchmark_register.h:64-104 | The range strictly ascends from lo to hi, and between them has exactly zero, the powers and the negated powers. |
| ArgRanges.RangeDetermined | benchmark/benchmark-1.8.3/src/benchmark_register.h:64-104 | It is the only ascending sequence with these members. |
| ArgsProducts.Benchmark.ArgsProduct | benchmark/benchmark-1.8.3/src/benchmark_register.cc:274-300 | Behind the rows already there the whole product is appended, row i having for its k-th argument the element of list k at place (i / product of the sizes before k) mod size of k. All rows keep having as many arguments as there are names. |
| ArgsProducts.DigitAt | benchmark/benchmark-1.8.3/src/benchmark_register.cc:287-296 | The odometer's k-th index before iteration i in closed form. |
| ArgsProducts.NextIsSuccessor | benchmark/benchmark-1.8.3/src/benchmark_register.cc:293-296 | A turn of the odometer takes the digits of i to those of i + 1, the first digit fastest, and wraps around after the last. |
| ArgsProducts.Turn | benchmark/benchmark-1.8.3/src/benchmark_register.cc:293-296 | The do-while loop over the indices makes one such turn in place. |
| ArgsProducts.NumberOfDigits | benchmark/benchmark-1.8.3/src/benchmark_register.cc:278-296 | Below the product of the sizes, a number is recovered from its digits, all of which are in range. |
| ArgsProducts.EveryChoiceOnce | benchmark/benchmark-1.8.3/src/benchmark_register.cc:287-297 | Every choice of indices is the row of exactly one number. |
| ArgsProducts.RowsAreProduct | benchmark/benchmark-1.8.3/src/benchmark_register.cc:274-300 | A tuple is a row exactly if it is in the Cartesian product. |
| ArgsProducts.RowsDistinct | benchmark/benchmark-1.8.3/src/benchmark_register.cc:274-300 | When no list repeats an argument no row is repeated. |
| ArgsProducts.Benchmark.Ranges | benchmark/benchmark-1.8.3/src/benchmark_register.cc:260-272 | The appended rows are exactly the tuples of an end, zero, a power of the multiplier or a negated power within each range, none twice, in the order of the product over the ascending ranges. |

## Left out

- Equivalent keys: the multi paths of the tree and the table. The tree's insertion chooses its rotation by a strict
  comparison (`include/ciel/avl.hpp:452-457`), and `emplace_multi` never compares with the head of a chain
  (`include/ciel/hashtable.hpp:656-662`).
- Empty ranges given to the tree's `range_insert_unique`: `*first` is read before the loop when the range counts as
  sorted (`include/ciel/avl.hpp:622`).
- Deques.Deque.EmplaceFront: excludes the first value in front of a deque without blocks when a block has fewer than
  three slots, because `begin()`, which the source then dereferences, names no slot
  (`Deques.Deque.GetEnoughFrontSpare` and `Deques.SmallestBlock`). All other operations hold for every block size.
- The deque's insertion from an input iterator, which uses its position after the deque may have grown.
- CircularBuffers.CircularBuffer.Reserve: excludes reserving nothing without an allocation, which hits an assertion
  (`include/ciel/circular_buffer.hpp:309`).
- Utf8.RoundTrip: surrogates are accepted both ways, as the code does and unlike section 3 of RFC 3629; the lead bytes
  0xF8 to 0xFD are modelled as the code has them, unfinished.
- Above 0x1FFFFF the five-byte form does not mask its second byte (`benchmark/EASTL-3.21.12/source/string.cpp:49`); the
  model keeps that, and the round trips are about code points.
- Machine widths of sizes, of the barrier's phase number and of the product of the argument list sizes: these are
  unbounded here. The ranges of arguments are checked against the limits of their type.
- Load factors are exact reals.
- Exceptions, allocation failure, `max_size`, allocators and their propagation, moving and forwarding.
- The end node of the tree and the anchor of the red-black tree are whole nodes here, of which only the links the
  source has are used.
- Freed nodes are not tracked: a node that is erased is no longer among the nodes of the tree or the table.
- Equality, copying and the thin wrappers (`set`, `map`, `unordered_set`, `vector`, `queue`, `stack`), and the other
  sequence algorithms.
