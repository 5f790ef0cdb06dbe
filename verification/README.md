# A verified model of a GPU tracing toolkit's core data structures

The tracer intercepts GPU work, records it, and patches kernels. This project models the parts of
it whose correctness is not obvious from the code, in Dafny 4.11, and proves what they are for.
`dafny verify dfyconfig.toml` checks everything.

| files | what they model |
|---|---|
| `HashPolicy`, `RobinHood`, `FlatHashMap` | the Robin Hood hash table that maps events and arguments |
| `SlotMap`, `AtomicQueue` | the lock-free multi-producer, multi-consumer event queue, as interleaved atomic steps |
| `Xxh3`, `Xxh32And64`, `XxhArithmetic` | the streaming and one-shot hashes, and their 64-bit arithmetic |
| `ElfOrder`, `ElfFile`, `ElfPlan`, `ElfRoom`, `ElfSizes`, `ElfLayout` | the layout of sections and segments when a patched code object is saved: the order, the records and single steps, the layout as a function, which inputs it has room for, the sizes of segments, and the class that carries it out |
| `MsgPackGrammar`, `MsgPackCheck`, `MsgPackParts`, `MsgPackNumbers`, `MsgPackFormat`, `MsgPackPrint` | the MessagePack checker, skipper, integer codec, format builder and printers |
| `MsgPackRead`, `MsgPackText` | a reader of MessagePack bytes, by the numbers of its specification, and a reader of the printed text: what the code writes is stated as what these read |
| `KernelMetadata` | the walk over a code object's metadata note that fills the table of argument sizes |
| `BranchEncoding`, `Trampolines` | re-encoding branches when code is inserted, and out-of-line instrumentation |
| `Basics`, `PowersOfTwo`, `Division`, `BitWords` | what the others share: options and bytes, arithmetic, and machine words bit by bit |

How to read it. Code that changes things in place is a class or a method over arrays, each tied by
its contract to a function or predicate on values; the theorems are about those. A loop over a
32-bit or 64-bit word writes the wrap-around out. Where the code calls a function whose inside does
not matter (the XXH3 stripe step, a hash of a key, the formatting of a float) the model takes it as
a parameter, so the theorems hold for every such function.

Main results, one per component:

- Hash table: after any run of insertions, erasures and rehashes the table holds exactly the map it
  should, `find` stops early but never wrongly, and growing in the middle of a displacement loses
  nothing; the recursion between insertion and growth ends (`FlatHashMap.Run`, `FlatHashMap.Table.Emplace`).
- Queue: in every interleaving of stale reads, compare-and-swaps and slot handovers, no two threads
  touch a slot and nothing is lost or invented: every element offered to `push` or `try_push` is in the
  queue, in flight, received or was refused, and a call is refused only on a full or empty ring unless
  it goes by a word that has come round. With tickets in flight less than one lap apart,
  ticket t is received as it was pushed. In a run of `try_push` and `try_pop` the fill level stays
  within the ring in every state exactly when no step swaps on a word that has come round again, and
  then some thread in a call can always move. Both limits are real: a run is constructed in which a
  producer sleeps through 2^32 tickets, overfills the ring and blocks, and a blocking `pop` alone on
  an empty queue waits for ever.
- Hashes: any way of cutting an input into updates gives the one-shot hash, and that is written out:
  which bytes go in with which bytes of the secret, and where the scrambles stand.
- ELF: the layout is an exact function of its input and of an order that puts containing segments
  first. If no section has an address below that of a segment listing it, and sizes, alignments and
  address spans leave room below 2^64, every layout that succeeds has all file extents disjoint
  and between the program header table and the section table. Given that room, segments that
  share no section, and sections no further below than the headers are long, no file position wraps
  exactly when no section is below. The property fails there: a whole layout is given that succeeds
  with two sections over each other. The sizes of every segment are told from the finished layout
  alone; one nested in another ends with its last section and covers all its sections.
- MessagePack: the checker accepts exactly the recursive grammar, as the code takes it. What it
  accepts is standard MessagePack exactly when it meets neither the unused byte 0xc1 in the place of
  an object nor a map header of 2^31 pairs or more; an instance of either is given. The format
  builder emits the encoding of the trees its format denotes, and its assertions hold exactly for
  formats that match their arguments and are balanced apart from closing brackets outside all
  levels; a reader of its output finds the brackets of the format and the arguments in their places.
  The two printers agree, and a reader of their text finds the printed value.
- Metadata: the walk ends just past the document, whatever the order of keys, and the table holds
  every entry exactly when no later entry that hashes alike disagrees; for a kernel and for an
  argument that is put together from the keys of the document to the entry of the table.
- Patching: every run of the original program is a run of the patched one with trampolines in the
  place of patched instructions, and there are no others.

Where code and documentation disagree the model follows the code: `mp_compare_uint` is documented to
compare packed integers, but orders them by their first bytes, so it is right exactly for shortest
encodings (`MsgPackNumbers.ComparesExactlyShortest`).

## Model

| member | source | states |
|---|---|---|
| HashPolicy.IndexForHash | include/flat_hash_map.hpp:1270-1273 | the slot lies within a table of 2^(64 - shift) slots |
| HashPolicy.FullWidthIndexIsInjective | include/flat_hash_map.hpp:1270-1273 | with a slot for every 64-bit hash, no two hashes share one: multiplying by the Fibonacci constant loses nothing |
| HashPolicy.SmearIsSolid | include/flat_hash_map.hpp:253-265 | the six shifts of a 64-bit word leave all ones from its highest set bit down |
| HashPolicy.NextPowerOfTwoIsLeast | include/flat_hash_map.hpp:253-265 | the rounded word is the least power of two not below the request; 0 and requests above 2^63 wrap to 0 |
| FlatHashMap.Table.RoundedAsCoded | include/flat_hash_map.hpp:1279-1283 | for requests of up to 2^63 slots, the slot count the table takes is the one those shifts compute |
| RobinHood.ScanStopIsSafe | include/flat_hash_map.hpp:539-549 | a key that is stored lies before the first slot whose distance is smaller than the scan's |
| RobinHood.HoldsIsFunctional | include/flat_hash_map.hpp:539-549 | the entries determine the map they hold |
| RobinHood.SwapStep | include/flat_hash_map.hpp:841-850 | swapping the pair in hand with one nearer its home keeps every invariant and the pairs as a whole |
| RobinHood.TakeBackStep | include/flat_hash_map.hpp:857-863 | swapping the last displaced pair into the new pair's slot leaves exactly the old pairs |
| RobinHood.ShiftStep | include/flat_hash_map.hpp:692-705 | moving a value into the gap keeps the homes and moves the gap on by one |
| RobinHood.ClearedLeavesGap | include/flat_hash_map.hpp:683-708 | what clearing a range leaves is a gap no wider than the next value's distance |
| RobinHood.CopyOne | include/flat_hash_map.hpp:647-655 | refilling never meets a key twice |
| RobinHood.DistinctHomesMeanNoProbing | include/flat_hash_map.hpp:827-831 | when no two keys share a home every value is at home, which is why growing ends |
| FlatHashMap.FibonacciPlaces | include/flat_hash_map.hpp:1266-1295 | a collision-free 64-bit hash with the Fibonacci policy meets what the table needs of it |
| FlatHashMap.Table.constructor | include/flat_hash_map.hpp:300-308 | an empty table of minimum size |
| FlatHashMap.Table.Probe | include/flat_hash_map.hpp:576-587 | ends at the key, or where the key would go, without passing the sentinel |
| FlatHashMap.Table.Find | include/flat_hash_map.hpp:539-549 | reaches the key's entry exactly when the map has the key |
| FlatHashMap.Table.Emplace | include/flat_hash_map.hpp:576-587 | the new map is the old one plus the pair, or the old one if the key was there; it ends |
| FlatHashMap.Table.EmplaceNewKey | include/flat_hash_map.hpp:824-867 | the same for a key known to be new, growing first when full or out of lookups |
| FlatHashMap.Table.FullWidthNeverCrowds | include/flat_hash_map.hpp:827-831 | at 2^64 slots nothing is ever displaced, so the recursion has a bottom |
| FlatHashMap.Table.Displace | include/flat_hash_map.hpp:839-866 | a displacement chain, given up or not, adds exactly the new pair |
| FlatHashMap.Table.Shuffle | include/flat_hash_map.hpp:842-866 | all pairs but the one in hand are stored, each once, at every point of the chain |
| FlatHashMap.Table.GiveUp | include/flat_hash_map.hpp:857-864 | swap back, grow and insert again: the old map plus the new key |
| FlatHashMap.Table.Grow | include/flat_hash_map.hpp:869-872 | the same map in a table with fewer doublings left |
| FlatHashMap.Table.Rehash | include/flat_hash_map.hpp:624-657 | the same map at the size asked for, or at the least one the load factor allows |
| FlatHashMap.Table.Refill | include/flat_hash_map.hpp:647-656 | every pair of the old entries is inserted and no other |
| FlatHashMap.Table.StartEmpty | include/flat_hash_map.hpp:631-646 | fresh buckets are a valid empty table with its sentinel in place |
| FlatHashMap.Table.ResetToEmptyState | include/flat_hash_map.hpp:882-889 | back to the minimum table |
| FlatHashMap.Table.EraseAt | include/flat_hash_map.hpp:670-681 | removes that key and no other, restores every invariant and returns the same slot, holding the follower if it could move nearer home |
| FlatHashMap.Table.EraseRange | include/flat_hash_map.hpp:683-708 | removes exactly the keys in the range and returns the position of the value that followed it |
| FlatHashMap.Table.EraseKey | include/flat_hash_map.hpp:710-721 | removes the key if present and says how many were removed |
| FlatHashMap.Table.Begin | include/flat_hash_map.hpp:506-513 | the first occupied slot, or the end |
| FlatHashMap.Table.Next | include/flat_hash_map.hpp:473-481 | the next occupied slot, none in between |
| FlatHashMap.Run | include/flat_hash_map.hpp:576-721 | after any run of insertions, erasures and rehashes the contents are those of the map operations |
| SlotMap.RemapPermutes | include/atomic_queue/atomic_queue.h:59-72 | remapping permutes the slots of the ring and undoes itself |
| SlotMap.RemapIndexIsRemap | include/atomic_queue/atomic_queue.h:59-72 | for every field width up to 16 bits the exclusive-ors on the word exchange its two lowest fields and leave the rest |
| SlotMap.SlotAsCoded | include/atomic_queue/atomic_queue.h:404-413 | the slot of a ticket in the queue model is the one those exclusive-ors compute from its word |
| SlotMap.WrapKeepsSlot | include/atomic_queue/atomic_queue.h:404-413 | cutting a ticket to 32 bits does not change its slot |
| SlotMap.SameSlot | include/atomic_queue/atomic_queue.h:404-413 | two tickets share a slot exactly when they agree modulo the size |
| SlotMap.CountOfTicket | include/atomic_queue/atomic_queue.h:404-413 | a ticket's lap is the number of earlier tickets of its slot |
| AtomicQueue.ExclusiveStep | include/atomic_queue/atomic_queue.h:213-262 | every step keeps at most one thread touching a slot's element |
| AtomicQueue.AttendedStep | include/atomic_queue/atomic_queue.h:213-262 | every step keeps a thread behind each slot that is being stored to or loaded from |
| AtomicQueue.HistoryStep | include/atomic_queue/atomic_queue.h:213-262 | the values loaded from a slot stay a prefix of the values stored to it, at most one behind |
| AtomicQueue.TicketsStep | include/atomic_queue/atomic_queue.h:265-328 | every step keeps the tickets in flight distinct and already issued |
| AtomicQueue.PushCountsStep | include/atomic_queue/atomic_queue.h:239-262 | per slot: producer tickets issued = stores + producers in flight |
| AtomicQueue.PopCountsStep | include/atomic_queue/atomic_queue.h:213-237 | per slot: consumer tickets issued = loads + consumers in flight |
| AtomicQueue.ConservedStep | include/atomic_queue/atomic_queue.h:213-328 | each element pushed is received, in a slot or in flight, as often as it was pushed; the push of an idle thread appends its argument to what was pushed |
| AtomicQueue.EveryInterleavingIsSafe | include/atomic_queue/atomic_queue.h:213-328 | all of the above in every state of every interleaving, and every element offered is pushed, held by a try_push under way or refused |
| AtomicQueue.PushesAreAccountedFor | include/atomic_queue/atomic_queue.h:265-315 | in every run the arguments of push and try_push begun so far are what was pushed, what try_push holds and what was refused, each refusal by a check that saw a full ring |
| AtomicQueue.PopsAreAccountedFor | include/atomic_queue/atomic_queue.h:284-328 | as many calls of pop and try_pop were begun as took tickets, are under way or were refused on seeing an empty ring |
| AtomicQueue.CallsBegin | include/atomic_queue/atomic_queue.h:265-328 | what an idle thread's call does at once: push appends its argument and takes ticket head, pop takes ticket tail, the try forms only look |
| AtomicQueue.RefusalsAreJust | include/atomic_queue/atomic_queue.h:265-301 | with the fill level within the ring and a copy at most 2^31 tickets old, try_push is refused only on a full ring and try_pop only on an empty one |
| AtomicQueue.StaleCopyIsRefused | include/atomic_queue/atomic_queue.h:265-282 | without that limit it is not so: a run in which try_push is refused on an empty ring |
| AtomicQueue.TryPushAlone | include/atomic_queue/atomic_queue.h:265-282 | undisturbed, try_push gets a ticket for its element exactly when the ring is not full, and otherwise nothing changes |
| AtomicQueue.TryPopAlone | include/atomic_queue/atomic_queue.h:284-301 | undisturbed, try_pop gets a ticket exactly when the ring is not empty, and otherwise nothing changes |
| AtomicQueue.ConsumersGetTheirTicket | include/atomic_queue/atomic_queue.h:303-328 | with tickets in flight less than one lap apart, ticket t is received as pushed with ticket t, across 32-bit wraps |
| AtomicQueue.BoundedStep | include/atomic_queue/atomic_queue.h:265-301 | a step of try_push or try_pop keeps 0 <= head - tail <= size exactly when it does not swap on a word that has come round again |
| AtomicQueue.RecentCopiesAreSafe | include/atomic_queue/atomic_queue.h:265-301 | a copy less than 2^32 tickets old is never such a word |
| AtomicQueue.FillLevelIsBounded | include/atomic_queue/atomic_queue.h:265-301 | in every run of the try forms the bound holds in all states exactly when no step swaps on such a word |
| AtomicQueue.RecentCopiesKeepTheBound | include/atomic_queue/atomic_queue.h:265-301 | in particular it holds while all copies swapped with are less than 2^32 tickets old |
| AtomicQueue.StaleSwapOverfills | include/atomic_queue/atomic_queue.h:265-282 | for every ring size a run of the try forms ends with size + 1 elements, and with nobody able to move |
| AtomicQueue.NoReachableStateIsStuck | include/atomic_queue/atomic_queue.h:213-301 | in runs of the try forms without such swaps some thread can move in every state with an operation in flight |
| AtomicQueue.PopOnEmptyIsStuck | include/atomic_queue/atomic_queue.h:317-328 | a blocking pop alone on an empty queue takes a ticket and nobody can move |
| Xxh3.Kernel.ConsumedOfPrefix | include/xxhash.h:5031-5062 | the accumulator after n stripes does not depend on what follows them |
| Xxh3.Kernel.AccumulatedIsConsumed | include/xxhash.h:5412-5434 | accumulating from within a block goes on where the definition left off |
| Xxh3.Accumulate | include/xxhash.h:4061-4077 | the macro's loop is the n-fold stripe step |
| Xxh3.HashLongInternalLoop | include/xxhash.h:5031-5062 | the loop over blocks, the partial block and the last stripe meet the stripe-by-stripe definition |
| Xxh3.Xxh3OneShot | include/xxhash.h:5195-5214 | the one-shot function is the hash |
| Xxh3.ConsumeStripes | include/xxhash.h:5412-5434 | stripes m to m + n, across a block end, with the scramble in its place |
| Xxh3.ConsumeWholeBlocks | include/xxhash.h:5511-5517 | the fast path over whole blocks meets the definition |
| Xxh3.ConsumeBlocks | include/xxhash.h:5498-5525 | joining to the block's end, whole blocks and the last partial block meet it too |
| Xxh3.ConsumeBuffers | include/xxhash.h:5527-5541 | so does the path over 256-byte pieces |
| Xxh3.State.constructor | include/xxhash.h:5338-5359 | a reset state has seen nothing |
| Xxh3.State.Update | include/xxhash.h:5444-5558 | after an update the state stands for the input so far and the new bytes |
| Xxh3.State.UpdateBeyondBuffer | include/xxhash.h:5480-5558 | the same past the buffer's end, keeping the last 64 consumed bytes before the tail |
| Xxh3.State.Digest | include/xxhash.h:5603-5618 | a digest is the hash of everything ingested and changes nothing |
| Xxh3.State.DigestLong | include/xxhash.h:5568-5598 | the buffered stripes and the last 64 bytes complete the long accumulator |
| Xxh3.HashInChunks | include/xxhash.h:5444-5618 | for every secret of at least 136 bytes and every cut into updates the digest, also after each update, is the one-shot hash |
| Xxh3.HashFeeds | include/xxhash.h:5031-5062 | the hash of more than 240 bytes, written out: stripe i goes in with the secret from 8 times its place in the block, each full block is followed by a scramble with the last 64 bytes, and last come the final 64 bytes with the secret that ends 7 bytes before its end |
| Xxh3.HashReplays | include/xxhash.h:5031-5062 | for every kernel the hash is those calls, made in that order, and then the merge |
| Xxh32And64.Kernel.RunResumes | include/xxhash.h:2390-2421 | the block loop can be interrupted anywhere if the rest is put in front of what comes next |
| Xxh32And64.Kernel.HashInFull | include/xxhash.h:2391-2420 | the hash written out: the rounds over the whole blocks, converged, or the seed and its constant, plus the length, wrapped, and the bytes left over |
| Xxh32And64.OneShot | include/xxhash.h:2829-2863 | the one-shot functions are the hash |
| Xxh32And64.State.Update | include/xxhash.h:2919-2968 | the state stands for everything ingested |
| Xxh32And64.State.Digest32 | include/xxhash.h:2533-2549 | XXH32's digest is the one-shot hash, also after its 32-bit total has wrapped |
| Xxh32And64.State.Digest64 | include/xxhash.h:2971-2988 | XXH64's digest is the one-shot hash |
| Xxh32And64.StickyFlag | include/xxhash.h:2478-2500 | the flag says exactly whether the true total has reached a block |
| Xxh32And64.HashInChunks | include/xxhash.h:2478-2549 | every cut into updates gives the one-shot hash |
| XxhArithmetic.Mult64To128 | include/xxhash.h:3700-3714 | high * 2^64 + low is the product, with no sum overflowing |
| XxhArithmetic.AccumulateScalar | include/xxhash.h:4819-4860 | the in-place loop with its writes across lanes is the lane-parallel step |
| XxhArithmetic.AccumulateSse2 | include/xxhash.h:4340-4372 | so is the SSE2 loop over pairs of lanes |
| XxhArithmetic.SplitMultiplication | include/xxhash.h:4376-4405 | two 32-bit products added with a shift are the 64-bit product modulo 2^64, in both lanes |
| ElfOrder.IncludesIsInclusion | include/elfio/elfio.hpp:631-644 | walking through sorted lists decides multiset inclusion |
| ElfOrder.SubsequenceIsStrictContainment | include/elfio/elfio.hpp:631-644 | on sorted lists is_subsequence_of is strict containment |
| ElfOrder.RotationApproaches | include/elfio/elfio.hpp:669-686 | re-queuing brings the first outermost segment nearer: the loop ends |
| ElfOrder.ZeroOffsetsFirst | include/elfio/elfio.hpp:656-667 | no segment is lost, and before one that was loaded at offset 0 stand only segments with offset 0 |
| ElfOrder.GetOrderedSegments | include/elfio/elfio.hpp:647-689 | a permutation in which nothing later contains anything earlier, and before a segment loaded at offset 0 that nothing contains stand only segments with offset 0 |
| ElfOrder.StrictContainersComeFirst | include/elfio/elfio.hpp:647-689 | every segment comes after all segments that strictly contain its sections |
| ElfFile.MoveLandsOnAddress | include/elfio/elfio.hpp:793-808 | the computed step puts the position at the section's address relative to the segment, modulo 2^64 |
| ElfFile.AddressedStepFits | include/elfio/elfio.hpp:793-808 | the step passes 2^64 exactly when the section is below its segment's address by at most the start, or too far above |
| ElfFile.OffsetFollowsAddress | include/elfio/elfio.hpp:793-808 | seen from its segment's start a placed section is as far ahead, or behind, as its address says |
| ElfFile.AlignedToAddress | include/elfio/elfio.hpp:761-773 | the page step, in unsigned arithmetic, makes the position congruent to the virtual address |
| ElfRoom.FitsWhenInputsFit | include/elfio/elfio.hpp:193-226 | with no section below its segments' addresses and room for everything, no position wraps, in any order |
| ElfRoom.FitsReaches | include/elfio/elfio.hpp:733-877 | when no position wraps and segments share nothing, every addressed section's target is below 2^64 even from the end of the headers |
| ElfRoom.FitsExactlyWhenInputsFit | include/elfio/elfio.hpp:193-226 | with room, unshared segments and no section further below than the headers are long: no position wraps exactly when no section is below its segment |
| ElfRoom.SectionBelowSegmentOverlaps | include/elfio/elfio.hpp:793-808 | a whole layout that succeeds and puts two sections, and the program header table, over each other |
| ElfSizes.SegmentsAreSized | include/elfio/elfio.hpp:779-874 | in the finished layout each segment's sizes are a sum over its sections where they stand, whoever placed them, and each section stands where the first segment to list it put it |
| ElfSizes.SharedSegmentEnds | include/elfio/elfio.hpp:820-839 | a segment whose last section with bytes was placed by another ends, in the file, with that section |
| ElfSizes.OwnSegmentEnds | include/elfio/elfio.hpp:779-839 | so does one that placed its sections itself |
| ElfSizes.AllocatedSegment | include/elfio/elfio.hpp:826-871 | with all sections allocated and in the file it takes the same in memory, or what it was given |
| ElfSizes.SegmentWithBss | include/elfio/elfio.hpp:826-871 | with a .bss behind them it reaches in memory to the end of that, and in the file to the section before |
| ElfLayout.Elf.CalcSegmentAlignment | include/elfio/elfio.hpp:720-730 | each segment's alignment becomes the largest of its own and its sections' |
| ElfLayout.Elf.Store | include/elfio/elfio.hpp:844-860 | the new position, section and marks are exactly those planned, wrapped or not; the section is at its address and overlaps nothing placed unless a position wrapped |
| ElfLayout.Elf.PlaceSection | include/elfio/elfio.hpp:780-861 | aborts exactly when planned, and otherwise sizes, position and section are those planned; nothing already placed moves |
| ElfLayout.Elf.PlaceSections | include/elfio/elfio.hpp:779-861 | the whole list of sections as planned; a segment that shares no section covers its sections by its file size |
| ElfLayout.Elf.StartSegment | include/elfio/elfio.hpp:745-777 | which of the four starts a segment gets, and the position after it |
| ElfLayout.Elf.LayoutSegment | include/elfio/elfio.hpp:742-874 | position, sections and the segment's record are exactly those planned, and no other segment's sections move |
| ElfLayout.Elf.LayoutSegmentsAndTheirSections | include/elfio/elfio.hpp:733-877 | all segments as planned for an order that names each once and puts containers first |
| ElfLayout.Elf.IsSectionWithoutSegment | include/elfio/elfio.hpp:616-628 | true exactly when no segment lists the section |
| ElfLayout.Elf.LayoutSectionsWithoutSegments | include/elfio/elfio.hpp:692-717 | the remaining sections are exactly where planned, apart and aligned, and no segment is disturbed |
| ElfLayout.Elf.LayoutSectionTable | include/elfio/elfio.hpp:880-887 | the table comes last, at a multiple of 4 even when the position wraps |
| ElfLayout.Elf.Layout | include/elfio/elfio.hpp:193-226 | succeeds exactly when the plan does and ends in its state; when the inputs fit, disjoint extents between the program header table and the section table; segments congruent to their addresses, covering their own sections, and all of them sized, nested ones to the end of their last section |
| ElfLayout.NestedIsShared | include/elfio/elfio.hpp:669-689 | all sections of a segment that another strictly contains are placed before its turn |
| ElfLayout.NestedIsCovered | include/elfio/elfio.hpp:820-839 | such a segment, with its sections in file order, covers all of them |
| ElfLayout.LaidOverEachOther | include/elfio/elfio.hpp:793-808 | the class lays the failing input out with success, at [120, 184) and [88, 152) |
| MsgPackGrammar.LoadInverts | include/msgpuck.h:214-243 | a big-endian field holds a number exactly when it is its encoding |
| MsgPackRead.ReadsBack | include/msgpuck.h:1198-1850 | a reader that goes by the specification's first bytes finds every encoded object's value, whatever follows, and stops behind it |
| MsgPackCheck.PassesEncodings | include/msgpuck.h:1985-2053 | the counter loop passes over k encodings as k turns of the count |
| MsgPackCheck.AcceptsExactlyTheGrammar | include/msgpuck.h:2081-2177 | accepted prefixes are exactly the encodings of one object of the grammar |
| MsgPackCheck.MpCheck | include/msgpuck.h:2081-2177 | the verdict is that of the grammar, reading only inside the buffer |
| MsgPackCheck.VerdictMeans | include/msgpuck.h:2081-2177 | the verdict is positive exactly if the buffer starts with an encoding, and then ends at its end |
| MsgPackCheck.MpNext | include/msgpuck.h:2056-2079 | stops where mp_check stops, and reads only inside the buffer |
| MsgPackCheck.MpNextSlowpath | include/msgpuck.h:1985-2053 | the same for k pending objects |
| MsgPackCheck.StandardExactlyWhen | include/msgpuck.h:2081-2177 | what is accepted is standard MessagePack exactly when neither 0xc1 stands where an object should start nor a map32 count reaches 2^31 |
| MsgPackCheck.HugeEmptyMapIsAccepted | include/msgpuck.h:2143-2147 | a header announcing 2^31 pairs and nothing behind it is accepted |
| MsgPackCheck.UnusedByteIsAccepted | hip/hints.c:557 | the byte no format uses is accepted as an object, alone or in an array |
| MsgPackNumbers.UintRoundTrip | include/msgpuck.h:1378-1437 | decoding an encoded unsigned integer gives it back, and the size is mp_sizeof_uint |
| MsgPackNumbers.IntRoundTrip | include/msgpuck.h:1398-1496 | the same for negative integers |
| MsgPackNumbers.ComparesExactlyShortest | include/msgpuck.h:1439-1477 | comparing agrees with the numbers against every shortest encoding exactly when the encoding is shortest |
| MsgPackNumbers.LongFormsMisorder | include/msgpuck.h:1439-1477 | 5 in two bytes compares as more than 6 |
| MsgPackFormat.ScanCounts | hip/msgpuck.c:48-68 | the look-ahead counts the trees directly inside a bracket |
| MsgPackFormat.EmitsTheTrees | hip/msgpuck.c:42-221 | the flat walk emits, item by item, the trees of the format |
| MsgPackFormat.AssertionsHoldExactlyWhenBalanced | hip/msgpuck.c:42-221 | no assertion fails exactly for formats that match their arguments and are balanced apart from closing brackets outside all levels |
| MsgPackFormat.ChunksAreEncoding | hip/msgpuck.c:69-103 | the items joined are the encoding of the tree: every header count matches the children |
| MsgPackFormat.WrittenIsLongestPrefix | hip/msgpuck.c:69-71 | what is written is the longest run of whole items that fits |
| MsgPackFormat.CountItems | hip/msgpuck.c:44-68 | the look-ahead loop |
| MsgPackFormat.EncodeArg | hip/msgpuck.c:104-214 | the bytes each directive writes, and that the reader finds the argument in them |
| MsgPackFormat.ArgReads | hip/msgpuck.c:104-214 | every argument is read back as what it was: a boolean as itself, a number as its value, a string as its bytes, a float as its bits, a packed object as its value |
| MsgPackFormat.EveryDirectiveIsRecognised | hip/msgpuck.c:109-204 | behind a percent sign exactly the documented words are directives, each of its kind and length |
| MsgPackFormat.OutputReadsAsFormat | hip/msgpuck.c:42-221 | reading the whole output finds the format's brackets and, between them and in order, the arguments its directives took |
| MsgPackFormat.Round | hip/msgpuck.c:42-221 | one round of the walk emits its item and leaves the rest |
| MsgPackFormat.VFormat | hip/msgpuck.c:36-223 | the result is the encoding's size whatever data_size is; exactly the fitting items are written; if all fit, a reader finds the format's brackets and the arguments |
| MsgPackPrint.PrintedJoins | hip/msgpuck.c:347-358 | printing in pieces into what is left of a buffer is printing the pieces joined |
| MsgPackPrint.CaseOfEncoding | hip/msgpuck.c:235-313 | at an encoding the switch takes the object's branch and decodes its value |
| MsgPackPrint.Stream.PrintObject | hip/msgpuck.c:315-332 | the stream gets the object's text, and its length is returned |
| MsgPackPrint.Buffer.PrintObject | hip/msgpuck.c:343-368 | the buffer gets as much of it as fits, and the full length is returned |
| MsgPackPrint.PrintBoth | hip/msgpuck.c:315-375 | for n >= 1 mp_snprint writes the first n - 1 bytes of what mp_fprint writes and returns the same length |
| MsgPackText.DecimalReads | hip/msgpuck.c:235-245 | reading a printed number gives it back |
| MsgPackText.EscapeReads | hip/msgpuck.c:257-263 | reading an escaped byte gives it back, and none looks like the closing quote |
| MsgPackText.TextReads | hip/msgpuck.c:235-313 | a reader of the printed text finds the value printed, nested to any depth, whatever follows that is not a digit |
| MsgPackText.PrintedAlike | hip/msgpuck.c:235-313 | objects printed alike have the same value, but for what the text cannot tell apart |
| KernelMetadata.ReadArgument | include/elf.h:96-130 | size, offset and kind are those of the entries, whatever an uninitialised record held |
| KernelMetadata.ReadKernel | include/elf.h:87-141 | a kernel's name and arguments are those of its entries |
| KernelMetadata.ArgumentIsItsEntries | include/elf.h:97-123 | with distinct keys each field is the value of its key, in any order |
| KernelMetadata.KernelIsItsEntries | include/elf.h:88-141 | so are a kernel's arguments and name |
| KernelMetadata.MissingEntries | include/elf.h:82-90 | without .args there are none; without .name the kernel before gives its name |
| KernelMetadata.FieldsAreRead | include/elf.h:96-130 | the strings and unsigned numbers taken from the document are those a reader of MessagePack finds |
| KernelMetadata.KeysInBytes | include/elf.h:80-121 | the keys that are looked for, byte by byte |
| KernelMetadata.HiddenMeans | include/elf.h:147-150 | the search finds the letters of "hidden", one after the other, anywhere in the kind |
| KernelMetadata.DecimalIsNumeral | include/elf.h:154 | an index is written in decimal digits without leading zeros whose value is the index |
| KernelMetadata.NumeralIsDecimal | include/elf.h:154 | and that numeral is the only one |
| KernelMetadata.HoldsExactlyWithoutClash | include/elf.h:142-166 | the table holds every entry exactly when no later one that hashes alike disagrees |
| KernelMetadata.TableHoldsTheKernels | include/elf.h:142-166 | with distinct hashes it holds every kernel's argument count and, under the name and an index's decimal numeral, that argument's size, 0 if its kind has "hidden" in it, and offset |
| KernelMetadata.KernelReachesTheTable | include/elf.h:74-173 | with distinct keys and hashes, the table has under the hash of a kernel's .name the number of its .args |
| KernelMetadata.ArgumentReachesTheTable | include/elf.h:74-173 | and under the hash of the name and an index's decimal numeral that argument's .offset, and its .size, or 0 if its .value_kind has "hidden" in it |
| KernelMetadata.NamesCanClash | include/elf.h:154-164 | a kernel whose name is another's name and an index overwrites that argument, whatever the hash |
| KernelMetadata.ArgumentSizes.Store | include/elf.h:142-166 | one entry for each argument and one for the kernel |
| KernelMetadata.ArgumentSizes.GetArgInfo | include/elf.h:74-173 | the cursor ends just past the document and the table has been written for every kernel in it |
| BranchEncoding.FieldsAgree | include/InsnFactory.h:42-62 | the signed shift of an insertion and the unsigned division of a new branch encode the same field, for any distance |
| BranchEncoding.ArrivesExactlyInReach | include/InsnFactory.h:552-567 | the encoded branch arrives exactly when the distance is a whole number of words within 16 signed bits |
| BranchEncoding.InsertedLeads | include/InsnFactory.h:48-51 | an insertion at a branch target runs before it: execution still comes to the target through inserted code only |
| BranchEncoding.MyBranchInsn.UpdateForInsertion | include/InsnFactory.h:42-62 | which addresses move, and the field of the new distance |
| BranchEncoding.MyBranchInsn.UpdateForMove | include/InsnFactory.h:31-34 | moving branch and target together leaves the field right |
| BranchEncoding.KeepBranch | include/InsnFactory.h:42-62 | after any sequence of insertions the branch leads where it led, as if encoded afresh |
| Trampolines.TrampolineRuns | hip/hip-fatbin.cpp:236-260 | a jump, the injected code, the instruction, the jump back to offset + 4, and the no-op of a long one: on behind the instruction |
| Trampolines.ExecutionIsPreserved | hip/hip-fatbin.cpp:236-260 | every run of the original is a run of the patched code with each patched instruction's trampoline in its place, same visible state |
| Trampolines.PatchedRunsAreOriginal | hip/hip-fatbin.cpp:236-260 | every run of the patched code begins such a run |
| Trampolines.SmallCodeIsReached | hip/hip-fatbin.cpp:241-258 | up to 32768 words in all, every trampoline is in reach |
| Trampolines.PatchedProgramIsInstrumented | hip/hip-fatbin.cpp:463-500 | what the patching leaves meets what the preservation of execution asks |
| Trampolines.PatchStep | hip/hip-fatbin.cpp:236-260 | a new patch is right and disturbs no earlier one |
| Trampolines.DecodedIsDisassembly | hip/hip-fatbin.cpp:463-464 | decoding from the start never starts an instruction inside another |
| Trampolines.Patcher.AddInstrumentation | hip/hip-fatbin.cpp:236-260 | what is overwritten and what is appended |
| Trampolines.Patcher.Merge | hip/hip-fatbin.cpp:494-500 | the patched text over the start of the extended section |
| Trampolines.Patcher.Instrument | hip/hip-fatbin.cpp:463-500 | after patching any set of instructions the section is the patched program |

## Left out

- Allocation failure, exceptions, copy and move, allocators, load factors other than the default and the prime-number policy of the hash table.
- FlatHashMap.Table.Emplace: requires a collision-free 64-bit hash and fewer than 2^63 keys, because with colliding hashes growing can go on for ever; distances are unbounded integers, and 2^64 buckets are taken to be allocatable.
- FlatHashMap.Run: covers insertion, erasure by key and rehash; erasure of ranges and by position is proved per call.
- FlatHashMap.Table.Rehash: states the least slot count, since re-inserting may itself grow the table.
- `log2` by de Bruijn multiplication; the model takes the exponent of the rounded size directly.
- AtomicQueue.EveryInterleavingIsSafe: steps are sequentially consistent; weak memory orders and spin pauses are not modelled, and rings have a power-of-two size of at most 2^30.
- The queue variants with an atomic element or a heap-allocated ring, the spinlocks and barriers.
- Short-input XXH3 hashes, secrets and seeds: parameters of the model. The 128-bit digest's merge, and other vector instruction sets.
- Xxh3.State.Update: the total length is unbounded; the source's is 64 bits.
- ElfLayout.Elf.Layout: where segments share sections, are loaded at offset 0, or a section lies further below its segment than the headers are long, the condition on the inputs is sufficient and that it is necessary is proved only step by step; alignments are at most 2^63, as powers of two are. The sizes of segments are stated where section 0 is the null section, as in every ELF file, since the code never moves it. `validate`, string tables, endianness and the writing of the streams are not modelled.
- MessagePack extension printing beyond `undefined`, the text of floating-point numbers, output errors of the streams, and lengths beyond the width of `int`.
- MsgPackFormat.VFormat: formats shorter than 2^31 characters; variable arguments are a sequence of typed arguments, and a packed argument is an object rather than a pointer. What the reader finds is stated where packed arguments are standard MessagePack, which the code does not check.
- MsgPackText.TextReads: standard objects without floating-point numbers, whose formatting is a parameter; strings and binary data, and extensions of all types, print alike.
- MsgPackPrint.PrintBoth: maps of 2^31 pairs or more, which the skipper and the printer read differently.
- KernelMetadata.ArgumentSizes.GetArgInfo: one note; address space and access are read and dropped, since nothing uses them.
- BranchEncoding.KeepBranch: addresses are unbounded; the source's are 32 bits wide.
- Trampolines.ExecutionIsPreserved: injected code is any straight-line code the program cannot see; the bytes injected, kernel descriptors and the decoding of instructions are not modelled, and offsets are multiples of 4.
- The interception layer, the trace database, replaying and the command-line tools: input, output and foreign calls.
