# CroCOS memory layer in Dafny

A model of the memory layer of the CroCOS microkernel, with proofs of what its lock-free protocols,
address arithmetic and allocators promise. `dafny verify dfyconfig.toml` checks all of it.

- **AtomicBitPool** (`BitPoolGeometry`, `BitPool`, `BitPoolThreads`, `BitPoolSerial`): a set of indices as a
  tree of counts and hint bits. `BitPoolThreads` is a transition system with one step per atomic operation and
  any number of calls in flight; `BitPoolSerial` is the class as a single caller sees it.
- **VMSubstrate** (`TlbCoherence`, `LeafProtocol`, `TreeEdges`, `EdgeRace`, `RadixTree`, `LazyTables`,
  `SelfReference`): translations kept coherent by dirty bits instead of interrupts, one leaf of the free-page tree
  under concurrent freers, the whole tree under overlapping calls and when operations run one at a time, reservation
  of pages with leaf tables installed on demand, and page-table addresses computed through slot 0 of the root.
- **vmsmalloc** (`SlabProtocol`, `SlabInvariant`, `SlabMoves`, `SlabPublish`, `SlabOwnership`, `SlabRace`;
  `HeadEncoding`): slabs passing between CPU-private magazines, shared chained stacks and the state "full, on no
  list", with one step per access to shared memory. The steps are in `SlabProtocol`, what holds in every run in
  `SlabOwnership`.
- **BootstrapMapper**: the recursive page-table builder, for any number of levels and any table widths.
  Addresses are counted in small pages and entry counts are powers of two.
- **LibAlloc** (`BlockAllocator`, `BlockTiling`, `MemorySpan`, `SpanSearch`; `SlabSlots`, `BucketLists`,
  `SlabAllocator`): the coalescing block allocator, the span search and the slab allocator.
- **PageAllocator and NUMA** (`MergedRanges`, `PagePool`, `NumaPartition`): merging and reserving ranges,
  allocating small pages from ring and partial pages, splitting usable memory by domain.

`Arith` holds shifts and masks as functions on unbounded integers, `Counting` sizes of finite sets, `Wrappers`
the optional value. Processor ids, page frames, hash inputs, scheduling choices and the buffers that a backing
allocator provides are parameters of the steps.

Some promises hold only under a condition, or not at all; the model keeps the code as it is and says when:

- Split of a free block: the comment at `InternalAllocator.cpp:329` says that the next header lies at most at
  the block's end. That holds for every eligible block if and only if the request has at least 17 bytes or an
  alignment of at most 64 (`CutFits`, `OutOfScopeEscapes`).
- Block sizes are read through a 32-bit mask: exact if and only if below 4 GiB (`ReadSizeExact`), so spans are.
- `topOccupiedBucket` is not always the highest bucket with a slab, as the comment at `SlabAllocator.cpp:420`
  has it (`DrainedTopStrandsSlab`). `Alloc` and `Free` say exactly which calls leave it the highest, from a right
  state or a wrong one: `Alloc` never spoils it, and a new slab, a slab that becomes full and a full slab that comes
  back always repair it.
- The bits of the free-page tree above the leaves can stay wrong after overlapping calls of `propagateEdge`, with
  free pages out of the allocator's reach and no call in flight to set them right (`FreePagesHidden`); the comment at
  `VMSubstrate.cpp:311` has a stale word benign. A call stops where the word does not cross zero in its own
  direction, so a toggle that moves the word across zero the other way is followed up by nobody. The bits are right
  in a quiet tree if and only if at every bitmap such crossings are even in number (`QuietTreeExactly`), and they
  need two toggles pending on one bit (`ApartEdgesExact`).
- `descendToFreeLeaf` in an arena with a single level returns leaf 0 even when it is full. The arena's constants
  give more than one level, where the answer is exact.
- `leafPTEAddrFor` does not clear the low three bits: exact if and only if the address lies in the first eighth
  of its page (`LeafEntryIsExact`). Its callers pass page-aligned addresses.
- A packed stack head comes back if and only if it does not point to the first page of the window
  (`PointerRoundTrip`), a page that never holds a slab.
- `initializePageTable` at three or more levels can fail its own alignment asserts for a range inside one root
  entry; `InitializePageTable` says exactly when, and with two levels never (`TwoLevelsNeverFail`).
- `remove` of a present index can report NotPresent under concurrency (`GivingUpOnPresentIndex`): exactly when,
  at one of its steps, calls in flight speak for every bit below the entry (`NotPresentExactly`).
- An access after `ensureTLBEntryFresh` can be stale (`RewriteAfterCheckGoesStale`): exactly when the page's frame
  has changed since the CPU last filled its entry (`StaleExactly`).
- A page of the NUMA partition can go to the wrong domain when a region ends inside a page
  (`UnalignedEndMisassigns`); `PartitionUsable` says exactly for which regions and ranges. The comment at
  `NUMA.cpp:768` speaks of big-page alignment; the code rounds to small pages, and so does the model.

## Model

| member | source | states |
|---|---|---|
| BitPoolThreads.RunKeepsInv | libraries/Core/atomic/AtomicBitPool.cpp:118-310 | In every state of every interleaving of any number of `add`, `remove` and `getAny` calls, each entry below the top has a count equal to the set bits under it less the units that calls in flight still owe or hold there (negative counts included), and its hint bit XOR the parity of pending toggles says whether that count is positive |
| BitPoolThreads.StepKeepsInv | libraries/Core/atomic/AtomicBitPool.cpp:118-310 | One atomic step of any call, or the start of a call, takes a state with that accounting to another such state |
| BitPoolThreads.StepCount | libraries/Core/atomic/AtomicBitPool.cpp:118-222 | A step changes count, owed unit and bits below an entry so that count + owed - bits is the same before and after |
| BitPoolThreads.StepHint | libraries/Core/atomic/AtomicBitPool.cpp:118-146 | A step keeps the agreement of hint XOR pending toggle with the sign of the count, through negative counts too |
| BitPoolThreads.StepClaim | libraries/Core/atomic/AtomicBitPool.cpp:177-306 | A call holds a claim under an entry only after a decrement that left a non-negative count; bits below fall no faster than claims are used up |
| BitPoolThreads.GetterFindsBit | libraries/Core/atomic/AtomicBitPool.cpp:251-272 | A `getAny` that has reached level 0 of a pool of several levels faces a non-zero word, whatever the other calls do, so its rotation is never applied to zero |
| BitPoolThreads.QuiescentPassesCheck | libraries/Core/atomic/AtomicBitPool.cpp:322-355 | At the end of any run that leaves no call in flight, the full `checkInvariants` holds |
| BitPoolThreads.ClaimedOnce | libraries/Core/atomic/AtomicBitPool.cpp:148-310 | Over a whole run, the times an index was set equal the times a remover or getter claimed it plus one if it is set now: no set bit is claimed twice and none is lost |
| BitPoolThreads.SuccessIsClaim | libraries/Core/atomic/AtomicBitPool.cpp:177-310 | Over a whole call, amid any other calls: `remove` reports success, or `getAny` an index, if and only if that call itself cleared the bit of that index, once, and no other bit |
| BitPoolThreads.BacksOutExactly | libraries/Core/atomic/AtomicBitPool.cpp:195-204 | A `remove` backs out of an entry if and only if the other calls in flight have at least as many units outstanding there as there are bits below |
| BitPoolThreads.NotPresentExactly | libraries/Core/atomic/AtomicBitPool.cpp:177-222 | Over a whole call of `remove`, amid any other calls: it ends in NotPresent if and only if at one of its steps the bits below an entry were all spoken for by calls in flight, or its own bit was gone at the end |
| BitPoolThreads.GivingUpHasRival | libraries/Core/atomic/AtomicBitPool.cpp:195-204 | So when it gives up on an index that is present, another call has a unit outstanding on that very entry |
| BitPoolThreads.GivingUpOnPresentIndex | libraries/Core/atomic/AtomicBitPool.cpp:195-204 | A run in which `remove(0)` returns NotPresent although index 0 is present throughout: concurrent NotPresent is not exact |
| BitPool.CheckMeansExact | libraries/Core/atomic/AtomicBitPool.cpp:322-355 | The loops of `checkInvariants` accept exactly the pools in which every count is the number of set bits below its entry and every hint says whether that number is positive, over the entries of the pool |
| BitPool.UnderChild | libraries/Core/atomic/AtomicBitPool.cpp:97-107 | The indices under child number b of an entry are those under the entry whose bit at that level is b |
| BitPoolGeometry.SlotsAreDistinct | libraries/Core/atomic/AtomicBitPool.cpp:73-85 | `entryAt` gives different (index, level) pairs different slots, all inside the buffer that `requiredBufferSize` asks for |
| BitPoolGeometry.LevelOffsetIsSum | libraries/Core/atomic/AtomicBitPool.cpp:71-78 | The shifted geometric sum of `entryAt` is the number of entries of the levels above |
| BitPoolGeometry.LevelExtent | libraries/Core/atomic/AtomicBitPool.cpp:33-48 | Each level fills the buffer from its own start up to the start of the level below |
| BitPoolGeometry.ForCapacity | libraries/Core/atomic/AtomicBitPool.cpp:20-31 | For every power-of-two capacity the computed level count and level-1 width describe a tree of exactly that capacity |
| BitPoolGeometry.BitIndexAgrees | libraries/Core/atomic/AtomicBitPool.cpp:97-116 | An index's bit at a level, computed from the index, is the place of its child entry under its parent, computed from the entry |
| BitPoolGeometry.ChildParentRoundTrip | libraries/Core/atomic/AtomicBitPool.cpp:105-116 | `childEntryIndex` inverts the pair `parentEntryIndex`, `bitIndexInParent`, in both directions |
| BitPoolGeometry.ParentOfIndex | libraries/Core/atomic/AtomicBitPool.cpp:101-111 | Walking up by `parentEntryIndex` meets the entries that `entryIndexForLevel` computes directly |
| BitPoolGeometry.TopCoversAll | libraries/Core/atomic/AtomicBitPool.cpp:87-103 | Every index of the pool lies under the single top entry |
| BitPoolGeometry.NodesAreInPool | libraries/Core/atomic/AtomicBitPool.cpp:101-103 | The entry of a pool index at any level exists in the pool |
| BitPoolGeometry.ChildrenAreInPool | libraries/Core/atomic/AtomicBitPool.cpp:105-107 | The children of an entry of the pool are entries of the pool |
| BitPoolGeometry.Log2Ceil | libraries/Core/include/core/math.h:65-68 | The exponent of the smallest power of two that is at least the value |
| BitPoolSerial.RotationPicksSetBit | libraries/Core/atomic/AtomicBitPool.cpp:232-240 | For every thread id, retry count and non-zero word, rotating and counting zeros from either end names a set bit of that word |
| BitPoolSerial.AtomicBitPool.constructor | libraries/Core/atomic/AtomicBitPool.cpp:61-69 | A new pool is empty, passes the check, and holds the requested capacity rounded up to the next power of two |
| BitPoolSerial.AtomicBitPool.IncrementCount | libraries/Core/atomic/AtomicBitPool.cpp:118-131 | The count rises by one and the parent hint toggles exactly on 0 to 1; the signals say whether the top word was empty |
| BitPoolSerial.AtomicBitPool.DecrementCount | libraries/Core/atomic/AtomicBitPool.cpp:133-146 | The count falls by one and the parent hint toggles exactly on 1 to 0; the signals say whether the top word became empty |
| BitPoolSerial.AtomicBitPool.Add | libraries/Core/atomic/AtomicBitPool.cpp:148-175 | Run alone, `add` is set insertion, and the three results are exact, including "was empty" |
| BitPoolSerial.AtomicBitPool.Remove | libraries/Core/atomic/AtomicBitPool.cpp:177-222 | Run alone, `remove` is set deletion, and the three results are exact, including "made empty"; a failed one leaves the pool as it was |
| BitPoolSerial.AtomicBitPool.GetAny | libraries/Core/atomic/AtomicBitPool.cpp:224-310 | Run alone, `getAny` removes and returns a member for every thread id and retry limit, reports Empty exactly for the empty set, and is never Contended |
| BitPoolSerial.AtomicBitPool.Search | libraries/Core/atomic/AtomicBitPool.cpp:251-309 | The loop with its retries, from any entry on whose path it holds the units: it always leaves a sound pool, and takes a bit without a retry whenever there is one below that entry |
| BitPoolSerial.AtomicBitPool.TakeChild | libraries/Core/atomic/AtomicBitPool.cpp:294-305 | Whichever hinted child the rotation picks, its count was positive and a bit is below it |
| BitPoolSerial.AtomicBitPool.BackUp | libraries/Core/atomic/AtomicBitPool.cpp:281-292 | Climbing from an entry gives exactly its unit back and leaves the units of the entries above |
| BitPoolSerial.AtomicBitPool.BackOutHeld | libraries/Core/atomic/AtomicBitPool.cpp:242-249 | Giving back what decrementedAt records settles the pool |
| BitPoolSerial.AtomicBitPool.TryClaim | libraries/Core/atomic/AtomicBitPool.cpp:252-271 | A failed fetch_and at level 0 means that no bit is below the entry |
| BitPoolSerial.AtomicBitPool.LowerCounts | libraries/Core/atomic/AtomicBitPool.cpp:191-207 | The top-down decrements either leave every entry of the path one short, or back out without trace when the index is absent |
| BitPoolSerial.AtomicBitPool.RaiseCounts | libraries/Core/atomic/AtomicBitPool.cpp:160-171 | The bottom-up increments settle the path and report "to empty" exactly when the index is the only one |
| BitPoolSerial.AddSignal | libraries/Core/atomic/AtomicBitPool.cpp:118-131 | At the level below the top, the condition that `incrementCount` tests holds exactly when the added index is the only one in the pool |
| BitPoolSerial.RemoveSignal | libraries/Core/atomic/AtomicBitPool.cpp:133-146 | At the level below the top, the condition that `decrementCount` tests holds exactly when the removed index was the only one |
| BitPoolSerial.ChosenChild | libraries/Core/atomic/AtomicBitPool.cpp:294-305 | A hinted child has a positive count and bits below, and taking its unit extends the path of units by one entry |
| TlbCoherence.RunKeepsInv | kernel/mm/VMSubstrate.cpp:407-422 | Every step of every CPU keeps this: each cached translation is absent, current, flagged dirty, or still to be flagged by a rewrite in progress |
| TlbCoherence.RewriteReachesEveryCpu | kernel/mm/VMSubstrate.cpp:801-830 | In any run from boot with any number of CPUs, once no rewrite of a page is in progress every CPU's cached translation of it is absent, current or flagged dirty |
| TlbCoherence.CheckedAccessIsCurrent | kernel/mm/VMSubstrate.cpp:1025-1041 | From boot, through any run: an access after `ensureTLBEntryFresh` uses the frame the page table names, if no rewrite of that page is in flight from the call to the access |
| TlbCoherence.AccessAfterCheck | kernel/mm/VMSubstrate.cpp:1025-1041 | The same from any reachable state, by induction over whatever all CPUs do between check and access |
| TlbCoherence.RewriteAfterCheckGoesStale | kernel/mm/VMSubstrate.cpp:756-773 | That condition cannot be dropped: a run where a rewrite between check and access leaves the checked CPU on the old frame |
| TlbCoherence.StaleExactly | kernel/mm/VMSubstrate.cpp:1025-1041 | In every run an access would be stale if and only if the CPU has filled its entry since its own last invalidation and the page's frame is no longer the one it had then; a stale entry is flagged dirty or still to be covered by a rewrite |
| TlbCoherence.StepCovers | kernel/mm/VMSubstrate.cpp:415-421 | Each step of a rewriter either leaves a CPU still to be covered or has made that CPU's entry safe |
| LeafProtocol.RunKeepsInv | kernel/mm/VMSubstrate.cpp:248-288 | One allocator and any number of freers, in every interleaving: count, pending edges and parent bit stay in agreement and every page is in one place only |
| LeafProtocol.LeafIsSound | kernel/mm/VMSubstrate.cpp:248-264 | In every run the count of non-empty words stays in 0..2, never underflows, the parent bit XOR pending edges tells whether it is positive, and a claim reached through a set parent bit never fails |
| LeafProtocol.NoLivePageHandedOut | kernel/mm/VMSubstrate.cpp:248-264 | The page a claim takes is in no caller's hands and not on its way back through a freer |
| LeafProtocol.QuietLeafIsExact | kernel/mm/VMSubstrate.cpp:832-844 | With nothing in flight the count is the number of non-empty words and the parent bit is set exactly when a page is free |
| LeafProtocol.SetBitMeansSettled | kernel/mm/VMSubstrate.cpp:266-288 | A set parent bit seen by the allocator means that no upward edge is pending and that a word is non-empty |
| TreeEdges.UpperBitExactly | kernel/mm/VMSubstrate.cpp:266-288 | In every run of one allocator and any number of freers, from any seeded arena of any depth, at every level above the leaves: the bit of a bitmap, XOR the parity of the toggles that calls in flight still have to do on it, XOR the parity of the wrong-way crossings of its word so far, tells whether the word is non-zero |
| TreeEdges.QuietTreeExactly | kernel/mm/VMSubstrate.cpp:266-288 | With no call in flight, all interior bits tell exactly where pages are free if and only if at every bitmap the wrong-way crossings of the run are even in number |
| TreeEdges.WrongBitIsOdd | kernel/mm/VMSubstrate.cpp:266-288 | With no call in flight, one bit is wrong about the word below it if and only if that word was crossed the wrong way an odd number of times |
| TreeEdges.ApartEdgesExact | kernel/mm/VMSubstrate.cpp:266-288 | A run in which every toggle was the only one pending on its bit leaves all interior bits right, whatever else overlaps |
| TreeEdges.AloneGoesRight | kernel/mm/VMSubstrate.cpp:277-283 | A toggle that is alone on its bit sets it for an availability edge and clears it for a full edge |
| TreeEdges.RunKeepsInv | kernel/mm/VMSubstrate.cpp:248-326 | Every run keeps each leaf sound, its bit in the lowest interior level in step with its pending edges, and every toggle to come on a bit of the tree |
| EdgeRace.FreePagesHidden | kernel/mm/VMSubstrate.cpp:266-326 | A run from a seeded arena that ends with no call in flight, a free page and a set bit in each of two leaves, and the bit above them clear after one wrong-way crossing: the next descent reports the arena exhausted |
| RadixTree.Arena.PropagateEdge | kernel/mm/VMSubstrate.cpp:266-288 | For any depth and leaf count: after the walk every interior bit is set exactly when its subtree has an available leaf, for the new set of available leaves |
| RadixTree.Arena.DescendToFreeLeaf | kernel/mm/VMSubstrate.cpp:316-326 | With two or more levels, SIZE_MAX exactly when no leaf is available and otherwise the left-most available leaf; with a single level it is leaf 0 without a look |
| RadixTree.Arena.ClaimPage | kernel/mm/VMSubstrate.cpp:746-753 | None exactly when the leaf has no free page; else takes exactly one page of it and keeps all interior bits exact |
| RadixTree.Arena.ReleasePage | kernel/mm/VMSubstrate.cpp:832-844 | Gives exactly one page back and keeps all interior bits exact: the inverse of a reservation |
| RadixTree.Arena.ClaimLeafBit | kernel/mm/VMSubstrate.cpp:248-264 | -1 exactly when neither word of the leaf has a page; otherwise a page of the leaf leaves it, and becameFull exactly when it was the last |
| RadixTree.Arena.ReserveLeafBit | kernel/mm/VMSubstrate.cpp:295-306 | Takes exactly the named page out of the arena and keeps all interior bits exact |
| RadixTree.Arena.constructor | kernel/mm/VMSubstrate.cpp:432-456 | After seeding every page is free and every interior bit is exact |
| RadixTree.Arena.SeedLevel | kernel/mm/VMSubstrate.cpp:442-455 | The words of a level get a bit for each child that exists and for no other |
| RadixTree.DepthReachesRoot | kernel/mm/VMSubstrate.cpp:47-65 | The computed depth is the first level with a single bitmap |
| RadixTree.BfsSlotsDistinct | kernel/mm/VMSubstrate.cpp:67-80 | Different interior bitmaps have different slots, all inside the interior region |
| RadixTree.DecisiveTells | kernel/mm/VMSubstrate.cpp:277-283 | The stop tests of `propagateEdge` succeed exactly when another leaf below the same bitmap is available |
| RadixTree.LowestBitLeadsLeft | kernel/mm/VMSubstrate.cpp:319-323 | Following the lowest set bit keeps every available leaf at or to the right of the chosen subtree |
| LazyTables.LazyArena.ReserveFreeVA | kernel/mm/VMSubstrate.cpp:727-754 | With tables installed on demand between descent and claim: fails exactly when no free page is usable; else the page is in no caller's hands, holds no dirty bitmap, is mapped through an installed table and lies in the left-most leaf with a usable page; the loop ends |
| LazyTables.LazyArena.EnsureTable | kernel/mm/VMSubstrate.cpp:535-556 | A freshly installed leaf table takes exactly its own dirty pages out of the free pages |
| LazyTables.LazyArena.ReleasePage | kernel/mm/VMSubstrate.cpp:832-844 | Only the page given back becomes free; dirty pages never do |
| LazyTables.LazyArena.constructor | kernel/mm/VMSubstrate.cpp:432-456 | A new arena has no table, no page in a caller's hands, and every page of it free |
| LazyTables.LazyArena.ReserveBootBits | kernel/mm/VMSubstrate.cpp:458-480 | Of the free pages exactly those from the end of the head of the data range on are left, the first table's dirty pages are among those set aside, and the whole invariant holds with that table installed |
| LazyTables.NewlyInstalled | kernel/mm/VMSubstrate.cpp:746-747 | A claim that fails after a successful descent means that the table is new, which bounds the retries |
| SelfReference.EntryOffsetIsEntry | kernel/mm/VMSubstrate.cpp:503-515 | For any width, depth and level: the divided address translates to the very slot that a level-by-level walk reads, and translates at all exactly when the tables down to that slot are installed |
| SelfReference.TableOffsetIsTable | kernel/mm/VMSubstrate.cpp:522-526 | The rounded divided address translates to the start of the same table |
| SelfReference.ParentOfEntry | kernel/mm/VMSubstrate.cpp:345-350 | `parentEntryAddrOf` of an entry's address is the address of the entry one level up |
| SelfReference.LeafEntryIsExact | kernel/mm/VMSubstrate.cpp:338-343 | `leafPTEAddrFor`, which does not clear low bits, names the leaf entry if and only if the address lies in the first eighth of its page; all page-aligned addresses do |
| SelfReference.ShiftedPageIsTable | kernel/mm/VMSubstrate.cpp:328-334 | Walking a page number with low digits dropped ends at the table that many levels short of the page: what slot 0 of the root makes possible |
| SelfReference.WalkAfterInstall | kernel/mm/VMSubstrate.cpp:517-533 | After a new table is entered, the walks whose last step reads the new entry, and only they, end in it; every other walk is as before |
| SelfReference.PageTables.EnsureEntry | kernel/mm/VMSubstrate.cpp:513-533 | One level: afterwards the walk reaches one level further, and whatever was reachable is still |
| SelfReference.PageTables.EnsureSubtableInstalled | kernel/mm/VMSubstrate.cpp:493-563 | Afterwards the walk to the address reaches its leaf table, all earlier entries survive, and the tables added are exactly the frames taken |
| SlabOwnership.RunKeepsInv | kernel/mm/vmsmalloc.cpp:360-535 | In every run of allocating and freeing CPUs there is an assignment of each slab to one place that agrees with all magazines, chains, counts, held slots and links |
| SlabOwnership.StepKeepsInv | kernel/mm/vmsmalloc.cpp:360-535 | Each step keeps that agreement and leaves all magazines of other CPUs alone |
| SlabOwnership.OnePlace | kernel/mm/vmsmalloc.cpp:384-453 | In every run each slab is in exactly one place: at one position of one magazine or shared chain, or full, or with one freer; so a full slab is on no list, and whatever is on a list is of its domain and class and not full |
| SlabOwnership.AllocSlotSucceeds | kernel/mm/vmsmalloc.cpp:394-400 | `allocSlot` on a magazine head always finds a slot |
| SlabOwnership.NoLiveSlotReissued | kernel/mm/vmsmalloc.cpp:394-411 | A slot handed out is in no caller's hands and held by no other CPU |
| SlabOwnership.PreReadStaysRight | kernel/mm/vmsmalloc.cpp:387-410 | Whatever other CPUs do between the pre-read of the successor and its use, such as overwriting `chainNext` of the slab that filled up, the pre-read pointer heads exactly the rest of the magazine |
| SlabRace.FreerOverwritesLink | kernel/mm/vmsmalloc.cpp:387-404 | The race is real: a run of two CPUs in which the link of the filled slab has been overwritten, and the slab is already in the other CPU's magazine, before the first CPU moves its head; reading the link again would lose the rest of the magazine |
| SlabOwnership.UnlinkCompletes | kernel/mm/vmsmalloc.cpp:402-404 | Moving the head leaves head, depth and links describing exactly that rest |
| SlabOwnership.MagazineIsPrivate | kernel/mm/vmsmalloc.cpp:276-296 | No step of another CPU changes what a magazine holds |
| SlabOwnership.ReclaimedIsUnused | kernel/mm/vmsmalloc.cpp:428-441 | A slab whose page is given back has all slots free and none live, no CPU works on it or holds it as a head or as a successor it has read, and afterwards it is on no list |
| SlabMoves.EmptyIsUnused | kernel/mm/vmsmalloc.cpp:423-429 | A slab in a magazine whose count is zero has all its slots free: no call is between count and bitmap |
| SlabOwnership.NoStepIsStuck | kernel/mm/vmsmalloc.cpp:384-453 | No call in progress meets a null or dangling slab pointer or an empty magazine: its next step can always be taken |
| HeadEncoding.PointerRoundTrip | kernel/mm/vmsmalloc.cpp:90-101 | Unpacking a packed head gives the pointer back if and only if it is not the first page of the window, whose offset 0 stands for "empty" |
| HeadEncoding.TagRoundTrip | kernel/mm/vmsmalloc.cpp:90-103 | The counter comes back modulo its width |
| HeadEncoding.ZeroIsEmpty | kernel/mm/vmsmalloc.cpp:96-101 | A zero word is the empty stack |
| HeadEncoding.HeadsRepeatOnlyOnWrap | kernel/mm/vmsmalloc.cpp:90-104 | Two heads compare equal if and only if they name the same page and the pushes in between are a multiple of the counter range |
| BootstrapMapper.Mapper.InitializePageTable | kernel/include/mem/BootstrapMapper.h:70-179 | For any number of levels and any widths, and any range that fits: it succeeds exactly when the source's asserts hold, and then a walk of the tables sends mapped offset + b to range start + b for every page of the range and maps nothing else; no table outside its own chain is written |
| BootstrapMapper.Mapper.InitializeLeaf | kernel/include/mem/BootstrapMapper.h:96-107 | The last level maps the range at the bottom or up to the top of the table, and fails exactly when it has too many pages |
| BootstrapMapper.Mapper.InitializeInterior | kernel/include/mem/BootstrapMapper.h:108-175 | Head, big-page middle and tail together map exactly the range |
| BootstrapMapper.Mapper.InitializeSingle | kernel/include/mem/BootstrapMapper.h:147-153 | A range inside one entry of the root is mapped through one subtable, exactly when the asserts of the next level hold |
| BootstrapMapper.Mapper.MapHead | kernel/include/mem/BootstrapMapper.h:155-162 | The unaligned head is mapped by the lower chain alone |
| BootstrapMapper.Mapper.MapTail | kernel/include/mem/BootstrapMapper.h:168-173 | The unaligned tail is mapped by the upper chain alone |
| BootstrapMapper.Mapper.MapMiddle | kernel/include/mem/BootstrapMapper.h:163-167 | The middle entries are leaves for consecutive big pages and all other entries stay |
| BootstrapMapper.RowMaps | kernel/include/mem/BootstrapMapper.h:118-174 | A table whose entries are head subtable, big-page leaves and tail subtable maps the range and nothing else |
| BootstrapMapper.SingleMaps | kernel/include/mem/BootstrapMapper.h:147-153 | A table with one subtable entry maps what the subtable maps, shifted by the entry |
| BootstrapMapper.TwoLevelsNeverFail | kernel/include/mem/BootstrapMapper.h:110-117 | With two levels, as on the supported hardware, the alignment asserts hold for every range |
| BootstrapMapper.ThreeLevelsCanFail | kernel/include/mem/BootstrapMapper.h:110-117 | With three levels a range that fits can fail them |
| BootstrapMapper.HalfTheZoneFits | kernel/include/mem/BootstrapMapper.h:140-144 | A range of at most half the zone fits its root table wherever it starts |
| BootstrapMapper.TablesDoNotOverlap | kernel/include/mem/BootstrapMapper.h:78-86 | All tables of both stacks have disjoint places inside `requiredTableSizeForPageAllocator` bytes |
| BlockAllocator.CutFits | libraries/LibAlloc/InternalAllocator.cpp:252-337 | Every block of the padded size or more, cut for a request of at least 17 bytes or of alignment at most 64, keeps header, data and next header inside the block, with leftovers that are empty or at least a minimum block |
| BlockAllocator.OutOfScopeEscapes | libraries/LibAlloc/InternalAllocator.cpp:328-331 | For every other request there is an eligible block that is cut past its end: the two conditions are exactly the requests for which the bound that the source's comment states holds |
| BlockAllocator.ReturnBounds | libraries/LibAlloc/InternalAllocator.cpp:274-287 | The returned address is aligned and lies right after the plain header or leaves room for the larger one |
| BlockTiling.TiledTotal | libraries/LibAlloc/InternalAllocator.cpp:842-848 | Blocks that tile a stretch add up to it |
| BlockTiling.InOneBlock | libraries/LibAlloc/InternalAllocator.cpp:842-848 | Every address of a tiled stretch lies in exactly one block |
| MemorySpan.Span.constructor | libraries/LibAlloc/InternalAllocator.cpp:187-204 | A new span is valid and is one free block |
| MemorySpan.Span.AllocateBlock | libraries/LibAlloc/InternalAllocator.cpp:296-382 | Keeps the span valid (blocks tile the buffer, no two free blocks touch, `freeSpace` is the sum and `largestFreeBlockSize` the maximum of free sizes); returns null exactly when no free block has the padded size; else an aligned address whose bytes lie in one new block, the others unchanged |
| MemorySpan.Span.FreeBlock | libraries/LibAlloc/InternalAllocator.cpp:439-465 | Accepts exactly the addresses handed out and not yet freed, removes exactly that block, keeps the span valid, and changes nothing for any other pointer; sizes are read through the 32-bit mask of the source |
| MemorySpan.Span.CoalesceAdjacentFreeBlocks | libraries/LibAlloc/InternalAllocator.cpp:384-418 | The block is joined with both neighbours that touch it, and with no others |
| MemorySpan.Span.ValidatedHeader | libraries/LibAlloc/InternalAllocator.cpp:420-437 | The floor lookup finds the block whose data begins at the pointer if there is one, and rejects inner and foreign pointers |
| MemorySpan.Span.InsertFreeBlock | libraries/LibAlloc/InternalAllocator.cpp:211-221 | The cached maximum stays the maximum |
| MemorySpan.Span.RemoveFreeBlock | libraries/LibAlloc/InternalAllocator.cpp:223-238 | The cached maximum stays the maximum |
| MemorySpan.AllocationKeeps | libraries/LibAlloc/InternalAllocator.cpp:339-374 | Replacing a free block by an allocated one and up to two leftovers keeps the tiling and the separation of free blocks, and lowers the total by the allocated size |
| MemorySpan.CoalesceKeeps | libraries/LibAlloc/InternalAllocator.cpp:398-417 | Joining restores the separation of free blocks, keeps the tiling and the total |
| MemorySpan.BlocksAddUp | libraries/LibAlloc/InternalAllocator.cpp:842-848 | In every valid span free and allocated sizes add up to the buffer |
| MemorySpan.DataApart | libraries/LibAlloc/InternalAllocator.cpp:296-382 | In every valid span the bytes requested of two live blocks, and their headers, do not overlap and lie in the span |
| MemorySpan.ReadSizeExact | libraries/LibAlloc/InternalAllocator.cpp:39-39 | The masked size is the written one if and only if it is below 4 GiB |
| SpanSearch.FindMostOccupiedSpanFitting | libraries/LibAlloc/InternalAllocator.cpp:567-595 | For every augmented tree the descent returns what a linear scan in tree order returns, null exactly when no span fits |
| SpanSearch.FoundIsMostOccupied | libraries/LibAlloc/InternalAllocator.cpp:567-595 | In a tree ordered by free space the span found has the least free space of all that fit |
| SpanSearch.FirstFitIsLeast | libraries/LibAlloc/InternalAllocator.cpp:567-595 | In an ordered list the scan's first fit precedes every other fit |
| SpanSearch.AugmentationTells | libraries/LibAlloc/InternalAllocator.cpp:483-488 | A subtree has a fitting span exactly when its recomputed augmentation is large enough |
| SlabSlots.AllocThreaded | libraries/LibAlloc/SlabAllocator.cpp:152-184 | Through both the threaded list and the uninitialised horizon, `Slab::alloc` takes exactly one free slot |
| SlabSlots.FreeThreaded | libraries/LibAlloc/SlabAllocator.cpp:204-216 | `Slab::free` makes exactly that slot free |
| SlabSlots.FreeCountIsSize | libraries/LibAlloc/SlabAllocator.cpp:152-220 | `freeCount` is the number of free slots |
| BucketLists.RemoveKeepsLists | libraries/LibAlloc/SlabAllocator.cpp:309-322 | Unlinking from any position leaves all doubly linked lists well linked, with that slab alone gone |
| BucketLists.InsertKeepsLists | libraries/LibAlloc/SlabAllocator.cpp:324-330 | Inserting at a head leaves all lists well linked, with that slab alone added |
| SlabAllocator.TablesAgree | libraries/LibAlloc/SlabAllocator.cpp:29-91 | For every occupancy the lower table value is at most the upper one and both name buckets |
| SlabAllocator.FullNotEmptied | libraries/LibAlloc/SlabAllocator.cpp:405-415 | A slab on the full list cannot become empty by one free, so that free need not look at the free list |
| SlabAllocator.LowerIndexFalls | libraries/LibAlloc/SlabAllocator.cpp:429-432 | Freeing a slot never raises a slab's lower bucket |
| SlabAllocator.Allocator.constructor | libraries/LibAlloc/SlabAllocator.cpp:245-255 | An allocator without slabs is valid |
| SlabAllocator.SettlesKept | libraries/LibAlloc/SlabAllocator.cpp:405-447 | Where the top bucket was the highest, a free leaves it so exactly when it strands no partial bucket |
| SlabAllocator.Allocator.AddNewSlab | libraries/LibAlloc/SlabAllocator.cpp:285-307 | The new slab is the one non-full slab and the top bucket; all of the invariant holds |
| SlabAllocator.Allocator.Alloc | libraries/LibAlloc/SlabAllocator.cpp:332-376 | Returns a slot that no caller holds and records exactly that one; keeps lists linked, bucket indices at or above the lower table value, counters exact, and `topOccupiedBucket` null exactly when no slab is non-full, else on a non-empty list; that list is afterwards the highest one if and only if the slab is new, has become full, or has no slab in a partial bucket above its new one, so a highest one stays the highest |
| SlabAllocator.Allocator.Free | libraries/LibAlloc/SlabAllocator.cpp:397-452 | Takes back exactly the given slot and keeps the whole invariant, over all three re-bucketing cases and the release of surplus free slabs; afterwards the top bucket is the highest if and only if a full slab came back, or the sizes of the lists after the move leave nothing above it; where it was the highest, that is exactly when the call does not empty the only slab of the top bucket while another partial bucket has slabs |
| SlabAllocator.Allocator.ReleaseFreeSlabsIfNecessary | libraries/LibAlloc/SlabAllocator.cpp:378-395 | Above the threshold exactly the retained number of free slabs is left; no live slot is lost and the invariant holds |
| SlabAllocator.Allocator.RemoveSlabFromBucket | libraries/LibAlloc/SlabAllocator.cpp:309-322 | The pointer updates remove exactly that slab from its list |
| SlabAllocator.Allocator.InsertSlabAtBucketHead | libraries/LibAlloc/SlabAllocator.cpp:324-330 | The pointer updates put exactly that slab in front |
| SlabAllocator.Allocator.RetireSlab | libraries/LibAlloc/SlabAllocator.cpp:340-357 | A slab that became full moves to the full list and the top bucket is null or the highest non-empty list, whatever it was before |
| SlabAllocator.Allocator.RaiseSlab | libraries/LibAlloc/SlabAllocator.cpp:358-370 | A slab moves to its upper bucket, which becomes the top bucket: the highest exactly when no bucket above it has a slab |
| SlabAllocator.Allocator.Reintroduce | libraries/LibAlloc/SlabAllocator.cpp:405-414 | A slab leaves the full list for the highest bucket, and the top bucket is the highest, whatever it was before |
| SlabAllocator.Allocator.ReturnToFree | libraries/LibAlloc/SlabAllocator.cpp:415-427 | An emptied slab goes to the free list and a drained top bucket is replaced by the free slabs; it is afterwards the highest exactly when the move leaves no slab above it |
| SlabAllocator.Allocator.LowerSlab | libraries/LibAlloc/SlabAllocator.cpp:429-447 | A slab goes to a lower bucket and a drained top bucket is replaced by a non-empty one; it is afterwards the highest exactly when the move leaves no slab above it |
| SlabAllocator.Allocator.HighestBucket | libraries/LibAlloc/SlabAllocator.cpp:349-356 | The highest partial bucket with a slab, the free slabs when there is none |
| SlabAllocator.DrainedTopStrandsSlab | libraries/LibAlloc/SlabAllocator.cpp:420-426 | Five calls after which the top bucket is the free slabs although a partial bucket has a slab, against the comment |
| SlabAllocator.UpperNotAbove | libraries/LibAlloc/SlabAllocator.cpp:367-369 | The bucket an allocation moves a slab to is never above the one the next allocation from it names: an allocation does not lower a slab |
| MergedRanges.ComputeMergedRanges | kernel/mm/PageAllocator.cpp:360-393 | For any sorted non-empty ranges, overlapping or not: the merged ranges are big-page aligned, cover consecutive groups of all inputs, and begin and end where their group does |
| MergedRanges.MergedInOrder | kernel/mm/PageAllocator.cpp:372-387 | Merged ranges are sorted and disjoint, and so are their groups |
| MergedRanges.InputsAreMerged | kernel/mm/PageAllocator.cpp:344-394 | Every input page lies in exactly one merged range |
| MergedRanges.ReserveSmallPageRange | kernel/mm/PageAllocator.cpp:396-405 | Every page of the gap is reserved, each for the first time |
| MergedRanges.ReserveGaps | kernel/mm/PageAllocator.cpp:454-487 | The cursor sweep over one big page reserves exactly its pages that are in no range of the group, each once |
| MergedRanges.ReserveAll | kernel/mm/PageAllocator.cpp:439-495 | The sweep visits exactly the big pages of the merged ranges and reserves in each exactly the pages that are in no input |
| MergedRanges.UnreservedAreInputs | kernel/mm/PageAllocator.cpp:439-495 | The pages left unreserved are exactly the union of the inputs |
| MergedRanges.BigPageIsUsed | kernel/mm/PageAllocator.cpp:442-450 | No big page of the pool is reserved entirely |
| MergedRanges.SortingKeepsPages | kernel/mm/PageAllocator.cpp:353-358 | Sorting changes the order of the ranges, not the pages they hold |
| PagePool.Pool.AllocatePages | kernel/mm/PageAllocator.cpp:918-1008 | Returns exactly the smaller of the request and the number of free pages in ring and partial pages; the pages given out are that many distinct free pages and exactly those stop being free; a big page handed back has a free page and is in neither; it terminates and no count underflows |
| PagePool.Pool.AllocateFromPAPages | kernel/mm/PageAllocator.cpp:930-956 | Takes from partial pages until the request is met or none is left |
| PagePool.Pool.AllocateFromRing | kernel/mm/PageAllocator.cpp:959-1004 | Takes from the ring until the request is met or the ring is empty |
| PagePool.Pool.ReadRing | kernel/mm/PageAllocator.cpp:960-1003 | One read of the ring never gives out more than is asked for, and always makes progress |
| PagePool.Pool.TakeLastPart | kernel/mm/PageAllocator.cpp:993-1002 | A request that ends inside a big page takes exactly its remainder from the page read first |
| PagePool.Pool.TakeWhole | kernel/mm/PageAllocator.cpp:918-926 | A best-effort read gives out whole big pages from the front of the ring |
| NumaPartition.PartitionUsable | kernel/mm/NUMA.cpp:703-789 | The runs of a usable range tile exactly its whole pages; every page of every run is in the domain that `domainForAddress` gives (or in none) if and only if, wherever a region end rounded up falls inside the range on a page that is no rounded bound, the pages on both sides have one domain |
| NumaPartition.CollectSplits | kernel/mm/NUMA.cpp:711-728 | The split points are the ends of the range and the rounded region bounds inside it, and no others |
| NumaPartition.SortSplits | kernel/mm/NUMA.cpp:730-739 | The in-place insertion sort orders the split points and permutes them |
| NumaPartition.InsertOne | kernel/mm/NUMA.cpp:731-739 | One pass extends the ordered prefix by one and permutes the array |
| NumaPartition.WalkIntervals | kernel/mm/NUMA.cpp:741-788 | Closing a run at each change of domain tiles the range by runs of one domain each |
| NumaPartition.RunPagesInDomain | kernel/mm/NUMA.cpp:759-788 | Under that condition every page of a run has the domain looked up once per interval |
| NumaPartition.HarmfulEndMisassigns | kernel/mm/NUMA.cpp:768-779 | Where it fails, some run has a page of another domain |
| NumaPartition.DomainChangesAtBounds | kernel/mm/NUMA.cpp:369-376 | From one page to the next the domain changes only at a region bound rounded up |
| NumaPartition.AlignedEndsHarmless | kernel/mm/NUMA.cpp:718-728 | Page-aligned region ends meet the condition |
| NumaPartition.BytesInDomain | kernel/mm/NUMA.cpp:369-376 | With page-aligned starts too, every byte has the domain of its page |
| NumaPartition.OneRun | kernel/mm/NUMA.cpp:746-757 | Every page of the range lies in exactly one run |
| NumaPartition.UnalignedEndMisassigns | kernel/mm/NUMA.cpp:768-779 | For every page size of at least two bytes, a region of one page and a half: the runs returned for four pages hold a page that is not in its run's domain |

## Left out

- MemorySpan.Span.AllocateBlock: does not cover zero-size requests, nor requests outside the exact scope above, for which the split leaves the block.
- MemorySpan.Span.constructor: takes a 16-aligned buffer of at least one minimum block and below 4 GiB, which the source leaves to its callers; the block trees are finite maps ordered by address or size.
- LazyTables.LazyArena.ReserveBootBits: the size of the self-reference region, a whole number of leaf tables, and the number of head pages, at most one bitmap as the source asserts, are parameters.
- LazyTables.LazyArena.ReserveFreeVA: asks for more than one level or a usable page, because the source loops for ever in a full arena of one level, and for at most 64 dirty words (4096 CPUs), because the source reserves them in one bitmap.
- RadixTree.Arena.PropagateEdge: is proved for operations that run one at a time; what holds when they overlap, and exactly when the bits stay right, is in TreeEdges.
- TreeEdges.UpperBitExactly: one call at a time claims and lowers, as the source has one allocator to an arena; a descent that meets a zero word ends there, as `reserveFreeVA` asserts.
- BitPoolThreads.RunKeepsInv: does not track which of the two success results of `add` and `remove` a concurrent call reports (to empty, made empty); those are exact for serial runs (BitPoolSerial).
- BitPoolSerial.RotationPicksSetBit: rotation by zero is the identity, not a shift of a 64-bit word by 64.
- SlabAllocator.Allocator.Alloc: assumes that the backing allocator succeeds when a slab is needed, as `SlabAllocator::alloc` does: it dereferences the top bucket without testing the result of `addNewSlab`. Slab objects are values in a map, so slots are numbers and not addresses.
- SlabOwnership.RunKeepsInv: the slot bitmap and the shared stack are atomic objects; one turn of the eager-free loop is one step; the maximum chain length is arbitrary at each publish.
- SelfReference.PageTables.EnsureSubtableInstalled: leaves out the leaf entries written for the dirty-bitmap pages of a new leaf table; that their pages are set aside is in LazyTables.
- BitPoolSerial.AtomicBitPool.constructor: asks for a capacity of at least 2, because the source counts the leading zeros of capacity - 1, which is undefined for 0.
- PagePool.Pool.AllocatePages: is proved for a single caller and without BIG_PAGE_ONLY.
- MergedRanges.ComputeMergedRanges: starts from the sorted copy (the library sort is taken as given) and has no limit on the number of ranges.
- Weak memory orderings, speculative TLB fills and hardware instructions: atomics are sequentially consistent steps, `invlpg` is a removal from a map.
- Internals of SplitBitmap, SlabBookkeeper, ChainedTreiberStack, ring buffer and red-black trees: each is its abstract object.
- Lazy backing of leaf-bitmap pages, the static-buffer and MMIO mappings of VMSubstrate, and the debug checks of `vmsfree`: the first stands for the same initial words, the mappings repeat the page-table steps above without the tree, and the checks are off in release builds.
- `NUMAPool::freePages`, `returnPage` and frees of pages of the unowned pool: they rest on races that the source accepts.
- `partitionMemoryByDomain` step 2, distance-ordered domain lists: a sort by distance.
- Span creation and destruction in the coarse allocator, size-class dispatch, allocation statistics: glue.
- `releaseAllFreeSlabs` and the slab allocator's destructor: they do not maintain `topOccupiedBucket`.
- RCU, spinlocks, interrupt routing, timers and clocks, ACPI parsing, drivers, boot code and tests.
