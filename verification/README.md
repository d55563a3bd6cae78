# Verification of the kernel's memory side

A Dafny 4.11 model of the RISC-V kernel under `kernel/src`: the Sv39 page tables, the page and bucket allocators with
their locks, the hash map, the argument layout of a new program, the devicetree and FAT16 readers, and round-robin
scheduling. `dafny verify dfyconfig.toml` checks everything.

The model is layered like the code. `Words` gives C's 64-bit arithmetic and bit operators on bounded integers, `Ram` is
physical memory by pages. `Pages` is the page allocator, a class over the array of reference counts. `Entries`,
`PageTable`, `Sv39` and `Mapping` say what words in memory mean as page tables; `Mmu` has the operations of `mmu.c` as
methods that store words into those pages; `Standard` keeps the words within what the hardware accepts; `Demand`
counts the tables that a list of pages takes; `Views` says which map from addresses to leaves a root's tables are; `Spaces`
states each operation as a function of page counts, leaves and missing tables and runs them over any number of address spaces. `FreeLists`, `Blocks`, `Regions`, `BlockHeap` and `Payloads` say when
the bucket lists are in order and what each relinking does, `Outcomes` and `Neighbours` what an operation does to
blocks and to pages that others hold, `Snapshots` which function of lists, sizes and counts it is; `Malloc` has the
operations of `memory.c` on them, `Requests` whole runs by clients, and `Tails` the runs that come to a region's tail. `Sharing` interleaves heap and page tables on one page
allocator. `Sync` and `Locks` are the two spin locks under any interleaving. `Holders` relates counts to holders. `Hash`
and `HashMap`, `UserMemory` and `Argv`, `DeviceTree`, `Fdt` and `Search`, `Fat16` and `Scheduler` stand for one source
file each, and `Volumes` says which FAT16 volumes the kernel accepts.

"MMU enabled" is the field `on` of the page allocator. The boot memory, the initial counts, the kernel's linker ranges
and the contents of images are parameters.

Two habits of the contracts need a word. Where the code goes on outside its data structures, the model stops and says so,
with an exact condition: `oom` when it uses a null page (`kernel/src/mmu.c:213-216`, `kernel/src/memory.c:218-224`),
`over` when an address or a page count wraps around or runs behind an array, `spill` when a copy leaves a region, `full`
when no capacity of a hash map is left. Where a property fails for some inputs, a lemma ending in `Exact`, or an "if and
only if" in a contract, names the inputs for which it holds.

## Model

| member | source | states |
|---|---|---|
| `DirectMap.WindowRoundTrip` | kernel/src/mmu.c:16-43 | `safe2phys(phys2safe(a)) == a` exactly for MMU off or physical addresses below 2^38, on every 64-bit address |
| `DirectMap.TwiceIsOnce` | kernel/src/mmu.c:102-111 | the addresses to which `phys2safe` may be applied twice, as `mmu_entry_get_any` does |
| `Entries.EntryFields` | kernel/src/mmu.h:44-86 | what the flag tests and the address field of an arbitrary entry word mean arithmetically |
| `Entries.EntryBuilt` | kernel/src/mmu.c:52-65 | setting flags and then the address on any old word gives exactly those flags and the page base of the address, although `>> 2` is arithmetic |
| `Entries.FlagsReplaced` | kernel/src/mmu.c:52-57 | setting flags on any old word keeps the address |
| `Entries.VpnNumber` | kernel/src/mmu.c:67-74 | the three indices are the 27-bit virtual page number in base 512 |
| `PageTable.Unshared` | kernel/src/mmu.c:204-228 | in a well-formed state no two table pages have the same root and position: the tables are unshared trees |
| `PageTable.WalkFrame` | kernel/src/mmu.c:154-169 | a walk that does not pass through the written entry is unchanged by the write |
| `PageTable.NewTable` | kernel/src/mmu.c:212-217 | hanging a fresh zeroed table below an invalid entry keeps the trees and every walk of every root |
| `PageTable.LeafStore` | kernel/src/mmu.c:222-227 | after a store into an entry without a table below it, exactly the walks through it end at the new word; all others are as before |
| `PageTable.NoLinkHere` | kernel/src/mmu.c:244-249 | an entry without a table below it cannot become a valid non-leaf entry without breaking the trees |
| `Sv39.CanonicalBits` | kernel/src/mmu.c:171-200 | the addresses taken as canonical are those of section 4.4.1 |
| `Sv39.Sv39Exact` | kernel/src/mmu.c:171-200 | the translation equals the Sv39 algorithm of section 4.3.2 (RISC-V Privileged Architecture v1.12) on every memory, root and address, restricted to canonical addresses and walks whose words the standard accepts; elsewhere the standard faults |
| `Sv39.UserExact` | kernel/src/mmu.c:171-200 | an access in user mode (steps 5 and 7 of section 4.3.2: U, R, W or X, A and D) gets through exactly where the walk does and ends at a word that allows it |
| `Sv39.AlignedTarget` | kernel/src/mmu.c:180-199 | the `|` of page and offset is an addition for leaves of every level aligned to their span |
| `Sv39.AliasExact` | kernel/src/mmu.c:186-187 | the address `mmu_translate` stores is right up to `safe2phys` exactly when the MMU is off or the page lies in the kernel window |
| `Mapping.MappedMeans` | kernel/src/mmu.c:204-228 | after a successful `mmu_map` every address of that page number translates to the given page plus its offset if R, W or X is set, to nothing otherwise; every other address of every root as before |
| `Mapping.LeafFlagBits` | kernel/src/mmu.c:225-249 | bit k < 10 of a leaf that the code wrote is set if and only if k is 0, 6 or 7 or the flags have it |
| `Mapping.LeafAccess` | kernel/src/mmu.c:225-226 | a leaf allows a user access exactly when its flags have U and R, W or X, and never faults for want of A or D |
| `Mapping.RemovedMeans` | kernel/src/mmu.c:253-260 | `mmu_remove` makes exactly the addresses in the span of the found leaf untranslatable, also for superpages |
| `Mapping.RemoveUndoesMap` | kernel/src/mmu.c:204-260 | `mmu_map` then `mmu_remove` of the same address gives back every walk of every root, though inner tables remain |
| `Mapping.RewriteLeaf` | kernel/src/mmu.c:244-260 | overwriting a found leaf keeps the trees if and only if it is a 4 KiB leaf or the new word is no link |
| `Mapping.RewriteLacks` | kernel/src/mmu.c:244-260 | after a found leaf is rewritten, exactly the walks through it lack the tables below its level if the new word is invalid, and none if it is valid; all others lack what they lacked |
| `Mapping.SameSpan` | kernel/src/mmu.c:67-74 | two addresses share the indices down to a level exactly when they lie in the same span of that level |
| `Mapping.TakeAndDrop` | kernel/src/memory.c:54-58 | taking one free page and giving it back restores the counts (the caller must add that page 0 has no counter) |
| `Mapping.DirectMapTranslates` | kernel/src/mmu.c:305-320 | with the kernel window in the upper half, the alias of every physical address below 2^38 translates back to it |
| `Mapping.DistinctPages` | kernel/src/mmu.c:264-273 | below 2^38 different pages have different indices |
| `Mapping.IdentityStep` | kernel/src/mmu.c:264-273 | one more page of an identity range, mapped or refused, extends the part that is mapped to itself |
| `Mmu.MmuTables.WalkToEntry` | kernel/src/mmu.c:154-169 | the walker returns the place of the last entry of the walk exactly when the walk finds one |
| `Mmu.MmuTables.Translate` | kernel/src/mmu.c:171-200 | succeeds exactly when that same walk ends at a frame entry, and returns its page or-ed with the low address bits of its level |
| `Mmu.MmuTables.CollectOffset` | kernel/src/mmu.c:180-184 | the offset loop gathers exactly the address bits below a superpage |
| `Mmu.MmuTables.AddTable` | kernel/src/mmu.c:212-217 | one missing inner table: the first free page is taken, one missing table fewer, no walk changed; out of pages exactly when none is available |
| `Mmu.MmuTables.MakeSlot` | kernel/src/mmu.c:208-222 | the descent creates exactly the missing tables and ends at an invalid last-level entry, or changes nothing |
| `Mmu.MmuTables.Map` | kernel/src/mmu.c:204-228 | exact outcome: -1 exactly for an invalid root or a walk that already finds an entry, and then no word, count or table changed; 0 and mapped otherwise, with as many first free pages taken as tables were missing; bit k < 10 of the word of the leaf is set exactly for V, A, D and the flags asked for; out of memory exactly when fewer are available; afterwards it is known for every walk of every root how many tables it lacks |
| `Mmu.MmuTables.Alloc` | kernel/src/mmu.c:232-240 | exact outcome: mapped to the first free page, refused, or out of pages, with the counts known after each and the ten flag bits of the leaf known one by one; a refused call changes no walk, no missing table and no held page and restores the counts exactly when page 0 was held or no page was free; when no page is free and no table missing, physical page 0 is mapped |
| `Mmu.MmuTables.Remove` | kernel/src/mmu.c:253-260 | returns the page of the found leaf and rewrites only that leaf, so that exactly the walks through it lack the tables below; changes nothing when there is none |
| `Mmu.MmuTables.ChangeFlags` | kernel/src/mmu.c:244-249 | keeps the page, sets exactly V, A, D and the flags asked for among the ten bits, and keeps the trees exactly when R, W or X is set or the leaf is a 4 KiB page |
| `Mmu.MmuTables.MapRangeIdentity` | kernel/src/mmu.c:264-273 | exactly the pages of the range are mapped, where nothing was mapped before to the first page with their indices, which below 2^38 is each page itself; runs out of pages if and only if fewer are left than tables are missing for the walks of the range |
| `Mmu.MmuTables.IdentityMapKernel` | kernel/src/mmu.c:277-301 | exactly the pages of the kernel ranges are added, each mapped to the first page of the first range that has its indices, with that range's flags; runs out of pages if and only if fewer are left than tables are missing |
| `Mapping.NewSpaceMeans` | kernel/src/mmu.c:277-320 | below 2^38 a new root translates the pages of the kernel ranges to themselves and nothing else |
| `Mmu.MmuTables.FillTop` | kernel/src/mmu.c:308-315 | the upper half of a new root holds the 256 window entries, the lower half is empty |
| `Mmu.MmuTables.CreateTable` | kernel/src/mmu.c:305-320 | a new root on the first free page, unless none is left, with the kernel window above and exactly the kernel ranges below; no walk of an older root changes, nor what it lacks; the counts afterwards and what every walk of the new root lacks are known; runs out of pages if and only if fewer are left than the root and the tables of the ranges |
| `Demand.Attempted` | kernel/src/mmu.c:204-228 | after mapping a walk, or finding it mapped, every walk of the root lacks exactly the tables that it does not share with the walks so far |
| `Demand.NewTables` | kernel/src/mmu.c:264-320 | in a new root a list of pages takes as many tables as their addresses have different first indices and first pairs of indices |
| `Spaces.StepMap` | kernel/src/mmu.c:204-228 | where the kernel window is, `mmu_map` returns -1 and changes no word and no count; anywhere else the pages, leaves and missing tables afterwards are those that the transition function gives, unless pages run out, with an exact condition |
| `Spaces.Step` | kernel/src/mmu.c:204-320 | one operation makes of the page counts and of the leaves and missing tables of every space what a transition function makes of their description, returns the page and takes the root that the function names, and runs out of pages if and only if the description says so; only walks below the root entry it aims at change |
| `Spaces.Described` | kernel/src/mmu.c:204-320 | every state of the tables has such a description |
| `Views.MappedShows` | kernel/src/mmu.c:204-228 | mapping in the tables is adding one leaf to the map of that root, and nothing to any other |
| `Views.RewrittenShows` | kernel/src/mmu.c:244-260 | removing or re-flagging in the tables is doing so in the map, for every address that the leaf covers |
| `Views.TranslationSeen` | kernel/src/mmu.c:171-200 | the translation of every address follows from the map |
| `Spaces.Run` | kernel/src/mmu.c:204-320 | over every run of creating roots, mapping, allocating, removing and re-flagging: it ends early exactly at the first operation for which, after folding the transition function over the operations before it, fewer pages are left than it costs; the roots, the counts, the leaves of every space and what its walks lack are those of that fold, so every space translates every address as the folded leaves say; the tables stay unshared trees on held pages, the kernel windows stay, and, while leaves have sane flags and addresses, the Sv39 hardware translates every canonical address as `mmu_translate` does |
| `Standard.HardwareAgrees` | kernel/src/mmu.c:171-200 | on tables whose valid words the standard accepts at their level, the standard's translation of every canonical address is that of `mmu_translate` |
| `Standard.NewTableFits` | kernel/src/mmu.c:212-217 | a new inner table keeps every valid word of every table standard, and links without any flag but V |
| `Standard.ChangedFits` | kernel/src/mmu.c:244-249 | so does re-flagging a leaf with R, W or X set and not W without R |
| `Pages.PageAllocator.AllocPages` | kernel/src/memory.c:83-120 | the lowest-starting free run of the scanned range, marked and zeroed, with nothing else changed; nothing and NULL exactly when there is none; reports exactly the counts for which the end of the scan wraps around |
| `Pages.PageAllocator.Claim` | kernel/src/memory.c:98-112 | marks and clears the found run |
| `Pages.PageAllocator.IncrPageRefCount` | kernel/src/memory.c:124-141 | raises every nonzero unsaturated count of the range, and nothing for the first heap page; reports exactly the ranges that run past the last counter |
| `Pages.PageAllocator.DeallocPages` | kernel/src/memory.c:145-162 | lowers every nonzero count of the range, for a physical address or its alias, and nothing for the first heap page; reports exactly the ranges that run past the last counter |
| `Pages.PageAllocator.RefCount` | kernel/src/memory.c:54-58 | no counter up to the start of the first heap page; otherwise the index of the page that the address lies in, which is in range for every address of a counted page |
| `Pages.AvailableFit` | kernel/src/memory.c:83-120 | a search for one page fails exactly when no page but possibly the last is free |
| `Holders.StepExact` | kernel/src/memory.c:54-162 | one operation keeps counts equal to holders if and only if it is no share or drop of page 0 and raises no saturated count; only pages without holders are allocated |
| `Holders.Serve` | kernel/src/memory.c:83-162 | one legal request, served by the allocator's own methods: the counts are the clients' books afterwards, and an allocation takes the lowest run of pages that nobody holds |
| `Holders.Run` | kernel/src/memory.c:83-162 | after any run of requests on the allocator each count is the number of outstanding holders |
| `Holders.AllocThenDealloc` | kernel/src/memory.c:83-162 | allocating a run and giving it up restores the counts if and only if it does not begin at page 0 |
| `Blocks.ClassOf` | kernel/src/memory.c:216-316 | the ladder picks the smallest class that holds the size |
| `Blocks.LargeFits` | kernel/src/memory.c:308 | the pages of a large block hold header and payload if and only if the size computation does not wrap around, and then are the least number that does |
| `Blocks.LargeWraps` | kernel/src/memory.c:308 | an input for which it does: the largest size gets one page |
| `Snapshots.WrapsExact` | kernel/src/memory.c:308 | the size computation wraps around exactly from 2^64 - 4127 on, which is when the pages do not hold the block |
| `Regions.TailIsShort` | kernel/src/memory.c:188-204 | in all seven classes the header of the last, unformatted block fits in the region and a payload of the class does not |
| `Regions.RoomExact` | kernel/src/memory.c:188-204 | bytes behind that header stay inside the region if and only if they are at most 0, 0, 96, 96, 2016, 3552 and 3936 in the seven classes |
| `Regions.RegionBlocks` | kernel/src/memory.c:188-204 | what formatting leaves: the chain of whole blocks ending in the tail of size 0, all inside the region, and every older header untouched |
| `FreeLists.Push` | kernel/src/memory.c:323-329 | a loose block becomes the first of any list; all eight lists stay well formed |
| `FreeLists.PopFree` | kernel/src/memory.c:227-228 | a free list gives up its first block |
| `FreeLists.Unlink` | kernel/src/memory.c:353-358 | unlinking through `prev` and `next` removes exactly that block from the used list, although the `prev` links of free blocks are stale |
| `BlockHeap.SoundMeans` | kernel/src/memory.c:164-424 | no two blocks share a byte, headers included, and every byte of a block lies in a held page |
| `BlockHeap.Refill` | kernel/src/memory.c:217-225 | cutting fresh pages into blocks keeps all lists, sizes and places in order |
| `BlockHeap.Take` | kernel/src/memory.c:227-329 | moving the first free block to the used list keeps them in order; its size is its class's or 0 |
| `BlockHeap.Adopt` | kernel/src/memory.c:307-329 | a large block on fresh pages keeps them in order |
| `BlockHeap.GiveBack` | kernel/src/memory.c:341-396 | a freed small block joins the free list of its recorded size and keeps them in order |
| `BlockHeap.Discard` | kernel/src/memory.c:353-399 | a freed large block leaves, and the pages that stay held still cover every other block |
| `Payloads.PayloadHeld` | kernel/src/memory.c:106-112 | clearing fresh pages changes the contents of no block |
| `Payloads.CopyEffect` | kernel/src/memory.c:420 | copying the bytes that one header records into a block with room for them gives it that beginning and changes no third block |
| `Malloc.BucketAllocator.FormatUnused` | kernel/src/memory.c:188-204 | on cleared pages the loop leaves exactly the headers of the specified region, tail included: the last link names zeros, which read as an empty header |
| `Malloc.BucketAllocator.AllocSmall` | kernel/src/memory.c:216-306 | one rung of the ladder: the first block of the free list, or of 65 fresh pages exactly when that is empty; the rest stays free, in order, and all other lists are as before |
| `Malloc.BucketAllocator.Alloc` | kernel/src/memory.c:206-339 | `malloc`, for every size: a block that was not live becomes the first used one; all eight lists, all block sizes and all page counts afterwards, and the address, are functions of those before; all other contents stay; only a region's tail can have less room than was asked for; a large one takes the least number of pages that hold header and payload; fails exactly when pages are needed and no run fits; reports exactly the sizes for which the page count or the scan wraps around; pages that others hold keep their holders and bytes |
| `Malloc.BucketAllocator.Free` | kernel/src/memory.c:341-402 | the block leaves the used list; a small one heads its class's free list, a large one is gone and its pages, the least number that hold it, lose a holder; the other lists, blocks, sizes and counts stay: the whole state afterwards is a function of the one before |
| `Malloc.BucketAllocator.Move` | kernel/src/memory.c:420-422 | the end of `realloc`: the new block begins with the bytes that the old header records, the old block is freed, all others keep theirs |
| `Malloc.BucketAllocator.Realloc` | kernel/src/memory.c:404-424 | returns the same block exactly when its recorded size is enough, NULL exactly when malloc fails, and then lists, sizes and counts are as before; otherwise they are those of the malloc followed by the free, and the fresh block begins with the recorded bytes and records the caller; the copy leaves the region if and only if the new block is a tail with less room than the old size; all other live blocks keep their contents |
| `Requests.ServeRealloc` | kernel/src/memory.c:404-424 | a client's pointer is replaced by the new one, whose block begins with what the old header records of the client's bytes, and every other client's block keeps its bytes; stops exactly where the code leaves its data structures |
| `Requests.Run` | kernel/src/memory.c:206-424 | over every run of malloc, free, realloc and client writes: the lists, block sizes and page counts that each request finds are a function of those that the one before found; none of the served requests makes the code leave its data structures there, and the run ends early exactly at the first that does; each changes the clients' books as stated, new pointers and sizes included; the used list holds exactly the clients' pointers; every block has the bytes that its client last wrote or kept through realloc, and covers the size asked for unless it was a tail that is too short; all this holds after a stop, too, unless it was a copy past a tail; the lock operations are those of the calls that each request makes |
| `Requests.CourseUnique` | kernel/src/memory.c:206-424 | a run is determined: any two histories of the same requests from the same start as `Run` describes them serve equally many, find the same lists, sizes and counts at each request, and give out the same pointers, whatever new blocks hold at first |
| `Outcomes.LargeCycle` | kernel/src/memory.c:307-399 | freeing a large block right after its malloc restores all counts if and only if it is not on the first heap page |
| `Snapshots.MallocStep` | kernel/src/memory.c:206-339 | what the ladder, a refill or a large malloc does to lists, headers and counts determines the new state as one function of the old one, and the place of the block |
| `Snapshots.FreeStep` | kernel/src/memory.c:341-402 | so does what free does to lists, headers and counts |
| `Tails.Drain` | kernel/src/memory.c:206-306 | from an empty free list and a fitting run, requests of one class without a free get the region's whole blocks in order |
| `Tails.TailComes` | kernel/src/memory.c:188-306 | and the next one gets the tail: a block of recorded size 0, with the room that the region has left |
| `Tails.FreshTail` | kernel/src/memory.c:188-306 | so every class of a fresh allocator comes to its tail |
| `Tails.TailSpills` | kernel/src/memory.c:404-424 | in that state a realloc of a smaller block leaves the region if and only if the old size exceeds that room |
| `Sharing.HeapSpares` | kernel/src/memory.c:206-424 | whatever the heap does, page tables on the same allocator keep their words, holders and walks, and no block comes to lie on one |
| `Sharing.TablesSpare` | kernel/src/mmu.c:204-320 | whatever the page tables do, the heap stays in order and every block keeps its contents |
| `Sharing.StillSeparate` | kernel/src/mmu.c:204-320 | new tables miss every block |
| `Sharing.Run` | kernel/src/memory.c:206-424 | any interleaving of heap and page-table operations on one page allocator: what each operation finds (lists, block sizes, the shared page counts, the leaves and missing tables of every space) is a function of what the one before found; the run ends early exactly at the first that, from there, leaves the data structures or runs out of pages; both sides stay in order and apart: blocks hold what their clients last wrote, spaces translate as their leaves say, and the hardware still reads the tables as the kernel does |
| `Sharing.CourseUnique` | kernel/src/memory.c:206-424 | the interleaved run is determined in the same sense |
| `Locks.LogIsScript` | kernel/src/memory.c:206-402 | the lock operations that the page operations, malloc and free log are the scripts of their calls |
| `Locks.ScriptLegal` | kernel/src/memory.c:206-402 | those scripts take the allocator lock first and only the heap lock under it, take none twice, and release all |
| `Locks.StepKeepsInv` | kernel/src/sync.c:5-13 | one compare-exchange or release of one hart keeps the lock invariant |
| `Locks.MutualExclusion` | kernel/src/sync.c:5-13 | after any steps from the start, by any number of harts with any calls, each lock has at most one holder, and its flag says whether it has one |
| `Locks.NoDeadlock` | kernel/src/sync.c:5-13 | after any steps from the start, with calls unfinished, some hart can go on |
| `Locks.DoneIsFree` | kernel/src/memory.c:206-402 | after any steps from the start that finish all calls both locks are free |
| `Locks.AllFinish` | kernel/src/sync.c:5-13 | from any state that steps reach, when harts step in turn and exchanges fail only on a taken lock, all calls of all harts end within as many rounds as there are lock operations |
| `Hash.HashWrite` | kernel/src/hashmap.c:21-47 | the unrolled loops compute the word-by-word hash of the bytes |
| `Hash.Unhash` | kernel/src/hashmap.c:7-18 | multiplication by the seed modulo 2^64 is undone by its inverse, for every word |
| `Hash.RotlBits` | kernel/src/hashmap.c:7-14 | every bit moves up by c places, the upper ones come in below |
| `Hash.StepOneToOne` | kernel/src/hashmap.c:16-18 | one step is one-to-one in the hash so far, and in the word |
| `Hash.OneWordApart` | kernel/src/hashmap.c:20-47 | keys of equal length that differ in one word only have different hashes |
| `Hash.StepBits` | kernel/src/hashmap.c:3-18 | one step, bit by bit: the hash turned by five places, exclusive or the word, times the seed modulo 2^64 |
| `Hash.WordKeysDistinct` | kernel/src/hashmap.c:16-47 | 8-byte keys with equal hashes are equal |
| `HashMap.IndexIsRemainder` | kernel/src/hashmap.c:140 | `hash & (cap - 1)` is the remainder for every power-of-two capacity |
| `HashMap.DoubledIndex` | kernel/src/hashmap.c:107-109 | the index at the doubled capacity, folded back, is the old index |
| `HashMap.MovedStep` | kernel/src/hashmap.c:104-121 | while growing, an entry moves to the bucket of its hash and finds at most as many entries there as came before it in its old bucket |
| `HashMap.GrownRing` | kernel/src/hashmap.c:87-130 | after growing every entry is in the bucket of its hash, in the old order, and every key has its old values |
| `HashMap.WordKeysSeparate` | kernel/src/hashmap.c:134-157 | for distinct 8-byte keys there is room at the latest at capacity 2^62, 58 doublings from 16 |
| `HashMap.RingMap.Grow` | kernel/src/hashmap.c:87-130 | the loops with their unchecked appends keep every bucket within five entries |
| `HashMap.RingMap.Insert` | kernel/src/hashmap.c:134-157 | ends exactly at the first capacity with room for the key, appends the value to that key's and changes no other key; reports exactly when no capacity up to 2^63 has room, and then every key has its old values |
| `HashMap.RingMap.Get` | kernel/src/hashmap.c:172-186 | the oldest value of the key, or none exactly when there is none |
| `HashMap.RingMap.Remove` | kernel/src/hashmap.c:190-215 | drops the oldest value of the key and changes no other key |
| `HashMap.Run` | kernel/src/hashmap.c:87-215 | any run of insertions of absent 8-byte keys, removals and reads from any stored map behaves like a finite map |
| `HashMap.StrideExact` | kernel/src/hashmap.c:118 | the value stride of the growing loop is right for every buffer if and only if it is the first entry or key and value sizes agree |
| `HashMap.StrideSpoils` | kernel/src/hashmap.c:87-130 | for keys of 8 bytes and any other value size, a map of two keys that growing by that stride spoils: the second key then has another value |
| `UserMemory.FlatReads` | kernel/src/mmu.c:171-200 | what a program reads through its page table over a run of mapped pages is the bytes of those pages |
| `UserMemory.PagesOwned` | kernel/src/process.c:118-154 | pages with exactly V, R, W, U, A and D are for the program to load and store, not to run, on hardware that reads the tables as `mmu_translate` does |
| `Argv.ArgWriter.NextPage` | kernel/src/process.c:126-133 | the next virtual page is mapped to a fresh page that the program may read and write; everything written so far still reads the same |
| `Argv.ArgWriter.PutString` | kernel/src/process.c:124-144 | one string and its terminator are appended, over any number of page ends |
| `Argv.StringAt` | kernel/src/process.c:123-145 | string k with its terminator lies where its recorded address says |
| `Argv.LayoutArgs` | kernel/src/process.c:116-163 | reading user memory through the page table gives back every string with its NUL at its pointer, which is the place of the string behind those before it, and every pointer in the 8-aligned array, while every other root's walks, and this root's walks that found something, are unchanged; every page of it is a leaf with exactly V, R, W, U, A and D, so that from standard tables the hardware lets the program load and store every byte of it, at the same place, and run none; runs out of pages if and only if fewer are available than the layout's pages and their missing tables |
| `Fdt.BeToLe` | kernel/src/fdt.c:10-20 | the shift-and-or loop gives the big-endian value of up to eight bytes |
| `Fdt.AlignUpIs` | kernel/src/fdt.c:355 | `(c + 3) & ~3` is the next multiple of four |
| `DeviceTree.TokWord` | kernel/src/fdt.c:10-20 | reading a serialised 32-bit word gives it back |
| `DeviceTree.SmallTree` | kernel/src/fdt.c:336-394 | the bytes of a tree with a property, a NOP and an empty node, in figures |
| `DeviceTree.StepProp` | kernel/src/fdt.c:366-382 | at a serialised property the scanner reads its length, name offset and value, and the padded step lands on the next item |
| `DeviceTree.StepSub` | kernel/src/fdt.c:349-357 | entering a node puts its contents in front of what is left of its parents |
| `DeviceTree.FirstIsOwn` | kernel/src/fdt.c:336-394 | the specified answer is the first of the node's own properties with the name, never one of a node inside it, and none exactly when it has none |
| `DeviceTree.CStringExact` | kernel/src/string.c:5-19 | the string at an offset is exactly the NUL-free bytes up to the first NUL or the end of the block |
| `DeviceTree.WholeString` | kernel/src/fdt.c:373 | a key without NUL is compared whole |
| `DeviceTree.FirstNamed` | kernel/src/fdt.c:373 | over a strings block of NUL-terminated names, the answer is the first own property whose name is the wanted one, or nothing when none is |
| `Fdt.NextToken` | kernel/src/fdt.c:347-348 | the next token names the kind of the next item of the innermost open node |
| `Fdt.StrCmp` | kernel/src/string.c:5-19 | the loop gives -1, 0 or 1 as the first string is before, equal to or behind the second |
| `Fdt.OrderZero` | kernel/src/string.c:5-19 | the order is 0 exactly for equal strings, and turns with its arguments |
| `Fdt.GetProperty` | kernel/src/fdt.c:336-394 | for every tree serialised per section 5.4 (Devicetree Specification v0.4), at any node: terminates with that node's own first property of the name, compared by the `strcmp` loop, length and value included, or nothing |
| `Search.CompareStem` | kernel/src/fdt.c:164-175 | the comparison loop accepts exactly the names whose part before `@` is the wanted one |
| `Search.Find` | kernel/src/fdt.c:149-204 | on any bytes: the node found, nothing, a token that the loop never leaves, or a read outside the block |
| `Search.SearchTree` | kernel/src/fdt.c:159-204 | on every serialised tree the search ends with the first node of that name in document order from where it starts, or nothing |
| `Search.Resumed` | kernel/src/fdt.c:151-157 | behind a given node the search starts at its first item, or one word further if and only if the name with its NUL fills whole words |
| `Fdt.ResumeExact` | kernel/src/fdt.c:154-157 | resuming at `(c + 4) & ~3` reaches the next token if and only if the name with its NUL does not fill whole words; otherwise it is one word too far |
| `Search.SkippedWord` | kernel/src/fdt.c:154-204 | one word further: right when the first item is a NOP or an END_NODE; never right, because it hangs, in front of a node or of a property whose length is not 1, 2, 3, 4 or 9; for length 9 it finds nothing, right if and only if there is no such node; lengths 1 to 4 are left to the bytes of the property |
| `Search.SkippedNops` | kernel/src/fdt.c:154-204 | a property of length 4 in front of which it is right: its length, name offset and value read as NOPs |
| `Search.ResumeLosesNode` | kernel/src/fdt.c:154-204 | a tree on which the resumed search finds nothing although the next node has the name |
| `Fat16.AcceptedCounts` | kernel/src/fat16.c:21-70 | an accepted image has the signature, a FAT size and a FAT16 cluster count, and its unsigned subtraction did not wrap around |
| `Volumes.Recognised` | kernel/src/fat16.c:21-71 | for every volume (sector and cluster sizes, reserved sectors, FATs, root entries, a sector count in either field) serialised as boot sector and areas: the kernel accepts it with its own places and cluster count if and only if that count is 4085 to 65524 and the areas have the lengths that the code computes; with an even FAT area it refuses all others |
| `Volumes.AreasThere` | kernel/src/fat16.c:52-64 | the FATs, the root directory and the clusters of a serialised volume are found where its file system says |
| `Volumes.EveryImage` | kernel/src/fat16.c:28-51 | every boot sector with the signature and nonzero sizes is the serialised one of some volume |
| `Volumes.Unsigned` | kernel/src/fat16.c:22-26 | no other boot sector is accepted |
| `Volumes.WideUnused` | kernel/src/fat16.c:49-51 | when the 16-bit sector count is not 0, bytes 32 to 35 do not matter, whatever the rest of the image holds |
| `Fat16.LayoutExact` | kernel/src/fat16.c:43-62 | FATs, root directory and data follow each other, and the data area begins behind the counted front sectors if and only if the FATs have an even size and the root directory fills whole sectors |
| `Fat16.InsideExact` | kernel/src/fat16.c:64-70 | every readable block of an accepted image lies in the image if and only if the data area is smaller than 2^32 bytes |
| `Fat16.WrappedAccepted` | kernel/src/fat16.c:43-70 | an accepted image on the failing side: its data area of 2^34 bytes is counted as none |
| `Fat16.ApartExact` | kernel/src/fat16.c:140-144 | different cluster numbers have disjoint blocks if and only if the last readable one begins below 2^32 |
| `Fat16.NextExact` | kernel/src/fat16.c:147-157 | for a readable cluster the two bytes of its FAT entry, for any other number 0, as for an entry beyond the cluster count and two |
| `Fat16.EndMarksStop` | kernel/src/fat16.c:148-157 | an end mark always stops the walk: it is above `cluster_count + 2` on every accepted image |
| `Fat16.ReadableAll` | kernel/src/fat16.c:140-144 | a chain is readable as a whole if and only if cluster `cluster_count + 1` is not in it |
| `Fat16.ClustersInside` | kernel/src/fat16.c:140-144 | below 2^32 bytes every readable cluster lies by its number, inside the image |
| `Fat16.ReadChain` | kernel/src/fat16.c:159-178 | from any first cluster and for any FAT: the buffer holds the clusters of the walk in order, up to the first number that is rejected; reports exactly when a cluster does not fit into the buffer |
| `Fat16.ChainWalk` | kernel/src/fat16.c:140-157 | of a chain that ends in an end mark the walk meets the readable clusters in chain order, and then ends |
| `Fat16.EndsExact` | kernel/src/fat16.c:159-178 | the walk from a cluster ends if and only if it comes to no cluster twice |
| `Fat16.FileBuffer` | kernel/src/fat16.c:164-174 | a buffer of the file's size is too short for its clusters if and only if the last one is not full |
| `Scheduler.EventKeepsGood` | kernel/src/interrupt.c:31-86 | a switch or spawn keeps the task states in order, and after a switch exactly the pid switched to is running |
| `Scheduler.DispatchedInTime` | kernel/src/schedulers/roundrobin.c:13-35 | a pid is switched to within its waiting bound, spawns in between or not |
| `Scheduler.NobodyStarves` | kernel/src/schedulers/roundrobin.c:13-35 | every spawned pid is switched to within any `max_pid` consecutive switches, even while later spawns raise `up_to` |
| `Scheduler.SwitchesIn` | kernel/src/schedulers/roundrobin.c:13-35 | spawns are no switches, and every tick is one |
| `Scheduler.Rotation` | kernel/src/schedulers/roundrobin.c:13-35 | n switches without a spawn advance the position by n modulo the number of pids, and the n-th is to the pid before it |
| `Scheduler.OnceEach` | kernel/src/schedulers/roundrobin.c:13-35 | any `up_to` + 1 switches in a row without a spawn are to each pid exactly once |
| `Scheduler.Kernel.TimerSwitch` | kernel/src/interrupt.c:31-86 | from any good state: exactly one pid is running afterwards, the one whose trap is returned, on the same hart and interrupt stack |
| `Scheduler.Kernel.Spawn` | kernel/src/process.c:33-36 | the pid search finds the lowest free pid, or fails exactly when none is free; its entry is ready |

## Left out

Where the code departs from what its shape suggests, the model follows the code, or the stated correction where the code
would read or write outside its buffers:

- `kernel/src/memory.c:191-198`: followed. The last formatted block links to a zeroed header of size 0; the contracts of `Malloc` say exactly when a caller gets it, and `Regions.RoomExact` how many bytes it has. A `realloc` of such a block copies nothing, as its header records.
- `kernel/src/memory.c:55` and `kernel/src/memory.c:88`: followed. The first heap page has no counter, and the last window is never scanned.
- `kernel/src/memory.c:88`: followed. A count for which `heap_bottom - count` wraps around is `over`.
- `kernel/src/memory.c:34-36`: the number of counts is a parameter, and every counted page exists.
- `kernel/src/memory.c:219-223`: with the MMU on `phys2safe(NULL)` is not null, so the check for a failed refill is dead code; that outcome is `oom`.
- `kernel/src/hashmap.c:118`: the growing loop of the model takes each value at its own stride; `HashMap.StrideExact` says when the code's stride is the same.
- `kernel/src/hashmap.c:199-201`: the last turn of the shift, which reads one slot behind the live ones, is left out.
- `kernel/src/hashmap.c:112-113` and `kernel/src/hashmap.c:145-146`: allocation of buckets succeeds; a bucket's buffers are sequences.
- `kernel/src/hashmap.c:134`: insertion does not replace, as in the code; the finite-map run therefore inserts absent keys, of 8 bytes. For other keys `HashMap.RingMap.Insert` reports `full` when no capacity of at most 2^63 separates the hashes; doubled once more the capacity of the code is 0.
- `kernel/src/mmu.h:84-86`: followed. `mmu_translate` returns the alias of the page; results are stated up to `safe2phys` by `Sv39.AliasExact`.
- `kernel/src/mmu.c:244-249`: `mmu_change_flags` without R, W or X turns a superpage into a link to data; the run theorem excludes such calls, `Mmu.MmuTables.ChangeFlags` says exactly when.
- `kernel/src/fdt.c:157`: followed. `Search.SkippedWord` says what the skipped word costs; for properties of 1 to 4 bytes it only says that the search goes on inside the property.
- `kernel/src/mmu.c:233`: followed. With no page free and no table missing, `mmu_alloc` maps physical page 0 and returns it.
- `kernel/src/fat16.c:141`: followed. Cluster `cluster_count + 1` is rejected, and a chain through it is cut there.
- `kernel/src/fat16.c:164-174`: the code allocates the file size and copies whole clusters; `Fat16.ReadChain` stops before the first copy past the buffer.
- `kernel/src/memory.c:124-162`: the page operations stop at the last counter; the code goes on into what lies behind it.

Narrower than the code:

- Malloc.BucketAllocator.Alloc: headers are a map by address beside the page contents, so writes by clients to header bytes are not modelled, and of headers read through page contents only the tail's is; the seven copies of the ladder's rung are one, by class.
- Malloc.BucketAllocator.Realloc: after `spill` the state is that of the malloc inside; the copy past the tail is not made.
- Requests.Run: one client list at a time; what a new block holds at first is not stated.
- Sharing.Run: pages that user programs own are not freed by anybody, as in the code.
- Fat16.ReadChain: the blocks that the walk meets lie in the image; `Fat16.InsideExact` says when they all do.
- Mmu.MmuTables.Map: `va` beyond the canonical ranges is treated like the code does, by its 27-bit page number only; TLB fences and `set_mmu` are not modelled.
- Mmu.MmuTables.MapRangeIdentity: ranges end below the last page of the address space, behind which the loop's pointer wraps around.
- Sv39.Sv39Exact: the walk alone; permissions and the A and D bits (steps 5 and 7 of the algorithm) are in `Sv39.UserExact`, for user mode with MXR clear and hardware that sets no bits itself.
- Argv.LayoutArgs: the pages above the program are unmapped and lie below 2^38; strings contain no NUL; `first` and the pointers are those of the code, registers are not modelled.
- Fat16.VerifyInitrd: sector and cluster sizes are nonzero (the code divides by them); products of promoted ints are exact, which they are for sector sizes up to 4096 and up to eight FATs; the FAT entries read lie in the image.
- Fdt.GetProperty: the tree is well formed; on an unknown token the loop of the code does not advance. Offsets stand for addresses in a 4-aligned block. A name offset behind the strings block counts as the empty name; the code compares what lies there.
- Search.Find: offsets stand for addresses in a 4-aligned block, and sums of them do not wrap around.
- HashMap.RingMap.Grow: the size of the new ring in bytes does not wrap around, and memory for it is found.
- Scheduler.Kernel.TimerSwitch: one hart, and at least one spawned pid; with none the code dispatches pid 0 all the same. `next` and `up_to` do not overflow an int. Saved registers are not modelled.
- Locks.AllFinish: the weak exchange may fail without cause on the way to the state it starts from, but not in the rounds it counts.

Not modelled at all: the console, OpenSBI, assembly, the PLIC and timer; ELF loading and its segment copies; `queue.c`,
whose growth moves nothing; `fdt_path`, `dump_fdt` and `fdt_get_node_addr`; `hashmap_find`; `mark_as_used` and the
sizing in `init_pages`; `find_file_in_root_directory`; scheduling on several harts; user programs.
