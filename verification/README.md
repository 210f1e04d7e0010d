# Verified models of an operating-systems coursework repository

Dafny models of the four programs of the repository whose behaviour is hardest to see
from their text, with proofs of what they promise.  `dafny verify dfyconfig.toml` checks
everything.

**The SLOB allocator** (`assignments/a4/slob.c`).  A page is an array of 2048 signed 16-bit
units.  Its free list lives inside the free memory: a free block holds its size and the
offset of the next block in its first two units, or the negated offset when it is one unit
long.  Class `Page` keeps that memory, with the decoded list and the live blocks as ghost
fields; class `Heap` adds the three circular page lists as real `next`/`prev` rings, the
page flags and the counter `pages`; class `Kmem` adds the size header of `kmalloc`.  The
methods follow the C functions branch by branch and write the same units.  `Arithmetic`,
`Geometry`, `FreeList`, `Encoding`, `Sums` and `Rings` hold the theory: products and
remainders, alignment, canonical free lists and their uniqueness, how a list is stored,
counting, and rings.  `PageChoice` describes which pages a search tries, as a function of the
pages' free units; `PageFits` says for which numbers of free units a page may or may not
have room for a block, and `BestFit` puts the two together; `BestFitRuns` gives runs from an
empty heap in which the search misses its promise.  `SizeClasses` follows the sizes that
blocks were asked for, and `KmallocRuns` runs any sequence of kmalloc, kfree and client writes
from an empty heap.

Every operation keeps `Page.InPage` and `Heap.Valid`, so what these say holds in every state
between calls of any run: live blocks and free units tile each held page, the stored list
decodes to the maximal free runs in address order, `units` counts the free units, a page is
on exactly one list if it has free units and on none if it is full, and `pages` counts the
held pages.

**MT19937** (`assignments/a1/mt19937ar.c`).  Class `Generator` rebuilds its array in place,
with reads of old and new words mixed; its results are the tempered words of the pure
recurrence `X`, that of section 26.5.3.2 of ISO/IEC 14882:2011.

**Dining philosophers with a footman** (`recitations/philosopher.c`).  A transition system
for any number of threads, one step per semaphore operation, and the class `Table` that
runs it in any order the semaphores allow.

**The encrypted RAM disk** (`assignments/a3/ramdisk.c`) against the plain one
(`assignments/a3/sbd.c`), for an abstract block cipher.

## What the proofs turned up

- The write-up of the allocator calls it best fit (`assignments/a4/writeup.tex:20-22`).  It
  is not, and the model follows the code.  Call a page a record if it has enough free units
  and no page that stands before it among the first 50 of the list has enough but fewer.  The
  search tries exactly the records and takes the first one that fits
  (`PageChoice.AttemptsAreRecords`, `Heap.SearchList`), so an earlier larger page is preferred
  to a later smaller one (`BestFit.NotBestFit`); `BestFitRuns.LargerFirst` is a run of
  allocations and frees that leaves such a list.
- The heap can grow although a page on the list fits the block: a roomy page is passed over
  for an earlier, smaller page on which the attempt has failed (`BestFit.FittingPageSkipped`,
  and the run `BestFitRuns.ScatteredFirst`); `BestFit.HeapGrowsIff` says exactly when.
- Whether a page fits depends on which of its units are free, not only on how many.  With at
  most `PageFits.MostMissing` free units a page can be without room for the block, with more
  it cannot (`PageFits.CanMissIff`).  From the counts alone, `BestFit.BestFitPromiseIff` says
  exactly for which lists the search is sure to take a best fit whenever a page fits: each
  page with room that the search can reach has no more free units than any later one, and
  equally many if it is among the first 50 and can be without room for the block.
- Any successful attempt is made on the page that the search has just reached, which is why
  moving the list head rotates the list to that very page (`PageChoice.SuccessIsAtCurrentPage`).
- A single philosopher deadlocks at once, because the footman then admits nobody; two or more
  never do (`Philosophers.DeadlockFreeIff`).
- The RAM disks test for requests beyond their end in `unsigned long` arithmetic, and the test
  is exact if and only if the end of the request does not wrap around into the disk
  (`Ramdisk.TestIsExactIff`, `Ramdisk.TestCanFail`).  A request that passes it all the same is
  served at the wrapped location, where the disks still agree (`Ramdisk.EncryptedRefinesPlain`).
- Two frees on a page leave it the same in either order, but if the page was full they leave
  it on the list for the size freed first, which can differ when sizes of two classes round to
  the same units (`SlobLaws.HeapFreesCommuteIff`, `SlobLaws.FreesCanDiffer`).  When every block
  is freed with the size it was asked for this never happens: blocks of two classes never share
  a page (`SizeClasses.SizedFreesCommute`).

## Model

| member | source | states |
|---|---|---|
| Geometry.UnitsHold | assignments/a4/slob.c:128-129 | a size takes as few two-byte units as hold it; a page has 2048 of them |
| Geometry.AlignmentIff | assignments/a4/slob.c:229-232 | the alignments admitted are 0 and the divisors of 4096; a unit is aligned when its byte address in the page is a multiple |
| Geometry.AlignedFromIsLeast | assignments/a4/slob.c:229-232 | rounding an address up to the alignment gives the least aligned unit at or after it, always a unit boundary within the page, alignment 1 included |
| FreeList.CanonicalUnique | assignments/a4/slob.c:395-444 | two ordered, coalesced lists that cover the same units are the same list: what is free determines the list |
| FreeList.CanonicalListsMaximalRuns | assignments/a4/slob.c:395-444 | the blocks of such a list are exactly the maximal runs of free units |
| FreeList.RunInBlock | assignments/a4/slob.c:226-233 | a run of free units lies inside one block of the list, so first fit over blocks misses no run |
| FreeList.FirstRoomIsLowest | assignments/a4/slob.c:226-233 | the first block with room after alignment holds the lowest aligned run of free units of the page |
| FreeList.LowestFitIff | assignments/a4/slob.c:226-265 | first fit in numbers: of all unit offsets with a multiple of align as byte address and n free units from there on, the lowest; no fit means there is none |
| FreeList.NoRoomNoFit | assignments/a4/slob.c:264-265 | when no block has room, the page has no aligned run of that many free units |
| FreeList.CarvedUnits | assignments/a4/slob.c:236-257 | splitting at head and tail removes exactly the allocated units from the free units |
| FreeList.CarvedCanonical | assignments/a4/slob.c:236-257 | and leaves the list ordered and fully coalesced |
| FreeList.InsertionPoint | assignments/a4/slob.c:418-431 | the block found by the address search lies wholly between its two neighbours |
| FreeList.InsertedUnits | assignments/a4/slob.c:418-444 | reinsertion with merging on both sides adds exactly the freed units |
| FreeList.InsertedCanonical | assignments/a4/slob.c:418-444 | and leaves the list ordered and fully coalesced |
| Encoding.BlockUnique | assignments/a4/slob.c:81-87 | the first units of a block determine its size and its successor |
| Encoding.StoredUnique | assignments/a4/slob.c:164-184 | the memory of a page and the entry offset determine the decoded list |
| Encoding.HalvedStored | assignments/a4/slob.c:236-243 | the two writes of an alignment split store the list with that block halved |
| Encoding.CutStored | assignments/a4/slob.c:245-257 | unlinking or shortening a block stores the list without the units cut from it |
| Encoding.InsertFrontStored | assignments/a4/slob.c:418-424 | storing a block in front of all others, merged or not, stores the new list |
| Encoding.InsertLinkedStored | assignments/a4/slob.c:433-443 | linking the left neighbour to the stored block stores the new list |
| Encoding.InsertMergedStored | assignments/a4/slob.c:433-441 | extending the left neighbour over the stored block stores the merged list |
| Encoding.LiveWritesKeep | assignments/a4/slob.c:81-87 | writes to units that are not free leave the stored list as it is |
| Sums.TilesAlloc | assignments/a4/slob.c:245-259 | taking a free run keeps the partition of the page into live blocks and free units |
| Sums.TilesFree | assignments/a4/slob.c:395-444 | returning a live block keeps that partition |
| Sums.BooksAfterReturn | assignments/a4/slob.c:397-416 | and the count of free units goes up by the size of the block |
| Rings.ListDel | assignments/a4/slob.c:122-126 | removing a node leaves the ring of the others, in order |
| Rings.ListAdd | assignments/a4/slob.c:116-120 | adding a node makes it the first after the list head |
| Rings.ListMoveTail | assignments/a4/slob.c:331-333 | moving the head of a list before a node rotates the ring to start at that node |
| SlobPage.Page.SetSlob | assignments/a4/slob.c:149-159 | the new memory of the page is the old one with the block stored; values stay in the range of the unit type |
| SlobPage.Page.DecodeEncoded | assignments/a4/slob.c:149-192 | slob_units, slob_next and slob_last read back what set_slob stored, the end-of-page offset included |
| SlobPage.Page.StoredInFreeUnits | assignments/a4/slob.c:81-87 | by its free units alone, what the memory of any page holds: where a run of free units begins, its length and the offset of the next free unit, or that offset negated for a lone unit; 2048 ends the list |
| SlobPage.Page.EntryIsFirstFree | assignments/a4/slob.c:221-444 | the entry of the list is the lowest free unit of the page, or the end of the page |
| SlobPage.Page.FindRoom | assignments/a4/slob.c:226-233 | the scan ends at the block that holds the lowest fit, or when there is none |
| SlobPage.Page.CutFront | assignments/a4/slob.c:245-257 | the four ways to unlink or shorten a block store the shortened list and touch at most two blocks |
| SlobPage.Page.SplitHead | assignments/a4/slob.c:236-243 | an alignment split stores the halved list and touches only that block |
| SlobPage.Page.PageAlloc | assignments/a4/slob.c:221-267 | returns the lowest aligned run of free units and makes it a live block, or fails, changing nothing, exactly when there is no such run; only units that were free are written |
| SlobPage.Page.FindPlace | assignments/a4/slob.c:426-431 | the search stops between the neighbours of the freed block and never leaves the list |
| SlobPage.Page.StoreMergedRight | assignments/a4/slob.c:433-437 | the block is stored together with its right neighbour if they touch |
| SlobPage.Page.JoinLeft | assignments/a4/slob.c:439-443 | the left neighbour is linked to the block or extended over it; the new list is stored |
| SlobPage.Page.Reinsert | assignments/a4/slob.c:418-444 | the stored list is the canonical list of the old free units and the freed block |
| SlobPage.Page.PageFree | assignments/a4/slob.c:416-444 | freeing a block of a partly free page frees exactly its units and writes only units that are then free |
| SlobPage.Page.FirstFree | assignments/a4/slob.c:395-401 | the same for a page that was full |
| SlobPage.Page.SetUp | assignments/a4/slob.c:347-350 | a new page is one free block, whatever its memory held |
| SlobPage.Page.Memset | assignments/a4/slob.c:357-358 | clearing a live block zeroes its bytes and writes nothing else, not even the byte behind an odd size; the free list survives |
| SlobPage.Page.LastBlock | assignments/a4/slob.c:382 | the units test holds exactly when the block is the only live one of its page |
| SlobPage.EmptyPageFits | assignments/a4/slob.c:352-353 | a block of at most a page fits an empty page at any alignment, so BUG_ON cannot fire |
| PageChoice.ScanIsFirstMinimum | assignments/a4/slob.c:307-320 | the scan finds the first of the smallest roomy pages it looks at |
| PageChoice.BestOfFirstFifty | assignments/a4/slob.c:307-320 | the scan for a page settles on the first of the smallest roomy pages among the first 50 up to that page, or on the page itself |
| PageChoice.BestIsRecord | assignments/a4/slob.c:299-320 | every attempt goes to a roomy page with no more free units than the current page |
| PageChoice.AttemptsAreRecords | assignments/a4/slob.c:290-335 | the pages tried are exactly the records of the list |
| PageChoice.FirstAttemptIsFirstRoomy | assignments/a4/slob.c:303-324 | the first attempt goes to the first page with enough free units |
| PageChoice.FewestUnitsIsTried | assignments/a4/slob.c:290-335 | the page with the fewest sufficient units is among those tried |
| PageChoice.SuccessIsAtCurrentPage | assignments/a4/slob.c:322-334 | when all records so far have failed, an attempt succeeds exactly if the current page is the first record that fits, and then on that page |
| PageChoice.ChosenIff | assignments/a4/slob.c:290-335 | the page chosen fits and no roomy page with fewer units stands before it among the first 50, while every earlier page that fits has such a page before it |
| PageChoice.BestFitIff | assignments/a4/slob.c:307-334 | the page taken is a best fit if and only if no later page that fits is smaller: earlier pages never spoil the choice |
| PageFits.PageWith | assignments/a4/slob.c:81-87 | any set of units of a page can be its free units: some canonical list and some live blocks go with it |
| PageFits.CanFitIff | assignments/a4/slob.c:226-233 | a page with u free units can have an aligned run of n if and only if n <= u |
| PageFits.CanMissIff | assignments/a4/slob.c:226-265 | a page with u free units can be without one if and only if u leaves enough live units to break up every aligned run |
| PageFits.MostMissingIs | assignments/a4/slob.c:226-265 | that bound in numbers, for any size and alignment |
| BestFit.NotBestFit | assignments/a4/slob.c:324-334 | counts of free units and outcomes, each possible for a page, for which the page taken is not the smallest that fits |
| BestFit.FittingPageSkipped | assignments/a4/slob.c:307-326 | the same for a page that fits while the search gives up |
| BestFit.AlwaysBestIff | assignments/a4/slob.c:307-334 | whatever units of the pages are free, the choice is best: if and only if no record that can be reached is followed by a smaller page with room |
| BestFit.NeverSkipsIff | assignments/a4/slob.c:307-339 | whatever units are free, the search gives up only if no page fits: if and only if every page with room is a record, or some record cannot be without a fit |
| BestFit.BestFitPromiseIff | assignments/a4/slob.c:290-339 | both together, a best fit whenever a page fits, as the write-up has it: exactly for which counts of free units, on lists of any length |
| BestFit.HeapIsPossible | assignments/a4/slob.c:290-335 | the counts and fits of the pages on a list of the heap are among those that these results range over; between calls each count is at least 1 and less than a page |
| BestFit.HeapGrowsIff | assignments/a4/slob.c:290-340 | slob_alloc needs a new page if and only if every page of its list that fits is preceded, among the first 50, by a roomy page with fewer units |
| BestFit.HeapChoosesIff | assignments/a4/slob.c:290-335 | the page that it takes, likewise |
| BestFit.HiddenUpTo49 | assignments/a4/slob.c:307-326 | a page that one page with fewer units can hide is passed over if that page is at position 49 or before, and taken if it is at position 50 or later |
| BestFit.HeapBestFitIff | assignments/a4/slob.c:322-334 | the page that slob_alloc takes is a best fit of its list if and only if no later page that fits is smaller |
| BestFitRuns.ScatteredFirst | assignments/a4/slob.c:272-447 | a run of allocations and frees from an empty heap that leaves two pages on one list, the first with two free quarters apart, the second with three together |
| BestFitRuns.SkipsAFit | assignments/a4/slob.c:307-340 | in that heap the second page fits half a page, and slob_alloc needs a new page for it all the same |
| BestFitRuns.LargerFirst | assignments/a4/slob.c:272-447 | a run that leaves a page with three free quarters in front of one with two |
| BestFitRuns.TakesTheLarger | assignments/a4/slob.c:322-334 | in that heap both pages fit half a page, and slob_alloc takes the first, which is not the smaller |
| SlobHeap.ClassIs | assignments/a4/slob.c:281-286 | sizes below 256, below 1024 and from there on have their own lists |
| SlobHeap.ListAfterGoesRound | assignments/a4/slob.c:328-333 | after a search the list goes round from the page that served it, or from the one after it if that became full |
| SlobHeap.Heap.constructor | assignments/a4/slob.c:104-106 | three empty lists of fresh nodes and no pages |
| SlobHeap.Heap.ClearSlobPageFree | assignments/a4/slob.c:122-126 | the page leaves its list, which stays a ring of the other pages in order |
| SlobHeap.Heap.SetSlobPageFree | assignments/a4/slob.c:116-120 | the page becomes the first of the list; no other list changes |
| SlobHeap.Heap.SlobPageAlloc | assignments/a4/slob.c:221-267 | takes the lowest fit of the page, and takes the page off its list exactly when it became full |
| SlobHeap.Heap.Follow | assignments/a4/slob.c:290 | following the links visits the pages in order and stops at the list head |
| SlobHeap.Heap.BestPage | assignments/a4/slob.c:299-320 | the scan settles on the page that PageChoice describes and never takes the list head for a page |
| SlobHeap.Heap.Rotate | assignments/a4/slob.c:328-333 | moving the head, or leaving it when it is in place, rotates the list to the page after the given node |
| SlobHeap.Heap.Attempt | assignments/a4/slob.c:322-334 | one attempt and, on success, the rotated list: first, last and only pages and pages that became full included |
| SlobHeap.Heap.SearchList | assignments/a4/slob.c:290-335 | takes a block from the first record that fits or gives up when none does; tries the pages of PageChoice in that order; other pages are left alone |
| SlobHeap.Heap.AddPage | assignments/a4/slob.c:340-351 | a new page is held, wholly free, and first on its list |
| SlobHeap.Heap.AllocFromNewPage | assignments/a4/slob.c:340-355 | allocation from a new page always succeeds |
| SlobHeap.Heap.AllocBlock | assignments/a4/slob.c:281-356 | which page is used, which pages were tried, what the lists become, and that memory runs out only if a page is needed and cannot be had |
| SlobHeap.Heap.SlobAlloc | assignments/a4/slob.c:272-360 | the block is the lowest aligned fit of the first record that fits, or of a new page; no unit of a live block is written; the block is zero if asked for; no page without live blocks is held |
| SlobHeap.Heap.SlobFree | assignments/a4/slob.c:365-447 | gives the page back, with both its flags cleared, exactly when its last block is freed; otherwise frees exactly the block's units, writes only free units, and relists a page that was full by the size freed |
| SlobStats.UnitsConserved | assignments/a4/slob.c:355-390 | free units and live units add up to 2048 for each page counted |
| SlobStats.ListsHoldAllFree | assignments/a4/slob.c:674-706 | the pages on the three lists hold all free units |
| SlobStats.FreeUnits | assignments/a4/slob.c:674-706 | the three loops count the free units of all held pages |
| SlobStats.UnitsUsed | assignments/a4/slob.c:708-711 | reports the units of all live blocks, without underflow |
| SlobStats.UnitsFree | assignments/a4/slob.c:713-716 | reports the free units; with the used ones they make up all pages |
| SlobLaws.LiveDeterminesList | assignments/a4/slob.c:221-444 | the live blocks of a page determine its free list and its count, whatever calls led there |
| SlobLaws.UnitsPartitioned | assignments/a4/slob.c:272-447 | every unit of a held page is in exactly one live block or exactly one block of the list |
| SlobLaws.PagesListed | assignments/a4/slob.c:259-261 | a held page is on exactly one list, once, if it has free units, and on none if it is full; nothing else is on a list |
| SlobLaws.FreesCommute | assignments/a4/slob.c:395-444 | two frees give the same free list, entry and count of the page in either order |
| SlobLaws.TwoFrees | assignments/a4/slob.c:365-447 | what two frees leave on a page, whether it is given back, and what the page lists become |
| SlobLaws.HeapFreesCommuteIff | assignments/a4/slob.c:382-410 | in any valid heap, the page lists after two frees on a page are the same in either order if and only if the page had free units, or is given back, or both sizes are of one class |
| SlobLaws.FreesCanDiffer | assignments/a4/slob.c:395-410 | a sound full page with three live blocks, two of them of the units of sizes of different classes: there the order shows |
| SizeClasses.AllocSized | assignments/a4/slob.c:281-351 | allocation keeps it so that the blocks of a page, and of the list it is on, are of one size class |
| SizeClasses.FreeSized | assignments/a4/slob.c:395-410 | so does freeing with the size asked for: a page that was full returns to the list of its blocks |
| SizeClasses.SizedFreesCommute | assignments/a4/slob.c:382-410 | hence two frees with the sizes asked for leave the same page lists in either order |
| SlobLaws.AllocThenFree | assignments/a4/slob.c:272-447 | allocating and freeing restores the held pages, their lists, counts and live blocks; the page lists are at most rotated |
| Kmalloc.HeaderRoundTrip | assignments/a4/slob.c:472 | a stored size reads back as the same 32-bit number |
| Kmalloc.HeaderHalves | assignments/a4/slob.c:472 | the header holds the low half of the size and then the high half |
| Kmalloc.AreaKeptByAlloc | assignments/a4/slob.c:468 | an area and its header survive an allocation on their page |
| Kmalloc.AreaKeptByFree | assignments/a4/slob.c:527 | and the freeing of another block on it |
| Kmalloc.Kmem.KmallocSmall | assignments/a4/slob.c:464-473 | a new area of the size asked for, aligned, zero if asked for; the contents of all others do not change |
| Kmalloc.Kmem.AreasDisjoint | assignments/a4/slob.c:464-473 | areas and their headers lie apart from each other and from the free units of their page |
| Kmalloc.Kmem.Kmalloc | assignments/a4/slob.c:454-490 | zero size, small and large requests, the large ones with pages that hold them but less than twice their size; NULL only when the page allocator fails; every new page and list node is fresh |
| Kmalloc.OrderFits | assignments/a4/slob.c:478-482 | the order of a large request is the least whose pages hold it |
| Kmalloc.SpanSum | assignments/a4/slob.c:485 | the bytes of an order: 4096, 8192, and from there by the law of powers |
| Kmalloc.OrderSpans | assignments/a4/slob.c:478-482 | the order of a large area in numbers: 4096 * 2^order bytes hold it, and are fewer than twice its size if they are more than one page |
| Kmalloc.Kmem.ReadHeader | assignments/a4/slob.c:525-527 | the header gives back the size asked for, and with it the whole block that slob_alloc gave |
| Kmalloc.Kmem.KfreeSmall | assignments/a4/slob.c:525-527 | exactly that block is freed; other areas keep their contents; a page that leaves the heap is no slab page |
| Kmalloc.Kmem.Kfree | assignments/a4/slob.c:513-530 | NULL and ZERO_SIZE_PTR are ignored; the page flag tells small areas from large ones; no page or node is added |
| Kmalloc.Kmem.Write | assignments/a4/slob.c:464-473 | a client write inside an area changes that area only and nothing the allocator relies on |
| Kmalloc.Kmem.Ksize | assignments/a4/slob.c:534-551 | the bytes of a small area, 4096 * 2^order for a large one, zero for ZERO_SIZE_PTR; at least as many as were asked for, and for a large area of more than a page less than twice as many |
| Kmalloc.Kmem.NothingLeaks | assignments/a4/slob.c:464-527 | when every small area has been freed no page is held |
| KmallocRuns.HeldIff | assignments/a4/slob.c:454-530 | an area is held after a run if and only if its request succeeded and no later operation freed it |
| KmallocRuns.WrittenIff | assignments/a4/slob.c:464-473 | what a unit of a held area was last written is the value of the last write to it since its request |
| KmallocRuns.Run | assignments/a4/slob.c:454-530 | after any sequence of kmalloc, kfree and writes from an empty heap, the areas handed out are exactly those not freed, each small one holds what was last written to it, a request fails only if the page allocator does, no page is held once the small areas are freed, and of all pages ever handed out exactly the held ones have the slab flag |
| Twister.Recurrence | assignments/a1/mt19937ar.c:114-123 | every word after the first 624 follows, by the formula with its constants, from the words 624, 623 and 227 places before it |
| Twister.NextLinear | assignments/a1/mt19937ar.c:114-123 | that formula is linear over exclusive or |
| Twister.NextAtBits | assignments/a1/mt19937ar.c:114-123 | and has these values where only one of its three words is not zero, so that no other constant or shift would do |
| Twister.WindowGoesOn | assignments/a1/mt19937ar.c:114-123 | from any 624 consecutive words the sequence goes on as it would from a seed |
| Twister.TwistParts | assignments/a1/mt19937ar.c:115-116 | a twist determines, and is determined by, the top bit of one word and the low bits of the next |
| Twister.TwistReversible | assignments/a1/mt19937ar.c:114-123 | the new array determines old words 1 to 623 and the top bit of old word 0 |
| Twister.TwistIsInjective | assignments/a1/mt19937ar.c:114-123 | the 19937 bits of the new state and those of the old state determine each other |
| Twister.TwistIsOnto | assignments/a1/mt19937ar.c:114-123 | every state has a state before it, given explicitly, any number of steps back |
| Twister.NeverZero | assignments/a1/mt19937ar.c:114-123 | a state that is not zero never becomes zero |
| Twister.SpreadIs | assignments/a1/mt19937ar.c:62 | all three seeding formulas mix the top two bits of the word before into its lowest ones, and multiply |
| Twister.SeededFollows | assignments/a1/mt19937ar.c:57-69 | word 0 of the seeded state is the seed, and each other word follows from the one before it with the multiplier 1812433253 |
| Twister.SeededNotZero | assignments/a1/mt19937ar.c:57-69 | no seed gives the zero state |
| Twister.TemperBijective | assignments/a1/mt19937ar.c:130-134 | tempering has an inverse on both sides |
| Twister.TemperLinear | assignments/a1/mt19937ar.c:130-134 | tempering is linear over exclusive or, hence fixed by its values at the 32 words with one bit set |
| Twister.TemperLowestByte | assignments/a1/mt19937ar.c:130-134 | these values, for the bits of the lowest byte |
| Twister.TemperSecondByte | assignments/a1/mt19937ar.c:130-134 | these values, for those of the second byte |
| Twister.TemperThirdByte | assignments/a1/mt19937ar.c:130-134 | these values, for those of the third byte |
| Twister.TemperTopByte | assignments/a1/mt19937ar.c:130-134 | these values, for those of the top byte |
| Twister.ResultsRevealState | assignments/a1/mt19937ar.c:102-137 | any 624 consecutive results give the state, and with it every later result |
| Twister.TraceMixes | assignments/a1/mt19937ar.c:75-99 | the arrays that init_by_array goes through, for a key of any length: each step of either pass changes one word, in turn, as given in numbers |
| Twister.ShortKeyWords | assignments/a1/mt19937ar.c:75-99 | for a key of at most 624 words, every word after each pass from the words before that pass and its left neighbour after it; words 1 and 2, where the passes meet, on their own |
| Twister.Generator.NotZero | assignments/a1/mt19937ar.c:57-99 | the array of a seeded generator is never in the zero state |
| Twister.Generator.InitGenrand | assignments/a1/mt19937ar.c:57-69 | the array holds the seeding recurrence, given in numbers, and no result has been drawn |
| Twister.Generator.InitByArray | assignments/a1/mt19937ar.c:75-99 | the array is the last of a sequence of arrays, one for each step of the two passes, that begins with the array seeded with 19650218, with word 0 replaced by 0x80000000 |
| Twister.Generator.Regenerate | assignments/a1/mt19937ar.c:114-123 | the array, rebuilt in place, holds the next 624 words of the recurrence |
| Twister.Generator.GenrandInt32 | assignments/a1/mt19937ar.c:102-137 | result i since seeding is the tempered word 624 + i of the recurrence; an unseeded generator uses seed 5489 |
| Philosophers.CanStepIff | recitations/philosopher.c:81-83 | a philosopher blocks only on a semaphore that is zero, and stops after three rounds |
| Philosophers.StepOperates | recitations/philosopher.c:77-90 | one operation changes one semaphore by one: the footman and then the own and the next fork are taken, the own and the next fork and then the footman given back |
| Philosophers.StepKeepsInv | recitations/philosopher.c:77-90 | each fork's value plus its holders is 1, and the footman's value plus the admitted is N - 1 |
| Philosophers.NoCircularWait | recitations/philosopher.c:81-83 | nobody waits for a fork in a stuck state: the wait would close a circle of all N |
| Philosophers.NoDeadlock | recitations/philosopher.c:77-90 | nobody can go on exactly when everyone is done |
| Philosophers.RunFrom | recitations/philosopher.c:77-90 | every run keeps the invariant, and its length counts the operations completed, in total and for each philosopher |
| Philosophers.NeighboursNeverEatTogether | recitations/philosopher.c:81-88 | in no run do neighbours hold both their forks at once |
| Philosophers.RunsAreFinite | recitations/philosopher.c:77-90 | no run has more than 18 N operations |
| Philosophers.MaximalRuns | recitations/philosopher.c:72-94 | a run cannot go on exactly when everyone has eaten three times and every semaphore has its initial value; it then has 18 operations of each |
| Philosophers.DeadlockFreeIff | recitations/philosopher.c:41-52 | no run deadlocks if and only if there are at least two philosophers |
| Philosophers.Table.constructor | recitations/philosopher.c:41-69 | the loops of init and run set up the initial state |
| Philosophers.Table.Act | recitations/philosopher.c:81-89 | one operation of a thread is one step of the transition system |
| Philosophers.Table.Dine | recitations/philosopher.c:55-94 | in whatever order the threads run, they all finish |
| Ramdisk.BlockByBlock | assignments/a3/ramdisk.c:78-88 | block k of the result is the cipher applied to block k alone |
| Ramdisk.DecryptEncrypt | assignments/a3/ramdisk.c:78-88 | decrypting block by block undoes encrypting block by block |
| Ramdisk.OverwrittenAt | assignments/a3/sbd.c:66-69 | a transfer puts byte i of the request at byte i of its place and leaves the other bytes |
| Ramdisk.ServedAsAsked | assignments/a3/sbd.c:56-70 | a request whose end does not wrap around into the disk is carried out at its own sectors, and beyond the end not at all |
| Ramdisk.EncryptedRefinesPlain | assignments/a3/ramdisk.c:63-90 | any request, out of range, wrapped around or neither, does to the decrypted disk and the buffer what the plain disk does |
| Ramdisk.Indistinguishable | assignments/a3/ramdisk.c:63-90 | no sequence of requests tells the two disks apart |
| Ramdisk.OtherSectorsSpare | assignments/a3/sbd.c:56-70 | requests for other sectors spare the bytes of a sector, unless their end wraps around into the disk |
| Ramdisk.ReadBack | assignments/a3/sbd.c:62-69 | sectors read back as they were written, whatever requests that spare their bytes come in between |
| Ramdisk.TestIsExactIff | assignments/a3/sbd.c:59-65 | the range test, in 32-bit arithmetic, is exact if and only if the end of the request does not wrap around into the disk |
| Ramdisk.TestCanFail | assignments/a3/sbd.c:59-65 | a request beyond the end that passes the test |
| Ramdisk.Locate | assignments/a3/ramdisk.c:65-75 | offset, length and refusal in unsigned long arithmetic; where the end does not wrap into the disk, offset and length are those asked for and exactly the requests beyond the end are refused |
| Ramdisk.PlainDisk.Transfer | assignments/a3/sbd.c:56-70 | disk and buffer after a plain transfer; nothing changes when the request is refused |
| Ramdisk.EachBlockInto | assignments/a3/ramdisk.c:78-88 | the loops process every block once and write no other byte |
| Ramdisk.EncryptedDisk.Transfer | assignments/a3/ramdisk.c:63-90 | the stored bytes are the encrypted ones, and the decrypted disk changes as the plain one does |

## Left out

- slob.c: locks and concurrent callers; each call is one atomic step. The counter `pages` is adjusted where the page is taken or given back, not after the lock is released.
- slob.c: NUMA nodes, tracing, kmemleak, gfp flags other than zeroing, RCU freeing, slab caches and their constructors.
- slob.c: the page allocator. A new page is a fresh object with arbitrary contents, and a parameter says whether the request fails. Addresses are offsets within a page; pages themselves have no addresses.
- slob.c: the constants are those of 32-bit x86 (page size 4096, two-byte units); counters are unbounded integers; the poison values that list_del leaves in a removed node are not modelled.
- Kmalloc.Kmem.Kmalloc: the contents of large areas are not modelled, only their order and that they lie apart from the slob pages. `get_order` is not part of the repository; it is taken to be the least order that holds the size.
- Kmalloc.Kmem.Kfree: clients free only what kmalloc returned and has not been freed, as the kernel demands of them.
- mt19937ar.c: words are 32 bits wide; on machines with a wider `unsigned long` the code masks every stored word to 32 bits. The wrappers that scale a result to a shorter integer or a floating-point number are left out.
- philosopher.c: the order in which a semaphore wakes its waiters; printing; thread creation itself. Reading and writing a semaphore is one atomic step.
- Ramdisk.PlainDisk.Transfer: a request that passes the range test must stay on the disk where the driver looks for its bytes, and its buffer must have room for them, since the driver would otherwise leave its memory. By `Ramdisk.StaysOnDiskIff` this excludes only requests whose offset and length add up to more than a word; by `Ramdisk.ServedAsAsked`, none whose end does not wrap around into the disk.
- Ramdisk.EncryptedDisk.Transfer: the cipher is an abstract pair of functions with decrypt(encrypt(x)) = x whose block size divides the sector size and, for requests that wrap around, 2^32; key set-up, and whether the cipher accepts the key length of the driver, are not part of this model.
- ramdisk.c and sbd.c: request queues, device registration and geometry.
- The elevator scheduler (`assignments/a2/sstf-iosched.c`), the producer and consumer (`assignments/a1/producer.c`) and the other concurrency exercises: their code does not keep the invariants they aim at, so little beyond bounds of indices could be stated.
