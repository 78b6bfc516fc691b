# Memory management and boot of the Supertos kernel, modelled and proved in Dafny

The project models five parts of the kernel and its loader and proves what they keep, step by
step and over whole runs.

* **Skip list** (`SkipSearch.dfy`, `SkipLinks.dfy`, `SkipLevels.dfy`, `SkipList.dfy`): the doubly
  linked, seven-level list with its pointer arrays, stale pointers included. No height is stored;
  the code recovers it from the first level without a predecessor. A list is abstracted by the
  ghost sequence of its nodes and the ghost height of each.
* **Page allocator** (`FreeRanges.dfy`, `PageRuns.dfy`, `Merging.dfy`, `MemoryRange.dfy`): free ranges, each kept in
  two skip lists at once, described by a record in its own first page. `FreeRanges` and `PageRuns`
  say what freeing and allocating do to the free ranges and prove the laws over whole runs;
  `Merging` says exactly which merges are missed;
  `MemoryRanges.MemoryInfo` is the code over the four lists and is proved to do exactly that.
  Random heights are arbitrary, so every result holds for all draws.
* **Queue lock** (`MCS.dfy`): a state machine whose steps are the single memory accesses of
  `MCSLock` and `MCSUnlock`, for any number of threads. Tickets may be used again, and anything may
  be written into them between uses.
* **Slabs** (`Slab.dfy`): how a page is cut into blocks, the slot bitmap, and one owner that
  searches and clears while other processors free.
* **Heapsort** (`Heapsort.dfy`) and **ELF loader** (`Elf.dfy`): in place, each proved against a
  function on sequences whose own properties are proved.

`dafny verify dfyconfig.toml` checks everything.

## Where the code departs from what it says

* `HUGEPAGE_SIZE` is a product without parentheses (`kernel/utils/Architecture.h:10`), so
  `x % HUGEPAGE_SIZE` is `(x % 512) * 4096`. Every allocator lemma takes the reading as a parameter
  (`AsWritten` or `Parenthesised`). With the macro as written every page counts as aligned:
  conservation, completeness and index agreement still hold, but a hugepage request is served
  whenever any 512 pages in a row are free (`HugepageAsWritten`, `NoFrameNeededAsWritten`). The
  hugepage laws are proved for the reading that is meant (`HugepageComplete`).
* A request that is not exact and gets a shorter block leaves an empty range linked whose record
  lies in the memory just handed out (`kernel/memman/MemoryRange.c:151`). The code is modelled as it
  is; `TakeKeepsExactly` and `NoRecordHandedOut` show that this happens exactly then, and
  `HandOutRecord` is a pair of calls that does it. Whether it will is told from the lists before the
  call (`MetInFull`). Runs consist of frees, exact requests, and other requests that are met in full;
  what freeing does afterwards is stated for `InsertNewMemoryRange` itself.
* "There can be no cascade merging" (`kernel/memman/MemoryRange.c:99`) is too strong. Two ranges that
  the merge test would still join are left behind in exactly two cases (`LeavesPair`,
  `InsertCompletes`): an unaligned region fills the gap between two aligned ranges (`GapFilled`), or a
  region that ends up aligned absorbs an unaligned range that in turn touches an aligned one
  (`NeighbourAbsorbed`). Allocation never leaves such a pair, so a run stays free of them if and only
  if no free in it is one of the two cases (`RunCompletes`). With the macro as written every range
  counts as aligned, and no pair is ever missed (`NoneMissedAsWritten`). In every case ranges touch
  only on a 2 MiB boundary (`Invariant`).
* A search that is not exact is documented to return the closest weight
  (`kernel/memman/SkipList.c:127`), but the node where the fast lanes land is never considered.
  `ClosestOverallExactly` says when the promise holds; `ClosestBeatsHeavier` what always holds.
* A hugepage request is served from the end of an aligned range, so the pages returned are aligned
  only if the range is a whole number of frames (`HugepageAligned`, `HugepageMisaligned`).
* The lock publishes a ticket before it clears the flag in it (`kernel/utils/MCS.c:12-13`), and
  `MCSUnlock` leaves the flag set. All that can follow an exchange is safe if and only if the
  flag of its ticket is false at that moment (`SafeExactlyWhenClean`); with tickets that each serve
  once, if and only if no flag is set to begin with (`SafeExactlyWhenFresh`). A single run is safe if
  and only if nobody passes the test because of a flag that its owner has yet to write
  (`SafeExactlyWhenNobodyFooled`). Clearing the flag for
  another use is itself harmful before the next thread is in: the next thread can enter if and only
  if the flag it waits for is still set (`EntersExactlyWhenSignalled`), and otherwise nobody ever
  does (`LostForever`). `ReleaseLost` is a run in which that happens. The flag is set at every moment
  of a run if and only if nobody clears it too early (`SignalledExactlyWhenCareful`); with tickets that
  each serve once, the lock progresses in every reachable state (`FirstUsesProgress`).
* `SLABMainOffset` takes the smaller of metadata size and element length
  (`kernel/memman/SLAB.c:90`), where the head of the file needs the larger. With the larger the
  announced blocks tile the page; as written they do so only for 64-byte elements
  (`AsWrittenOnlyForLines`). The protocol of the slab uses block offsets only, so it is the same for both.
* The first loop of `Heapsort` runs upwards (`kernel/utils/Heapsort.c:32`) and so makes no heap. As
  written the routine permutes every input, sorts those in which at most one node it visits is out
  of place, fails on each with an element above its first two, and sorts every input of a given
  length exactly for lengths up to 2. Run downwards from the middle, it sorts everything.

## Model

| member | source | states |
|---|---|---|
| SkipLinks.NodeHeight | kernel/memman/SkipList.c:16-20 | the loop returns the first level without a predecessor, or 7 |
| SkipLinks.InsertAfter | kernel/memman/SkipList.c:41-59 | every level, given its two sides around the new node's place, ends up doubly linked, with the node in place on exactly its lowest levels; both its links on the level above are cleared; links above any other node's height are untouched |
| SkipLinks.Unlink | kernel/memman/SkipList.c:82-87 | taking a node off all its levels leaves every level doubly linked without it, and stale links as they were |
| SkipLevels.LevelsNest | kernel/memman/SkipList.c:41-59 | each level is a subsequence of the level below |
| SkipLevels.LandingIsLast | kernel/memman/SkipList.c:134-135 | the fast lanes end at the last lighter node taller than one level |
| SkipLevels.WovenIsDetermined | kernel/memman/SkipList.c:41-59 | below its height, each link of each node is determined by the abstract list alone |
| SkipSearch.ClosestCases | kernel/memman/SkipList.c:129-151 | which node a search that is not exact returns, by cases on the last lighter and the first other node |
| SkipSearch.ClosestBeatsHeavier | kernel/memman/SkipList.c:126-151 | NULL only for the empty list; never farther from the request than any node at least as heavy as it |
| SkipSearch.ClosestSuffices | kernel/memman/SkipList.c:129-151 | a search that is not exact returns a node at least as heavy as the request if and only if there is one and the last lighter node is missing, tall, or not strictly closer |
| SkipSearch.ClosestOverallExactly | kernel/memman/SkipList.c:126-151 | the documented "closest weight" holds if and only if the last lighter node has height 1, or is not strictly closer than the first other node, or one of the two is missing |
| SkipSearch.ClosestOverallFails | kernel/memman/SkipList.c:126-151 | weights 9 (two levels) and 100: a request of 10 gets 100 |
| SkipLists.SkipList.HeightRecovered | kernel/memman/SkipList.c:12-20 | in a linked list the recovered height is the inserted one, whatever stale pointers lie above |
| SkipLists.SkipList.FindPrevs | kernel/memman/SkipList.c:31-37 | on every level, the last node lighter than the key, or the sentinel |
| SkipLists.SkipList.GaplessLinks | kernel/memman/SkipList.c:91-102 | neighbours on level 0 are the neighbours in weight order, the sentinel before the first |
| SkipLists.SkipList.Best | kernel/memman/SkipList.c:129-152 | exact: the first node of level 0 at least as heavy as the request, or NULL if there is none; otherwise the answer of the linear scan from where the fast lanes land |
| SkipLists.SkipList.Insert | kernel/memman/SkipList.c:67-73 | the list stays sorted and linked on every level; the node enters before the first not lighter; nodes with leftover links from earlier lists may be inserted at any height; at height 0 the node is in no list |
| SkipLists.SkipListInsert | kernel/memman/SkipList.c:67-73 | with the NULL guards; the node enters in its place and is linked, and its height recovered, at the height asked for, at most 7; at height 0 nothing enters |
| SkipLists.SkipListRemove | kernel/memman/SkipList.c:77-88 | with the NULL guard: nothing changes without a node |
| SkipLists.SkipListBest | kernel/memman/SkipList.c:129-152 | with the NULL guard: NULL without a list |
| SkipLists.Remove | kernel/memman/SkipList.c:77-88 | exactly that node leaves; linkedness is kept even while weights are out of order; removing a node without a first predecessor, whatever its leftover links, does nothing |
| SkipLists.RemoveReweighed | kernel/memman/MemoryRange.c:47-60 | changing the weight of a linked node and then removing it leaves the rest sorted |
| SkipLists.InsertThenRemove | kernel/memman/SkipList.c:41-88 | inserting and then removing a node restores every link of every other node |
| FreeRanges.AlignedMeans | kernel/utils/Architecture.h:8-10 | what the alignment test means under each reading of the macro |
| FreeRanges.ClassMeans | kernel/memman/MemoryRange.c:36-43 | the three kinds of ranges: those not beginning at a multiple of 512 pages, of any length; the others of fewer than 512 pages; the others of 512 or more |
| FreeRanges.SplitParts | kernel/memman/MemoryRange.c:122-132 | a region is entered whole when it may be, and otherwise in two parts, which have exactly its pages and neither of which starts inside a 2 MiB frame and crosses into the next |
| FreeRanges.EnteredKeeps | kernel/memman/MemoryRange.c:69-84 | a new range lands between its neighbours in address order, disjoint from all |
| FreeRanges.FreeMerged | kernel/memman/MemoryRange.c:102-115 | a merge moves no page in or out |
| FreeRanges.MergeForms | kernel/memman/MemoryRange.c:102-115 | after a merge attempt the range and its predecessor are joined, or meet on a 2 MiB boundary, or do not touch; no joined range crosses a boundary it did not start on |
| FreeRanges.AddRangeKeeps | kernel/memman/MemoryRange.c:69-88 | entering a range and offering it to both neighbours keeps the invariant and adds exactly its pages |
| FreeRanges.AddRangeExactly | kernel/memman/MemoryRange.c:69-115 | a new range absorbs the range before it exactly if they touch and not only the new one is aligned, the range after it likewise and independently; all other ranges stay |
| FreeRanges.InsertKeeps | kernel/memman/MemoryRange.c:122-132 | freeing keeps the ranges disjoint, non-crossing and meeting only on boundaries, and adds exactly the given pages |
| PageRuns.TakeMoves | kernel/memman/MemoryRange.c:146-156 | allocation removes exactly the returned pages from the free set, all of which were free |
| PageRuns.TakeForms | kernel/memman/MemoryRange.c:146-156 | taking pages from the end of a range keeps the invariant |
| PageRuns.TakeKeepsExactly | kernel/memman/MemoryRange.c:146-156 | the invariant survives an allocation if and only if the range has the requested pages |
| PageRuns.NoRecordHandedOut | kernel/memman/MemoryRange.c:146-156 | the pages handed out hold no linked record if and only if the range has the requested pages |
| PageRuns.ServedOrRefused | kernel/memman/MemoryRange.c:161-169 | a request is refused exactly when no searched list has a best fit for it |
| PageRuns.LongRangesAreAligned | kernel/memman/MemoryRange.c:36-43 | a range of 512 pages or more is always in the list that long requests search |
| PageRuns.ExactComplete | kernel/memman/MemoryRange.c:161-169 | an exact request succeeds if and only if some free range, in whatever list, is long enough |
| PageRuns.NeighboursTogether | kernel/memman/MemoryRange.c:97-115 | two adjacent free pages with no frame boundary between them lie in one range |
| PageRuns.RunTogether | kernel/memman/MemoryRange.c:97-115 | a free run inside a frame lies in one range: runs are maximal inside each frame |
| PageRuns.HugepageComplete | kernel/memman/MemoryRange.c:161-169 | with the macro read as meant, an exact request for 512 pages succeeds if and only if some 2 MiB frame is entirely free |
| PageRuns.HugepageAsWritten | kernel/memman/MemoryRange.c:161-169 | as written, if and only if any 512 pages in a row are free |
| PageRuns.NoFrameNeededAsWritten | kernel/memman/MemoryRange.c:36-43 | a state in which, as written, the request is served although no frame is free |
| PageRuns.HugepageAligned | kernel/memman/MemoryRange.c:146-149 | the 512 pages returned are aligned if and only if the range is a whole number of frames |
| PageRuns.HugepageMisaligned | kernel/memman/MemoryRange.c:146-149 | a state reached by one free in which the request is served with pages that are not aligned |
| PageRuns.StepKeeps | kernel/memman/MemoryRange.c:118-169 | each call keeps the invariant and moves exactly the pages it names |
| PageRuns.RunKeeps | kernel/memman/MemoryRange.c:118-169 | every reachable state is well formed |
| PageRuns.FreedBetween | kernel/memman/MemoryRange.c:118-169 | a page becomes free only by a caller's returning it |
| PageRuns.NoDoubleHandOut | kernel/memman/MemoryRange.c:118-169 | over any run, no page is handed out twice without having been freed in between |
| PageRuns.RecordsStayFree | kernel/memman/MemoryRange.c:69-80 | over any run, every record lies in free memory and in no page just handed out |
| Merging.AddRangeCompletes | kernel/memman/MemoryRange.c:69-115 | from a state with no joinable pair, entering a range leaves one if and only if the range, grown by what it absorbs, starts aligned and touches an aligned range |
| Merging.InsertCompletes | kernel/memman/MemoryRange.c:97-132 | freeing a region, split or not, leaves a pair the merge test would join if and only if one of two cases, told from the state before, applies |
| Merging.TakeCompletes | kernel/memman/MemoryRange.c:146-156 | an allocation met in full leaves no joinable pair |
| Merging.RunCompletes | kernel/memman/MemoryRange.c:97-169 | over a run, every state is free of joinable pairs if and only if no free of the run is one of the two cases |
| Merging.NoneMissedAsWritten | kernel/utils/Architecture.h:10 | with the macro as written, no state of any run has a joinable pair |
| Merging.GapFilled | kernel/memman/MemoryRange.c:97-115 | a run from nothing free whose last free fills a gap and leaves a pair the test would join |
| Merging.NeighbourAbsorbed | kernel/memman/MemoryRange.c:85-115 | a run from nothing free whose last free absorbs its neighbour and leaves a pair the test would join |
| MemoryRanges.EveryHeight | kernel/memman/MemoryRange.c:26-32 | every height from 1 to the maximum is drawn by some series of draws |
| MemoryRanges.HeightMeans | kernel/memman/MemoryRange.c:26-32 | all draws before the last one looked at succeeded, and that one failed unless the maximum was reached or no draw was left |
| MemoryRanges.RandomMemoryRangeHeight | kernel/memman/MemoryRange.c:26-32 | the loop returns one more than the leading successes, at most the maximum, told from the draws themselves |
| MemoryRanges.MemoryInfo.constructor | kernel/memman/MemoryRange.h:29-38 | zeroed sentinels are a sound, empty allocator |
| MemoryRanges.MemoryInfo.SentinelOfClass | kernel/memman/MemoryRange.c:36-43 | the list selected, by alignment and page count: unaligned, aligned with 512 pages or more, other aligned |
| MemoryRanges.MemoryInfo.SetMemoryRangeBegin | kernel/memman/MemoryRange.c:47-53 | a new range enters the address list at its place in address order, linked at exactly the height drawn, and nothing else changes |
| MemoryRanges.MemoryInfo.SetMemoryRangePages | kernel/memman/MemoryRange.c:57-63 | the range, though reweighed while linked, ends up in exactly the size list its new page count selects, linked at exactly the height drawn; all lists stay sound |
| MemoryRanges.MemoryInfo.MemoryRangeRemove | kernel/memman/MemoryRange.c:92-95 | exactly that range leaves both its lists |
| MemoryRanges.MemoryInfo.Neighbours | kernel/memman/MemoryRange.c:85-104 | the payloads before and after an address node are the neighbouring records, or NULL |
| MemoryRanges.MemoryInfo.MergeTests | kernel/memman/MemoryRange.c:106-111 | the 64-bit tests of the code, wrap-around included, decide the abstract merge |
| MemoryRanges.MemoryInfo.TryMergeMemoryRangesWithPrev | kernel/memman/MemoryRange.c:102-115 | on the free ranges it is the abstract merge; lists and records stay in agreement |
| MemoryRanges.MemoryInfo.NewMemoryRange | kernel/memman/MemoryRange.c:69-88 | the free ranges become those of the abstract entry, which adds exactly the given pages; lists and records stay in agreement |
| MemoryRanges.MemoryInfo.InsertNewMemoryRange | kernel/memman/MemoryRange.c:122-132 | freeing pages that hold no record does what the abstract insertion does, empty ranges or not; it adds exactly the given pages and keeps lists and records in agreement, and the invariant if that held |
| MemoryRanges.MemoryInfo.ExactChoice | kernel/memman/MemoryRange.c:138-139 | the node an exact search returns belongs to a tightest fit of the class |
| MemoryRanges.MemoryInfo.ClosestChoice | kernel/memman/MemoryRange.c:138-139 | a search that is not exact fails only if the class is empty; no long enough range of the class is closer to the request than the one it returns, and no range at all is if and only if the condition of `ClosestOverallExactly` holds of the list |
| MemoryRanges.MemoryInfo.NearestExactly | kernel/memman/MemoryRange.c:138-139 | the range returned is the closest of its whole class, shorter ones included, if and only if the condition of `ClosestOverallExactly` holds of the list |
| MemoryRanges.MemoryInfo.SufficesExactly | kernel/memman/MemoryRange.c:138-146 | it is as long as the request if and only if the search reaches a long enough node; something is returned if and only if the list holds anything |
| MemoryRanges.MemoryInfo.AllocatePagesFromList | kernel/memman/MemoryRange.c:138-158 | what is returned and what is left, for both kinds of search, the empty range included |
| MemoryRanges.MemoryInfo.AllocatePages | kernel/memman/MemoryRange.c:161-169 | by alignment and length alone: below 512 pages an exact request gets the end of a tightest unaligned range, failing that of a tightest aligned one of fewer than 512 pages, failing that of a tightest aligned one of 512 or more; from 512 pages on only the last; a request that is not exact goes to the first of these kinds that has any range; it fails only if none is left; and whether it is met in full is told from the lists before the call |
| MemoryRanges.MemoryInfo.ServedKeeps | kernel/memman/MemoryRange.c:161-169 | an allocation takes exactly the reported pages out of the free set; the invariant is kept if and only if it failed or was met in full |
| MemoryRanges.MemoryInfo.HandOutRecord | kernel/memman/MemoryRange.c:118-158 | one page is freed and two are asked for, not exactly: afterwards an empty range is left whose record lies in the page handed out |
| MemoryRanges.MemoryInfo.ServedInBounds | kernel/memman/MemoryRange.c:161-169 | after any allocation, met in full or not, pages can be freed again |
| MemoryRanges.MemoryInfo.ServedIsStep | kernel/memman/MemoryRange.c:161-169 | a call that is exact or met in full is a step of the runs above |
| MemoryRanges.MemoryInfo.IndexAgreement | kernel/memman/MemoryRange.c:36-95 | each range is in the address list once, at its own place, and in exactly the one of the three size lists that its alignment and page count, compared with 512, name, with matching weights |
| MemoryRanges.MemoryInfo.RecordInFirstPage | kernel/memman/MemoryRange.c:69-80 | the record of a range and both its nodes lie, without overlap, in the first page of the range |
| MCS.StepKeeps | kernel/utils/MCS.c:11-21 | every step of any thread, and any write to a ticket not in use, keeps the invariant, as long as no exchange publishes a ticket whose flag is set |
| MCS.RunWritten | kernel/utils/MCS.c:13 | in every run, whatever tickets the exchanges publish, a thread that spins or is inside holds a ticket whose flag is clear |
| MCS.SafeExactlyWhenNobodyFooled | kernel/utils/MCS.c:11-21 | every run, whatever tickets its exchanges publish, is safe throughout if and only if nobody passes the test because of a flag that its owner has yet to write |
| MCS.StaleHarmless | kernel/utils/MCS.c:12-15 | a stale ticket does no harm if nobody tests its flag before its owner has written it |
| MCS.RunSafe | kernel/utils/MCS.c:11-21 | in every interleaving in which no exchange publishes a set flag, with tickets used any number of times, at most one thread is inside, and threads enter in the order of their exchanges |
| MCS.SafeExactlyWhenClean | kernel/utils/MCS.c:12-13 | in any state reached so, all continuations of an exchange by clean steps are safe if and only if the flag of its ticket is false |
| MCS.SafeExactlyWhenFresh | kernel/utils/MCS.c:12-13 | with tickets that each serve once, mutual exclusion holds in all runs if and only if no ticket's flag is set to begin with |
| MCS.BreakRuns | kernel/utils/MCS.c:12-15 | for every stale ticket, a run with two threads inside |
| MCS.LinksCleared | kernel/utils/MCS.c:20 | with tickets that each serve once, a finished ticket whose owner has left MCSUnlock has no predecessor |
| MCS.HeldMeans | kernel/utils/MCS.c:11-21 | somebody is inside exactly while one more thread has entered than has finished |
| MCS.NextGetsIn | kernel/utils/MCS.c:12-16 | if the flag that the owner of the earliest unfinished ticket waits for is set, and nobody clears it too early, the owner is inside once it has taken the steps left to it, at most four, whatever else other threads do |
| MCS.EarliestCanEnter | kernel/utils/MCS.c:12-16 | in any state where that flag is set, its own steps, at most four, can all be taken and take it in |
| MCS.SignalledExactlyWhenCareful | kernel/utils/MCS.c:12-21 | over a run in which no exchange publishes a set flag, that flag is set at every moment if and only if nobody clears the last flag to be set before the next thread is in |
| MCS.RunProgresses | kernel/utils/MCS.c:12-21 | in every state of such a run, with tickets queued and nobody inside, the owner of the earliest unfinished ticket gets in by at most four steps of its own |
| MCS.RunLetsNextIn | kernel/utils/MCS.c:12-21 | from every moment of such a run it is inside as soon as it has taken those steps, in every interleaving |
| MCS.FirstUsesProgress | kernel/utils/MCS.c:12-21 | with tickets that each serve once, in every reachable state with tickets queued and nobody inside the owner of the earliest unfinished one gets in by at most four steps of its own; nothing else is asked |
| MCS.FirstUsesLetNextIn | kernel/utils/MCS.c:12-21 | and in every interleaving it is inside as soon as it has taken them |
| MCS.ReleaseLost | kernel/utils/MCS.c:12-21 | a run of nine steps, no exchange publishing a set flag, after which the next thread waits for a flag that has been cleared |
| MCS.EntersExactlyWhenSignalled | kernel/utils/MCS.c:15-19 | it can get in by itself if and only if the flag it waits for is still set |
| MCS.LostForever | kernel/utils/MCS.c:15-19 | once that flag has been cleared, nobody ever enters unless it is written again from outside |
| MCS.AheadFalls | kernel/utils/MCS.c:11-21 | the threads ahead of a waiting one that are still at their tickets never grow in number, and each release takes off one |
| MCS.UnflaggedFalls | kernel/utils/MCS.c:11-21 | with tickets that each serve once, so do the tickets ahead whose flag is not set |
| Slabs.Covered | kernel/memman/SLAB.c:5-9 | every byte behind the metadata lies in a block that ends inside the page |
| Slabs.CoveredOnce | kernel/memman/SLAB.c:5-9 | and in no other; the metadata lies in none |
| Slabs.AnnouncedAreBlocks | kernel/memman/SLAB.c:84-95 | with the larger main offset the totals announce exactly the blocks that tile the page |
| Slabs.AsWrittenOnlyForLines | kernel/memman/SLAB.c:84-95 | with the offset as written they do so if and only if the element length is 64 |
| Slabs.MainTotalAsWritten | kernel/memman/SLAB.c:93-95 | the number of main blocks is right as written if and only if the element length is at least 64 |
| Slabs.LowestFromIsLowestBit | kernel/memman/SLAB.c:112 | the least member of a word, seen as a set, is the lowest one bit of the number it stands for |
| Slabs.OnesValue | kernel/memman/SLAB.c:131 | the mask of n slots from a slot on is ((1 << n) - 1) << slot |
| Slabs.SetMeans | kernel/memman/SLAB.c:121-135 | SLABSet changes exactly the slots from the object's on, for its size, within one word |
| Slabs.SlotsOfBlock | kernel/memman/SLAB.c:121-135 | for a block these are exactly the slots whose bytes lie in it |
| Slabs.Slab.First | kernel/memman/SLAB.c:109-118 | the offset of the least free slot of the page; nothing if and only if no slot is free |
| Slabs.Slab.Set | kernel/memman/SLAB.c:121-135 | exactly the slots of the object, for its size and within one word, become free or taken; every other slot keeps its mark |
| Slabs.LowestIsBlock | kernel/memman/SLAB.c:109-118 | in a bitmap of whole blocks the lowest one bit of any word is the start of a block that is not handed out |
| Slabs.FirstIsFirstFreeBlock | kernel/memman/SLAB.c:109-118 | SLABFirst then returns the first block that is not handed out, and nothing exactly if every block is |
| Slabs.TakeMarks | kernel/memman/SLAB.c:121-135 | clearing a block keeps the bitmap a union of whole blocks |
| Slabs.FreeMarks | kernel/memman/SLAB.c:121-135 | so does freeing one |
| Slabs.StepKeeps | kernel/memman/SLAB.c:109-135 | every step of the owner and every remote free keeps the page sound, the owner's unfinished search included |
| Slabs.RunKeeps | kernel/memman/SLAB.c:109-135 | in every interleaving from a fresh page every state is sound |
| Slabs.SearchEnds | kernel/memman/SLAB.c:111-112 | every search reads at most four words, and goes on only past empty ones, whatever is freed meanwhile |
| Slabs.LiveApart | kernel/memman/SLAB.c:109-135 | live blocks never overlap each other or the metadata, and stay in the page |
| Slabs.SlotState | kernel/memman/SLAB.c:109-135 | a slot is marked free if and only if it is behind the metadata and in no live block |
| Slabs.FoundStaysFree | kernel/memman/SLAB.c:109-135 | every slot of the block found stays marked free until the owner clears it |
| Slabs.EmptyHanded | kernel/memman/SLAB.c:109-115 | a search that finds nothing proves that every block was handed out when it began, whatever was freed meanwhile |
| Slabs.NoDoubleHandOut | kernel/memman/SLAB.c:109-135 | over any interleaving, no block is handed out twice without being freed in between |
| Slabs.StepsCommute | kernel/memman/SLAB.c:133-134 | frees of distinct blocks, and a free beside the owner's clearing, leave the same page in either order |
| Heapsort.SiftRestores | kernel/utils/Heapsort.c:14-26 | Heapify leaves a heap with parent(k) = k/2 if and only if no more than its node was out of place |
| Heapsort.LargestExceeds | kernel/utils/Heapsort.c:15-20 | a node gives way only to a child that exceeds it, the largest, and of two that are level the left one |
| Heapsort.SiftPermutes | kernel/utils/Heapsort.c:14-26 | Heapify permutes, whatever the comparison |
| Heapsort.SiftComesFrom | kernel/utils/Heapsort.c:14-26 | Heapify mixes only the first count elements |
| Heapsort.RootIsLargest | kernel/utils/Heapsort.c:14-26 | the root of a heap of this shape is exceeded by no node |
| Heapsort.ExtractSorts | kernel/utils/Heapsort.c:35-38 | from any heap the second loop sorts, for every strict weak order |
| Heapsort.SortingPermutes | kernel/utils/Heapsort.c:29-39 | the whole routine permutes, whatever the comparison |
| Heapsort.BuildUpKeepsHeap | kernel/utils/Heapsort.c:32-33 | the first loop as written leaves alone what obeys in the nodes it looks at |
| Heapsort.SortsHeaps | kernel/utils/Heapsort.c:29-39 | as written, an input that is a heap is sorted |
| Heapsort.SortsOneOutOfPlace | kernel/utils/Heapsort.c:29-39 | as written, every input in which no more than one node that the first loop visits, whichever it is, is out of place is sorted |
| Heapsort.BuildUpKeepsExactly | kernel/utils/Heapsort.c:32-33 | the first loop as written leaves an input alone if and only if the nodes below count / 2 are not exceeded by their children |
| Heapsort.SortsExactlyBelowRoot | kernel/utils/Heapsort.c:29-39 | such an input is sorted if and only if its last element does not exceed its first |
| Heapsort.LastOfSorting | kernel/utils/Heapsort.c:29-39 | as written, the last element is always the larger of the first two of the input |
| Heapsort.FailsUnlessFirstTwoHoldLargest | kernel/utils/Heapsort.c:29-39 | as written, no input with an element above its first two is sorted |
| Heapsort.SortsEveryInputOfLength | kernel/utils/Heapsort.c:29-39 | as written, every input of length n is sorted if and only if n is at most 2 |
| Heapsort.BuildDownMakesHeap | kernel/utils/Heapsort.c:32-33 | run downwards, the first loop makes a heap of anything |
| Heapsort.RepairedSortingSorts | kernel/utils/Heapsort.c:29-39 | the routine with its first loop run downwards sorts and permutes every input |
| Heapsort.Heapify | kernel/utils/Heapsort.c:14-26 | terminates for any comparison, permutes, leaves what is above the node or past the count alone, and leaves a heap if and only if no more than the node was out of place |
| Heapsort.ExtractAll | kernel/utils/Heapsort.c:35-38 | the second loop in place: permutes always, sorts from a heap |
| Heapsort.Sort | kernel/utils/Heapsort.c:29-39 | the routine as written, in place; the array is permuted |
| Heapsort.RepairedSort | kernel/utils/Heapsort.c:29-39 | the repaired routine sorts in place |
| Elf.RetrieveInfo | loader/elf.c:47-61 | base and size are the lowest address and the difference to the highest end, in 64 bits |
| Elf.BoundsAreTight | loader/elf.c:47-61 | these bound every loadable segment and are attained |
| Elf.NothingToLoad | loader/elf.c:47-61 | without loadable segments the answer is one byte at the top of the address space |
| Elf.LoadSegment | loader/elf.c:71-76 | a segment's file bytes, then zeros, by the fields of its header; nothing outside it changes, whichever of the two sizes is larger |
| Elf.Load | loader/elf.c:64-81 | the whole buffer afterwards, byte by byte: the last segment that covers a byte decides; the entry point as a distance from the buffer |
| Elf.LastSegmentDecides | loader/elf.c:70-78 | where segments overlap, the last header in the table decides: its file bytes, then zeros |
| Elf.WritesInsideExactly | loader/elf.c:47-81 | without overflow, every write stays inside the size asked for if and only if no segment has file bytes beyond the highest end in memory |
| Elf.SegmentsArrive | loader/elf.c:64-81 | disjoint segments all arrive whole, file bytes and zeros |
| Elf.RestUnchanged | loader/elf.c:64-81 | bytes that no segment covers keep their values |
| Elf.EntryArrives | loader/elf.c:80 | the returned entry point is where the file bytes at the entry address were put |
| Elf.RetrieveAndLoad | loader/elf.c:47-81 | for disjoint segments not longer in the file than in memory: in a buffer of the size asked for, byte d of every loadable segment is at its address less the base, from the file while d is below the size in the file and zero behind, and only bytes of segments change |

## Left out

- SetMemoryRangeBegin: takes a record in no list yet, as its one caller passes it; a linked record would move away from the memory it lies in.
- FailsUnlessFirstTwoHoldLargest: one direction only. Which single inputs come out sorted by the routine as written depends on every later extraction; exact statements are given per length (`SortsEveryInputOfLength`) and for inputs that the first loop leaves alone (`SortsExactlyBelowRoot`).
- InsertNewMemoryRange: memory that holds a live record, that of an empty range included, must not be freed; the code would overwrite the record while it is linked.
- RunSafe: memory is sequentially consistent, and `AtomicLoad` reads the flag; a ticket is not written to from outside between its exchange and the return of `MCSUnlock`.
- WritesInsideExactly: assumes that no segment wraps around the address space.
- Memory is not bytes: a range's record is a new object with an address, so writing over it is expressed by addresses (`RecordInFirstPage`, `NoRecordHandedOut`), not by type punning.
- Slab words are sets of bits; `LowestFromIsLowestBit` and `OnesValue` tie them to numbers. Where the residual blocks lie is taken from the head of `kernel/memman/SLAB.c`, since the code only counts them.
- The slab lists, `SLABAllocate` and page return (`kernel/memman/SLAB.c:293-362`), which are unfinished; setting up the bitmap of a fresh page, which is not in the source.
- Element size and byte buffers of the heapsort; elements are values of any type, and the comparison is a function without state.
- Decoding the ELF header and the table of program headers, validation, printing, and file reading; an empty table, on which the loops would run away.
- Probability and running time of the random heights.
- Inline assembly, spinlocks, interrupts, UEFI calls, ACPI tables, NUMA, the memory-map iterator: foreign calls, stubs, or short scans.
