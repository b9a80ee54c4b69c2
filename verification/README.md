# XEOS: physical pages, text console, RAM disk, call trace and clock

A model in Dafny of the parts of the XEOS kernel and tools in which state is shared, moved in place or
laid out in bytes, with proofs of what they promise.

| Module | What it is |
|---|---|
| `Basics` | bytes, options and C strings |
| `PageMaps` | zones as values: byte-per-page maps, first fit, claiming, releasing, the search a free makes |
| `PhysicalMemory` | the allocator as the kernel runs it: a linked list of records over one metadata area, updated in place; proved against `PageMaps` and `BootMap` |
| `Ownership` | single calls and whole sequential traces: the zones are a function of the boot map and of the pages callers own |
| `Protocol` | any number of threads, one load, compare-and-swap, store or counter update at a time |
| `Solo` | a call of the step machine that runs without interference does what the sequential functions say |
| `Progress` | every call ends after a bounded number of its own steps; what a NULL means among other threads |
| `Underflow` | exactly when a zone's counter can pass below zero |
| `Missed` | exactly when an allocation can come back with NULL beside a run of free pages |
| `BootMap`, `Boot` | where initialization puts its metadata, how it lays out the zones, what it establishes |
| `Console`, `TextMemory` | the scrolling text console, on values and in place; a window over a terminal that never scrolls |
| `RamDisk`, `ImageWriter` | the RAM disk image and a reader for it; `mkinitrd` writing it in chunks |
| `CallTrace`, `TraceBuffer` | the bounded trace of kernel calls, on values and in place |
| `Clock` | the real-time clock interrupt |

`dafny verify dfyconfig.toml` checks everything.

Every operation that changes state in the kernel is a method on a class with the same fields, and its
contract equates the new state with a function of the old one. What the kernel promises is proved about
those functions.

## What the code does not promise

Some properties one would expect hold only under a condition. The code is modelled as it is; each
condition is proved to be the exact one, or a concrete input shows that it is needed.

- A run of `AllocPages` can leave its zone's map when the last page is free and the byte behind the map is
  1 (`PageMaps.RunLeavesMapIff`). Initialization leaves a byte that stops it, except perhaps behind the
  last map: exactly when `Boot.BootWellFormedIff` says.
- `FreePage` and `FreePages` skip a zone only if the page is above its end, so a page that an earlier zone's end
  reaches is given to that zone (`Ownership.AllRoutedIffAscending`). Pages of an entry that is not page aligned
  can never be given back (`Boot.BootRoutingExact`). Freeing what was allocated restores the zones exactly when
  neither is the case (`Ownership.FreeRestoresIff`); `Boot.TouchingEntriesMisroute` is a machine on which it goes
  wrong. `Boot.BootIsReady` says for every map whose records fit whether any of this can happen: an ordinary PC,
  where memory from 1 MB on touches the area below it, is fine, because the metadata covers the page in question
  (`Boot.OrdinaryMachine`).
- Between a store of 1 and the increment that belongs to it another thread can claim the page and decrement
  first: the 64-bit unsigned counter can pass through 2^64 - 1 as soon as there are two threads and one free
  page, and never otherwise (`Underflow.UnderflowIff`). It is never off by more than the number of threads
  (`Protocol.CounterDrift`).
- NULL does not mean that there was no run of free pages. A call for n pages can come back with NULL although
  n pages in a row are marked free from its first step to its last, exactly when there are n + 1 threads and a
  run of n pages is free at boot (`Missed.MissesIff`); `Progress.NullMeans` says what each zone looked like.
- The metadata can lie outside every usable entry: when the search stops at an entry above the kernel, rounding
  that entry's start up eats the slack, and no other entry holds the range (`BootMap.MetadataHeldIff`,
  `BootMap.UnalignedPlacementOverruns`). The records fit the reserved bytes exactly when the entries announce no
  more pages than there are below the end of the last entry (`BootMap.RecordsFitIff`); every sorted map does.
- A region of exactly one page gets no pages, because the test is `memoryLength > 0x1000` (`BootMap.PagesOfIff`).
  The limit on the metadata address is 0x300000000, 12 GiB, where the comment beside it says 12 MB
  (`source/core/xeos/mem/XEOS_Mem_Initialize.c:167-173`); the model takes the constant.
- One past the end of the last row, where `XEOS_Video_MoveCursor` can put the cursor, the wrap takes it past the
  test for a scroll, and the next character lands below the screen (`Console.WritesOnScreenIff`).
- With 24 sticky lines the cursor is put back on a sticky line after a scroll
  (`Console.WindowForEveryTextIff`, `Console.StickyForEveryTextIff`).
- A file name of 256 bytes or more does not fit the name field with its NUL (`RamDisk.NameFitsIff`).
- A second lasts 1025 ticks of the 1024 Hz interrupt (`Clock.TicksClosedForm`).

## Model

| member | source | states |
|---|---|---|
| PageMaps.RunStaysInMap | source/core/xeos/mem/XEOS_Mem_AllocPages.c:114-134 | a run found from a page of a map that is followed by a byte other than 1 ends inside the map |
| PageMaps.RunLeavesMapIff | source/core/xeos/mem/XEOS_Mem_AllocPages.c:114-116 | some run leaves a map exactly when the last page and the byte behind the map are both 1 |
| PageMaps.FitInZone | source/core/xeos/mem/XEOS_Mem_AllocPages.c:106-144 | the least start in a zone of n consecutive free pages, if there is one; no earlier start has them |
| PageMaps.NothingFitsBefore | source/core/xeos/mem/XEOS_Mem_AllocPages.c:89-149 | with counters that agree with the maps: when some run fits, first fit finds one, and none is before it in zone and index order, although zones whose counter is 0 are skipped |
| PageMaps.FirstFitIsLeast | source/core/xeos/mem/XEOS_Mem_AllocPages.c:89-149 | with counters that agree with the maps, a run that fits with none before it is the one first fit returns |
| PageMaps.FirstFreeIsFirstFit | source/core/xeos/mem/XEOS_Mem_AllocPage.c:84-118 | the page AllocPage takes is the first fit for one page |
| PageMaps.FindZone | source/core/xeos/mem/XEOS_Mem_FreePages.c:93-102 | the first zone whose 64-bit end is not below the page; every zone before it ends below |
| PageMaps.OnesFill | source/core/xeos/mem/XEOS_Mem_FreePages.c:106-111 | setting a run of equal bytes changes the number of free pages by exactly the length of the run |
| PhysicalMemory.Memory.Initialize | source/core/xeos/mem/XEOS_Mem_Initialize.c:75-251 | with no room nothing changes; otherwise the linked records and the metadata area hold exactly the planned zones, in map order |
| PhysicalMemory.Memory.AddZone | source/core/xeos/mem/XEOS_Mem_Initialize.c:205-249 | the next record goes behind the previous one, its map is marked, and the rest of the reserved bytes stays clear |
| PhysicalMemory.Memory.Append | source/core/xeos/mem/XEOS_Mem_Initialize.c:214-226 | the list stays linked, has one record more at its end, and records do not overlap |
| PhysicalMemory.Memory.MarkUsable | source/core/xeos/mem/XEOS_Mem_Initialize.c:228-244 | exactly the pages of a usable entry above the metadata are set to 1, and the counter is their number |
| PhysicalMemory.Memory.GetZoneAtIndex | source/core/xeos/mem/XEOS_Mem_GetZoneAtIndex.c:74-98 | the record at that position of the list, or NULL past its end |
| PhysicalMemory.Memory.GetTotalBytes | source/core/xeos/mem/XEOS_Mem_GetTotalBytes.c:74-90 | the sum of the lengths of all zones |
| PhysicalMemory.Memory.AllocPages | source/core/xeos/mem/XEOS_Mem_AllocPages.c:75-150 | run alone, the records, maps and counters become those of claiming the first fit and its address is returned; with no fit nothing changes and NULL is returned |
| PhysicalMemory.Memory.ClaimInZone | source/core/xeos/mem/XEOS_Mem_AllocPages.c:108-144 | claims the least run of n pages of the zone, or leaves every byte and counter as it was |
| PhysicalMemory.Memory.TakeRun | source/core/xeos/mem/XEOS_Mem_AllocPages.c:112-133 | all or nothing: n bytes go from 1 to 0 and the counter falls by n, or the roll-back restores every byte and the counter |
| PhysicalMemory.Memory.SwapRun | source/core/xeos/mem/XEOS_Mem_AllocPages.c:114-134 | the swaps that succeed are a run of 1 bytes set to 0, and the first that fails met another byte |
| PhysicalMemory.Memory.MarkFree | source/core/xeos/mem/XEOS_Mem_FreePages.c:106-111 | n bytes become 1, the counter rises by n, and no other byte changes |
| PageMaps.NoFitWhenCountIsZero | source/core/xeos/mem/XEOS_Mem_AllocPages.c:98-103 | skipping a zone whose counter is 0 loses no run |
| PhysicalMemory.Memory.AllocPage | source/core/xeos/mem/XEOS_Mem_AllocPage.c:75-119 | run alone, takes the least free page of a usable zone, or changes nothing and returns NULL |
| PhysicalMemory.Memory.FindZone | source/core/xeos/mem/XEOS_Mem_FreePage.c:90-99 | the walk along the list ends at the first zone whose end is not below the page |
| PhysicalMemory.Memory.FreePages | source/core/xeos/mem/XEOS_Mem_FreePages.c:77-115 | n bytes of the zone found are set to 1 and its counter rises by n; an unaligned page or one above every zone changes nothing |
| PhysicalMemory.Memory.FreePage | source/core/xeos/mem/XEOS_Mem_FreePage.c:75-108 | the same for one page |
| Ownership.ResolveExact | source/core/xeos/mem/XEOS_Mem_FreePage.c:85-104 | a free finds the byte its page was allocated from exactly when the zone is aligned and every earlier zone ends strictly below the page |
| Ownership.FreeGoesTo | source/core/xeos/mem/XEOS_Mem_FreePages.c:87-111 | a free of an unaligned address or of one above every zone changes nothing; any other goes to the first zone whose end is not below the page, at the 64-bit distance from its base |
| Ownership.AllRoutedIffAscending | source/core/xeos/mem/XEOS_Mem_FreePages.c:87-104 | frees of all pages find their bytes exactly when the non-empty zones are aligned and ascend with gaps |
| Ownership.FreeRestoresIff | source/core/xeos/mem/XEOS_Mem_FreePages.c:93-114 | a free of a run that was just claimed stays within the maps and restores the zones exactly when its zone is aligned and every earlier zone ends below the run |
| Ownership.AllocPagesCorrect | source/core/xeos/mem/XEOS_Mem_AllocPages.c:89-149 | counters still agree with maps, and exactly the pages of the first fit went from 1 to 0 |
| Ownership.NullIffNoRun | source/core/xeos/mem/XEOS_Mem_AllocPages.c:145-150 | NULL comes back exactly when no usable zone has n consecutive free pages, and then nothing changed |
| Ownership.AllocOneIsAllocPage | source/core/xeos/mem/XEOS_Mem_AllocPage.c:84-118 | AllocPages(1) and AllocPage have the same result and effect in every state |
| Ownership.AllocThenFree | source/core/xeos/mem/XEOS_Mem_FreePages.c:93-114 | freeing what was just allocated restores every map and counter |
| Ownership.FreePagesIsFreeEach | source/core/xeos/mem/XEOS_Mem_FreePage.c:90-108 | FreePages on a run has the effect of FreePage on each of its pages in turn |
| Ownership.AvailableIsFits | source/core/xeos/mem/XEOS_Mem_AllocPages.c:108-144 | a run fits in the maps exactly when it was free at boot and nobody owns a page of it |
| Ownership.GiveRefines | source/core/xeos/mem/XEOS_Mem_FreePages.c:93-114 | a free of an owned run resolves to the zone and index that produced it and returns exactly those pages |
| Ownership.StepRefines | source/core/xeos/mem/XEOS_Mem_AllocPages.c:89-149 | every call is one step of an allocator that only knows the set of owned pages and takes the least available run |
| Ownership.TraceRefines | source/core/xeos/mem/XEOS_Mem_FreePages.c:93-114 | over every trace of calls the zones are determined by the pages owned |
| Ownership.TraceFromBoot | source/core/xeos/mem/XEOS_Mem_Initialize.c:193-251 | from boot, owned pages were free at boot, and when all are given back the maps and counters are those of boot |
| Protocol.StepKeepsAccount | source/core/xeos/mem/XEOS_Mem_AllocPages.c:116-133 | one atomic step moves a page between free, held and owned, and neither makes nor loses one |
| Protocol.StepKeepsBalance | source/core/xeos/mem/XEOS_Mem_AllocPages.c:116-133 | one atomic step changes the counter, the map and what the thread owes so that they cancel out |
| Protocol.StepKeepsInv | source/core/xeos/mem/XEOS_Mem_AllocPages.c:108-144 | every step of every thread, and every call, keeps the invariant |
| Protocol.EveryInterleaving | source/core/xeos/mem/XEOS_Mem_AllocPages.c:108-144 | in every reachable state each page free at boot is free, held or owned exactly once, each counter plus owed increments equals the 1 bytes plus owed decrements, and all work stays inside one map |
| Protocol.AtMostOneOwner | source/core/xeos/mem/XEOS_Mem_AllocPages.c:116-133 | no page is held by two threads, and a held or owned page is not marked free |
| Protocol.FreeIsRouted | source/core/xeos/mem/XEOS_Mem_FreePages.c:93-111 | in every such state a free by an owner starts at the pages it was given |
| Protocol.QuiescentIsSequential | source/core/xeos/mem/XEOS_Mem_AllocPages.c:116-133 | with no call in flight the zones are exactly those the sequential allocator would have for the same owned pages |
| Protocol.CounterDrift | source/core/xeos/mem/XEOS_Mem_AllocPages.c:116-133 | at any time the counter is off by at most the number of threads |
| Protocol.ResultsNeverOverlap | source/core/xeos/mem/XEOS_Mem_AllocPages.c:108-144 | over every interleaving from boot, two results of which the first was not freed in between share no page |
| Protocol.ResultsShareNoMemory | source/core/xeos/mem/XEOS_Mem_AllocPages.c:105-140 | the same in addresses: the 4 KB ranges of the two results do not meet |
| Progress.WaitFree | source/core/xeos/mem/XEOS_Mem_AllocPages.c:89-150 | in any legal run the steps a thread takes are at most the rank of its call at the start, so every call ends whatever the other threads do |
| Progress.EnterCostClosedForm | source/core/xeos/mem/XEOS_Mem_AllocPages.c:89-150 | an allocation of n pages takes at most 1 step, 2 for each zone and 4 n + 3 for each page |
| Progress.NullMeans | source/core/xeos/mem/XEOS_Mem_AllocPages.c:98-150 | when NULL comes back, each usable zone's counter was 0 when the call tested it, or each run of n pages in it had a page that was not free at some time during the call |
| Progress.ZeroMeansPending | source/core/xeos/mem/XEOS_Mem_AllocPages.c:98-103 | a counter that reads 0 although a page is marked free has a thread between its store and its increment |
| Missed.MissNeedsThreads | source/core/xeos/mem/XEOS_Mem_AllocPages.c:98-150 | in any reachable state, a call for n pages that comes back with NULL although the n pages at p are free all through it has n other threads, and p was a run at boot |
| Missed.MissesIff | source/core/xeos/mem/XEOS_Mem_AllocPages.c:98-150 | such a call exists in some interleaving from boot exactly when there are n + 1 threads and a run of n pages is free at boot |
| Underflow.UnderflowIff | source/core/xeos/mem/XEOS_Mem_FreePage.c:101-104 | some interleaving from boot makes a counter negative exactly when there are two threads and a page that is free at boot |
| Solo.AllocAlone | source/core/xeos/mem/XEOS_Mem_AllocPages.c:86-150 | an allocation whose atomic steps are not interleaved with others terminates, leaves the zones of the sequential AllocPages and hands out the first fit |
| Solo.FreeAlone | source/core/xeos/mem/XEOS_Mem_FreePages.c:93-115 | a free by an owner whose steps are not interleaved terminates and leaves the zones of the sequential FreePages |
| Solo.FromUndo | source/core/xeos/mem/XEOS_Mem_AllocPages.c:120-127 | from any point of a roll-back, the zones end up as before the run was tried and the search goes on at the next page |
| BootMap.FindRoom | source/core/xeos/mem/XEOS_Mem_Initialize.c:110-190 | the search loop computes the placement the lemmas are about |
| BootMap.PlacementIs | source/core/xeos/mem/XEOS_Mem_Initialize.c:110-190 | the answer of the search is the rounded start of the first entry above the kernel it stops at, else the byte after the kernel if an entry before the stop has room there, else 0 |
| BootMap.PlacementSound | source/core/xeos/mem/XEOS_Mem_Initialize.c:102-190 | the address is above the kernel; if the search stops at an entry above the kernel, the metadata lies in that entry exactly when rounding its start up leaves room, otherwise in an entry with room after the kernel |
| BootMap.MetadataAboveKernel | source/core/xeos/mem/XEOS_Mem_Initialize.c:102-190 | the metadata starts on a page boundary, on a page above the one the kernel ends in |
| BootMap.RoomAfterKernelIff | source/core/xeos/mem/XEOS_Mem_Initialize.c:185-189 | an entry that starts by the end of the kernel offers the byte after the kernel exactly when the metadata lies in the entry from there on |
| BootMap.MappedLimit | source/core/xeos/mem/XEOS_Mem_Initialize.c:173-183 | an entry that is otherwise suitable is taken exactly when the metadata ends below 12 GiB |
| BootMap.MetadataHeldIff | source/core/xeos/mem/XEOS_Mem_Initialize.c:102-190 | the metadata lies in some usable entry exactly when the search stops at no entry above the kernel, or that entry's rounded start leaves room in it or in another one |
| BootMap.AlignedPlacementFits | source/core/xeos/mem/XEOS_Mem_Initialize.c:102-190 | with page-aligned usable entries the metadata lies wholly inside one |
| BootMap.UnalignedPlacementOverruns | source/core/xeos/mem/XEOS_Mem_Initialize.c:155-183 | a map with an unaligned entry just long enough for the bytes that map needs: the metadata is put where it lies in no entry |
| BootMap.PlacementFailsIff | source/core/xeos/mem/XEOS_Mem_Initialize.c:110-190 | the search fails exactly when no entry it reaches offers room |
| BootMap.PagesOfIff | source/core/xeos/mem/XEOS_Mem_Initialize.c:228-230 | every region gets the pages its length holds, except a region of exactly one page |
| BootMap.RecordsFit | source/core/xeos/mem/XEOS_Mem_Initialize.c:95-99 | on every map that meets the condition the records follow each other without overlap and never pass the reserved bytes |
| BootMap.RecordsFitIff | source/core/xeos/mem/XEOS_Mem_Initialize.c:95-99 | the records stay in the reserved bytes exactly when the entries' pages are at most the boot total in pages, sorted or not |
| BootMap.SortedIsRoomy | source/core/xeos/mem/XEOS_Mem_Initialize.c:95-99 | every sorted, disjoint map meets that condition |
| BootMap.UnsortedMaps | source/core/xeos/info/XEOS_Info_MemoryGetTotalBytes.c:74-97 | an unsorted map that does not meet it, and one that does |
| BootMap.BootZones | source/core/xeos/mem/XEOS_Mem_Initialize.c:205-249 | one zone per entry, each with its marked map, its count and the byte behind the map |
| BootMap.TotalIsBootTotalIff | source/core/xeos/info/XEOS_Info_MemoryGetTotalBytes.c:74-97 | the lengths add up to at most the boot total, and to it exactly when the map starts at 0 and has no holes |
| Boot.BootWellFormedIff | source/core/xeos/mem/XEOS_Mem_Initialize.c:193-249 | on every map whose records fit, initialization establishes the allocator's invariant exactly when the byte behind the last map stops a run |
| Boot.FreePagesAreSafe | source/core/xeos/mem/XEOS_Mem_Initialize.c:205-249 | a page marked free lies wholly in one usable entry and in no other, above the metadata area and the kernel's last page |
| Boot.BootRoutingExact | source/core/xeos/mem/XEOS_Mem_FreePage.c:85-99 | on every map, a page can be given back exactly when its entry is aligned and every earlier entry ends below the page; on a sorted one, exactly when its entry is aligned and it is not the first page of an entry that touches an earlier one |
| Boot.BootIsReady | source/core/xeos/mem/XEOS_Mem_Initialize.c:193-251 | on every map whose records fit, sorted or not, the zones are ready for every trace and every interleaving exactly when the byte behind the last map stops a run and each usable entry with a free page is aligned and has all earlier entries end below its first free page |
| Boot.BootFreeIff | source/core/xeos/mem/XEOS_Mem_Initialize.c:228-244 | a page is free after boot exactly when its entry is usable and it lies above the entry's record by the reserved bytes |
| Boot.CleanIsServiceable | source/core/xeos/mem/XEOS_Mem_Initialize.c:205-249 | on a sorted map, aligned usable entries that touch no earlier entry meet the condition on entries wherever the metadata goes |
| Boot.LastStopByteExposedIff | source/core/xeos/mem/XEOS_Mem_Initialize.c:196-249 | the byte behind the last map lies in a page that can be handed out exactly when the maps fill the reserved bytes and the address behind them is a free page |
| Boot.EveryResultIsSafe | source/core/xeos/mem/XEOS_Mem_Initialize.c:228-244 | over every interleaving from boot, each page handed out lies wholly in one usable entry and in no other, above the metadata and the kernel's last page |
| Boot.OrdinaryMachine | source/core/xeos/mem/XEOS_Mem_Initialize.c:95-249 | a PC's memory map with a usable entry that touches an earlier one: where its metadata goes, its first free page, and that it is ready |
| Boot.TouchingEntriesMisroute | source/core/xeos/mem/XEOS_Mem_FreePages.c:97-111 | two usable entries that touch above the kernel: a page that is free after boot cannot be given back, and its free corrupts the first zone |
| Boot.TotalAfterBootIff | source/core/xeos/mem/XEOS_Mem_GetTotalBytes.c:74-90 | the total after initialization is at most the boot total, with equality exactly when the map starts at 0 and has no holes |
| Console.ShiftedCell | source/core/xeos/video/XEOS_Video_Scroll.c:101-114 | the byte-wise scroll moves every cell of ROWS rows below the sticky lines up by n rows and blanks the rest |
| Console.ScrolledAwayCell | source/core/xeos/video/XEOS_Video_Scroll.c:78-98 | scrolling by ROWS or more blanks every row below the sticky ones, changes no other cell and puts the cursor below the sticky rows |
| Console.ClearedCell | source/core/xeos/video/XEOS_Video_Clear.c:74-95 | clearing blanks all 25 rows in the current colours, changes nothing behind them and puts the cursor home |
| Console.CursorCell | source/core/xeos/video/XEOS_Video_MoveCursor.c:83-86 | the column and the row of the cell are those of the position, each moved onto the screen |
| Console.PlainPutc | source/core/xeos/video/XEOS_Video_Putc.c:77-109 | above the last row a newline starts the next row, and any other character goes with the colours to the byte pair of the cursor, which moves on |
| Console.ScrollAdds | source/core/xeos/video/XEOS_Video_Scroll.c:100-114 | scrolling by a and then by b is scrolling by a + b while a row is left |
| Console.StepKeepsCursor | source/core/xeos/video/XEOS_Video_Putc.c:82-109 | printing keeps X <= COLS, Y <= ROWS - 1, and Y == ROWS - 1 only with X < COLS; once something is printed, and from Clear on, Y == ROWS - 1 only with X == 0 |
| Console.WritesOnScreenIff | source/core/xeos/video/XEOS_Video_Putc.c:82-105 | the next character goes above the last row exactly when the cursor is in place; from one past the end of the last row it goes below the screen |
| Console.PutcWrites | source/core/xeos/video/XEOS_Video_Putc.c:82-109 | a printed byte changes one cell at most, above the last row and inside the columns, besides the scroll |
| Console.StickyLinesStay | source/core/xeos/video/XEOS_Video_Putc.c:82-109 | once the cursor is below them, at most ROWS - 2 sticky lines never change and the cursor stays below |
| Console.StickyForEveryTextIff | source/core/xeos/video/XEOS_Video_Putc.c:89-94 | sticky lines survive every text exactly when there are at most ROWS - 2 of them |
| Console.ConsoleIsWindow | source/core/xeos/video/XEOS_Video_Putc.c:77-114 | for every text the screen is a window over a terminal that never scrolls: after T scrolls each cell below the sticky lines is the terminal's cell T rows further down, and Y + T is its row |
| Console.WindowForEveryTextIff | source/core/xeos/video/XEOS_Video_Putc.c:89-94 | that holds for every text exactly when there are at most ROWS - 2 sticky lines |
| TextMemory.TextConsole.Clear | source/core/xeos/video/XEOS_Video_Clear.c:74-95 | every visible cell is blank in the current colours and the cursor is home |
| TextMemory.TextConsole.Scroll | source/core/xeos/video/XEOS_Video_Scroll.c:73-115 | the in-place copy and blanking loops compute the scroll, in all three cases |
| TextMemory.TextConsole.MoveRows | source/core/xeos/video/XEOS_Video_Scroll.c:103-106 | copying upwards in place moves every byte of the region by exactly n rows and touches nothing else |
| TextMemory.TextConsole.FillCells | source/core/xeos/video/XEOS_Video_Scroll.c:110-114 | exactly the cells of the range become blanks in the current colours |
| TextMemory.TextConsole.MoveCursor | source/core/xeos/video/XEOS_Video_MoveCursor.c:75-96 | the position is remembered as given; the two bytes sent to the hardware make the index of the cell in that column and row, each moved onto the screen |
| TextMemory.TextConsole.SetStickyLines | source/core/xeos/video/XEOS_Video_SetStickyLines.c:73-79 | up to ROWS - 2 lines are from then on safe from every text printed from a cursor below them; a request for ROWS lines or more changes nothing |
| TextMemory.TextConsole.Putc | source/core/xeos/video/XEOS_Video_Putc.c:73-115 | wrap, scroll and cell write in place compute the printed screen; the cursor stays where printing may leave it |
| TextMemory.TextConsole.Print | source/core/xeos/video/XEOS_Video_Print.c:73-95 | prints every byte up to the NUL in order and returns how many there were |
| RamDisk.BaseNameIgnoresDirectory | tools/mkinitrd/mkinitrd_filename.c:66-73 | the name does not change with what is put before a '/' |
| RamDisk.BaseNameIff | tools/mkinitrd/mkinitrd_filename.c:66-73 | the name is the one ending of the path that holds no '/' and is the whole path or stands behind a '/' |
| RamDisk.AcceptedIff | tools/mkinitrd/mkinitrd.c:168-221 | an image is written exactly for non-empty lists of readable files with distinct base names, sizes in 1..2^32-1 and start offsets below 2^32 |
| RamDisk.RefusedIff | tools/mkinitrd/mkinitrd.c:168-221 | a list is refused with an error exactly when it is empty or that error is the one at the first file that anything is wrong with |
| RamDisk.ErrorAtIs | tools/mkinitrd/mkinitrd.c:173-207 | the error at a file: an earlier equal name, then a file that cannot be opened, then an offset above 32 bits, then a size of 0 or above 2^32 - 1 |
| RamDisk.CastIsExactIff | tools/mkinitrd/mkinitrd.c:192-199 | a value survives the cast to 32 bits and the four bytes exactly when it is at most 2^32 - 1 |
| RamDisk.CastsAreLossless | tools/mkinitrd/mkinitrd.c:192-226 | for an accepted list every offset, size and the file count survive their casts |
| RamDisk.ExtentsTile | tools/mkinitrd/mkinitrd.c:168-221 | the data follows the table without gap or overlap up to the last byte of the image, and no sum passes 64 bits |
| RamDisk.ImageHasData | tools/mkinitrd/mkinitrd.c:223-258 | in the image the bytes of each file are where its entry says |
| RamDisk.ImageHasEntry | tools/mkinitrd/mkinitrd.c:230-238 | in the image each entry is where the layout of the header and the table puts it |
| RamDisk.ImageStart | tools/mkinitrd/include/mkinitrd.h:82-90 | the image starts with the bytes 58 53 52 44 |
| RamDisk.ImageHasName | tools/mkinitrd/include/mkinitrd.h:83-98 | entries are 264 bytes long from byte 8 on and begin with 256 bytes: the base name, then zeros |
| RamDisk.ImageHasExtent | tools/mkinitrd/include/mkinitrd.h:92-98 | behind the name an entry has the size and then the offset of its file |
| RamDisk.NameFitsIff | tools/mkinitrd/include/mkinitrd.h:83-98 | the name field gives a name back exactly when the name is at most 255 bytes long |
| RamDisk.RoundTrip | tools/mkinitrd/mkinitrd.c:168-258 | reading the image of an accepted list gives back the base names and the bytes of all files |
| ImageWriter.MeasureFile | tools/mkinitrd/mkinitrd_filesize.c:66-87 | the size of an open file, 0 if it was not opened or is too big, and the file is back at its start |
| ImageWriter.Survey | tools/mkinitrd/mkinitrd.c:170-221 | the layout loop stops at the first error in the order of the tests, or lays out every entry and leaves every file at its start |
| ImageWriter.CopyFile | tools/mkinitrd/mkinitrd.c:240-258 | the copy loop appends exactly the bytes of the file, whatever the sizes of the chunks read |
| ImageWriter.MakeImage | tools/mkinitrd/mkinitrd.c:154-263 | from a file list, the first error or the image; a name too long for its field is cut off |
| CallTrace.RunShowsTop | source/core/xeos/debug/__XEOS_Debug.c:85-150 | on every trace of enters and exits the used slots are the most recent calls of the unbounded stack, and the other slots are empty |
| CallTrace.ExactIffNeverTooDeep | source/core/xeos/debug/__XEOS_Debug.c:115-147 | the count is the true depth all along exactly when the depth never exceeds the capacity |
| CallTrace.CallsKeepTop | source/core/xeos/debug/__XEOS_Debug.c:106-147 | after well-bracketed calls of depth D the trace holds its first min(count, max(0, capacity - D)) symbols, as they were, and nothing else |
| CallTrace.RestoredIff | source/core/xeos/debug/__XEOS_Debug.c:106-147 | such calls restore the trace exactly when count + D <= capacity, or there was nothing to lose |
| CallTrace.FirstEnter | source/core/xeos/debug/__XEOS_Debug.c:95-104 | the first traced call starts from an empty trace, whatever the slots hold |
| TraceBuffer.KernelTrace.Enter | source/core/xeos/debug/__XEOS_Debug.c:85-123 | the shift in place, from the last slot down, computes the entered trace |
| TraceBuffer.KernelTrace.Exit | source/core/xeos/debug/__XEOS_Debug.c:125-150 | the shift in place computes the trace after the exit, and does nothing on an empty one |
| Clock.TicksClosedForm | source/core/xeos/irq/XEOS_IRQ_RealTimeClock.c:83-120 | n ticks after the first the timestamp is t0 + n / 1025, the counter n mod 1025 and the milliseconds belong to the counter |
| Clock.MillisecondsAreEven | source/core/xeos/irq/XEOS_IRQ_RealTimeClock.c:107-119 | the milliseconds grow evenly with the counter, by 1000 in 1024 ticks |
| Clock.ReportedLags | source/core/xeos/irq/XEOS_IRQ_RealTimeClock.c:105-120 | the reported time lags by n / 1025 ticks and never goes back |
| Clock.ExactIff | source/core/xeos/irq/XEOS_IRQ_RealTimeClock.c:105-120 | the reported time is right exactly during the first 1025 ticks |
| Clock.RealTimeClock.Interrupt | source/core/xeos/irq/XEOS_IRQ_RealTimeClock.c:83-120 | after any number of interrupts the clock shows the closed form: the date found first plus n / 1025, the counter n mod 1025 and 1000/1024 milliseconds for each of its ticks |

## Left out

- The bytes of a zone record other than its page map: records are objects, the metadata area holds the maps at the right offsets. The padding at the start of the next record is the cleared byte behind a map.
- RAM outside the metadata area, paging, 32-bit addresses and the memory model of the hardware: addresses are 64 bits wide and atomic steps are sequentially consistent.
- 64-bit wrap-around of sums over the boot map: entries and their rounded starts are taken to lie in the address space. In the search a free makes, 64-bit wrap-around is modelled.
- 64-bit wrap-around of `freePageCount`: the counter is an integer, so the transient -1 stands for 2^64 - 1.
- Double frees and frees of pages the caller does not own: callers give back only what they own.
- PhysicalMemory.Memory.AllocPages: requires a byte other than 1 behind each map, because without it the search can leave a map and write to the next record.
- PhysicalMemory.Memory.FreePages: requires the stores to stay within the map found and the byte behind it, because the fields of the next record, which a misrouted free overwrites, are not bytes of the model's area.
- PhysicalMemory.Memory.FreePage: the same, for its one store.
- PhysicalMemory.Memory.Initialize: requires that the records fit the reserved bytes, because otherwise the source writes past them; the reports through `outputHandler` are left out.
- PhysicalMemory.Memory.ClaimInZone: requires a byte other than 1 behind the map, as AllocPages does.
- Boot.BootIsReady: takes the byte behind the last map as fixed. Where `Boot.LastStopByteExposedIff` says so, a caller who is handed that page can write a 1 there.
- TextMemory.TextConsole.Putc: requires a cursor in place; positions off the screen, which `XEOS_Video_MoveCursor` stores without a check, write outside the rows.
- The overflow of the `int` that `XEOS_Video_Print` returns.
- The colours of rows that were never in memory: such a row is blank, in the colours current when it appeared.
- ImageWriter.MakeImage: requires names of less than 264 bytes, because a longer one is copied past its entry; command-line options, the output file and verbose printing are left out.
- The date read from the hardware and `mktime`: the first timestamp is arbitrary. The milliseconds are exact fractions, not floating point.
- Ports and registers, exception screens, prompts and formatted printing, IRQ tables, ACPI, fonts, system calls, and plain getters: input and output, constant tables, or a field read.
