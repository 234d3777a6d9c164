# A model of the Nyrix kernel's memory and console code

Nyrix is a small i386 kernel. This project models six of its source files in
Dafny and proves what holds over every run of them: the physical frame
allocator, the kernel heap that is built on it in raw memory, the two-level page
tables, the Multiboot2 boot information, the keyboard line editor, the VGA
terminal with the serial shell, and the framebuffer console.

`dafny verify dfyconfig.toml` checks the whole project.

## How the model is built

Each source file that updates state in place is a class over arrays: the frame
bitmap is an array of 32-bit vectors, the heap and the page tables are stores to
one array that stands for 4 GiB of memory in 32-bit words, the editor is three
character arrays, the terminal an array of 2000 cells, the framebuffer an array
of pixels addressed through the pitch. The loops of the source are loops here.
Every method is tied to a function on values (the abstract state before gives
the abstract state after), and the theorems are about those functions and about
all sequences of operations.

| file | what it holds |
|---|---|
| Machine.dfy | 32-bit words, 64-bit wrap-around, page rounding, memory-map entries |
| FrameAllocator.dfy | `FrameBits` word bitmap, `FrameSpec` allocation runs, `FrameInit` the boot-time count, `FrameAllocators` the object |
| KernelHeap.dfy | `HeapBlocks` where blocks lie, `HeapSpec` free chains, live blocks and pages |
| KernelHeapRuns.dfy | `HeapRuns` every run of the heap, conservation |
| KernelHeapObject.dfy | `HeapMemory` chains and headers in raw memory, `KernelHeaps` the object |
| PageTables.dfy | `PageWalk` the tables and the walk, `PageSpans` the mapped ranges, `Paging` the object, `BootMapping` the translation after boot |
| BootInfo.dfy | `BootInfo` the tag walk, `MapEntries` the memory-map entries |
| KernelBoot.dfy | `KernelBoot` the tag walk, the frame allocator and paging on one memory |
| LineEditor.dfy, LineEditorProperties.dfy | `EditorSpec` keys on values, `EditorProperties` the gap text, `EditorRuns` sessions and history |
| Keyboard.dfy | `Scancodes` decoding, `ScancodeRuns` sequences of scancodes, `Keyboards` the object |
| Terminal.dfy | `ScreenSpec` the unbounded page, `ShellSpec` the serial loop, `Terminals` the objects |
| Framebuffer.dfy | `GfxSpec` pictures and the cursor overlay, `Consoles` the object, `GfxLayout` text on the framebuffer |

## Properties that the code does not have

Some promises one would expect fail, and the model gives the exact condition:

- A heap request above 4092 bytes gets one page all the same, so its payload
  leaves the block (`HeapRuns.PayloadFits`, an equivalence;
  `HeapRuns.OversizeServed`: such requests are served).
- `free_pages` is the number of clear bits after `pmm_init` if and only if the
  pages that the region loop walks, less the set bits it meets in the last bitmap
  word and behind, add up modulo 2^32 to the frames that were clear before
  (`FrameAllocators.FrameAllocator.Init`, `FrameInit.CounterExactly`). It is not
  when there is no RAM region (`FrameInit.CounterWraps`).
- The region loop of `pmm_init` walks the pages that lie wholly inside a region if
  and only if the region reaches its first page boundary and either holds no page
  or starts and stays below 4 GiB (`FrameInit.RegionExactly`). It counts 2^20 - 1
  pages for 100 bytes of RAM at address 1 (`FrameInit.TinyRegion`).
- `pmm_init` steps 32 bytes behind a RAM entry and so visits the memory-map
  entries exactly when no entry but the last is RAM
  (`MapEntries.PmmVisitsEntriesExactly`, `MapEntries.PmmVisitsOfMap`).
- The region loop of paging maps exactly the pages inside a RAM region if and only
  if start and end do not wrap around at 2^64 (`PageSpans.RegionExactly`, with one
  odd case at the top), and the framebuffer loop those of the buffer likewise; an
  empty framebuffer that starts inside a page still gets that page mapped
  (`PageSpans.FramebufferExact`).
- Typing at the end of a line brings stale characters back unless the next byte is
  NUL, because Enter does not clear the buffer (`EditorProperties.AppendExtends`,
  `EditorProperties.StaleTextReturns`, `EditorRuns.StaleTextReached`).
- There is room for a character exactly at the end of the line or while the line
  has at most 254 characters (`EditorProperties.RoomExactly`,
  `EditorRuns.FullLineReached`).
- Up and Down put an entry before the cursor and leave in the line what the buffer
  held behind it (`EditorRuns.UpShows`, `EditorRuns.DownShows`): after Up the line
  is the entry if and only if a NUL was there (`EditorRuns.UpExactly`,
  `EditorRuns.UpLeavesText`), and going up and down again brings a whole line back
  if and only if no entry passed is longer (`EditorRuns.LineRestoredExactly`).
- The framebuffer cursor leaves the picture at the bottom, because scrolling does
  not move it up: one character keeps it inside under a guard on the cursor
  (`GfxSpec.PutInside`), a text exactly when there are rows for its newlines and
  wraps (`GfxSpec.TextStaysInside`, `GfxSpec.AnyTextStaysInside`).
- Backspace takes back a character that wrapped if and only if its cell ends at the
  right edge and the wrap did not scroll, unless the scroll cannot be seen
  (`GfxLayout.BackspaceAfterWrap`); otherwise the glyph or its first columns are
  still there (`GfxLayout.GlyphRemains`).

## Model

| member | source | states |
|---|---|---|
| FrameBits.WordSet | src/kernel/pmm.cpp:18 | bitmap_set on a word sets the bit of its page and leaves the other 31 bits |
| FrameBits.WordClear | src/kernel/pmm.cpp:19 | bitmap_clear clears the bit of its page and leaves the other 31 bits |
| FrameBits.WordBitmapIsSet | src/kernel/pmm.cpp:18-20 | set, clear and test on the word array are insertion, removal and membership on the set of used frames |
| FrameSpec.FirstClear | src/kernel/pmm.cpp:81-89 | the scan finds the lowest frame of the range that is not used, or its end |
| FrameSpec.AllocIsFirstFit | src/kernel/pmm.cpp:74-91 | with frame 0 used, an allocation returns the lowest clear frame below 0x400 in early mode and below 0xFFFFF otherwise, marks just it and takes 1 off the counter; it returns null exactly when every frame in that range is used |
| FrameSpec.RunConserves | src/kernel/pmm.cpp:74-100 | over every run, double frees included, the free counter plus the number of set bits is constant modulo 2^32 |
| FrameSpec.LegalRunAccounts | src/kernel/pmm.cpp:74-100 | in every run that frees live frames only, the used frames are the disjoint union of those reserved at the start and the live ones |
| FrameSpec.AllocationsAreFresh | src/kernel/pmm.cpp:74-100 | after any such run an allocation yields no reserved and no live frame |
| FrameSpec.KernelFramesNeverAllocated | src/kernel/pmm.cpp:63-91 | if frames 0..k are used at the start, no such run ever hands one of them out |
| FrameInit.Zeroed | src/kernel/pmm.cpp:33-34 | the first loop clears every bit but those of the last word |
| FrameInit.LoopBounds | src/kernel/pmm.cpp:42-49 | for every region the loop walks ((len - gap) mod 2^32) / 4096 pages from its first page boundary modulo 4 GiB on, gap being the distance to that boundary |
| FrameInit.RegionExactly | src/kernel/pmm.cpp:42-55 | the loop bounds enclose exactly the pages that lie wholly inside a region if and only if gap <= len and either no whole page is left or start and remaining length are below 4 GiB |
| FrameInit.TinyRegion | src/kernel/pmm.cpp:42-49 | an instance: 100 bytes at address 1 hold no page and make the loop walk 2^20 - 1 |
| FrameInit.CountsWholePages | src/kernel/pmm.cpp:40-55 | an entry counts nothing unless its type is 1; where loop and region agree and below the last bitmap word, it counts its whole pages |
| FrameInit.ClearCountIs | src/kernel/pmm.cpp:53-55 | the number of clear bits of a range is the size of its set of clear frames |
| FrameInit.CountedIsCredits | src/kernel/pmm.cpp:37-61 | for any regions the counted pages are the sum over the RAM ones of the walked pages less the set bits met from the last word on; pages of an earlier region count again |
| FrameInit.CounterExactly | src/kernel/pmm.cpp:33-71 | the counter is right exactly if those sums are, modulo 2^32, the zeroed frames and those clear in the last word |
| FrameInit.CounterWraps | src/kernel/pmm.cpp:33-71 | with no RAM region the counter ends at 2^32 - 1 - k, while at least all zeroed frames behind k are clear and never more than 2^20 |
| FrameAllocators.FrameAllocator.Init | src/kernel/pmm.cpp:22-72 | for every memory map in memory and every memory content, the used frames are exactly those up to (kernel_end + 0x1FFFF) / 4096, and from frame 0xFFFE0 on also those set before; the counter is the pages counted for the entries visited minus the frames newly set, modulo 2^32; and it is the number of clear bits if and only if the counted pages were the number of bits clear before |
| FrameAllocators.FrameAllocator.CountRegions | src/kernel/pmm.cpp:37-61 | the loop over the map in memory, with its uneven steps, changes no bit and counts the regions at the addresses it visits, also above 4 GiB |
| FrameAllocators.FrameAllocator.MarkKernel | src/kernel/pmm.cpp:63-71 | the last loop sets the bits of the frames up to (kernel_end + 0x1FFFF) / 4096 and no other |
| FrameAllocators.FrameAllocator.AllocPage | src/kernel/pmm.cpp:74-91 | the scan over the word array is the first-fit allocation that `FrameSpec.AllocIsFirstFit` describes |
| FrameAllocators.FrameAllocator.FreePage | src/kernel/pmm.cpp:92-100 | freeing any 32-bit address removes its frame if it was used and counts it once |
| FrameAllocators.FrameAllocator.SetEarlyAlloc | src/kernel/pmm.cpp:16 | sets the mode, which `FrameSpec.AllocIsFirstFit` gives the range of, and nothing else |
| FrameAllocators.BitmapStorageReserved | src/kernel/pmm.cpp:27-31 | every byte of every bitmap word that later calls can touch, the uncleared last word included, lies in a frame up to (kernel_end + 0x1FFFF) / 4096 |
| FrameAllocators.BitmapNeverAllocated | src/kernel/pmm.cpp:27-91 | so after pmm_init no run that frees live frames only ever hands out a frame that holds a byte of a bitmap word |
| HeapBlocks.BlockInFrame | src/kernel/kmalloc.cpp:32-41 | every slot of a page is word-aligned and lies wholly inside its page |
| HeapBlocks.BlocksDisjoint | src/kernel/kmalloc.cpp:32-41 | two different slots do not overlap, headers included |
| HeapBlocks.SlotAddress | src/kernel/kmalloc.cpp:7-41 | the eight block sizes 16 to 2048 with the 4-byte header, and the address of slot i of each cache |
| HeapSpec.ClassFor | src/kernel/kmalloc.cpp:71-72 | the search stops at the first class that is large enough |
| HeapSpec.MallocGood | src/kernel/kmalloc.cpp:54-87 | kmalloc keeps the heap invariant and the frame accounting, for every size |
| HeapSpec.ReleaseGood | src/kernel/kmalloc.cpp:89-101 | kfree of a live block keeps both |
| HeapRuns.RunsAreGood | src/kernel/kmalloc.cpp:44-101 | every state reached from kmalloc_init by kmalloc and kfree satisfies the invariant: duplicate-free chains of slots of their own cache, disjoint from the live blocks, no slot lost |
| HeapRuns.BlocksNeverOverlap | src/kernel/kmalloc.cpp:27-101 | in every reachable state the slots of live and free blocks are pairwise disjoint, each inside one frame that the bitmap marks used and that was free before kmalloc_init |
| HeapRuns.HeapAboveKernel | src/kernel/kmalloc.cpp:27-101 | if frames 0..k are used before kmalloc_init, every header and payload of every reachable state lies above them |
| HeapRuns.EachSlotOnce | src/kernel/kmalloc.cpp:27-101 | in every reachable state a slot is live or in exactly the chain of its cache, never both |
| HeapRuns.PayloadFits | src/kernel/kmalloc.cpp:57-68 | the requested bytes stay inside the block if and only if the size is at most 4092 |
| HeapRuns.OversizeServed | src/kernel/kmalloc.cpp:54-68 | from any allocator with more than eight clear frames in range the first request above 4092 bytes reaches a state with a payload that leaves its block |
| HeapRuns.HeapMissesBitmap | src/kernel/kmalloc.cpp:27-101 | no header or payload byte of a reachable heap lies in a bitmap word, if the frames up to the end of the bitmap were used before kmalloc_init |
| HeapRuns.CacheConservation | src/kernel/kmalloc.cpp:27-101 | per cache, free blocks plus live blocks equal total_pages * (4096 / real_block_size); a large page is one live block |
| HeapRuns.FrameConservation | src/kernel/kmalloc.cpp:27-101 | the frames taken from the allocator are the pages of the eight caches plus the live large pages |
| HeapRuns.NullExactly | src/kernel/kmalloc.cpp:54-87 | kmalloc returns null exactly for size 0, or when it needs a frame and all below 0x400 (early mode) or 0xFFFFF are used |
| HeapRuns.ServedIsLive | src/kernel/kmalloc.cpp:54-87 | a served block is live afterwards, with the size asked for |
| HeapRuns.LiveBytes | src/kernel/kmalloc.cpp:27-87 | no header word lies in the bytes asked for, from byte 4 of a live block on, if they are at most 4092 |
| HeapRuns.LiveBytesDisjoint | src/kernel/kmalloc.cpp:27-101 | the bytes served for two live blocks of a reachable state never overlap |
| HeapRuns.FreedIsNext | src/kernel/kmalloc.cpp:89-101 | a block freed is the one that the next request of its class gets |
| HeapRuns.EachCacheHasPage | src/kernel/kmalloc.cpp:44-52 | if eight frames in range are clear, each cache has one page after kmalloc_init, with 204, 113, 60, 31, 15, 7, 3 or 1 free blocks |
| HeapRuns.FirstPointer | src/kernel/kmalloc.cpp:44-87 | the first request of up to 16 bytes then gets address 0xFE0 of the lowest clear page |
| HeapRuns.SmallestClass | src/kernel/kmalloc.cpp:70-84 | the serving class is the smallest that fits; from 17 bytes on its block is smaller than twice the size |
| HeapRuns.FreeUndoesMalloc | src/kernel/kmalloc.cpp:54-101 | freeing the block just served gives back the state before, chains, live blocks, pages, bitmap and counter; after a small request that grew its cache, the state after the growth |
| HeapMemory.StoreElsewhere | src/kernel/kmalloc.cpp:36-41 | a store to any word that is no header leaves all eight chains and all headers as they are |
| HeapMemory.PayloadIsNoHeader | src/kernel/kmalloc.cpp:81-83 | no payload word of a block, live or free, is a header word |
| HeapMemory.ThreadedStep | src/kernel/kmalloc.cpp:36-41 | one turn of the loop puts the next slot in front of the chain in memory and stores to that slot's header only |
| HeapMemory.PopHolds | src/kernel/kmalloc.cpp:77-83 | taking the head off a chain turns its link word into a header; every other chain and header in memory is kept |
| HeapMemory.LargeHolds | src/kernel/kmalloc.cpp:63-67 | a large page gets a null header, and memory otherwise still holds the heap |
| HeapMemory.ReleaseSmallHolds | src/kernel/kmalloc.cpp:97-100 | freeing turns the header into a link to the old head; every other chain and header is kept |
| HeapMemory.ReleaseLargeHolds | src/kernel/kmalloc.cpp:92-96 | freeing a large page needs no store |
| HeapMemory.HeadTag | src/kernel/kmalloc.cpp:92-97 | the header tells the cache index, and is null for large pages only |
| KernelHeaps.KernelHeap.CacheGrow | src/kernel/kmalloc.cpp:27-42 | growing a cache is the growth of the abstract heap, or nothing if no frame is clear; only headers change |
| KernelHeaps.KernelHeap.LinkSlots | src/kernel/kmalloc.cpp:32-41 | the loop threads all slots of the page in front of the old free list, and stores to no other word |
| KernelHeaps.KernelHeap.Init | src/kernel/kmalloc.cpp:44-52 | sets the sizes of the eight caches and grows each of them once |
| KernelHeaps.KernelHeap.Kmalloc | src/kernel/kmalloc.cpp:54-87 | on raw memory it is the abstract kmalloc; it returns 0 for a null result and otherwise the address 4 bytes behind the start of the served block; no payload word in memory changes, and for a size up to 4092 no header word lies in the bytes served |
| KernelHeaps.KernelHeap.KmallocThenKfree | src/kernel/kmalloc.cpp:54-101 | freeing the pointer that was just returned leaves heap and allocator as they were, or as the growth of the cache leaves them |
| KernelHeaps.KernelHeap.Kfree | src/kernel/kmalloc.cpp:89-101 | on raw memory it is the abstract kfree, found through the header alone; only header words change |
| KernelHeaps.KernelHeap.ClientStore | src/kernel/kmalloc.cpp:36-41 | any store to a payload word of a live or freed block keeps the whole heap |
| PageWalk.WalkIsIdentity | src/kernel/paging.cpp:77-91 | walking directory and table for any 32-bit address gives that address with flags 7 if its page is mapped, and not present otherwise |
| PageWalk.PresentEntries | src/kernel/paging.cpp:31-38 | the present directory entries are as many as the tables, so next_pt never passes 0x601000 |
| PageWalk.RoomForTable | src/kernel/paging.cpp:31-38 | a directory index without a table leaves room for one: at most 1024 tables are ever taken |
| PageWalk.EntryWritten | src/kernel/paging.cpp:39-40 | storing one entry maps that page and changes no other translation |
| PageWalk.TableAdded | src/kernel/paging.cpp:33-37 | a fresh zeroed table changes no translation |
| PageWalk.TablesSeeThemselves | src/kernel/paging.cpp:21-42 | with the first 4 MiB mapped, directory and tables are seen at their own addresses once paging is on if and only if the pages from 4 MiB on that they take are mapped; so always for up to 511 tables |
| PageSpans.RegionExact | src/kernel/paging.cpp:61-78 | unless start or end wrap around at 2^64, the region loop covers exactly the pages at or above 4 MiB that lie wholly inside a type 1 region, none for a region that holds no page, where the length wraps around |
| PageSpans.RegionExactly | src/kernel/paging.cpp:61-78 | and only then, but for a region that starts in the last 4095 bytes below 2^64 and ends within a page behind |
| PageSpans.FramebufferExact | src/kernel/paging.cpp:25-27 | for 64-bit address and size, the framebuffer loop covers exactly the pages that intersect the buffer if and only if its rounded end does not wrap around, or it is empty and starts on a page boundary or in the last 4095 bytes |
| Paging.PageTables.MapPage | src/kernel/paging.cpp:29-40 | mapping an address adds its page modulo 4 GiB; earlier tables stay where they are and memory outside directory and tables is untouched |
| Paging.PageTables.AddTable | src/kernel/paging.cpp:33-37 | takes the next page at next_pt as a table for one directory index |
| Paging.PageTables.MapFramebuffer | src/kernel/paging.cpp:21-42 | does nothing before the directory exists; afterwards adds exactly the pages of its range to the mapped ones |
| Paging.PageTables.MapRegion | src/kernel/paging.cpp:61-92 | one memory-map entry adds exactly the pages of its range, in the 64-bit wrap-around arithmetic of the code |
| Paging.PageTables.MapRegions | src/kernel/paging.cpp:58-94 | the loop reads the map entry by entry while it stores tables, and adds exactly the pages of the entries that memory held before |
| Paging.PageTables.Init | src/kernel/paging.cpp:44-126 | on any memory, maps the first 4 MiB and the ranges of the memory map in it and nothing else |
| Paging.PageTables.UserFlags | src/kernel/paging.cpp:97-126 | the passes that add the USER flag change no word |
| BootMapping.MapPagesExact | src/kernel/paging.cpp:58-94 | a 32-bit page is mapped by the region loop exactly if some page of RAM at or above 4 MiB truncates to it |
| BootMapping.BootTranslation | src/kernel/kernel.cpp:242-249 | runs paging_init_full and, with a framebuffer, paging_map_framebuffer: afterwards every address of a mapped span translates to itself and any other is not present, whatever wraps around; if the spans fit, the former are the addresses below 4 MiB, in a page of RAM, or in a page of the framebuffer |
| BootMapping.TranslationsKept | src/kernel/paging.cpp:21-42 | mapping more pages keeps every earlier translation |
| BootInfo.TagAt | src/kernel/kernel.cpp:224-225 | in an encoded tag list each tag is at its position, the next follows at the padded size, and the end tag is last |
| BootInfo.Visit | src/kernel/kernel.cpp:206-226 | one step reads the tag at hand and moves to the next one |
| BootInfo.Walk | src/kernel/kernel.cpp:202-227 | for every well-formed tag list the walk ends, visits each tag once and in order, and yields the last framebuffer tag and the last memory-map span |
| MapEntries.EntryRoundTrip | src/include/multiboot2.h:23-29 | decoding the six words of an entry gives its address, length and type |
| MapEntries.EntryRead | src/include/multiboot2.h:23-29 | what is read at an address is a region exactly if the words there are its address and length, low word first, and its type |
| MapEntries.PagingVisits | src/kernel/paging.cpp:58-59 | the loop visits the span every 24 bytes |
| MapEntries.DecodedAt | src/kernel/paging.cpp:58-94 | the regions decoded from a span are those at the addresses visited, one for each 24 bytes begun, in order |
| MapEntries.VisitedAt | src/kernel/pmm.cpp:37-61 | so are those that pmm_init decodes, at the addresses it visits |
| MapEntries.PmmSteps | src/kernel/pmm.cpp:37-61 | pmm_init starts at the first entry, steps 32 bytes behind one of type 1 and 24 behind any other, and ends on reaching the end |
| MapEntries.DecodedOfMap | src/kernel/paging.cpp:58-94 | over a map in memory the loop of paging decodes its regions |
| MapEntries.VisitedOfMap | src/kernel/pmm.cpp:37-61 | so does the loop of pmm_init if no region but the last is RAM |
| MapEntries.MapRoundTrip | src/kernel/paging.cpp:58-94 | over an encoded map it yields each entry once, in order |
| MapEntries.PmmVisitsEntriesExactly | src/kernel/pmm.cpp:37-61 | pmm_init visits the entries that paging visits if and only if no entry but the last is RAM |
| MapEntries.PmmVisitsOfMap | src/kernel/pmm.cpp:37-61 | over a map in memory: exactly if no region but the last is RAM |
| MapEntries.MapFits | src/include/multiboot2.h:23-29 | every map, those with RAM before the last region included, can be in memory |
| KernelBoot.ReadTags | src/kernel/kernel.cpp:206-227 | from a tag list in memory, the span of the last map tag, over which the loop of paging decodes its entries, and that of pmm_init too if no region but the last is of type 1; and from the last framebuffer tag its 64-bit address and pitch * height |
| KernelBoot.Boot | src/kernel/kernel.cpp:202-249 | tag walk, pmm_init and the paging calls on one memory: the first 4 MiB, every byte of the last framebuffer if its rounded end is below 2^64, and every whole page of a type 1 region that ends below 2^64 translate to themselves with flags 7; if all spans fit nothing else is present; the frames of kernel and bitmap are used, and the counter is that of the map's regions if no region but the last is of type 1 |
| KernelBoot.MappedFrom | src/kernel/kernel.cpp:242-249 | what is present at or above 4 MiB comes from a whole page of a type 1 region or a page that meets the framebuffer, modulo 4 GiB |
| EditorProperties.LeftMoves | src/kernel/keyboard.cpp:223-228 | Left moves the last character before the gap behind it |
| EditorProperties.RightMoves | src/kernel/keyboard.cpp:229-234 | Right moves the first character behind the gap before it |
| EditorProperties.HomeMoves | src/kernel/keyboard.cpp:235-239 | Home moves the whole text behind the gap |
| EditorProperties.EndMoves | src/kernel/keyboard.cpp:240-245 | End moves the whole text before the gap |
| EditorProperties.DeleteRemoves | src/kernel/keyboard.cpp:246-258 | Delete takes the first character behind the gap |
| EditorProperties.BackspaceRemoves | src/kernel/keyboard.cpp:415-430 | Backspace takes the last character before the gap |
| EditorProperties.MidlineInserts | src/kernel/keyboard.cpp:432-446 | with room, a character typed in mid-line is appended before the gap and the text behind it stays |
| EditorProperties.AppendExtends | src/kernel/keyboard.cpp:432-446 | at the end of the line the text behind the gap stays empty if and only if the next byte of the buffer is NUL |
| EditorProperties.StaleTextReturns | src/kernel/keyboard.cpp:432-446 | an instance where stale text comes back |
| EditorRuns.StaleTextReached | src/kernel/keyboard.cpp:166-446 | the keys x, q, b, c, Left, Left, Left, Enter, Right lead there from the start |
| EditorProperties.RoomExactly | src/kernel/keyboard.cpp:434-441 | a character has room exactly at the end of the line or in a line of at most 254 characters |
| EditorProperties.FullLineHasNoRoom | src/kernel/keyboard.cpp:434-441 | from a line of 255 characters, Home leads to a state where no insertion has room |
| EditorRuns.FullLineReached | src/kernel/keyboard.cpp:166-446 | typing 255 characters and Home lead from the start to such a line |
| EditorProperties.EnterKeepsText | src/kernel/keyboard.cpp:355-413 | after Enter the submitted text is behind the gap |
| EditorRuns.EnterRemembers | src/kernel/keyboard.cpp:355-413 | Enter from any state ends browsing and returns the cursor; an empty or repeated line leaves the entries, any other comes behind them, and the oldest goes if there were ten |
| EditorRuns.EnterThenUp | src/kernel/keyboard.cpp:170-413 | the next Up shows the newest entry, which is the line just submitted |
| EditorProperties.RememberAppends | src/kernel/keyboard.cpp:363-407 | a submitted line is appended to the entries unless it repeats the last one, and the last ten are kept |
| EditorProperties.ApplyInv | src/kernel/keyboard.cpp:166-446 | every key with room keeps the cursor in range, NUL at index 255, no NUL before the cursor, and all history rows terminated |
| EditorRuns.HistoryIsLogTail | src/kernel/keyboard.cpp:355-413 | in every session the history is the last ten entries of the submission log with empty lines dropped and adjacent duplicates collapsed |
| ScancodeRuns.HistoryOfScancodes | src/kernel/keyboard.cpp:147-413 | the same for every sequence of scancodes, from any state of the modifiers |
| ScancodeRuns.SubmittedLineShown | src/kernel/keyboard.cpp:147-413 | the scancodes 0x1C, 0xE0, 0x48 submit a line and show it again |
| EditorRuns.UpShows | src/kernel/keyboard.cpp:170-194 | after Up the text before the cursor is the entry and the text behind it is what the buffer held there |
| EditorRuns.UpExactly | src/kernel/keyboard.cpp:170-194 | the whole line is the entry if and only if the buffer held a NUL behind its length |
| EditorRuns.UpLeavesText | src/kernel/keyboard.cpp:166-446 | the keys a, Enter, x, Up lead from the start to the line "aa" with the entry "a" |
| EditorRuns.DownShows | src/kernel/keyboard.cpp:195-222 | after Down likewise, with the next entry or the saved line |
| EditorRuns.NothingToBrowse | src/kernel/keyboard.cpp:170-222 | without entries Up does nothing, and Down nothing while no entry is shown |
| EditorRuns.UpThenDownRestores | src/kernel/keyboard.cpp:170-222 | Up k times then Down min(k, history_count) times restores the text before the cursor and index -1; on the way the text before the cursor is the entry at the index |
| EditorRuns.LineRestoredExactly | src/kernel/keyboard.cpp:170-222 | from the end of a line the same keys bring the whole line back if and only if no entry passed is longer than it |
| Scancodes.KeysAreVisible | src/kernel/keyboard.cpp:276-353 | no scancode types NUL, whatever the modifiers |
| Scancodes.DigitsTyped | src/kernel/keyboard.cpp:25-33 | the scancodes of the ten digits and what they type with shift |
| Scancodes.TopLetters | src/kernel/keyboard.cpp:25-284 | the scancodes of q to p type the capital exactly when one of shift and caps lock is on |
| Scancodes.HomeLetters | src/kernel/keyboard.cpp:25-284 | likewise a to l |
| Scancodes.BottomLetters | src/kernel/keyboard.cpp:25-284 | likewise z to m |
| Scancodes.SignsTyped | src/kernel/keyboard.cpp:25-353 | the scancodes of the signs and what they type with shift |
| Scancodes.OtherKeys | src/kernel/keyboard.cpp:25-415 | Enter is 0x1C, Backspace 0x0E; tab, blank and the keypad; the rest is ignored |
| Scancodes.ModifierKeys | src/kernel/keyboard.cpp:151-274 | presses and releases of shift and presses of caps lock change that modifier only, no other scancode changes one |
| Scancodes.PrefixedKeys | src/kernel/keyboard.cpp:151-263 | behind 0xE0 seven scancodes are the arrows, Home, End and Delete, and all others nothing |
| ScancodeRuns.PrefixedPair | src/kernel/keyboard.cpp:151-263 | the prefix affects exactly one scancode: what follows is decoded as without the pair |
| Keyboards.Keyboard.HandleInterrupt | src/kernel/keyboard.cpp:147-447 | for every scancode arrays and fields change as the key says that it decodes to, and the modifiers likewise; which key that is the `Scancodes` lemmas say |
| Keyboards.Keyboard.PressUp | src/kernel/keyboard.cpp:170-194 | saves the line on the first press and shows the entry |
| Keyboards.Keyboard.PressDown | src/kernel/keyboard.cpp:195-222 | shows the next entry, or the saved line |
| Keyboards.Keyboard.CloseGap | src/kernel/keyboard.cpp:249-254 | the loop of Delete removes one character in place |
| Keyboards.Keyboard.ShiftBack | src/kernel/keyboard.cpp:420-425 | the loop of Backspace removes one character in place |
| Keyboards.Keyboard.OpenGap | src/kernel/keyboard.cpp:434-442 | the loops of insertion make room for one character in place |
| Keyboards.Keyboard.RememberLine | src/kernel/keyboard.cpp:363-407 | append, shift-down and duplicate check on the history array |
| Keyboards.Keyboard.SameAsLast | src/kernel/keyboard.cpp:364-375 | the comparison loop decides equality of the two C strings |
| Keyboards.Keyboard.ShiftHistory | src/kernel/keyboard.cpp:394-398 | moves every row one down |
| ScreenSpec.VgaEntryInjective | src/kernel/kernel.cpp:56-59 | for one colour a cell determines its character |
| ScreenSpec.VgaEntryShows | src/kernel/kernel.cpp:56-59 | the low byte of a cell is the character and its high byte the colour |
| ScreenSpec.PutCells | src/kernel/kernel.cpp:89-135 | what each character does to cursor and cells: newline, backspace, which leaves a blank in the cell it comes to, and any other |
| ScreenSpec.ClearCells | src/kernel/kernel.cpp:76-88 | a cleared screen is 2000 blanks |
| ScreenSpec.WriteIsLayout | src/kernel/kernel.cpp:76-142 | text without backspace on a cleared screen shows as the last 25 rows of its 80-column wrapping, with the cursor behind it |
| ScreenSpec.LayoutAppend | src/kernel/kernel.cpp:124-133 | a printed character extends the wrapping by one cell |
| ScreenSpec.LayoutNewline | src/kernel/kernel.cpp:100-110 | a newline extends the wrapping by one row |
| ShellSpec.ShellStaysInStep | src/kernel/kernel.cpp:287-328 | for every sequence of received bytes and whatever the commands print, the cells from the prompt to the cursor are visible and show the typed line, which is what input_buffer holds up to input_pos |
| ShellSpec.ScreenIsTranscript | src/kernel/kernel.cpp:267-328 | for every sequence of received bytes and all command outputs the screen is what printing the boot text, the echo of each byte and, behind each Enter, a newline, the output of the command if the line is not empty, and the prompt leaves on a cleared one |
| ShellSpec.BootShows | src/kernel/kernel.cpp:258-289 | the first two rows at boot are "Nyrix Kernel v0.1" and "nyrix> " |
| ShellSpec.PerformIs | src/kernel/kernel.cpp:76-135 | what a command can do to the screen: print, clear it in its colour, set the colour of what follows |
| ShellSpec.TypeInStep | src/kernel/kernel.cpp:319-327 | a typed character keeps the line visible even when it scrolls the screen |
| ShellSpec.EraseInStep | src/kernel/kernel.cpp:310-318 | backspace across wrapped and scrolled rows erases the cell of the last typed character |
| ShellSpec.EnterSubmitsLine | src/kernel/kernel.cpp:297-309 | what a command receives is the line on the screen, and the cells determine it |
| Terminals.Terminal.Put | src/kernel/kernel.cpp:89-135 | the 2000 cells stay the window on the last 25 rows of the page, row < 25 and column < 80 |
| Terminals.Terminal.ScrollUp | src/kernel/kernel.cpp:68-75 | the window moves down one row, which is blank |
| Terminals.Terminal.ClearAll | src/kernel/kernel.cpp:76-88 | a blank page with the cursor at its start, from any contents |
| Terminals.Terminal.WriteText | src/kernel/kernel.cpp:136-142 | prints the characters in order |
| Terminals.SerialShell.ReceiveByte | src/kernel/kernel.cpp:294-328 | one turn of the loop on terminal and input buffer |
| GfxSpec.InvertTwice | src/kernel/gfx.cpp:232-254 | hiding the cursor undoes showing it |
| GfxSpec.InvertAt | src/kernel/gfx.cpp:232-242 | the pixels of the cell are complemented, no other |
| GfxSpec.GlyphPixel | src/kernel/gfx.cpp:206-212 | column x of a glyph row is foreground exactly when bit 7 - x is set; codes outside of 32 to 126 have the first glyph |
| GfxSpec.CharPixel | src/kernel/gfx.cpp:299-309 | every pixel and the cursor after a character that does not wrap |
| GfxSpec.BackspacePixel | src/kernel/gfx.cpp:274-297 | every pixel and the cursor after a backspace: the cell it comes to is background |
| GfxSpec.NewlinePixel | src/kernel/gfx.cpp:264-337 | every visible pixel and the cursor after a newline, with the scroll |
| GfxSpec.WrapIsNewline | src/kernel/gfx.cpp:299-320 | a character that wraps is drawn, and a newline follows |
| GfxSpec.ScrollAt | src/kernel/gfx.cpp:322-337 | every pixel after a scroll |
| GfxSpec.EraseAt | src/kernel/gfx.cpp:339-346 | every pixel after a clear |
| GfxSpec.RunKeepsPadding | src/kernel/gfx.cpp:232-366 | no run changes the words behind the visible part of a row |
| GfxSpec.PutInside | src/kernel/gfx.cpp:256-320 | one character keeps the cursor cell inside if and only if it is a backspace, stays in its row, or has a row below |
| GfxSpec.StepInside | src/kernel/gfx.cpp:256-366 | so for every operation; clearing and colours always do |
| GfxSpec.TextStaysInside | src/kernel/gfx.cpp:256-320 | a text without backspace does if and only if there are rows for its newlines and wraps below the cursor |
| GfxSpec.AnyTextStaysInside | src/kernel/gfx.cpp:256-320 | any text does if and only if the lowest row that the cursor reaches is inside |
| GfxLayout.TextIsLayout | src/kernel/gfx.cpp:256-337 | text with newlines on a cleared framebuffer whose rows fit shows as its wrapped rows of glyphs with the cursor behind the last; if it reaches the last row of a height of whole rows, the first row is gone and a blank one is before the last |
| GfxLayout.TextPixel | src/kernel/gfx.cpp:206-337 | every pixel of the text on the screen is the bit of the glyph of the character in that row and column |
| GfxLayout.LayoutFits | src/kernel/gfx.cpp:256-320 | the rows fit if and only if typing the text keeps the cursor inside |
| GfxLayout.ScrollDropsFirstRow | src/kernel/gfx.cpp:322-337 | scrolling rows of text drops the first row |
| GfxLayout.BackspaceErases | src/kernel/gfx.cpp:274-297 | backspace after a character that did not wrap returns to its cell and blanks it |
| GfxLayout.BackspaceAfterWrap | src/kernel/gfx.cpp:276-337 | after a wrap that stays inside it restores picture and cursor with that cell blank if and only if the cell ends at the right edge and the wrap did not scroll, or the scroll changed nothing outside of the cell |
| GfxLayout.GlyphRemains | src/kernel/gfx.cpp:276-337 | after a wrap that scrolled the glyph is still on the screen 16 pixel rows higher; otherwise its columns before the last 8 are |
| Consoles.IndexDistinct | src/kernel/gfx.cpp:236 | different pixels have different words, through the pitch |
| Consoles.GfxConsole.InvertCell | src/kernel/gfx.cpp:232-242 | inverts the 8x16 pixels of one cell and no other word |
| Consoles.GfxConsole.Draw | src/kernel/gfx.cpp:286-309 | draws a glyph, or background, in one cell and no other word |
| Consoles.GfxConsole.ScrollUp | src/kernel/gfx.cpp:322-337 | moves the visible part up 16 pixel rows and blanks the last 16 |
| Consoles.GfxConsole.ClearAll | src/kernel/gfx.cpp:339-350 | from any contents, a background picture with the cursor cell inverted; from a shown picture, the same as erasing it without its cursor |
| Consoles.GfxConsole.PutGlyph | src/kernel/gfx.cpp:256-320 | under the guard that keeps the cursor cell inside, the framebuffer is the clean picture with exactly that cell inverted |
| Consoles.GfxConsole.Colors | src/kernel/gfx.cpp:352-356 | sets the two colours, and changes no pixel |
| Consoles.GfxConsole.MoveTo | src/kernel/gfx.cpp:358-366 | sets the cursor, moves the inverted cell there and leaves the clean picture |

## Left out

- Keyboards.Keyboard.HandleInterrupt: requires room for a mid-line insertion, because without it the code stores behind `input_buffer`, and what lies there is not part of this model.
- FrameAllocators.FrameAllocator.Init: reads a memory map that lies outside of the bitmap, which is not in the modelled memory words, and ends 32 bytes below 4 GiB; the wrap-around of the entry pointer behind that is not modelled.
- FrameAllocators.FrameAllocator.AllocPage: is the allocator after `pmm_init`; the state without a memory map, where no frame can be had, is not modelled.
- KernelHeaps.KernelHeap.Kmalloc: the bitmap and the `caches` array are not in the modelled memory words; `FrameAllocators.BitmapStorageReserved` says that no frame handed out holds the bitmap.
- KernelHeaps.KernelHeap.Kfree: is modelled for pointers to live blocks and null, as its callers must pass.
- Paging.PageTables.Init: is called once, as `kernel_main` does; the memory map lies outside of the 4 MiB where tables can be and ends 24 bytes below 4 GiB, and `idt_entries` does not reach the last page of the address space.
- Paging.PageTables.MapPage: stands for the body that the source writes out in both mapping loops; heap frames and page-table frames may overlap in the source, so the two are separate models.
- BootInfo.Walk: is stated for well-formed tag lists; on other memory the walk need not end.
- ShellSpec.ShellStaysInStep: a command is any sequence of prints, clears and colour changes; the text of the commands is not modelled.
- MapEntries.PmmVisitsEntriesExactly: requires the map to end 32 bytes below 4 GiB, as `Init` does.
- MapEntries.PmmVisitsOfMap: the same.
- MapEntries.PmmSteps: the same.
- BootMapping.MapPagesExact: is about maps whose regions meet the exact guard of `PageSpans.RegionExactly`; beyond it `Paging.PageTables.Init` gives the mapped spans.
- KernelBoot.Boot: is stated for well-formed tag lists apart from the page tables whose last map tag is a whole number of entries; the heap is not part of it.
- EditorRuns.HistoryIsLogTail: is about sessions in which every insertion has room, as for `HandleInterrupt`.
- ScancodeRuns.HistoryOfScancodes: the same.
- Consoles.GfxConsole.PutGlyph: requires the guard that keeps the cursor cell inside the framebuffer, because without it the code inverts pixels behind it; 32 bits per pixel and a pitch that is a multiple of 4; the byte copy of a scroll is a word copy here.
- Consoles.GfxConsole.InvertCell: is about cells inside the framebuffer, for the same reason.
- Consoles.GfxConsole.Draw: the same.
- Consoles.GfxConsole.MoveTo: the same.
- GfxSpec.RunKeepsPadding: is about runs that keep the cursor cell inside, for the same reason; `GfxSpec.StepInside` is the guard of each step.
- `redraw_input` is no change to the editor, and may write past a terminal row; it is not part of the terminal.
- `Keyboard::handle_scancode` is an incomplete copy of `handle_interrupt`.
- Font bitmaps are any table of 95 glyphs.
- Port I/O, serial output, the VGA hardware cursor, CR0 and CR3, descriptor tables, timer, user mode and task switching have no model.
- The keyboard interrupt and the serial loop share the input buffer without any order between them; each is modelled alone.
