# The memory stack of Betelgeuse, verified

This project models the memory management of the Betelgeuse kernel and of its
bootloader, and the integer conversions of its `printf`, and proves what they
do. It follows the code as it is written. Where the code and the descriptions
in `kernel/include/kernel/memory.h` disagree, the model has the code's
behaviour, and a lemma says for exactly which inputs the description is met.

Verify with `dafny verify dfyconfig.toml`.

## How it is organised

| file | what it covers |
|---|---|
| `Options`, `Words`, `FrameBitmap`, `BitmapInit` | an optional value, bitmap words, `page_physical_alloc`/`free`, construction of the bitmap from the firmware's memory map |
| `Addresses`, `PageTables`, `Mapping`, `Paging`, `Rights` | address macros, walks through four-level tables (Intel SDM Vol. 3A, section 4.5), `page_map`, `page_map_multiple`, `page_unmap`, the access rights of a page (section 4.6) |
| `VirtualRanges`, `RangeSets`, `RangeFrees`, `RangeFits`, `RangeSlots`, `VirtualMap` | the list of allocated ranges: as functions on a sequence, as a set of addresses, first fit, slots of the nodes, and the linked nodes themselves |
| `Kernel`, `PageRequests` | the invariant over frames, ranges and tables; the single-page functions `page_alloc*`, `page_free` |
| `Rollback`, `UndoneLists`, `BlockRequests` | `page_alloc_multiple_at`, `page_free_multiple` and the rollback: on tables and frames, on the list, and together |
| `KernelRuns`, `PageAllocator` | runs of all these requests; the code |
| `TableCounts`, `Relocation`, `Mirror`, `BootPages`, `BootRights`, `BootMapper` | counting missing tables; the bootloader's copy of the firmware's tables, the mirror of physical memory, `map_pages` for every segment of the kernel, access rights through all of these, and the code |
| `ListInit`, `Handover` | the end of `page_allocator_init`, which sets the list up; from the bootloader's tables to the first request |
| `Numerals`, `Fields`, `Printf`, `Printed` | digit generation, layout of a field, scanner and loop of `printf`, what every conversion prints |

Code that changes state is a class whose methods are proved equal to functions
of the old state (`FrameAllocator`, `PageMapper`, `VirtualMap`,
`PageAllocator`, `BootMapper`, `Printer`); the theorems are about those
functions. The main results:

* `page_map` is a point update of the translation function, and so is the
  bootloader's `map_page`; unmapping is its inverse (`Paging.MapPageRefines`,
  `Paging.MapUnmapRemap`).
* `page_map` makes a page that may be written, and used from user mode, exactly
  if the tables that were there before permit it, and changes the rights of no
  other page; the bootloader's PML4 entries permit no use from user mode
  (`Rights.PageMapRights`). Moving the firmware's tables keeps the rights of
  every page, and so does the rest of the boot, for pages that were mapped
  (`BootRights.RelocationKeepsRights`, `BootRights.BootKeepsRights`).
* Over every run of `page_alloc_at`, `_after`, `_beyond_ex`, `_multiple_at`,
  `page_free` and `page_free_multiple` with proper arguments, for whatever
  values `page_unmap` leaves behind, the state stays consistent exactly if no
  request makes trouble, and trouble has an exact condition for each of them
  (`KernelRuns.RunConsistentIff`). Then every mapped page is registered and
  has an allocated frame of its own (`KernelRuns.RunIsSafe`).
* The kernel panics exactly if a single-page allocation with a frame and a slot
  left hits a mapped page at which an entry other than the first starts
  (`PageRequests.PageAllocPanicsIff`, `KernelRuns.NextPanicsIff`). Asking twice
  for a page apart from the others is enough
  (`KernelRuns.SecondAllocationPanics`), where the header promises the result 1.
* `page_alloc_multiple_at` is all or nothing on translations for every block
  and every pattern of failures, and succeeds exactly if there are a range and
  frames for the pages and their tables (`BlockRequests.MultipleAtIsAllOrNothing`).
  What its rollback does to the list and the frames is characterised exactly; it
  can take mapped pages behind the block off the list even with a slot left
  (`BlockRequests.MultipleAtConsistentIff`, `FailureRestoresPagesIff`,
  `Rollback.FailureRestoresFramesIff`, `UndoneLists.OneSlotIsNotEnough`).
* The `_beyond_ex` functions are first fit with a buffer (`RangeFits`).
* From the firmware's tables to the mapped kernel every address translates as
  before, at itself and in the mirror, every segment is mapped, and exactly the
  missing tables are paid for (`BootMapper.BootKeepsEveryMapping`).
* The kernel does not start in a consistent state. Whatever list it starts with
  has to have the pages of all segments (`Handover.KernelStartsConsistentIff`),
  and the list that `page_allocator_init` sets up ends at a page that is mapped:
  the first `page_alloc` that finds a frame panics, and so does every request
  that is answered with that address (`ListInit.FirstRequestPanics`,
  `Handover.FirstRequestAfterBootPanics`). A list up to the last page mapped
  would be a consistent start (`Handover.LongerListIsConsistent`), from which the
  theorems about runs then hold.
* `printf` gets stuck exactly if one of its conversions does, and it is said
  which do; for arguments below 10^19 that are not the most negative number of a
  size it returns the number of characters printed exactly if no conversion is
  `%b` or a left-aligned `%o` (`Printf.FormatSticksIff`,
  `Printf.TameFormatEndsIff`). What every conversion prints, anywhere in a
  format and with whatever flags, width, precision and size, is stated on the
  characters: a number is read back from its digits (`Printed.DecimalPrinted`
  and its neighbours), which are right for exactly the numbers named
  (`Numerals.*RightIff`).

## How the code is read

* Frames are numbers; an address is 4096 times the number. A table is named by
  its frame because the kernel reaches physical memory both at p and at
  offset + p.
* Addresses do not wrap around in the allocation functions: the preconditions
  ask that the address answered with, and the shifted counts added to it, stay
  below 2^64. The frees compute in 64 bits, comparisons included, and may wrap.
* `page_virtual_alloc_multiple_at` reads the base of a successor that may be
  null. What it reads there is a parameter (`atNull`), and every theorem holds
  for all values.
* A `pageframe_t` is the 64-bit address of a page (kernel/include/kernel/memory.h:55-58),
  so the functions over whole pages ask for addresses that are multiples of
  0x1000 where the proof that the list stays paged needs them.
* C leaves some expressions undefined. A left shift of an `int` beyond its width
  is read as 64-bit; `physical_start >> 12 + i` with 12 + i of 64 or more as the
  quotient; more arguments fetched than passed to `printf` as zero. A negation
  that overflows, as `%hd` does for -2^31, and the shift that `%b` starts with
  count as getting stuck.
* `page_unmap` ends without a return statement. The value its caller sees is a
  parameter (`garbage`), and every theorem holds for all values. It never sets
  its output, so no frame is given back.
* `kernel_panic` does not return. Here the flag `panicked` is set and the
  function ends.
* The frame bitmap and the slot bitmap are scanned with a 16-bit index: fewer
  than 65536 words.
* Both scans compare a word with INT64_MAX, so a word whose top bit is set is
  passed over, and only bit 63 of a word is ever handed out.

## Model

| member | source | states |
|---|---|---|
| Words.RoomIff | kernel/kernel/memory.c:251 | the guard `< INT64_MAX` holds of a word iff its top bit is clear and some lower bit is clear too |
| Words.RoomPicksTopBit | kernel/kernel/memory.c:251-254 | behind that guard the scan of a word finds bit 63 and no other |
| Words.ScanDown | kernel/kernel/memory.c:252-253 | the inner scan loop finds the highest clear bit |
| FrameBitmap.TakeIs | kernel/kernel/memory.c:249-262 | an allocation marks exactly one frame, which was free |
| FrameBitmap.EncodingInverted | kernel/kernel/memory.c:254-290 | the decoding of a frame address in free inverts its encoding in alloc |
| FrameBitmap.AllocFailsOnlyWhenFullIff | kernel/kernel/memory.c:249-262 | failure means a full bitmap exactly if some word has its top bit and another one clear, or every bit is set |
| FrameBitmap.OneFramePerWord | kernel/kernel/memory.c:251 | a word with one frame allocated has 63 free frames that are never handed out |
| FrameBitmap.FreeNeverFrees | kernel/kernel/memory.c:287-292 | after `page_physical_free` the frame is marked, whatever it was: the guard is inverted |
| FrameBitmap.RunConservesFrames | kernel/kernel/memory.c:249-292 | over every run of allocations and frees no frame is handed out twice, and free, handed out and stray frames partition the frames free at the start |
| FrameBitmap.AllocSucceedsOncePerRoom | kernel/kernel/memory.c:249-262 | n allocations in a row succeed as often as there are words that pass the guard, and no more |
| FrameBitmap.FrameAllocator.Alloc | kernel/kernel/memory.c:249-262 | the scan loops return -1 with the bitmap untouched, or the picked frame with exactly its bit flipped |
| FrameBitmap.FrameAllocator.Free | kernel/kernel/memory.c:287-292 | the bitmap afterwards, for every frame address |
| BitmapInit.ChosenIsSmallest | kernel/kernel/memory.c:77-107 | the region chosen is the first smallest usable one of at least 32 pages; none is chosen only if there is none |
| BitmapInit.BuiltIs | kernel/kernel/memory.c:110-187 | which frames are free after construction, exactly |
| BitmapInit.FreeIff | kernel/kernel/memory.c:110-187 | a frame below 4 GiB is free exactly if it is the first frame of a region halved i times, for some i below the number of pages: from the used pages on for page tables, from 32 on for the region of the bitmap, any for the usable types |
| BitmapInit.BitmapContractIff | kernel/kernel/memory.c:114-187 | a frame is free iff it lies in a usable region past the part taken, for exactly the memory maps, with usable regions below 4 GiB, in which no clearing loop goes beyond a single first page |
| BitmapInit.WritesPastIff | kernel/kernel/memory.c:114-187 | exactly which memory maps make the clearing loops write past the end of the bitmap |
| BitmapInit.TwoPagesMisread | kernel/kernel/memory.c:157 | the smallest counterexample: of two pages the second stays marked, and half the first's number is freed |
| BitmapInit.BuildBitmap | kernel/kernel/memory.c:63-187 | the loops choose, mark and clear as those functions say, change nothing if no region fits, and write past the bitmap exactly if the memory map is one of those |
| Addresses.IndexMasks | kernel/include/kernel/memory.h:10-26 | the four masks and shifts select base-512 digits of the address |
| Addresses.EntryMasks | kernel/include/kernel/memory.h:34 | the address mask and the tests of the present and large bits select the quotients and remainders that the walk reads |
| Addresses.EntryRemainders | kernel/include/kernel/memory.h:34 | clearing the address field or the present bit subtracts it |
| Addresses.EntryUpdates | kernel/include/kernel/memory.h:34 | clearing and setting the address field of an entry leaves its other bits alone |
| Addresses.AddressFields | kernel/include/kernel/memory.h:28-32 | the shifted indices that `OFFSETS_TO_ADDR` joins do not overlap, so that joining adds |
| Addresses.IndicesOfAddress | kernel/include/kernel/memory.h:23-32 | the extractors invert `OFFSETS_TO_ADDR`, whose result is canonical and page-aligned |
| Addresses.AddressOfIndices | kernel/include/kernel/memory.h:23-32 | `OFFSETS_TO_ADDR` inverts the extractors on canonical page addresses |
| Addresses.NextPage | kernel/include/kernel/memory.h:23-32 | adding 0x1000 carries across the indices: the page number grows by one, up to the end of a half |
| PageTables.WriteChangesOnePath | kernel/arch/x86_64/paging.c:21-77 | one entry written into a table that one path reaches changes the walk along one path and no other |
| Mapping.MapFromIs | kernel/arch/x86_64/paging.c:21-77 | from any depth: which walks change, when it fails, how many frames it draws, and that tables stay unshared and no used frame is left in the supply |
| Paging.MapPageRefines | kernel/arch/x86_64/paging.c:21-77 | 0: exactly this page comes to translate, to the masked frame; 1 iff mapped already, nothing changed; -1 iff fewer frames than missing tables, no translation changed |
| Paging.TablesSuffice | kernel/arch/x86_64/paging.c:27-67 | a page with all its tables draws no frame, so mapping it cannot fail for want of one |
| Paging.UnmapIs | kernel/arch/x86_64/paging.c:95-103 | exactly the given page becomes unmapped, and the invariant is kept, where the page has a last-level table, or the word cleared in its place is not present |
| Paging.UnmapTouchesOneWord | kernel/arch/x86_64/paging.c:95-103 | in any case one present bit is cleared, wherever the address fields lead |
| Paging.UnmapWord | kernel/arch/x86_64/paging.c:95-103 | which word that is: three address fields followed from the root, at the digits of the address, whatever their present bits |
| Paging.UnmapAstray | kernel/arch/x86_64/paging.c:95-103 | under an empty PML4 entry that word lies in frame 0, and may map another page |
| Paging.UnmapExactIff | kernel/arch/x86_64/paging.c:95-103 | exactly the page, and no other walk, is unmapped just if the page has a last-level table, or the word cleared in its place is not present, or no path leads through that word |
| Paging.AnotherPageUnmapped | kernel/arch/x86_64/paging.c:95-103 | tables in which unmapping a page of an empty PML4 slot unmaps a page that is mapped |
| Paging.MapUnmapRemap | kernel/arch/x86_64/paging.c:21-104 | unmapping undoes mapping on every translation, and mapping again succeeds without drawing a frame |
| Paging.MultipleMeetsContractIff | kernel/arch/x86_64/paging.c:81 | `va + index << 12` addresses the pages after `va` exactly if `va`, taken as a page number, is its own page |
| Paging.MapMultipleIs | kernel/arch/x86_64/paging.c:79-86 | 0: all pages mapped to their frames; k + 1: exactly pages 0 to k - 1 newly mapped, all others as before, and page k was mapped already or, with those before it mapped, short of frames for its tables |
| Paging.PageMapper.PageMap | kernel/arch/x86_64/paging.c:21-77 | the code computes that function of memory and bitmap, whose entries Rights.PageMapEntries gives |
| Paging.PageMapper.PageMapMultiple | kernel/arch/x86_64/paging.c:79-86 | the loop computes that function |
| Paging.PageMapper.PageUnmap | kernel/arch/x86_64/paging.c:88-104 | refuses by the range check, or clears one present bit |
| Mapping.MapFromDraws | kernel/arch/x86_64/paging.c:27-67 | whatever comes of it, one frame is drawn for each missing table, or all there are, and no other |
| Rights.WriteChangesOneEntry | kernel/arch/x86_64/paging.c:21-77 | such a write changes the entry on that path and no other |
| Rights.PageMapEntries | kernel/arch/x86_64/paging.c:27-76 | every entry afterwards: those installed on the way to the page are frame and 7, or 3 in the bootloader's PML4, all others are as before |
| Rights.PageMapRights | kernel/arch/x86_64/paging.c:21-77 | a page newly mapped may be written, and used from user mode, exactly if the tables there before permit it, and for the bootloader the PML4 entry is not new; it is executable exactly if they are; no other page changes its rights |
| VirtualRanges.Find | kernel/kernel/memory.c:339-343 | the search stops at the last entry below the key, before one that starts at the key |
| RangeSets.FindIs | kernel/kernel/memory.c:339-343 | the entry found decides membership, except of an address at which a later entry starts |
| RangeSets.PlaceAdds | kernel/kernel/memory.c:370-386 | extending up, extending down and inserting each add exactly the block to the set of addresses |
| RangeSets.PlaceOrdered | kernel/kernel/memory.c:370-386 | order, alignment and strict gaps are kept: touching entries have been joined |
| RangeSets.AllocAtExact | kernel/kernel/memory.c:364-387 | result codes and the set change meet the contract exactly for addresses not below the first entry and not at the start of a later one |
| RangeSets.AllocAtOrderedIff | kernel/kernel/memory.c:364-387 | order and strict gaps are kept exactly if no later entry, empty or not, starts at the page, or no slot is left |
| RangeSets.AllocAfterExact | kernel/kernel/memory.c:389-412 | the answer is the next free page, and only it is added, exactly if the base is not below the first entry and, with a slot left, no later entry starts there |
| RangeSets.AllocAfterOrderedIff | kernel/kernel/memory.c:389-412 | likewise for the base |
| RangeFits.HopIsLeast | kernel/kernel/memory.c:459-463 | the walk stops at the least fitting address |
| RangeFits.FitsIsFree | kernel/include/kernel/memory.h:212-226 | a fitting block is free and keeps the buffer to every entry before it |
| RangeFits.AllocBeyondExIsFirstFit | kernel/kernel/memory.c:448-472 | for a positive jump: the least address at or above base whose page is free behind the buffer; exactly it is added; -1 only without a slot |
| RangeFits.AllocMultipleBeyondExIsFirstFit | kernel/kernel/memory.c:640-667 | the same for a block of pages |
| RangeFits.AllocBeyondExNoJump | kernel/kernel/memory.c:449-451 | without a buffer: the contract of `_after` is met exactly where `_after` meets it, and -1 comes only without a slot |
| RangeFits.AllocMultipleBeyondExNoJump | kernel/kernel/memory.c:644-646 | without a buffer a block is answered and registered as `_multiple_after` promises, exactly where that function keeps its promise |
| RangeFits.EmptyBlockRefused | kernel/kernel/memory.c:492-667 | no pages are refused with -1 by each function for blocks, and nothing changes |
| RangeFits.BeyondKeepsOrder | kernel/kernel/memory.c:448-472 | order and strict gaps are kept |
| RangeFits.AllocRegistersOneByte | kernel/kernel/memory.c:345-362 | `length++` registers one byte, never the page |
| RangeFits.AllocMultipleAtExact | kernel/kernel/memory.c:512-539 | the contract is met exactly for occupied blocks and for free ones above the first entry in which no later (empty) entry starts and, behind the last entry, above which the word read through the null link lies |
| RangeFits.AllocMultipleAtKeepsOrder | kernel/kernel/memory.c:512-539 | order is kept; success adds exactly a free block; any other result changes nothing |
| RangeFits.AllocMultipleAfterExact | kernel/kernel/memory.c:541-570 | next free address, exactly the block added, 1 exactly for too little room: met exactly if, where no room is checked, the successor starts at or past the end of the block or nothing is inserted |
| RangeFits.AllocMultipleExExact | kernel/kernel/memory.c:492-510 | a free block at the first gap with room is added, and the caller is not told where; entries stay apart exactly if the stale top is right or the gap is not filled |
| RangeFrees.SplitIs | kernel/kernel/memory.c:683-687 | cutting a block out of an entry removes the block with a slot, and everything from the block on without one |
| RangeFrees.FreeExact | kernel/kernel/memory.c:669-688 | result and removal meet the contract exactly for addresses not below the first entry, not at the start of a later one, and, if allocated, with a slot left |
| RangeFrees.FreeKeepsOthers | kernel/kernel/memory.c:669-688 | when freeing a page leaves all other pages allocated |
| RangeFrees.FreeWithoutSlotLosesTheRest | kernel/kernel/memory.c:683-687 | without a slot the page after the freed one is dropped too |
| RangeFrees.FreeManyExact | kernel/kernel/memory.c:711-735 | the pages are freed and no others, or none if one of them is not allocated; for two or more pages: if all are allocated, exactly if no later entry starts there, a slot is left, and the page after the block is allocated; if not, exactly if the end of the block does not wrap around below the end of the entry found |
| RangeFrees.EmptyEntryDisorders | kernel/kernel/memory.c:683-687 | freeing the last page of an entry leaves an empty entry, and allocating there puts the list out of order |
| RangeFrees.FreeManyOfOneIff | kernel/kernel/memory.c:711-735 | for one page, falling through after `page_virtual_free` changes nothing more, unless the address after the page wraps around |
| RangeSlots.InsertSlots | kernel/kernel/memory.c:318-334 | insertion takes a slot no node lives in |
| RangeSlots.MergedSlots | kernel/kernel/memory.c:372-378 | a join gives no slot back: the bit it clears is not the one insertion set |
| RangeSlots.SlotBits | kernel/kernel/memory.c:318-378 | a join and a free clear the bit that the wrong mask names for the node that goes; an insertion sets the bit of the slot of its node |
| RangeSlots.DoSlots | kernel/kernel/memory.c:345-735 | every call, `page_virtual_alloc` included, keeps nodes in slots of their own, gains no more entries than words of slots it uses up, and gains such a word only when the first node goes |
| RangeSlots.RunKeepsSlots | kernel/kernel/memory.c:345-735 | the same over every run, and each insertion is paid for: those that succeed and what is left never exceed what there was at the start |
| RangeSlots.RunKeepsPages | kernel/kernel/memory.c:364-735 | over runs on page addresses without `page_virtual_alloc` lengths stay whole pages and the first node is kept |
| RangeSlots.InitialBudget | kernel/kernel/memory.c:228-236 | from the state initialisation sets up the list never has more than two entries and at most two insertions ever succeed, at most one on page addresses without `page_virtual_alloc` |
| RangeSlots.TwoInsertions | kernel/kernel/memory.c:345-709 | a run with `page_virtual_alloc` in which two succeed: the first node is unlinked as an entry of one byte and its slot comes back |
| VirtualMap.SafeIsFresh | kernel/kernel/memory.c:318-334 | no insertion into such a list overwrites a live node |
| VirtualMap.VirtualMap.InsertAfter | kernel/kernel/memory.c:318-334 | marking, filling and linking a node is the insertion function |
| VirtualMap.VirtualMap.Join | kernel/kernel/memory.c:372-378 | unlinking the successor and clearing a bit is the merge function |
| VirtualMap.VirtualMap.PageVirtualAlloc | kernel/kernel/memory.c:345-362 | the linked nodes afterwards stand for the function's result |
| VirtualMap.VirtualMap.PageVirtualAllocAt | kernel/kernel/memory.c:364-387 | likewise |
| VirtualMap.VirtualMap.PageVirtualAllocAfter | kernel/kernel/memory.c:389-412 | likewise |
| VirtualMap.VirtualMap.PageVirtualAllocBeyondEx | kernel/kernel/memory.c:448-472 | likewise, including termination of the walk |
| VirtualMap.VirtualMap.PageVirtualAllocMultipleEx | kernel/kernel/memory.c:492-510 | likewise |
| VirtualMap.VirtualMap.PageVirtualAllocMultipleAt | kernel/kernel/memory.c:512-539 | likewise, reading a null successor included |
| VirtualMap.VirtualMap.PageVirtualAllocMultipleAfter | kernel/kernel/memory.c:541-570 | likewise |
| VirtualMap.VirtualMap.PageVirtualAllocMultipleBeyondEx | kernel/kernel/memory.c:640-667 | likewise |
| VirtualMap.VirtualMap.PageVirtualFree | kernel/kernel/memory.c:669-688 | likewise |
| VirtualMap.VirtualMap.FreeRunFrom | kernel/kernel/memory.c:717-735 | likewise |
| Kernel.InvSeparatesFrames | kernel/kernel/memory.c:737-1087 | in a consistent state mapped pages have distinct frames, allocated ones that are no tables |
| Kernel.MapNewFrame | kernel/kernel/memory.c:771-781 | a new frame mapped at an unmapped page: 0 exactly if there are frames for the missing tables, and then only that page changes |
| Kernel.FreeRegisteredIff | kernel/kernel/memory.c:669-688 | freeing inside an unmapped block keeps all mapped pages registered exactly if none behind it is dropped for want of a slot |
| Kernel.FirstStateIff | kernel/kernel/memory.c:188-236 | with unshared tables and an ordered list a state is consistent exactly if no frame of a table is free, the mapped pages have marked frames of their own, and all are on the list |
| ListInit.SettledIs | kernel/kernel/memory.c:194-201 | a call of `page_map` and the loop after it amount to one call for the first page behind the image that is not mapped |
| ListInit.InitIs | kernel/kernel/memory.c:190-236 | success exactly if there are frames for two pages and their tables; then the first two unmapped pages behind the image are mapped to free frames, no other translation changes, and the list has one entry, which ends at the page behind the image, or behind the first of the two if that lay further on |
| ListInit.InitFailsIs | kernel/kernel/memory.c:190-226 | every translation after a failure: the page taken for that of the nodes is unmapped, which may be the last of the image |
| ListInit.InitFailureRestoresIff | kernel/kernel/memory.c:190-226 | a failure leaves every translation as it was exactly if no page was mapped or the page behind the image was mapped before |
| ListInit.InitDraws | kernel/kernel/memory.c:190-226 | the bitmap afterwards, success or not: two frames and one for each missing table are drawn, or all there are; none comes back |
| ListInit.FirstListWords | kernel/kernel/memory.c:228-236 | on success exactly bit 63 of the first word of slots comes to be set |
| ListInit.AllocationPanicsIff | kernel/kernel/memory.c:737-850 | with fit tables, consistent or not, a single-page allocation panics exactly if it gets a frame and a range whose page is mapped |
| ListInit.FirstRequestPanics | kernel/kernel/memory.c:206-236 | the page at which the list ends is mapped and not on it: the state is not consistent, and `page_alloc` and each request answered with that address panic exactly if there is a frame |
| ListInit.RepairedIsConsistent | kernel/kernel/memory.c:228-230 | an entry up to the last page mapped would have made the state consistent |
| ListInit.Settle | kernel/kernel/memory.c:194-201 | the loop computes that function |
| ListInit.ImageSettles | kernel/kernel/memory.c:197-219 | both loops end if two pages behind the image are unmapped |
| ListInit.SetUpList | kernel/kernel/memory.c:190-238 | the code computes the functions above, failures included, and leaves the linked node |
| Handover.HandedIs | bootloader/arch/x86_64/uefi_boot.c:308-333 | under the managed slots exactly the pages of the segments are mapped, to their frames, by unshared tables |
| Handover.KernelStartsConsistentIff | bootloader/arch/x86_64/uefi_boot.c:291-333 | with any list in order the first state is consistent exactly if all tables are marked, the segments have marked frames of their own, and all their pages are on the list |
| Handover.TablesMarkedIff | kernel/kernel/memory.c:114-187 | the bitmap that is built has the tables marked exactly if no clearing loop, halving the first frame of its region, comes across a table |
| Handover.RegionFreesRoot | kernel/kernel/memory.c:157 | a usable region of two pages at twice the number of the PML4 frees the PML4 |
| Handover.RightBitmapFreesTables | bootloader/arch/x86_64/uefi_boot.c:294-327 | the count of used table pages is taken too early: a bitmap as it is meant to be has tables made for the segments free |
| Handover.FirstRequestAfterBootPanics | kernel/kernel/memory.c:188-238 | from the firmware's tables on: when initialisation succeeds, and that it never leaves a consistent state: the first `page_alloc` panics exactly if there is a frame |
| Handover.LongerListIsConsistent | kernel/kernel/memory.c:228-230 | from the firmware's tables on: the longer list makes a consistent start |
| PageRequests.PageAllocConsistentIff | kernel/kernel/memory.c:760-850 | the state stays consistent exactly if no second entry is inserted where one starts, and no failed mapping drops pages behind the page for want of a slot |
| PageRequests.PageAllocPanicsIff | kernel/kernel/memory.c:760-850 | the panic branch is taken exactly if a frame and a slot are left, a non-empty later entry starts at the address, and the page is mapped |
| PageRequests.PageAllocIs | kernel/kernel/memory.c:760-850 | without trouble: the result from the range and from frames against missing tables; success registers and maps exactly the page answered with, free before, to a frame free before; failure changes no translation; 1 only for an allocated page or one below the first entry |
| PageRequests.PageAllocDraws | kernel/kernel/memory.c:760-850 | the bitmap afterwards, whatever the answer: one frame drawn, and one for each missing table if a range was found, or all there are; a refused call loses exactly the frame picked |
| PageRequests.PageAllocRights | kernel/kernel/memory.c:760-850 | the rights of the page allocated come from the tables there before; no other page changes its rights, whatever the answer |
| PageRequests.SlotSpares | kernel/kernel/memory.c:760-850 | a slot left, or a free page behind the one answered with, rules the second kind of trouble out |
| PageRequests.PageFreeIs | kernel/kernel/memory.c:1062-1073 | exactly the page becomes unmapped; when it leaves the list; no frame is given back; the state stays consistent exactly if the page is not below the first entry and no mapped page behind it is dropped |
| PageRequests.SecondPageAllocPanics | kernel/kernel/memory.c:737-758 | after one successful `page_alloc` the next that finds a frame panics |
| Rollback.FreePagesIs | kernel/kernel/memory.c:1074-1087 | `page_free_multiple` unmaps exactly its pages and keeps the frames |
| Rollback.UndoIs | kernel/kernel/memory.c:912-931 | the rollback unmaps the whole block, whatever the list looks like |
| Rollback.MapBlockIs | kernel/kernel/memory.c:918-938 | from any page on: all further pages are mapped to free frames, or no page of the block is mapped and no other translation changes |
| Rollback.FailedAtIs | kernel/kernel/memory.c:918-938 | the loop fails at the first page for which frames for the pages and tables so far do not suffice |
| Rollback.FailureRestoresFramesIff | kernel/kernel/memory.c:912-940 | a failed call leaves the frame bitmap as it was exactly if no frame could be taken or no range was found |
| UndoneLists.UndoneIs | kernel/kernel/memory.c:924-931 | the list after the rollback: which pages of the block go, and exactly when the rest of its entry goes too |
| UndoneLists.OneSlotIsNotEnough | kernel/kernel/memory.c:683-687 | an entry closed by the block, one slot, failure at the third page: a page allocated before the call is dropped |
| BlockRequests.MultipleAtIsAllOrNothing | kernel/kernel/memory.c:912-940 | the result from range and frames; 0: all pages, free before, are registered and mapped to free frames; otherwise every translation is as before; never a panic |
| BlockRequests.MultipleAtDraws | kernel/kernel/memory.c:912-940 | the bitmap afterwards, whatever the answer: no frame drawn if no range was found, otherwise one for each page and each missing table, or all there are; the rollback gives none back |
| BlockRequests.MultipleAtConsistentIff | kernel/kernel/memory.c:912-940 | the state stays consistent exactly if the rollback does not drop a mapped page behind the block |
| BlockRequests.FailureRestoresPagesIff | kernel/kernel/memory.c:912-940 | exactly when a failed call leaves the set of allocated pages as it was |
| BlockRequests.PageFreeMultipleIs | kernel/kernel/memory.c:1074-1087 | all pages unmapped, frames kept, at most the first page taken off the list if a slot is left; consistent exactly if the block is not below the first entry and no mapped page behind it is dropped |
| KernelRuns.RunConsistentIff | kernel/kernel/memory.c:760-1087 | over every proper run the state is consistent throughout exactly if no request makes trouble |
| KernelRuns.RunKeepsInv | kernel/kernel/memory.c:760-1087 | then it is consistent at the end, and no taken frame has become free |
| KernelRuns.RunIsSafe | kernel/kernel/memory.c:760-1087 | after it: no panic, every mapped page registered, its frame allocated, mapped once and no table |
| KernelRuns.NextPanicsIff | kernel/kernel/memory.c:760-1087 | after such a run the next request panics exactly if it is a single-page allocation in the case named |
| KernelRuns.SecondAllocationPanics | kernel/kernel/memory.c:760-781 | two `page_alloc_at` of one page apart from the others, with frames and slots left: the first succeeds, the second panics |
| PageAllocator.PageAllocator.FinishPage | kernel/kernel/memory.c:771-781 | the shared tail computes the function, panic branch included |
| PageAllocator.PageAllocator.PageAllocAt | kernel/kernel/memory.c:760-781 | the code takes the state to the function's result |
| PageAllocator.PageAllocator.PageAllocAfter | kernel/kernel/memory.c:783-804 | likewise |
| PageAllocator.PageAllocator.PageAllocBeyondEx | kernel/kernel/memory.c:829-850 | likewise |
| PageAllocator.PageAllocator.PageAllocMultipleAt | kernel/kernel/memory.c:912-940 | likewise, with its rollback |
| PageAllocator.PageAllocator.PageFree | kernel/kernel/memory.c:1062-1073 | likewise |
| PageAllocator.PageAllocator.PageFreeMultiple | kernel/kernel/memory.c:1074-1087 | likewise |
| Relocation.CopiedIs | bootloader/arch/x86_64/uefi_mem.c:61-64 | the copy loop copies the region and nothing else |
| Relocation.TreeRebasedIs | bootloader/arch/x86_64/uefi_mem.c:66-107 | the nested loops move exactly the present PML4 entries and the present non-large entries of the moved PDPs |
| Relocation.WalkMoves | bootloader/arch/x86_64/uefi_mem.c:66-107 | at every depth the walk from the new root follows the walk from the old one |
| Relocation.RelocationPreservesTranslation | bootloader/arch/x86_64/uefi_mem.c:61-107 | every page translates from the new root as from the old |
| Relocation.ScanCoversTables | bootloader/arch/x86_64/uefi_mem.c:68-111 | the next available page lies in the region and above every moved table that has a present entry |
| Relocation.NextAvailableIsFirst | bootloader/arch/x86_64/uefi_mem.c:68-111 | and it is the first such page |
| Relocation.RelocatedEntries | bootloader/arch/x86_64/uefi_mem.c:66-107 | word by word, every moved entry has the flags of the old one, and its address field is moved exactly if it leads to a table |
| Mirror.MirrorTranslates | bootloader/arch/x86_64/uefi_mem.c:135-149 | mapping_base + p translates as p does, all other pages as before, mapping_base is canonical |
| Mirror.TablesAreReady | bootloader/arch/x86_64/uefi_mem.c:61-149 | afterwards the tables are unshared below unused slots and no page still to be handed out is in use |
| Mirror.SmallTreeIsMovable | bootloader/arch/x86_64/uefi_mem.c:66-107 | a tree that meets what the loops rely on exists |
| BootPages.CountersAgree | bootloader/arch/x86_64/uefi_mem.c:11-15 | however `map_page` goes, next and available move together, in 64 bits |
| BootPages.MapPagesIs | bootloader/arch/x86_64/uefi_mem.c:157-215 | n pages use exactly one page per missing distinct table, used plus available is constant, the pages are mapped and all others left alone |
| BootPages.MapSegmentsIs | bootloader/arch/x86_64/uefi_boot.c:308-327 | the same over all segments: one page for each distinct missing table, and a page that several segments have is mapped as the first of them says |
| BootPages.SegmentsFromSupply | bootloader/arch/x86_64/uefi_mem.c:11-15 | every table installed for a segment lies in the part of the region that was left |
| BootPages.KernelIsFirst | bootloader/arch/x86_64/uefi_boot.c:302-333 | the kernel is told the first address that is not zero and the first page count that is not zero, of one segment only |
| BootRights.RelocationKeepsRights | bootloader/arch/x86_64/uefi_mem.c:61-107 | every page has the same rights from the new root as from the old |
| BootRights.MirrorEntry | bootloader/arch/x86_64/uefi_mem.c:135-149 | the entries read on the paths of the mirror: its PML4 entries are the frame and 3, all others those read on the path mirrored |
| BootRights.InsideMirror | bootloader/arch/x86_64/uefi_mem.c:135-149 | what may be written below may be written in the mirror, and nothing there may be used from user mode |
| BootRights.BootKeepsRights | bootloader/arch/x86_64/uefi_boot.c:291-327 | from the firmware's tables to the mapped kernel: pages mapped before keep their rights, and the pages of the segments may be written and executed, and not used from user mode |
| TableCounts.MissingNext | kernel/arch/x86_64/paging.c:27-67 | mapping one page after the other, each needs exactly the tables no page before it needed |
| TableCounts.NeededBound | bootloader/arch/x86_64/uefi_mem.c:157-215 | the bound (n/512 + 1) + (n/2^18 + 1) + (n/2^27 + 1), quotients rounded up |
| BootMapper.BootMapper.Relocate | bootloader/arch/x86_64/uefi_mem.c:50-118 | the loops, and the counters they set, compute the functions above |
| BootMapper.BootMapper.MirrorMemory | bootloader/arch/x86_64/uefi_mem.c:135-149 | likewise |
| BootMapper.BootMapper.MapPage | bootloader/arch/x86_64/uefi_mem.c:163-215 | likewise; its flags for a PDP differ from the kernel's (Rights.PageMapEntries) |
| BootMapper.BootMapper.MapPages | bootloader/arch/x86_64/uefi_mem.c:157-161 | likewise |
| BootMapper.BootMapper.MapSegments | bootloader/arch/x86_64/uefi_boot.c:308-327 | likewise for the loop over the segments |
| BootMapper.BootKeepsEveryMapping | bootloader/arch/x86_64/uefi_boot.c:291-327 | from the firmware's tables to the mapped kernel, whatever its segments: old translations kept at themselves and in the mirror, the page of each segment mapped, pages used and left add up to the region |
| BootMapper.MirrorOffsetRefusesNothing | kernel/arch/x86_64/paging.c:90 | with the offset the bootloader computes, `page_unmap` refuses no address |
| Numerals.DigitsOfPower | libc/stdio/printf.c:353-358 | dividing down a power above the number yields digits below the base that decode to it |
| Numerals.ScaleTenIs | libc/stdio/printf.c:331-339 | the loop stops at the first power that exceeds the number in 64 bits, or never |
| Numerals.ZeroFrom64 | libc/stdio/printf.c:333-339 | after 64 rounds the power is zero for good |
| Numerals.ScaleTenEndsIff | libc/stdio/printf.c:333-339 | that loop ends exactly for numbers below 10^49 modulo 2^64, the largest power of ten in 64 bits |
| Numerals.DecimalRightIff | libc/stdio/printf.c:331-363 | a 64-bit number comes out right, without leading zeros, exactly if it is below 10^19 |
| Numerals.HexRightIff | libc/stdio/printf.c:482-512 | exactly if it is not 2^60, early top digit and rest taken together |
| Numerals.OctalRightIff | libc/stdio/printf.c:532-567 | exactly if it is not 2^63 |
| Fields.CommasEveryThree | libc/stdio/printf.c:353-363 | without padding the commas separate groups of three counted from the right |
| Fields.CommasRightIff | libc/stdio/printf.c:342-363 | with padding they do so exactly in the cases named |
| Fields.DecimalFieldIs | libc/stdio/printf.c:315-363 | sign, padding, right digits; the width asked for if that is more than sign and digits, but by less than 2^63; unpadded if left-aligned |
| Fields.DecimalStuckIff | libc/stdio/printf.c:331-369 | a decimal conversion gets stuck exactly from 10^19 on if left-aligned, and from that largest power on otherwise |
| Fields.HexFieldIs | libc/stdio/printf.c:468-520 | width likewise; digits together behind the padding exactly if none was printed early or 16 digits fill the field; left-aligned: as many blanks as digits |
| Fields.OctalFieldIs | libc/stdio/printf.c:522-573 | the same, and stuck exactly if left-aligned |
| Printf.ConvertSticksIff | libc/stdio/printf.c:227-650 | exactly which conversions get stuck, and the arguments every one leaves |
| Printf.FormatSticksIff | libc/stdio/printf.c:39-657 | `printf` gets stuck exactly if some conversion of the format does, with the arguments it meets |
| Printf.TameFormatEndsIff | libc/stdio/printf.c:39-657 | with tame arguments every conversion ends exactly if none is `%b` or a left-aligned `%o`, whatever the literal text |
| Printf.ScanReadsBack | libc/stdio/printf.c:53-226 | scanning a written specification, with an asterisk or a precision or not, yields it and stops at its conversion character, whatever follows |
| Printf.OneConversion | libc/stdio/printf.c:44-656 | wherever a written specification stands in a format, what its conversion prints is printed, and then the rest of the format with the arguments left |
| Printed.DecimalPrinted | libc/stdio/printf.c:234-369 | `%d` and `%i` with any flags, width, precision and size print every argument so that it is read back from sign and digits, padded or with commas, but for the negation that overflows |
| Printed.UnsignedPrinted | libc/stdio/printf.c:370-432 | `%u` does for numbers below 10^19 |
| Printed.HexPrinted | libc/stdio/printf.c:433-520 | `%x` and `%X`: prefix, padding and digits, small or capital, from which every number but 2^60 is read back |
| Printed.OctalPrinted | libc/stdio/printf.c:522-573 | `%o` likewise for every number but 2^63; stuck exactly if left-aligned |
| Printed.TextPrinted | libc/stdio/printf.c:634-641 | `%s` prints exactly the characters of its argument, whatever flags and width say |
| Printed.CharPrinted | libc/stdio/printf.c:228-232 | `%c` prints the last byte of its argument |
| Printed.NoArgumentTaken | libc/stdio/printf.c:152-226 | `%%` prints a percent sign, floating-point conversions nothing, and neither takes an argument |
| Printed.NothingPrinted | libc/stdio/printf.c:574-650 | `%n` takes an argument and prints nothing; `%b` is undefined |
| Printed.UnknownDropped | libc/stdio/printf.c:222-226 | a specification that ends in any other character prints nothing and takes no argument |
| Printed.LiteralPrinted | libc/stdio/printf.c:44-52 | other characters are printed as they are; a backslash in front of a percent sign is dropped and the percent sign printed |
| Printf.Printer.PutDecimal | libc/stdio/printf.c:315-369 | the loops print and count the decimal field, or get stuck exactly where the function says |
| Printf.Printer.PutHex | libc/stdio/printf.c:468-520 | likewise, hexadecimal |
| Printf.Printer.PutOctal | libc/stdio/printf.c:522-573 | likewise, octal, with the branch for zero |
| Printf.Printer.ReadSpec | libc/stdio/printf.c:67-226 | the scanning loops compute the scanner function and read nothing beyond the terminator |
| Printf.Printer.Print | libc/stdio/printf.c:39-657 | every round advances; the result is the number of characters printed unless some conversion of the format gets stuck; with tame arguments exactly `%b` and left-aligned `%o` do |

## Left out

- `page_physical_alloc_multiple`: its scan order, counter width, base and marking all miss its description, so a model would be a new algorithm.
- `page_virtual_alloc_beyond`, `page_virtual_alloc_multiple`, `page_virtual_alloc_multiple_beyond`: one test each in front of branches that are modelled.
- `page_virtual_alloc_multiple_after_ex`: walks on through a null successor.
- `page_alloc_multiple` and `page_alloc_multiple_ex`: use `*frame`, which nothing sets.
- `page_alloc_beyond` and the `page_alloc_multiple_after`, `_after_ex`, `_beyond`, `_beyond_ex` functions: pass the address of the caller's variable to `page_map` in place of its value.
- `page_alloc` as code: it is modelled on values, because its one-byte length ends the invariant of the class.
- KernelRuns.RunConsistentIff: the requests of a run are those whose answer lies at a page under the managed slots; `page_alloc`, after which no list is paged, is not among them (PageRequests.SecondPageAllocPanics).
- BitmapInit.BitmapContractIff: asks that usable regions end at or below 4 GiB, where the bitmap ends; for the others BitmapInit.WritesPastIff says which are written for past it.
- Relocation.RelocationPreservesTranslation: asks that PML4, PDPs and page directories lie in the copied region and no PDP is shared, on which the in-place loops rely; CR3 is page-aligned; the copy goes word by word.
- The result of `page_virtual_free_multiple`: no caller reads it, and on one path there is none.
- The search of `init_virtual_mapping` for the two memory regions: they are parameters of the model.
- The recursive mapping, the write to the old tables' entry, CR3 loads, the terminal output of the mapper: unused or hardware.
- `page_map_in_table`, `page_map_set`: exchange the root only.
- ListInit.SetUpList: the nodes and the slot bitmap are arrays of their own; that the nodes are written to the last page of the image, if nothing is mapped behind it, and the slot bitmap to a physical address, does not show in memory.
- ListInit.InitIs: asks that the image lies above the mirror and that the pages it comes to lie below 2^64 and under managed slots.
- What a write past the end of the frame bitmap hits.
- Floating-point conversions print nothing in the code and here; the store of `%n` is dropped.
- Printed.DecimalPrinted: with the apostrophe and padding both, where most separators are misplaced, it leaves the text to Fields.DecimalFieldIs; which of them are right is Fields.CommasRightIff.
- Printed.UnsignedPrinted: from 10^19 on the digits are wrong (Numerals.DecimalRightIff), and which come out is not said.
- A `printf` count beyond the range of `int`.
- `kmalloc`, `kfree`, descriptor tables, serial port, terminal and framebuffer.
