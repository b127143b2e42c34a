# Verified model of the neobird64 kernel core

neobird64 is a small x86_64 kernel written in C. This project models the parts of it where a mistake
is silent and total, and proves what those parts promise:

- **Physical memory** (`Pmm.dfy`, `PmmRuns.dfy`, `PmmCount.dfy`): the first-fit bitmap allocator, its
  construction from the boot memory map, and who holds which block over any interleaving of calls.
- **Paging** (`Paging.dfy`, `Vmm.dfy`, `Accounting.dfy`, `VmmRuns.dfy`, `VmmInit.dfy`,
  `VmmTables.dfy`, `VmmLayout.dfy`, `VmmRegions.dfy`, `VmmImage.dfy`): the four-level page tables built in allocator
  blocks. `Paging.Walk` is the processor's walk over raw memory words (Intel SDM Vol. 3A, sections 4.5 and 4.6). `Paging.Forest` is the shape the kernel keeps.
  Every contract about translations is a statement about `Walk`.
- **Memory boot** (`Boot.dfy`): the allocator's and the page tables' initialisation as one run.
- **Interrupt routing** (`Madt.dfy`, `MadtRecords.dfy`, `IoApic.dfy`, `Routing.dfy`): from the bytes of
  the ACPI MADT (ACPI Specification 6.x, section 5.2.12) to the registers of the I/O APIC (Intel 82093AA
  datasheet, sections 3.1 and 3.2).
- **PM-timer delay** (`PmTimer.dfy`), **text output** (`Console.dfy`) and **keyboard state** (`Ps2.dfy`).
- `Bits.dfy` defines `&`, `|`, `<<` and `>>` on natural numbers bit by bit and proves the arithmetic that
  masks, flags and bitmaps rely on. Words are naturals with explicit widths; wrap-around and truncation
  are written out wherever the C code can reach them.

The kernel's global objects are classes with the fields the kernel updates (`BlockAllocator`, `PageTables`,
`InterruptSources`, `Device`, `Terminal`, `Keyboard`). Physical memory, the bitmap, the register file and the
digit buffer are arrays changed in place. `log_panic` never returns in the kernel; here it is the
outcome `halted`. `PageTables.tables` is a ghost map from a table's place in the tree to the block
holding it.

Verify everything with `dafny verify dfyconfig.toml`.

## What the code does not do

These properties one might expect are false of the code; each is proved with its exact condition.

- `vmm_free_page` on a page that is not mapped "frees" block 0: the next allocation answers NULL although
  blocks are free, and block 0 is lost. This happens exactly when the entry's address field is 0 (`NullFreed`,
  `FreeThenAlloc`). More generally a freed frame keeps the tables reserved exactly when it was not itself a
  table (`FreePage`).
- The allocator searches only as many blocks as usable memory has in total (`SearchLimitIsCount`), so usable
  memory whose block numbers lie above that, because of holes below, is never handed out (`HandedOutIff`).
- `pmm_init` runs while `hhdmoffset` is still 0, so its pointer to the bitmap is a physical address. After
  `vmm_init` it goes on working exactly when the bitmap lies in [0x1000, 2^32) (`BitmapPointer`).
- The loops over memory-map entries leave out the last block of an entry whose base and length carry
  (`ReachesAllIff`). The boot protocol aligns usable and bootloader-reclaimable memory only; the mapping loops
  also visit framebuffers and ACPI tables, and for those it can happen (`EntryShownIff`). There an unaligned
  base also adds its low bits to the flags (`HigherHalfMapped`).
- For usable memory the promise of whole pages is needed: without it `pmm_init` would free memory outside the
  entry (`ReachesInsideIff` is the boundary of that assumption).
- `physical_addr | flags` can be read back only for an aligned 52-bit address and flags outside the address
  field (`EntryFields`).
- The masking loop, whose comment says it masks all pins, leaves the last entry alone (`LastEntryLeftOut`), and
  wraps onto the device's first registers for an entry count above 120 (`MaskingStaysInTable`).
- `pmt_delay` can end, with its delay not cut short, exactly up to 4686968 microseconds (`LongestDelay`). Beyond
  that the target is out of the counter's reach (`CanEndIff`) or, once the product leaves 64 bits
  (`TargetExactIff`), wrapped and possibly far too small (`WrappedDelay`).
- The MADT parser never ends on a record of length 0 (`TerminatesIff`). If that record is one to be kept it also
  writes past the end of `ics_array`, and if not the array index stays put (`StuckIndexIff`). The parser ends
  inside the array exactly on tables with no such record and at most 64 to keep (`ParserSafeIff`).
- `ascii_table` is shorter than its guard; for codes 0x3B to 0x58 the text printed depends on the memory after it
  (`TextDefinedIff`).
- `toupper` has no case for `q`: letters typed under shift or caps come out as capitals exactly when none of
  them is q (`CapitalsIff`, `LetterIff`, `ShiftQ`). Keys that are no letters type the same under shift (`Typed`).
- `{d}` and `{i}` are documented as integers but print the 64-bit pattern unsigned, which is the signed numeral
  exactly for values below 2^63 (`PrintsSignedIff`). `{l}` is not a specifier: like any other character it may
  stand anywhere in a group without effect (`NoSpecifier`, `LongIsPlain`).

## Model

| member | source | states |
|---|---|---|
| Pmm.BlockAllocator.MmapSet | kern/mm/pmm.c:27-29 | sets exactly one bit of the bitmap |
| Pmm.BlockAllocator.MmapTest | kern/mm/pmm.c:31-33 | reads that bit |
| Pmm.BlockAllocator.MmapUnset | kern/mm/pmm.c:35-37 | clears exactly one bit |
| Pmm.BlockAllocator.FindFreeBlock | kern/mm/pmm.c:47-57 | the least clear bit of the searched prefix; the failure value exactly when there is none |
| Pmm.BlockAllocator.Alloc | kern/mm/pmm.c:59-68 | answer and new bitmap are the first-fit specification |
| Pmm.AllocTakesLeast | kern/mm/pmm.c:47-68 | an allocation removes the least free block and no other; NULL means exhaustion or block 0; the free count drops by one |
| Pmm.BlockAllocator.Free | kern/mm/pmm.c:70-72 | exactly the block of the address becomes free |
| Pmm.BlockAllocator.Init | kern/mm/pmm.c:74-135 | every bit of the memory behind the bitmap: used if reserved or in no usable entry, free otherwise, untouched beyond the filled prefix |
| Pmm.BlockAllocator.ClearEntry | kern/mm/pmm.c:124-126 | the loop over one entry frees exactly the blocks it reaches |
| PmmRuns.Conservation | kern/mm/pmm.c:47-72 | over any allowed run, held and free blocks are disjoint and together the initially free blocks, less block 0 once lost |
| PmmRuns.FreeCount | kern/mm/pmm.c:47-72 | the count form of conservation |
| PmmRuns.NoDoubleHandout | kern/mm/pmm.c:59-72 | two allocations with the same answer have a free of that block between them |
| PmmRuns.IncreasingAnswers | kern/mm/pmm.c:47-68 | allocations with no free between them answer strictly increasing addresses |
| PmmRuns.Block0Taken | kern/mm/pmm.c:92-133 | with a sorted memory map block 0 is never free, so NULL means exhaustion |
| PmmRuns.AllocatorSafety | kern/mm/pmm.c:59-133 | whatever is held lies wholly inside a usable entry, in the searched prefix, outside the reservation; nothing is lost |
| PmmRuns.HandedOutIff | kern/mm/pmm.c:47-133 | a block can be handed out by some run iff it is usable, unreserved and below the search limit |
| PmmRuns.StorageReservedIff | kern/mm/pmm.c:27-37 | the byte of a bit lies in the reserved run exactly below 32768 bits per reserved block |
| PmmRuns.BitmapNeverHandedOut | kern/mm/pmm.c:117-133 | no block handed out overlaps the bitmap's storage |
| PmmRuns.ReachesInsideIff | kern/mm/pmm.c:124-126 | the loop frees only memory of its entry iff the entry is whole pages |
| PmmRuns.ReachesAllIff | kern/mm/pmm.c:124-126 | the loop reaches all blocks of its entry iff the page offsets do not carry |
| PmmCount.UsableCount | kern/mm/pmm.c:84-90 | for whole-page entries that do not overlap, the bytes counted are 4096 for each usable block |
| PmmCount.SearchBounds | kern/mm/pmm.c:111-133 | 4096 bytes per searched block are at most the usable bytes, and eight blocks more are too many; one block in eight is reserved |
| PmmCount.SearchLimitIsCount | kern/mm/pmm.c:84-111 | the search limit is the number of usable blocks rounded down to a multiple of 8 |
| PmmCount.BitmapStart | kern/mm/pmm.c:92-133 | the reserved run starts at the first usable entry |
| Paging.LinkFacts | kern/mm/vmm.c:153 | an entry for a lower table is present, not a large page, restricts no right, and gives back its block |
| Paging.EntryFields | kern/mm/vmm.c:184 | address and flags survive being or-ed together iff they occupy separate fields |
| Paging.MappedEntry | kern/mm/vmm.c:184 | the processor reads such an entry as exactly that frame, those flags and their rights |
| Paging.IndicesIdentifyPage | kern/mm/vmm.c:159-161 | two addresses share all four table indices iff they are in the same page |
| Paging.WalkReadsLeaf | kern/mm/vmm.c:143-191 | on any tables of the kernel's shape the processor's walk of any address is its last-level entry, with that entry's own rights |
| Paging.AddTable | kern/mm/vmm.c:147-153 | linking a zeroed unused block keeps the shape and changes no translation |
| Paging.SetLeaf | kern/mm/vmm.c:184 | writing a last-level entry keeps the shape and changes one page |
| Paging.ForestFrame | kern/mm/vmm.c:143-203 | a page map's translations do not depend on memory outside its own tables |
| Vmm.ShiftedIndices | kern/mm/vmm.c:159-161 | the shift-and-mask indices are the processor's |
| Vmm.PageTables.GetLowerTable | kern/mm/vmm.c:143-156 | existing table found or a fresh one linked; halts iff one is needed and the allocator answers NULL; no translation changes |
| Vmm.PageTables.GetPt | kern/mm/vmm.c:158-176 | all three tables above the page exist afterwards; halts iff the missing ones outnumber the free blocks |
| Vmm.PageTables.MapPage | kern/mm/vmm.c:178-191 | the walk of every address in the page gives the new entry, every other walk is unchanged, only missing tables on the path are made, each in a formerly free block, and no one else's memory is written |
| Vmm.PageTables.FreePage | kern/mm/vmm.c:193-203 | the page faults, every other walk is unchanged, exactly the entry's frame is freed; table blocks stay reserved iff the frame was no table |
| Vmm.PageTables.InitRoot | kern/mm/vmm.c:42-63 | an empty tree in a freshly allocated block |
| Accounting.TableCount | kern/mm/vmm.c:143-176 | tables needed by a set of pages: one per distinct prefix at each level |
| VmmTables.RangePages | kern/mm/vmm.c:81-127 | the iterations of one mapping loop touch exactly the contiguous pages from its first |
| VmmTables.RangeTables | kern/mm/vmm.c:81-127 | closed form for the tables and blocks one mapping loop takes from an empty tree |
| VmmTables.IdentityTables | kern/mm/vmm.c:125-127 | the identity map, run from an empty root, leaves 2054 tables and takes exactly 2053 blocks |
| VmmTables.PagesCovered | kern/mm/vmm.c:81-131 | the pages all loops together touch are those some loop covers |
| VmmTables.BootNeeds | kern/mm/vmm.c:41-131 | no boot can be afforded with fewer than 2054 free blocks |
| VmmRuns.Run | kern/mm/vmm.c:143-203 | over any sequence of maps and careful frees: valid at every stop, translations are the fold of the operations, tables are exactly those of the touched pages, blocks are conserved, and with enough free blocks it completes |
| VmmRuns.ExactTables | kern/mm/vmm.c:143-176 | from an empty PML4, tables and blocks consumed equal the distinct prefixes touched |
| VmmRuns.EnoughLeft | kern/mm/vmm.c:147-150 | if the blocks suffice for the whole run, no operation of it runs out |
| VmmRuns.AllocMapFree | kern/mm/vmm.c:178-203 | allocate, map, unmap: translations restored, frame free again, used blocks grown by the new tables only; fails iff the blocks do not suffice |
| VmmRuns.OtherMapsUntouched | kern/mm/vmm.c:178-203 | mapping and unmapping through one page map keeps every other page map's shape and translations |
| VmmRuns.NullFreed | kern/mm/vmm.c:195-197 | the next allocation fails with blocks free iff block 0 was freed; it loses block 0, and the one after it fails only if nothing else is free |
| VmmRuns.FreeThenAlloc | kern/mm/vmm.c:193-203 | unmapping a page and allocating: NULL with blocks free iff the entry's address field was 0, as for an unmapped page; then every other block is as before |
| VmmInit.FlagValues | kern/mm/vmm.c:82-131 | the flag words of the loops are the bitwise or of the flags named there |
| VmmInit.MapRange | kern/mm/vmm.c:88-90 | a mapping loop performs exactly its iterations, in order |
| VmmInit.LastWriterWins | kern/mm/vmm.c:81-131 | all loops together leave for each page the entry of the last loop covering it |
| VmmInit.Init | kern/mm/vmm.c:41-131 | after success every address translates by the last loop covering its page; exact table accounting; succeeds iff there is an offset and the free blocks suffice; blocks in use before are never written |
| VmmLayout.MappedIff | kern/mm/vmm.c:81-131 | an address translates iff some loop covers its page |
| VmmLayout.IdentityMapped | kern/mm/vmm.c:125-127 | pages of [0x1000, 2^32) map to themselves, writable, not executable |
| VmmLayout.HigherHalfMapped | kern/mm/vmm.c:81-107 | listed physical memory is found at the higher-half offset, writable, with the flags of the last loop there and those an unaligned base adds |
| VmmLayout.EntryCovers | kern/mm/vmm.c:86-107 | a byte is covered by a listed entry's loop iff the loop reaches its page |
| VmmLayout.EntryShownIff | kern/mm/vmm.c:86-107 | all of a listed entry is covered iff the page offsets do not carry |
| VmmLayout.SectionMapped | kern/mm/vmm.c:110-123 | kernel sections translate to their load address with their own rights |
| VmmLayout.LapicMapped | kern/mm/vmm.c:131 | the local APIC's page is mapped writable |
| VmmRegions.PhysicalMemory | kern/mm/vmm.c:81-131 | with the loader's layout, a physical byte is visible in the higher half iff a loop over physical memory covers it, whatever the other loops do |
| VmmRegions.LowPages | kern/mm/vmm.c:81-131 | below the higher half there is the identity map of [0x1000, 2^32) and nothing else |
| VmmRegions.Gap | kern/mm/vmm.c:81-131 | between mapped physical memory and the kernel image every address faults |
| VmmRegions.ImagePage | kern/mm/vmm.c:110-123 | a section's page keeps its load address and rights unless a later section shares it |
| VmmImage.TextPage | kern/mm/vmm.c:110-113 | every byte of the kernel's text: load address, present only, so not writable and executable |
| VmmImage.RodataPage | kern/mm/vmm.c:115-118 | every byte of read-only data: load address, neither writable nor executable |
| VmmImage.DataPage | kern/mm/vmm.c:120-123 | every byte of data: load address, writable and not executable, whatever else is on the page |
| VmmImage.ImageIff | kern/mm/vmm.c:110-131 | from the image's base on, an address translates iff its page has a byte of a section |
| VmmImage.VisibleIff | kern/mm/vmm.c:81-131 | a physical byte is visible in the higher half iff its page is the bitmap's, the local APIC's or of an entry of kind 0, 2, 5 or 7 |
| VmmImage.EntryRights | kern/mm/vmm.c:86-107 | pages of kinds 0, 2 and 5 are writable and executable, of kind 7 writable and not executable |
| VmmImage.BitmapRights | kern/mm/vmm.c:81-83 | pages of the bitmap outside all entries are writable and executable |
| VmmRegions.BitmapPointer | kern/mm/pmm.c:25-118 | the bitmap stays reachable through its physical-address pointer iff it lies in [0x1000, 2^32) |
| Boot.BootMemory | kern/kern.c:63-68 | `pmm_init` then `vmm_init`: completes iff there is an offset and the memory map leaves blocks for all tables; translations, blocks left, and the bitmap's storage never written |
| Madt.InterruptSources.GetMadtTables | kern/sys/acpi/apic.c:57-98 | the array holds in order exactly the entries to keep; the I/O APIC address is the last one |
| Madt.InterruptSources.FindGsi | kern/sys/acpi/apic.c:160-172 | the first override of the pin, else the pin |
| Madt.TerminatesIff | kern/sys/acpi/apic.c:61-97 | the loop ends iff no record it reaches has length 0, which is what the parser's contract asks for |
| Madt.StuckIndexIff | kern/sys/acpi/apic.c:61-97 | on a record of length 0 the array index leaves every bound iff the record is one that is kept |
| Madt.ParserSafeIff | kern/sys/acpi/apic.c:47-97 | the loop ends inside the 64-entry array iff the records are well formed and at most 64 are kept |
| MadtRecords.ParseTable | kern/sys/acpi/apic.c:57-98 | for every encoded record list, what is kept, the I/O APIC address and the route of every pin are those of the records |
| IoApic.Device.Read | kern/sys/acpi/apic.c:101-105 | select, then read the window |
| IoApic.Device.Write | kern/sys/acpi/apic.c:107-111 | select, then write the window; read-only registers keep their value |
| IoApic.Device.ConfigureEntry | kern/sys/acpi/apic.c:154-158 | both halves of one entry, with the 8-bit register number |
| IoApic.Device.MaskAll | kern/sys/acpi/apic.c:219-222 | every register after the masking loop, for any value of bits 23 to 16 of register 1 |
| IoApic.MaxEntry | kern/sys/acpi/apic.c:220 | the shift and mask read bits 23 to 16 of register 1 |
| IoApic.HitIff | kern/sys/acpi/apic.c:220-222 | the registers the loop writes: 0x10 + 2i and 0x11 + 2i as eight bits for the entries below the bound, except the read-only registers 1 and 2 |
| IoApic.ConfiguredEntry | kern/sys/acpi/apic.c:154-158 | the entry configured reads back as the 64-bit value, every other register keeps its value |
| Routing.InitApic | kern/sys/acpi/apic.c:202-227 | every register after parse, mask and keyboard routing, for any table |
| Routing.EndToEnd | kern/sys/acpi/apic.c:160-227 | from a record list: the entry pin 1 is routed to is 33, other entries below bits 23 to 16 of register 1 are 0x10000, the rest is unchanged |
| Routing.InitRecords | kern/sys/acpi/apic.c:202-227 | the same of the run itself, on the bytes of any record list |
| Routing.LastEntryLeftOut | kern/sys/acpi/apic.c:220-222 | all entries are masked iff the last one was masked before |
| Routing.MaskingStaysInTable | kern/sys/acpi/apic.c:220-222 | masking stays in the redirection table iff the count is at most 120 |
| PmTimer.PmtDelay | kern/sys/acpi/acpi.c:106-119 | returns at the first poll with the time elapsed, within one poll gap of it |
| PmTimer.DifferenceIsElapsed | kern/sys/acpi/acpi.c:116 | the masked difference is the elapsed time modulo 2^24 for 24- and 32-bit counters |
| PmTimer.ExitMeansElapsed | kern/sys/acpi/acpi.c:115-117 | leaving the loop implies the time truly passed, across wraps |
| PmTimer.CanEndIff | kern/sys/acpi/acpi.c:115-117 | the loop can end iff the target is below 2^24 |
| PmTimer.TargetExactIff | kern/sys/acpi/acpi.c:112 | the target is exact iff the product fits 64 bits |
| PmTimer.LongestDelay | kern/sys/acpi/acpi.c:112-117 | for every argument: the delay can end and is not cut short iff it is at most 4686968 microseconds |
| PmTimer.WrappedDelay | kern/sys/acpi/acpi.c:112-117 | a delay of 59 days whose wrapped target is 2 ticks |
| Console.NumeralRoundTrip | kern/include/video.c:15-151 | the text of a number reads back as it, without leading zeros |
| Console.WordDigits | kern/include/video.c:15-94 | at most 20 decimal or 16 hexadecimal digits |
| Console.Terminal.FillDigits | kern/include/video.c:20-34 | the digit buffer holds the digits; the early return is never taken |
| Console.Terminal.PrintInt | kern/include/video.c:15-73 | appends the decimal numeral |
| Console.Terminal.PrintHex | kern/include/video.c:75-151 | appends the hexadecimal numeral |
| Console.Terminal.Printf | kern/include/printf.c:44-109 | appends what the format interpreter specifies |
| Console.InterpretEncoded | kern/include/printf.c:50-103 | any list of literals and specifier groups is written as the sequence of its meanings |
| Console.FormatMeaning | kern/include/printf.c:50-103 | every format whatever is such a list, possibly with an unclosed last group, and is written so |
| Console.ArgumentsUsed | kern/include/printf.c:63-99 | exactly one argument per k, d, i, s, c or x inside braces |
| Console.NumeralIff | kern/include/video.c:15-151 | the text of a number is the only one of digits without leading zero that reads as it |
| Console.PrintsDecimal | kern/include/printf.c:71-74 | `{d}` and `{i}` write the decimal numeral of the argument |
| Console.PrintsHexadecimal | kern/include/printf.c:83-85 | `{x}` writes the hexadecimal numeral |
| Console.PrintsText | kern/include/printf.c:65-82 | `{s}` and `{k}` write the string, `{c}` the low byte's character, `{n}` a line end |
| Console.PrintsSignedIff | kern/include/printf.c:71-74 | what `{d}` or `{i}` writes is the signed numeral iff the value is below 2^63 |
| Console.NoSpecifier | kern/include/printf.c:63-99 | a character that is no specifier changes nothing wherever it stands in a group |
| Console.LongIsPlain | kern/include/printf.c:63-99 | `{ld}` means what `{d}` means |
| Ps2.Keyboard.Translate | kern/sys/ps2/ps2.c:81-107 | character and state change of one code |
| Ps2.Keyboard.Handle | kern/sys/ps2/ps2.c:110-133 | state and text after one interrupt |
| Ps2.Keyboard.Run | kern/sys/ps2/ps2.c:110-133 | state and text after any run of interrupts |
| Ps2.StateIsMode | kern/sys/ps2/ps2.c:81-121 | caps iff an odd number of caps-lock presses; shift iff an even number and the last modifier code was shift pressed |
| Ps2.Typed | kern/sys/ps2/ps2.c:63-107 | in any state a code types its key of the US layout, as a capital iff shift or caps is on and it is a letter other than q |
| Ps2.TypedBeyond | kern/sys/ps2/ps2.c:81-97 | a code in the gap types what the memory after the table holds |
| Ps2.LetterIff | kern/sys/ps2/ps2.c:81-133 | over any run, a letter adds its capital iff caps or shift was on and it is not q, otherwise the small letter |
| Ps2.PlainText | kern/sys/ps2/ps2.c:63-133 | a run without modifier codes types its keys |
| Ps2.TextDefinedIff | kern/sys/ps2/ps2.c:63-84 | a run's text is independent of memory after the table iff no code falls in the gap |
| Ps2.CapitalsIff | kern/sys/ps2/ps2.c:102-103 | over any run, all letters typed under shift or caps are capitals iff none is q |
| Ps2.ShiftQ | kern/include/video.c:153-210 | shift and q print a small q |

## Left out

- Inline assembly, CR3 reloads and TLB effects, interrupt flags, MSRs and port I/O; devices appear as a register array, a clock and a scancode stream.
- Boot requests and responses; the memory map, the kernel's addresses and the higher-half offset are inputs. Only the missing higher-half offset is modelled as a halt.
- The bitmap is an array of its own rather than a window of physical memory. That nothing else uses that window is proved: its blocks are never handed out (`BitmapNeverHandedOut`) and building the page tables writes none of them (`BootMemory`).
- `memset` is the loop over words or bytes it amounts to.
- GDT and IDT packing, interrupt stubs, SMP start-up, LAPIC calibration and `apic_sleep`, ACPI table search and string helpers: straight-line code or simple scans.
- `pmm_free_blocks`, `pmm_usable_top` and `kernel_pml4addr`: computed and not used.
- Init: VmmInit.Init asks for ranges of at most 2^36 pages; a longer one would wrap around the 48-bit address space, and the C loop variable with it.
- MmapSet: bit numbers are C `int`s, so block numbers from 2^31 on are not modelled.
- GetMadtTables: asks for a zeroed array, as its single caller implies, and for the records on which the C loop ends inside the array (`ParserSafeIff`); reads past the end of the table are not modelled.
- Write: status bits of redirection entries that the device maintains itself are not modelled.
- PmtDelay: asks for polls with a bounded gap, because the loop need not end otherwise; `ExitMeansElapsed` needs no such bound.
- Translate: asks that caps lock is not pressed in the caps state, a case its only caller has handled before.
- Printf: formats whose arguments are missing or of another type are undefined in C and excluded.
- FreePage: asks that the frame's bit lie in the memory behind the bitmap; the C code writes wherever the bit falls.
