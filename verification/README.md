# spiky-os kernel core in Dafny

A model of the memory-management and device-support core of the spiky-os
x86-64 kernel (Rust), with proofs about it. It covers:

- **Physical frames.**
  - The bump frame allocator. The kernel carries three identical copies of it: `BumpFrameAllocator`, the arch crate's `BumpAllocator` and `BootInfoFrameAllocator`.
  - The bitmap "buddy" frame allocator: coalescing the boot memory map into a one-page entry table, per-entry usage bitmaps, first-fit range allocation, deallocation and page accounting.
  - The memory-size sums printed at boot.
- **Arch memory manager.** The optional mapper and allocator, `map`, `allocate_frames`, `phys_to_virt`, and the 1 MiB kernel-heap mapping.
- **Devices.**
  - The CMOS real-time clock's register decoding and Unix-time arithmetic.
  - IO-APIC legacy IRQ routing, including interrupt source overrides.
- **Pixels.**
  - Colours (`0xAARRGGBB` split into bytes, pixel formats, grey, intensity) and the older RGB-only colour.
  - Points and rectangles of both framebuffer drivers. kernel/src/devices/framebuffer/geometry.rs and kernel/src/drivers/framebuffer/geometry.rs carry the same `Point` and the same `intersection`, but different `Rect::new`: the devices copy sets `max` to `x + width` (`Geometry.NewExclusive`), the drivers copy asserts a positive size and sets `max` to `x + width - 1` (`Geometry.NewInclusive`). Each row cites the copy whose code its member models; where the code is the same, either copy serves.
  - The `drivers::framebuffer` pixel and region fills.
- **Text consoles.**
  - The 9x16 glyph console of `devices::display` and of the arch crate.
  - The cell-based `framebuffer::Writer`.
  - The display logger, which draws log text through `devices::framebuffer`.

Every operation is a pure function over immutable datatypes, or a method whose
loop is proved equal to one. The model represents the source's behaviour as follows:

- **Panics.** A debug-build panic (a failed `unwrap`, an out-of-range slice or
  index, an arithmetic overflow the source leaves unchecked, `unimplemented!`)
  is the `Panic(message)` case of `Common.Outcome`.
- **Memory writes.** A write to memory the model does not hold is returned as
  data rather than performed:
  - the pages `allocate_range` zeroes;
  - the framebuffer calls the logger makes.
- **Hidden inputs.** Hardware and code that cannot be seen become parameters:
  - the CMOS register values;
  - the font bitmaps;
  - the behaviour of the x86_64 crate's `map_to`.

Products of two variables go through `PixelWrites.Times`, `Quot` and `Rem`, which
are proved equal to `*`, `/` and `%` (`TimesIsProduct`, `QuotRem`). This keeps the
solver away from non-linear arithmetic. `TextWriter.Corner(n, size)` is
`column * CHARACTER_WIDTH` (or `line * CHARACTER_HEIGHT`).

## Model

| member | source | states |
|---|---|---|
| Common.ContainingFrame | kernel/src/memory/bump.rs:24 | the frame of an address is 4 KiB aligned and contains the address |
| Regions.UsableRegions | kernel/src/memory/frame_allocator.rs:118-122 | the filtered map holds only Usable regions of the map, and every Usable region of the map |
| Regions.UsableRegionsAppend | kernel/src/memory/frame_allocator.rs:118-122 | filtering a concatenation filters each part and concatenates, and a single region is kept exactly when it is Usable, so the filter keeps the order and multiplicity of the map |
| Regions.AvailableMemoryIsUsablePart | arch/src/amd64/memory/mod.rs:20-24 | the arch crate's Usable-only byte sum never exceeds the kernel crate's all-region sum (kernel/src/memory/mod.rs:9), and equals it exactly when every other region is empty |
| Bump.StepFramesClosedForm | kernel/src/memory/bump.rs:22-24 | a region yields ceil((end - start) / 4096) frames; frame k is the page holding start + 4096k, and that address is below end |
| Bump.Init | kernel/src/memory/bump.rs:13-15 | a new allocator keeps the map and starts its counter at zero |
| Bump.AllocateFrame | kernel/src/memory/bump.rs:29-33 | returns a frame exactly while the counter is below the number of usable frames; the frame is one of them; the counter always advances by one |
| Bump.DeallocateFrame | kernel/src/memory/bump.rs:37-39 | freeing a frame always panics |
| Bump.DrawManyIsIndexing | arch/src/amd64/memory/bump.rs:29-33 | n successive allocations return the usable frames at positions next, next + 1, ... in map order, then None |
| Bump.ExhaustionIsPermanent | kernel/src/memory/mod.rs:59-64 | once an allocation returns None, every later one does too |
| Bump.UsableFramesInUsableRegions | kernel/src/memory/bump.rs:18-25 | every frame handed out is page aligned and lies between the page of some Usable region's start and that region's end |
| Bump.UsableFramesDistinct | kernel/src/memory/bump.rs:18-25 | when the Usable regions are page aligned and disjoint, no frame is handed out twice |
| Bump.UsableFramesOfUsableRegions | kernel/src/memory/bump.rs:18-25 | the usable frames are the frames of the Usable regions as the frame allocator's usable_regions filter selects them, region by region in map order |
| FrameAllocator.UsagePagesBounds | kernel/src/memory/frame_allocator.rs:169-171 | the pages reserved for the bitmap never exceed the entry, give at least one byte per page (more than the one bit needed), and are at least one for a non-empty entry |
| FrameAllocator.BitsDecode | kernel/src/memory/frame_allocator.rs:249-258 | bit j of the packed bitmap bits starting at a page is set exactly when page from + j is in use |
| FrameAllocator.BitmapByteDecode | kernel/src/memory/frame_allocator.rs:249-258 | bit page % 8 of bitmap byte page / 8 is the usage of the page |
| FrameAllocator.TableRegion | kernel/src/memory/frame_allocator.rs:22-35 | the entry table goes in the first usable region of at least one page; None exactly when there is no such region |
| FrameAllocator.MergeRegion | kernel/src/memory/frame_allocator.rs:63-81 | a region is absorbed by the first slot it is adjacent to (before or after) or that is empty; that slot grows by the region's size; the other slots are unchanged; a region no slot takes is dropped |
| FrameAllocator.Placed | kernel/src/memory/frame_allocator.rs:50-61 | a region is skipped exactly when it is the table region and exactly one page long; otherwise its bytes, less the table's page for the table region, are placed |
| FrameAllocator.MergeRegionCovers | kernel/src/memory/frame_allocator.rs:63-81 | merging keeps every covered byte, adds only the region's bytes, covers the whole region when a slot takes it, and keeps each slot's start_virt equal to the phys offset plus start_phys (or null at physical 0) |
| FrameAllocator.PlaceRegionsLayout | kernel/src/memory/frame_allocator.rs:50-82 | when the slots cover only placed bytes of the regions already merged, the rest of the placement loop leaves them covering only placed bytes, loses no covered byte, keeps start_virt in the direct mapping, and, when no region is dropped, covers every placed byte of the remaining regions |
| FrameAllocator.FewRegionsAllTaken | kernel/src/memory/frame_allocator.rs:63-81 | with no more Usable regions than the 102 slots, some slot takes every placed region |
| FrameAllocator.PlacedAvoidsTablePage | kernel/src/memory/frame_allocator.rs:50-61 | with non-overlapping Usable regions no placed byte lies in the table region's first page |
| FrameAllocator.EntriesAvoidTablePage | kernel/src/memory/frame_allocator.rs:50-61 | entries whose bytes are all placed bytes avoid the table region's first page |
| FrameAllocator.AbsorbCovers | kernel/src/memory/frame_allocator.rs:64-73 | a slot that absorbs an adjacent region covers exactly its old bytes and the region's bytes |
| FrameAllocator.BuildEntry | kernel/src/memory/frame_allocator.rs:85-92 | a built entry keeps its slot's addresses and size, satisfies the entry invariant, and marks exactly its first usage_pages pages used, with used = skip = usage_pages |
| FrameAllocator.New | kernel/src/memory/frame_allocator.rs:14-95 | construction panics exactly when no usable region holds a page or the table address is null; otherwise the table sits at the first such region, has 4096 / 40 = 102 entries, every entry satisfies the invariant, has used = skip = usage_pages, and has exactly its first usage_pages pages in use; the entries' bytes are laid out as NewLayout states |
| FrameAllocator.NewLayout | kernel/src/memory/frame_allocator.rs:14-95 | every byte of every entry comes from a Usable region and is outside the table region's first page; each entry's start_virt is the phys offset plus start_phys (or null for an entry at physical 0); with at most 102 Usable regions every such Usable byte lies in some entry |
| FrameAllocator.NewAvoidsTablePage | kernel/src/memory/frame_allocator.rs:14-95 | with non-overlapping Usable regions no entry byte lies in the page that holds the table |
| FrameAllocator.FirstFreeRun | kernel/src/memory/frame_allocator.rs:225-247 | the reference first fit: the lowest start at or after from of a run of length free pages, and None when there is none or the length is zero |
| FrameAllocator.FindFreeRange | kernel/src/memory/frame_allocator.rs:225-247 | the scan from skip returns the reference first fit, and None exactly when the length is zero or no run exists from skip on |
| FrameAllocator.SkipIsOnlyAShortcut | kernel/src/memory/frame_allocator.rs:225-247 | under the invariant, scanning from skip finds the same run as scanning from page 0 |
| FrameAllocator.AllocateRange | kernel/src/memory/frame_allocator.rs:177-204 | succeeds exactly when the entry's size in bytes minus its used page count is at least the length and a free run exists; the run's pages become used and no other page changes; used grows by the length; skip moves only when the run starts at skip; the run's pages are zeroed; the address is start_phys + 4096 * run start; a failure changes nothing |
| FrameAllocator.AllocateRangeValid | kernel/src/memory/frame_allocator.rs:177-204 | allocation preserves the entry invariant |
| FrameAllocator.DeallocateRange | kernel/src/memory/frame_allocator.rs:206-223 | an address below the entry or a length of two or more panics; a length of zero changes nothing; freeing a free page panics with "tried to free already free page"; freeing one used page clears exactly that page, decrements used, and lowers skip to it |
| FrameAllocator.BitmapPageCanBeReallocated | kernel/src/memory/frame_allocator.rs:206-223 | the first page of a fresh entry, which holds its bitmap, can be freed, and the next one-page allocation hands it out again and zeroes it at start_virt |
| FrameAllocator.DeallocateRangeLoop | kernel/src/memory/frame_allocator.rs:206-223 | the source's loop, which tests and clears start_page on every iteration, gives the closed form above |
| FrameAllocator.DeallocateRangeValid | kernel/src/memory/frame_allocator.rs:206-223 | a completed deallocation preserves the entry invariant |
| FrameAllocator.AllocateFramesRange | kernel/src/memory/frame_allocator.rs:97-102 | a frame is returned exactly when some entry can allocate the run; it comes from the first such entry, which alone changes as allocate_range changes it, and is the page containing that entry's address, with that entry's zeroed pages; on failure the allocator is unchanged |
| FrameAllocator.AllocateFrame | kernel/src/memory/frame_allocator.rs:126-128 | a single frame is page aligned and exactly one page is zeroed; there is none exactly when no entry can allocate one page, and then nothing changes |
| FrameAllocator.DeallocateFramesRange | kernel/src/memory/frame_allocator.rs:104-112 | the first entry containing the frame (end inclusive) deallocates, with its panics; no containing entry means no change |
| FrameAllocator.DeallocateFrame | kernel/src/memory/frame_allocator.rs:132-134 | freeing one frame keeps the table and the number of entries; it is a no-op when no entry contains the frame, and otherwise panics exactly when the first containing entry's one-page deallocation does |
| FrameAllocator.FreePagesCountsFreeBits | kernel/src/memory/frame_allocator.rs:114-116 | under the invariant, free_pages equals the number of clear bitmap bits over all entries |
| FrameAllocator.AllocateFramesRangeAccounting | kernel/src/memory/frame_allocator.rs:97-102 | allocation keeps every entry valid and lowers free_pages by exactly the length |
| FrameAllocator.DeallocateFramesRangeAccounting | kernel/src/memory/frame_allocator.rs:104-112 | a completed deallocation keeps every entry valid and raises free_pages by the length when an entry held the frame |
| FrameAllocatorExamples.EmptySlotBuildsEmptyEntry | kernel/src/memory/frame_allocator.rs:153-161 | an empty table slot builds BuddyEntry::empty() |
| FrameAllocatorExamples.OneMemoryRegion | kernel/src/memory/frame_allocator.rs:318-335 | a 5-page region gives an entry of 4 pages after the table page, its first page holding the bitmap; the next entry is empty |
| FrameAllocatorExamples.SeveralMemoryRegions | kernel/src/memory/frame_allocator.rs:337-367 | two separate regions give two entries, the second with all 5 pages and one bitmap page; the rest are empty |
| FrameAllocatorExamples.CombinedMemoryRegions | kernel/src/memory/frame_allocator.rs:369-389 | two adjacent regions merge into one 9-page entry |
| FrameAllocatorExamples.AllocateFrames | kernel/src/memory/frame_allocator.rs:391-418 | three single-page allocations return consecutive pages and set bitmap bytes 0x03, 0x07, 0x0F; a fourth fails and changes nothing |
| FrameAllocatorExamples.DeallocateFrames | kernel/src/memory/frame_allocator.rs:420-450 | freeing the three pages in turn restores the entry with bitmap byte 0x01 |
| FrameAllocatorExamples.DoubleFreeAndRangeFreePanic | kernel/src/memory/frame_allocator.rs:206-223 | freeing a free page panics, and so does freeing two used pages in one call |
| MemoryManager.Install | arch/src/amd64/memory/mod.rs:68-71 | init installs the given mapper and allocator |
| MemoryManager.Init | arch/src/amd64/memory/mod.rs:19-32 | the manager gets a mapper at the offset and a fresh bump allocator; the logged size is the sum over Usable regions only, never exceeds the all-region sum, and equals it exactly when every other region is empty |
| MemoryManager.MapTo | arch/src/amd64/memory/mod.rs:92 | the page-table walk draws between zero and its table-frame count plus one frames; on success it returns the leaf frame; it succeeds exactly when the walk ends without error and, if it needs table frames, the allocator still holds all of them |
| MemoryManager.Map | arch/src/amd64/memory/mod.rs:73-93 | without a mapper or allocator it fails with FrameAllocationFailed and changes nothing; otherwise it allocates the next usable frame (failing when exhausted, with the counter still advanced) and succeeds exactly when the walk does, returning that frame; so it succeeds exactly when the walk ends without error and next + 1 + the walk's table frames is at most the number of usable frames |
| MemoryManager.MapFailureKeepsLeafFrame | arch/src/amd64/memory/mod.rs:88-92 | even a failed map consumes the leaf frame |
| MemoryManager.AllocateFrames | arch/src/amd64/memory/mod.rs:98-118 | allocate_frames(count) draws count + 1 frames and returns the first; it succeeds exactly when next + count is below the number of usable frames; a failure still advances the counter |
| MemoryManager.PageSize | arch/src/amd64/memory/mod.rs:120-122 | the page size is 4096 = 2^PAGE_SHIFT |
| MemoryManager.PhysToVirt | arch/src/amd64/memory/mod.rs:124-126 | panics exactly before init; otherwise the physical address plus the mapping offset |
| MemoryManager.PageRangeInclusive | arch/src/amd64/memory/mod.rs:37-39 | the inclusive page range runs in 4 KiB steps from the page of start to the page of end, and is empty exactly when the page of end lies below the page of start |
| MemoryManager.PageRangeMembers | arch/src/amd64/memory/mod.rs:37-39 | an address is in the range exactly when it is page aligned and lies between the page of start and the page of end |
| MemoryManager.SamePageRange | arch/src/amd64/memory/mod.rs:37-39 | an end below start within the same page still gives that page |
| MemoryManager.HeapPagesCount | arch/src/amd64/memory/mod.rs:34-39 | the heap's pages are exactly the inclusive page range from the page of its first byte to the page of its last byte: 256 pages from 0xffff_fe80_0000_0000 up |
| MemoryManager.MapAll | arch/src/amd64/memory/mod.rs:44-49 | mapping pages in turn returns frames that are all usable frames, and a full run advances the counter by at least one per page |
| MemoryManager.MapAllDraws | arch/src/amd64/memory/mod.rs:44-49 | on an initialised manager a run of map calls succeeds exactly when no walk fails and next plus every leaf and table frame the walks draw is within the usable frames; a full run advances the counter by exactly that count |
| MemoryManager.MapAllInDrawOrder | arch/src/amd64/memory/mod.rs:44-49 | in a full run the k-th page is mapped to the usable frame at position next + the frames the first k calls drew |
| MemoryManager.InitHeap | arch/src/amd64/memory/mod.rs:34-53 | heap set-up panics ("failed to map kernel heap") before init and whenever it fails; on an initialised manager it succeeds exactly when no walk fails and the bump allocator still holds the 256 leaf frames plus every table frame the walks draw; a completed set-up maps all 256 pages, advances the counter by exactly that many frames (at least 256), and maps page k to the usable frame the k-th map call drew |
| MemoryManager.InitHeapFramesDistinct | arch/src/amd64/memory/mod.rs:44-49 | with page-aligned, non-overlapping Usable regions a successful set-up maps the 256 heap pages onto 256 distinct frames |
| MemoryManager.UninitialisedUseFails | arch/src/amd64/memory/mod.rs:61-66 | the empty manager fails map and panics in phys_to_virt |
| IoApic.PrepareOverride | kernel/src/devices/io_apic.rs:67-86 | the first override for the IRQ gives its GSI and flags (a panic if the GSI exceeds a byte); None exactly when no override is for the IRQ but one targets its number; with neither, identity routing |
| IoApic.IrqFlags | kernel/src/devices/io_apic.rs:88-99 | the flags are LEVEL_TRIGGERED exactly for level triggering and LOW_ACTIVE exactly for active-low polarity, and nothing else |
| IoApic.IrqFlagsAreIndependentBits | kernel/src/devices/io_apic.rs:88-99 | the six-case flag table equals the union of a trigger bit and a polarity bit |
| IoApic.NewIoApic | kernel/src/devices/io_apic.rs:124-133 | a unit is built exactly when gsi_start + max_table_entry fits in a u8; it serves GSIs gsi_start to gsi_start + max_table_entry |
| IoApic.InitOverride | kernel/src/devices/io_apic.rs:47-65 | a routed IRQ writes vector 32 + irq, the BSP's APIC id and its flags to the first IO-APIC serving the GSI; nothing is written when no unit serves it or the IRQ is suppressed; it panics exactly when resolving the IRQ panics or a resolved IRQ's vector 32 + irq overflows a u8, and writes exactly when the IRQ resolves to a GSI some IO-APIC serves |
| IoApic.RunOutcomes | kernel/src/devices/io_apic.rs:30-32 | folding per-IRQ outcomes in order gives at most one write per outcome, each write being the write of one of the outcomes |
| IoApic.RunOutcomesOkIff | kernel/src/devices/io_apic.rs:30-32 | the fold is Ok exactly when every outcome is Ok |
| IoApic.RunOutcomesFirstPanic | kernel/src/devices/io_apic.rs:30-32 | a panicking fold carries the message of the first panicking outcome, all earlier ones being Ok |
| IoApic.RunOutcomesPanicPersists | kernel/src/devices/io_apic.rs:30-32 | once a prefix of the outcomes panics, the whole fold ends in that panic |
| IoApic.LegacyRoute | kernel/src/devices/io_apic.rs:30-32 | running IRQs below k yields at most k writes, each with a vector below 32 + k aimed at the BSP |
| IoApic.LegacyRouteFirstPanic | kernel/src/devices/io_apic.rs:30-32 | the run succeeds exactly when every IRQ routes without panic; a panic carries the message of the first IRQ whose routing panics |
| IoApic.LegacyRoutePanicPersists | kernel/src/devices/io_apic.rs:30-32 | once the run has panicked, further IRQs leave that panic unchanged |
| IoApic.LegacyRouteSixteen | kernel/src/devices/io_apic.rs:29-32 | the run over IRQs 0 to 15 is Ok exactly when every IRQ routes, has at most 16 writes, all with vectors 32 to 47 aimed at the BSP, and panics only when some IRQ's routing panics |
| IoApic.RouteLegacyIrqs | kernel/src/devices/io_apic.rs:30-32 | the loop over IRQs 0 to 15 gives the reference run: the writes of the routed IRQs in IRQ order, at most 16, all with vectors 32 to 47 aimed at the BSP; it panics exactly when some IRQ's routing panics |
| IoApic.RunLegacyLoop | kernel/src/devices/io_apic.rs:30-32 | the loop over IRQs 0 to 15, stopping at the first panic, computes the reference run |
| IoApic.NoOverridesIsIdentity | kernel/src/devices/io_apic.rs:67-86 | without overrides every IRQ routes to its own GSI with no flags |
| IoApic.TimerOverrideExample | kernel/src/devices/io_apic.rs:67-86 | the usual IRQ 0 to GSI 2 override moves IRQ 0 to GSI 2, suppresses IRQ 2 and leaves IRQ 1 alone |
| Rtc.CvtBcd | kernel/src/devices/rtc.rs:124-126 | the decoded value of a byte is at most 165 |
| Rtc.CvtBcdDecodes | kernel/src/devices/rtc.rs:124-126 | cvt_bcd decodes the packed BCD of every number below 100 |
| Rtc.CvtBcdIsInverse | kernel/src/devices/rtc.rs:124-126 | every valid BCD byte is the encoding of its decoded value |
| Rtc.DecodeHourBcd | kernel/src/devices/rtc.rs:64 | the BCD hour decoding keeps the PM bit and puts cvt_bcd of the low seven bits in the low seven bits |
| Rtc.FixHour | kernel/src/devices/rtc.rs:75-77 | the fixed-up hour is below 24 or the register value itself |
| Rtc.TwelveHourModeShiftsEveryHour | kernel/src/devices/rtc.rs:75-77 | in 12-hour mode, or with the PM bit set, every hour is shifted by 12 modulo 24, AM hours included |
| Rtc.TwentyFourHourModeKeepsHour | kernel/src/devices/rtc.rs:75-77 | in 24-hour mode an hour without bit 7 passes through |
| Rtc.BcdFieldsDecode | kernel/src/devices/rtc.rs:53-79 | in BCD mode second, minute, day and month are their registers decoded, the hour is the decoded hour with the 12-hour fixup applied, and the year adds 100 times the decoded century (20 without a century register) |
| Rtc.UnixSeconds | kernel/src/devices/rtc.rs:79-111 | the Unix-time arithmetic panics exactly for a year before 1972 or day 0 |
| Rtc.ReadUncheckedTime | kernel/src/devices/rtc.rs:46-112 | a register reading panics exactly when its decoded year is before 1972 or its day is 0 |
| Rtc.MonthOffsetIsDaysBefore | kernel/src/devices/rtc.rs:91-104 | each month-table entry is 86400 times the days of the common-year months before it |
| Rtc.DaysBeforeMonthLeap | kernel/src/devices/rtc.rs:85-87 | a leap year has one more day before every month after February |
| Rtc.DaysBeforeYearClosedForm | kernel/src/devices/rtc.rs:82-87 | (y - 1972) / 4 + 1 leap days, minus one in a leap year itself, count the days from 1970 to year y |
| Rtc.UnixSecondsIsReference | kernel/src/devices/rtc.rs:79-111 | for every date from 1972 on, the source's arithmetic equals counting days one by one in the every-fourth-year calendar |
| Rtc.Year2000Example | kernel/src/devices/rtc.rs:46-112 | BCD registers for 2000-01-01 00:00:00 without a century register read as 946684800 |
| Rtc.TimeFrom | kernel/src/devices/rtc.rs:31-44 | a time is returned only as the value of two consecutive readings of a pair that agree |
| Rtc.Time | kernel/src/devices/rtc.rs:31-44 | the read-twice loop is the pairwise scan; any time it returns is the value of two consecutive readings that agree |
| Geometry.PointFromTuple | kernel/src/devices/framebuffer/geometry.rs:27-31 | the tuple's parts become x and y |
| Geometry.PointFromArray | kernel/src/devices/framebuffer/geometry.rs:33-37 | the array's elements become x and y |
| Geometry.PointConversionsAgree | kernel/src/drivers/framebuffer/geometry.rs:27-37 | both conversions build the same point as Point::new |
| Geometry.NewExclusive | kernel/src/devices/framebuffer/geometry.rs:47-53 | the rectangle has the given width and height, yet contains width + 1 by height + 1 points |
| Geometry.NewInclusive | kernel/src/drivers/framebuffer/geometry.rs:47-57 | panics with the source's messages on a zero size; otherwise it contains exactly width by height points, and width() and height() report one less |
| Geometry.Intersection | kernel/src/devices/framebuffer/geometry.rs:88-103 | the result contains exactly the points in both rectangles, and is None exactly when no point is in both |
| Geometry.IntersectionCommutes | kernel/src/drivers/framebuffer/geometry.rs:92-107 | intersection is symmetric and its corners lie in both inputs |
| Geometry.TouchingRectsIntersect | kernel/src/devices/framebuffer/geometry.rs:88-103 | two rectangles sharing an edge intersect in a rectangle of width zero |
| Geometry.RectContainsExample | kernel/src/devices/framebuffer/geometry.rs:110-117 | the rect_contains test |
| Geometry.RectIntersectionExample | kernel/src/devices/framebuffer/geometry.rs:119-134 | the rect_intersection test |
| Colors.New | kernel/src/devices/framebuffer/color.rs:17-27 | the colour's bytes repack to the value |
| Colors.NewPackRoundTrip | kernel/src/devices/framebuffer/color.rs:59-63 | every colour is new of its own hex literal |
| Colors.PackBytes | kernel/src/devices/framebuffer/color.rs:20-27 | channel, red, green and blue sit at bits 24, 16, 8 and 0 of the literal |
| Colors.NamedColorLiterals | kernel/src/devices/framebuffer/color.rs:3-4 | BLACK and WHITE are written as 0x00000000 and 0x00ffffff |
| Colors.LevelColorLiterals | kernel/src/devices/framebuffer/color.rs:5-7 | RED, ORANGE and GREEN are written as their literals |
| Colors.Gray | kernel/src/devices/framebuffer/color.rs:53-56 | the grey is within two of the rounded-down mean of red, green and blue |
| Colors.ToBytes | kernel/src/devices/framebuffer/color.rs:29-37 | four bytes for RGB, BGR and U8 (U8 repeats the grey, then 0); any other format panics |
| Colors.PixelBytes | kernel/src/drivers/framebuffer/mod.rs:70 | the first bpp bytes of the pixel; panics for an unhandled format or bpp > 4 |
| Colors.ToBytesOfValue | kernel/src/devices/framebuffer/color.rs:29-37 | BGR bytes are the literal little-endian; RGB swaps its red and blue bytes |
| Colors.Scale | kernel/src/devices/framebuffer/color.rs:42-44 | value * intensity / 255 rounded down, never above the value |
| Colors.Intensity | kernel/src/devices/framebuffer/color.rs:39-51 | each component becomes component * intensity / 255 rounded down and the channel is kept, so components never grow; intensity 255 is the identity and 0 gives black |
| Colors.ScaleMonotone | kernel/src/devices/framebuffer/color.rs:42-44 | a brighter intensity never gives a darker component |
| Colors.ColorFromExample | kernel/src/devices/framebuffer/color.rs:69-82 | the color_from test |
| Colors.ColorToBytesExample | kernel/src/devices/framebuffer/color.rs:84-100 | the color_to_bytes and color_to_bytes_panic tests |
| Colors.ColorIntensityExample | kernel/src/devices/framebuffer/color.rs:102-108 | the color_intensity test |
| Colors.BlackBytesZero | kernel/src/devices/framebuffer/color.rs:29-37 | black is four zero bytes in every handled format |
| Colors.GrayExtremes | kernel/src/devices/framebuffer/color.rs:53-56 | white's grey is 255 and black's is 0 |
| RgbColors.New | kernel/src/framebuffer/color.rs:12-18 | red, green and blue repack to the low 24 bits of the value |
| RgbColors.Gray | kernel/src/framebuffer/color.rs:20-23 | the grey is within two of the rounded-down mean |
| RgbColors.RgbBytes | kernel/src/framebuffer/color.rs:25-28 | four bytes ending in zero |
| RgbColors.BgrBytes | kernel/src/framebuffer/color.rs:30-33 | four bytes ending in zero |
| RgbColors.AgreesWithArgb | kernel/src/framebuffer/color.rs:12-33 | the RGB-only colour ignores the top byte and has the same grey and RGB/BGR bytes as the ARGB colour with channel zero |
| RgbColors.RgbGrayExtremes | kernel/src/framebuffer/color.rs:1-2 | white's grey is 255 and black's is 0 |
| PixelWrites.OffsetIsProduct | kernel/src/drivers/framebuffer/mod.rs:107-109 | the offset is (y * stride + x) * bpp |
| PixelWrites.PixelIndexInjective | kernel/src/drivers/framebuffer/mod.rs:107-109 | within a row's stride, distinct points have distinct pixel indices |
| PixelWrites.StoreAll | kernel/src/devices/display.rs:75-80 | a sequence of slice copies completes exactly when every slice fits in the buffer (otherwise the slice-range panic), keeping its length |
| DriverFramebuffer.EmptyIsOnePixel | kernel/src/drivers/framebuffer/mod.rs:22-30 | the empty framebuffer's rectangle is Rect::new(0, 0, 1, 1), of width and height 0, with no buffer |
| DriverFramebuffer.FillPixel | kernel/src/drivers/framebuffer/mod.rs:52-71 | no buffer or a point outside the rectangle changes nothing; inside, it succeeds exactly when the pixel fits and the format is handled, writes the pixel bytes there and nothing else |
| DriverFramebuffer.RegionPointsBox | kernel/src/drivers/framebuffer/mod.rs:87-93 | the nested loops visit rows times cols points, exactly those of the box |
| DriverFramebuffer.FillRegion | kernel/src/drivers/framebuffer/mod.rs:73-97 | no buffer or no intersection changes nothing; success keeps every field but the buffer and its length |
| DriverFramebuffer.FillRegionPaints | kernel/src/drivers/framebuffer/mod.rs:73-97 | each byte afterwards is the colour's byte if its pixel was visited, and the old byte otherwise |
| DriverFramebuffer.FillRegionStores | kernel/src/drivers/framebuffer/mod.rs:73-97 | a successful fill is the slice copies for every visited point, each fitting in the buffer |
| DriverFramebuffer.FillRegionPaintsPoint | kernel/src/drivers/framebuffer/mod.rs:87-93 | every pixel of the intersection except its last column and last row gets the colour's bytes |
| DriverFramebuffer.FillRow | kernel/src/drivers/framebuffer/mod.rs:88-93 | the inner loop writes the next cols pixels of the row, or panics as the slice copies do |
| DriverFramebuffer.FillRegionLoop | kernel/src/drivers/framebuffer/mod.rs:73-97 | the nested loops, with their running offset, compute the fill |
| DriverFramebuffer.Fill | kernel/src/drivers/framebuffer/mod.rs:99-104 | without a buffer nothing changes; a fill keeps every field but the buffer, and the buffer's length |
| DriverFramebuffer.FillPaintsInterior | kernel/src/drivers/framebuffer/mod.rs:87-104 | a completed fill paints every pixel of the screen except its last column and last row |
| DriverFramebuffer.Init | kernel/src/drivers/framebuffer/mod.rs:32-40 | a zero width or height panics; otherwise the rectangle starts at the origin, width() and height() are one less than the screen's, and the screen's layout is recorded |
| DriverFramebuffer.InitOkIff | kernel/src/drivers/framebuffer/mod.rs:32-40 | init succeeds exactly when the screen is not empty, the pixel format is known with at most 4 bytes per pixel, and every black pixel copy of the width() by height() box at the origin ends inside the buffer |
| DriverFramebuffer.FillRegionSkipsLastColumn | kernel/src/drivers/framebuffer/mod.rs:87-93 | the loops stop one column short: the intersection's last column keeps its old bytes |
| DriverFramebuffer.InitBlanksAllButLastColumn | kernel/src/drivers/framebuffer/mod.rs:32-40 | init paints black every pixel left of the last column and above the last row |
| DriverFramebuffer.InitSkipsLastColumn | kernel/src/drivers/framebuffer/mod.rs:32-40 | init leaves the screen's last column as it was |
| GlyphConsole.Place | kernel/src/devices/display.rs:61-69 | a glyph that fits stays put; on a screen larger than a glyph the placed glyph lies strictly inside it; otherwise the screen is cleared and the cursor sent to the origin |
| GlyphConsole.GlyphWriteAt | kernel/src/devices/display.rs:71-84 | store r * 9 + c writes pixel (x + c, y + r) with the bytes of the glyph's intensity there |
| GlyphConsole.GlyphFits | kernel/src/devices/display.rs:71-84 | every glyph store fits exactly when the bottom-right pixel fits |
| GlyphConsole.GlyphPixelsDistinct | kernel/src/devices/display.rs:71-84 | on a row that holds the glyph, its 144 pixels are distinct |
| GlyphConsole.DrawChar | kernel/src/devices/display.rs:55-87 | a line feed moves the cursor down a line; otherwise it succeeds exactly when the code is below 256, the format is handled, bpp <= 4 and the placed glyph fits, with the index and format panics as stated; the cursor ends one glyph right of the placed one |
| GlyphConsole.DrawCharStores | kernel/src/devices/display.rs:71-84 | a drawn glyph is the 144 stores at the placed cursor |
| GlyphConsole.GlyphLands | kernel/src/devices/display.rs:71-84 | each byte of each glyph pixel holds the white-at-intensity bytes afterwards |
| GlyphConsole.GlyphKeepsRest | kernel/src/devices/display.rs:71-84 | every pixel outside the placed glyph's box keeps its bytes |
| GlyphConsole.DrawCharSucceeds | kernel/src/devices/display.rs:55-87 | with a handled format, a screen larger than a glyph and a buffer holding every row, any bitmap character draws without panic |
| GlyphConsole.DrawCharKeepsGrid | kernel/src/devices/display.rs:55-87 | a cursor on the 9 by 16 grid stays on it |
| GlyphConsole.WriteStr | kernel/src/devices/display.rs:36-40 | writing keeps the screen description and the buffer length |
| GlyphConsole.WriteStrConcat | kernel/src/devices/display.rs:36-40 | writing s + t is writing s then t, and a panic in s stops it |
| GlyphConsole.LineFeedsOnly | kernel/src/devices/display.rs:93-96 | n line feeds move the cursor to x 0, n lines down, and draw nothing |
| GlyphConsole.WriteStrKeepsGrid | kernel/src/devices/display.rs:36-40 | the cursor stays on the glyph grid through any string |
| GlyphConsole.WriteStrSucceeds | kernel/src/devices/display.rs:34-44 | under DrawCharSucceeds' conditions any string of bitmap characters writes without panic |
| DeviceDisplay.Init | kernel/src/devices/display.rs:22-31 | init zero-fills the buffer and puts the cursor at the origin |
| DeviceDisplay.WriteStr | kernel/src/devices/display.rs:34-44 | before init nothing happens; afterwards it is the console's write, panicking exactly when that does |
| DeviceDisplay.InitThenWrite | kernel/src/devices/display.rs:22-44 | a freshly initialised display writes any string of bitmap characters and keeps its cursor on the grid |
| ArchFramebuffer.BootFormat | arch/src/framebuffer/mod.rs:12-16 | the arch crate's formats are RGB and BGR only |
| ArchFramebuffer.New | arch/src/framebuffer/mod.rs:31-51 | the buffer is zero-filled and the cursor is at the origin |
| ArchFramebuffer.WriteStrAlwaysOk | arch/src/framebuffer/mod.rs:97-104 | the boot formats are always handled, so any string of bitmap characters writes without panic on a screen larger than a glyph whose buffer holds every row |
| TextWriter.New | kernel/src/framebuffer/writer.rs:21-35 | white on black at cell (0, 0), with as many whole cells across and down as fit |
| TextWriter.Clean | kernel/src/framebuffer/writer.rs:52-56 | clean zeroes the buffer and homes the cursor, changing nothing else |
| TextWriter.CleanIdempotent | kernel/src/framebuffer/writer.rs:52-56 | cleaning twice is cleaning once |
| TextWriter.DrawBytes | kernel/src/framebuffer/writer.rs:69-76 | RGB and BGR copy the first bpp colour bytes (panic past 4), U8 fills with grey, any other format panics |
| TextWriter.DrawBytesAgainstDrivers | kernel/src/framebuffer/writer.rs:69-76 | RGB and BGR bytes agree with the drivers' colour; U8 differs in its fourth byte, which the drivers leave zero |
| TextWriter.Draw | kernel/src/framebuffer/writer.rs:58-77 | a point outside the screen changes nothing; inside, it succeeds exactly when the pixel fits and the format is handled, and writes exactly that pixel |
| TextWriter.DrawIdempotent | kernel/src/framebuffer/writer.rs:58-77 | drawing the same pixel twice is drawing it once |
| TextWriter.DrawPastRightEdge | kernel/src/framebuffer/writer.rs:48-67 | contains admits x = width, which with stride = width is the first pixel of the next row |
| TextWriter.DrawAtCornerPanics | kernel/src/framebuffer/writer.rs:58-67 | drawing at (width, height), which contains admits, panics on an exactly sized buffer |
| TextWriter.ShiftedMask | kernel/src/framebuffer/writer.rs:156-158 | 0x80 >> i is the single-bit mask of bit 7 - i |
| TextWriter.GetBit | kernel/src/framebuffer/writer.rs:156-158 | get_bit is non-zero exactly when bit 7 - i is set, and panics for i >= 8 |
| TextWriter.CellColor | kernel/src/framebuffer/writer.rs:92-104 | column 0 is background; column ox >= 1 is foreground exactly when bit 8 - ox of the glyph row is set, panicking without a glyph or row or for ox > 8 |
| TextWriter.CellColorExample | kernel/src/framebuffer/writer.rs:92-104 | glyph row 0x81 lights exactly columns 1 and 8 |
| TextWriter.PrintChar | kernel/src/framebuffer/writer.rs:79-118 | the offset loop as written draws the cell's pixels row by row, stopping at the cell or the screen edge |
| TextWriter.PrintPixel | kernel/src/framebuffer/writer.rs:88-107 | one loop iteration draws the pixel in its cell colour when the screen contains it |
| TextWriter.PrintGlyphLands | kernel/src/framebuffer/writer.rs:79-118 | every pixel of the cell that is on the screen ends with its cell colour's bytes |
| TextWriter.PrintGlyphKeeps | kernel/src/framebuffer/writer.rs:79-118 | every pixel outside the drawn cell keeps its bytes |
| TextWriter.Place | kernel/src/framebuffer/writer.rs:139-145 | a cursor in range stays; otherwise it wraps to the next line, and past the last line the screen is cleaned and the cursor homed; it ends in range |
| TextWriter.WriteChar | kernel/src/framebuffer/writer.rs:128-150 | a character keeps the screen, colours and buffer length |
| TextWriter.WriteStr | kernel/src/framebuffer/writer.rs:127-153 | a string keeps the screen, colours and buffer length |
| TextWriter.WriteStrConcat | kernel/src/framebuffer/writer.rs:127-153 | writing s + t is writing s then t |
| TextWriter.LineFeedsOnly | kernel/src/framebuffer/writer.rs:120-132 | n line feeds move to column 0, n lines down, and draw nothing |
| TextWriter.TabsOnly | kernel/src/framebuffer/writer.rs:134-137 | a tab moves the cursor four cells right without drawing or wrapping |
| TextWriter.PrintedCellOnScreen | kernel/src/framebuffer/writer.rs:139-147 | after the cursor checks, the printed cell lies wholly on the screen |
| TextWriter.PrintCellSucceeds | kernel/src/framebuffer/writer.rs:88-107 | an on-screen pixel of a glyph the font has draws without panic |
| TextWriter.WriteStrSucceeds | kernel/src/framebuffer/writer.rs:127-153 | on a printable screen, a string of line feeds, tabs and font characters writes without panic |
| DisplayLogger.New | kernel/src/logger/display.rs:21-27 | the logger starts on the glyph grid, in white |
| DisplayLogger.WithLevel | kernel/src/logger/display.rs:68-77 | only the colour changes, to the level's colour |
| DisplayLogger.LevelColorsDistinct | kernel/src/logger/display.rs:68-77 | two levels share a colour exactly when both are Debug or Trace, whose colour is white |
| DisplayLogger.WithLevelLastWins | kernel/src/logger/display.rs:68-77 | setting two levels in a row is setting the last |
| DisplayLogger.Place | kernel/src/logger/display.rs:38-46 | the cursor keeps its colour and ends on the screen; an on-screen cursor stays; a clear homes it |
| DisplayLogger.GlyphCallAt | kernel/src/logger/display.rs:48-55 | call r * 9 + c fills pixel (x + c, y + r) with the colour at the glyph's intensity |
| DisplayLogger.GlyphCallsCover | kernel/src/logger/display.rs:48-55 | the glyph's 144 fills hit distinct pixels, all inside its 9 by 16 box |
| DisplayLogger.DrawChar | kernel/src/logger/display.rs:32-57 | a character succeeds exactly when its code is below 256 (else the index panic), keeps the colour, and makes only pixel fills after an optional first fill |
| DisplayLogger.DrawCharGlyph | kernel/src/logger/display.rs:42-57 | the calls are the optional black fill then the glyph at the placed cursor; the cursor ends one glyph right of it |
| DisplayLogger.DrawCharClears | kernel/src/logger/display.rs:42-46 | the screen is filled black, as the first call, exactly when a non-line-feed character finds the wrapped cursor past the bottom |
| DisplayLogger.GlyphCrossesRightEdge | kernel/src/logger/display.rs:38-55 | only the top-left pixel is checked, so a cursor on the last pixel column sends the glyph's first row to x = width + 7, past the right edge |
| DisplayLogger.DrawCharKeepsGrid | kernel/src/logger/display.rs:32-57 | a cursor on the 9 by 16 grid stays on it |
| DisplayLogger.DrawText | kernel/src/logger/display.rs:29-59 | the text keeps the colour and can only panic on the index |
| DisplayLogger.DrawTextConcat | kernel/src/logger/display.rs:29-59 | drawing s + t is the calls of s then of t, and a panic in s stops it |
| DisplayLogger.DrawTextSucceeds | kernel/src/logger/display.rs:29-59 | drawing completes exactly when every character's code is below 256 |
| DisplayLogger.LineFeedsOnly | kernel/src/logger/display.rs:61-64 | n line feeds make no calls and move the cursor to x 0, n lines down |
| DisplayLogger.DrawTextKeepsGrid | kernel/src/logger/display.rs:29-59 | the cursor stays on the glyph grid through any text |

## Left out

- Port and MMIO access is not modelled, nor the x86_64 and acpi crates' register types. This leaves out:
  - the CMOS `read` and `update_in_progress`, and the IO-APIC `set_table_entry` and `max_table_entry` reads;
  - the CR3 read and TLB flushes;
  - `map_memory` in kernel/src/devices/io_apic.rs.
- `update_in_progress` in kernel/src/devices/rtc.rs tests register A against decimal 80 (0x50), not bit 7 (0x80). The model takes the readings `time` compares as given, so this mask is not part of it.
- Rtc.Time: it stops at the end of the given readings and returns None there, where the source keeps reading.
- MemoryManager.MapTo: the x86_64 crate's `map_to` is not visible. A `Walk` parameter says how many table frames it draws and how it ends, so page-table contents are not modelled.
- FrameAllocator.AllocateRange: page zeroing is returned as the list of zeroed page addresses, not as memory contents. The bitmap is a separate field, disjoint from the pages it describes, whereas the source keeps it in the entry's first usage_pages pages. Freeing and re-allocating one of those pages zeroes the bitmap in the source but not in the model; FrameAllocator.BitmapPageCanBeReallocated shows that this sequence is possible.
- FrameAllocator.PageIsUsed: the bitmap holds exactly one bit per page.
  - A bit past the entry's last page reads as free. The source would read whatever byte follows the bitmap.
  - This matters only for `contains_addr`'s inclusive end address.
- The font bitmaps are inputs: `include!`d files and the `fonts` module are not part of this model.
- kernel/src/devices/framebuffer/mod.rs is not part of this model. DisplayLogger.DrawText therefore states the fill and fill-pixel calls the logger makes, not their effect on pixels.
- arch/src/framebuffer/color.rs is not part of this model. The arch console uses the same ARGB colour as the other consoles.
- The heap allocator's own `init`, `new_mapper` and the global `Mutex`/`spin` locking are left out; concurrency is not modelled.
- kernel/src/framebuffer/mod.rs (`init`, `clear`) and the logger plumbing (kernel/src/logger/mod.rs, the serial sink) are left out. They only construct and lock the writers modelled here.
- Integer widths: `usize`/`u64` overflow is modelled only where the source's arithmetic can overflow on realistic inputs:
  - the RTC subtractions;
  - the `u8` conversions and the `gsi_end` addition of the IO-APIC code;
  - the `u8` shift in `get_bit`.
  The boot processor's APIC id is truncated to `u8` by `init` (kernel/src/devices/io_apic.rs:23) before the routing the model covers; IoApic.InitOverride takes that truncated value as a plain number and copies it unchanged into each entry's destination.
  Cursor advances, addresses and offsets are unbounded.
- Panic messages are the source's strings without the `Debug` formatting of their arguments.
- Regions.UsableRegions and the memory-size sums treat every region as `start <= end`, as the boot loader provides.
- FrameAllocator.NewLayout: it promises that every Usable byte outside the table page lies in some entry only when there are at most 102 Usable regions. With more, `new` drops every region that no slot can absorb, as kernel/src/memory/frame_allocator.rs:63-81 does, so the model states no coverage for that case.
- FrameAllocator.NewAvoidsTablePage: it assumes non-overlapping Usable regions. With overlapping regions the source can place a second region's bytes over the table page, and the model promises nothing there.
