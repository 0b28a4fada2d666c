# Verified model of the kernel's memory manager and interrupt paths

This project models the hard parts of a small x86-64 kernel in Dafny and proves what they are meant to guarantee.

* **Memory manager** (`src/mm.c`). Physical memory is one array of bytes. The page bitmap and the page tables live inside
  it, and every store of the kernel is a store into that array. The bitmap is given its meaning as a set of free pages, and
  the tables are given theirs by the processor's own walk, so "the tables form a tree", "no table is ever handed out" and
  "mapping a range changes exactly that range" are statements about bytes in memory.
* **Boot** (`src/mm.c`, `src/main.c`). From the boot loader's memory map and program headers to the complete address space
  at the CR3 load: the HHDM window, the kernel image with its rights, and nothing else.
* **Runs**. A ledger records which pages the manager was given and which its callers hold. Allocating, freeing, mapping,
  reclaiming, clearing and writing are its steps, and the invariants hold over every sequence of them.
* **Interrupt entry and exit** (`src/interrupt.s`). The processor's delivery, the stubs and `iretq` as a stack machine; nested
  interrupts to any depth give the code they interrupt every register and every byte back.
* **Interrupt routing** (`src/drivers/acpi/madt.c`, `src/drivers/pic/ioapic.c`, `src/drivers/pic/lapic.c`). From the bytes of
  the ACPI table to the redirection entries that enabling an ISA interrupt programs through the select/window pair, with
  the device mappings that the controllers ask the memory manager for.
* **Number printing** (`src/common.c`). What the emitted digits stand for.

## How it is organised

| file | content |
|---|---|
| `Bits.dfy`, `PhysicalMemory.dfy`, `Ram.dfy`, `Wrappers.dfy` | bit vectors, 64-bit arithmetic, byte memory as a value and as an array updated in place |
| `Bitmap.dfy` | the packed bitmap as a set of free pages |
| `Paging.dfy` | the processor's walk, the tree of tables, and what each store does to it |
| `KernelSpace.dfy` | bitmap and tables together: the state invariant and how allocation, linking and retargeting keep it |
| `Mapping.dfy`, `MapTheorems.dfy` | mapping requests, their effect on translations, their cost in pages |
| `MemoryManager.dfy` | the class with the functions of `src/mm.c` that touch memory, each proved against the relations above |
| `BootInfo.dfy`, `BootTheorems.dfy` | the boot loader's tables and the address space built from them |
| `PmmTheorems.dfy`, `Runs.dfy`, `Operations.dfy` | round trips, whole runs, and the operations as steps of a run |
| `BringUp.dfy`, `Startup.dfy`, `Example.dfy` | starting the memory manager, every run after boot, when starting cannot fail, and a machine on which it does not |
| `Guarantees.dfy` | what all of this guarantees, said of addresses, flag bits, header bits and the processor's walk alone |
| `IoApic.dfy`, `Lapic.dfy`, `Madt.dfy` | the interrupt controllers and the table walk that programs them |
| `Routing.dfy` | what the walk leaves in the controllers' registers, said of the table's bytes and the entries' bits |
| `Interrupt.dfy`, `PrintUnsigned.dfy` | interrupt entry and exit, the number printer |

A panic never returns, so it is a `false` or `None` result; a method's contract says exactly when it happens. Words and
bytes are vectors of bits, so a bit-field assignment and `|=` are what they are in C; 64-bit wrap-around is written out.

## Findings

* `kalloc` and `kfree` round the size up in 64 bits. For the 4095 largest sizes the sum wraps to 0: `kalloc` then succeeds
  with no page at all (`PmmTheorems.KallocCovers` gives the exact condition).
* `vmm_map_page` refuses the null pointer, but virtual page 0 is also named by every other multiple of 2^48. These are not
  canonical; for canonical addresses the guard is exact (`MapTheorems.PageZeroGuard`, `MapTheorems.PageZeroGuardEvaded`).
* `M_U` sets the leaf's user bit, but every table above it denies user access, so no mapping is ever open to user mode
  (`Paging.WalkIsLookup`, `Runs.TraceKeeps`).
* `vmm_map_unaligned` maps each byte where it was asked to go if and only if both addresses have the same offset in
  their page (`MapTheorems.UnalignedOffsets`).
* `print_unsigned` stops after 16 digits: decimal output is right exactly below 10^16 (`PrintUnsigned.PrintedExactly`).
* An NMI source with polarity or trigger 1 (active high, edge) is programmed like one with 3 (active low, level)
  (`IoApic.NmiEntryMeans`).
* A level-triggered local NMI sets bit 5 of its local vector entry, which belongs to the vector, and never the trigger mode,
  bit 15 (`Lapic.NmiLvtMeans`).
* The loop that masks the I/O APIC pins ends at the maximum entry itself, so the last pin keeps its entry
  (`IoApic.MaskedPinsMean`); pin numbers 128 apart reach the same registers (`IoApic.PutPin`).

## Model

| member | source | states |
|---|---|---|
| Bits.PageRounding | src/mm.c:24-36 | Rounding to pages gives the enclosing page bounds; rounding up wraps to 0 exactly past the last page of 64 bits |
| Bits.NatOfBitsOf | src/mm.c:205-212 | A value that fits a bit-field survives being stored in it |
| Bitmap.MarkOne | src/mm.c:56-65 | Setting or clearing the mask in the page's byte changes that page's bit and no other bit of memory |
| Bitmap.MarkedFree | src/mm.c:56-81 | Marking a range adds it to, or removes it from, the set of free pages, and padding bits stay clear |
| Bitmap.BitmapExtensional | src/mm.c:45-72 | The bitmap's bits and the rest of memory determine memory completely |
| Bitmap.MarkedUndone | src/mm.c:97-128 | Taking a free run and giving it back restores every byte of memory |
| Bitmap.ClearedFree | src/mm.c:155-156 | A zeroed bitmap means that no page is free and no padding bit is set |
| MemoryManager.MemoryManager.PmmMarkPage | src/mm.c:45-65 | Panics exactly on an unaligned or out-of-range page, otherwise changes exactly that page's bit |
| MemoryManager.MemoryManager.PmmQueryPage | src/mm.c:67-72 | Panics exactly on an unaligned or out-of-range page, otherwise tells whether the page is free |
| MemoryManager.MemoryManager.PmmMarkRange | src/mm.c:74-81 | Panics exactly on misalignment or when the range leaves the managed pages, otherwise marks exactly the range |
| MemoryManager.MemoryManager.ScanRun | src/mm.c:98-103 | The scan that never stops early tells whether the run is free, and panics exactly when the run leaves the managed pages |
| MemoryManager.NoRunBeyond | src/mm.c:97-114 | When the scan leaves the managed pages no run fits anywhere, so the out-of-range panic never hides an existing fit |
| MemoryManager.MemoryManager.PmmAllocPages | src/mm.c:97-114 | Returns if and only if a run of that many free pages exists; the run is the lowest one, and exactly it becomes used |
| MemoryManager.MemoryManager.PmmFreePages | src/mm.c:124-128 | Frees exactly the run, or panics exactly when it is unaligned or out of range |
| MemoryManager.MemoryManager.PmmAllocPage | src/mm.c:116-118 | Takes the lowest free page, and panics if and only if none is free |
| MemoryManager.MemoryManager.PmmFreePage | src/mm.c:120-122 | Frees exactly the page, or panics exactly when it is unaligned or out of range |
| MemoryManager.MemoryManager.Kalloc | src/mm.c:83-86 | First fit for the rounded-up size, returned as an HHDM address |
| MemoryManager.MemoryManager.Kfree | src/mm.c:88-91 | Frees the run that the HHDM address stands for |
| PmmTheorems.KallocCovers | src/mm.c:83-86 | The pages handed out cover the size, with less than a page to spare, if and only if rounding it up does not wrap |
| PmmTheorems.HhdmRoundTrip | src/mm.c:93-95 | Leaving and entering the HHDM undo each other in 64-bit arithmetic |
| PmmTheorems.KallocKfree | src/mm.c:83-91 | kfree with the pointer and size of a kalloc cannot panic and restores memory byte for byte |
| MemoryManager.MemoryManager.PmmInit | src/mm.c:130-169 | Panics exactly when no usable entry is longer than the bitmap or the first one starts at 0; otherwise the free pages are exactly the usable pages outside the bitmap's own frames, and only the bitmap's frames were written |
| MemoryManager.HomeFits | src/mm.c:144-160 | The strict comparison of lengths and the alignment make the rounded-up bitmap fit in the first entry chosen |
| BootInfo.ClaimedHas | src/mm.c:158-166 | The pages taken in are exactly those of the entries of the phase's kinds |
| MemoryManager.MemoryManager.MarkClaimed | src/mm.c:158-180 | The entry loops free exactly the pages of the claimed entries, and panic exactly on an entry that is misaligned or out of range |
| MemoryManager.MemoryManager.PmmReclaim | src/mm.c:171-187 | Panics exactly on an entry or a stack that is misaligned or out of range; the free set becomes exactly (free + reclaimable) - stack; tables and translations are untouched when no claimed page is a table or bitmap page |
| BootTheorems.ReclaimApart | src/mm.c:171-181 | In a map of disjoint entries no page taken in at init is taken in again by reclaiming |
| MemoryManager.MemoryManager.PmmZero | src/mm.c:190-196 | Clears exactly the bytes of free pages; bitmap, every other byte, tables and all translations are unchanged |
| Ram.Ram.Zero | src/common.c:122-130 | Clears exactly the bytes asked for |
| Paging.WalkIsLookup | src/mm.c:199-270 | The processor's four-level walk finds exactly what the tree of tables says, and user access is always denied |
| Paging.LinkTable | src/mm.c:199-216 | Linking a cleared page under an absent entry extends the tree by that table and changes no translation |
| Paging.SetLeaf | src/mm.c:257-269 | Storing a page-table entry changes the translation of its own page and of no other |
| Paging.TableAtIsNode | src/mm.c:199-256 | Following present non-leaf entries from the root reaches exactly the recorded tables |
| Paging.NoSharedTable | src/mm.c:199-216 | No table is reached by two different paths |
| KernelSpace.TakePages | src/mm.c:104-109 | Taking pages keeps the tree and every translation |
| KernelSpace.GivePages | src/mm.c:124-128 | Giving back pages that are neither tables nor bitmap keeps the tree and every translation |
| KernelSpace.TableAdded | src/mm.c:200-213 | Taking, clearing and linking a page adds one table on a page that was free, changes no translation and no other page |
| KernelSpace.RetargetPage | src/mm.c:257-269 | Storing a leaf keeps the whole state valid and retargets exactly one page |
| Mapping.FillTableEntry | src/mm.c:204-212 | The assigned fields make a present, writable, executable, supervisor-only reference to the table |
| Mapping.FillLeafEntry | src/mm.c:258-269 | The assigned fields are, bit for bit, present, the flags' write bit, their user bit, PAT, PCD and PWT of their cache field, the frame, and execute-disable when their execute bit is clear; available bits keep their value |
| Mapping.EntryAddress | src/mm.c:215 | Shifting the address field back yields the table's address |
| Mapping.IndexBits | src/mm.c:248-257 | The four indices taken from the address are those the processor uses |
| Mapping.PatSelectsRequestedType | src/mm.c:228-246 | The PAT entry the leaf selects holds write-back, uncached or write-combining as the flags' bits 4:3 say |
| MemoryManager.MemoryManager.VmmEnsurePresent | src/mm.c:199-216 | Panics exactly when a table is needed and no page is free; afterwards the table exists and no translation changed |
| MemoryManager.MemoryManager.VmmDescend | src/mm.c:248-255 | Makes the three tables on the path present; panics exactly when more are missing than pages are free |
| MemoryManager.MemoryManager.VmmMapPage | src/mm.c:218-270 | Panics exactly on misalignment, a null address, write with execute, an unknown cache mode, or when the missing tables outnumber the free pages; otherwise retargets exactly one page, and its leaf has the user bit asked for |
| MemoryManager.MemoryManager.VmmMap | src/mm.c:273-281 | The same for a range: the new translation is the overlay of the range on the old one, no other page changed, and each missing table sits on a page that was free |
| MemoryManager.MemoryManager.VmmMapUnaligned | src/mm.c:283-288 | Serves exactly the request rounded out to pages |
| MapTheorems.OverlayStraight | src/mm.c:278-280 | The overlay sends page where+i to what+i with the requested rights and leaves every other page alone |
| MapTheorems.MapMeans | src/mm.c:273-281 | After vmm_map the processor's walk finds inside the range the frame, with write and execute as flag bits 0 and 1 say and the cache bits of flag bits 4:3, and the old translation everywhere else |
| MapTheorems.CanonicalVpnInjective | src/mm.c:248-257 | Canonical page addresses are told apart by the bits the walk uses |
| MapTheorems.OverlayHardened | src/mm.c:222 | Mapping keeps every address free of write-and-execute and of user access |
| MapTheorems.PageZeroGuard | src/mm.c:221 | The null check keeps virtual page 0 unmapped exactly for addresses that are no other multiple of 2^48 |
| MapTheorems.PageZeroGuardEvaded | src/mm.c:221 | A non-canonical address that maps virtual page 0 |
| MapTheorems.TouchedServes | src/mm.c:248-255 | A table is needed exactly when it serves a page of the range |
| MapTheorems.TablesCounted | src/mm.c:199-213 | The tables of a range number one for each touched 512-GByte, 1-GByte and 2-MByte slot |
| MapTheorems.TableCountBound | src/mm.c:199-213 | Their number is bounded by the length of the range alone |
| MapTheorems.MapCost | src/mm.c:199-281 | The free pages fall by exactly the number of missing tables of the range, and by at most the bound of its length |
| MapTheorems.UnalignedMeans | src/mm.c:283-288 | With equal page offsets, every byte where+k translates to byte what+k with the rights and cache mode of the flag bits |
| MapTheorems.UnalignedElsewhere | src/mm.c:283-288 | A page that holds no byte of the range keeps its translation |
| MapTheorems.UnalignedOffsets | src/mm.c:283-288 | The first byte goes where it was asked to go if and only if both addresses have the same page offset |
| Mapping.ServesMeans | src/mm.c:308-354 | Serving requests in order amounts to their overlays in order and the tables they touch |
| MemoryManager.MemoryManager.VmmInit | src/mm.c:290-357 | Reaches the CR3 load if and only if every request is acceptable and the tables of all of them are fewer than the free pages; then exactly these requests were served on an empty tree |
| BootTheorems.HhdmMeans | src/mm.c:308-330 | The memory-map loop maps a page with the flags of the last mapped entry that holds it |
| BootTheorems.SegmentsMean | src/mm.c:334-354 | A program-header loop maps an image page with the rights of the last header of its kind that touches it, write from bit 1 and execute from bit 0 of its flags |
| BootTheorems.BootWalk | src/mm.c:290-357 | At the CR3 load every page number translates as the boot map says: kernel image, HHDM window, nothing else |
| BootTheorems.HhdmIdentity | src/mm.c:303-330 | Every usable or reclaimable page is mapped at its HHDM address, writable, not executable, supervisor only, cached |
| BootTheorems.SelfMapped | src/mm.c:303-356 | Every table and every page of the bitmap is mapped writable at its HHDM address in the new address space |
| BootTheorems.ImageMapped | src/mm.c:334-354 | Every image page translates to its physical copy, writable exactly by bit 1 and executable exactly by bit 0 of the flags of the deciding header: RELRO where it applies, else the last PT_LOAD that touches it |
| BringUp.StartMemory | src/main.c:88-89 | pmm_init and vmm_init both return if and only if the bitmap has a home, every request is acceptable and the tables are fewer than the free pages; then they leave the booted state of the theorems |
| Startup.BootTables | src/mm.c:308-354 | All tables of a boot serve the HHDM window or the image window, so their number is bounded by the windows' sizes |
| Startup.EnoughToStart | src/mm.c:130-357 | Neither function panics when the bitmap has a home, no segment is writable and executable, and the free pages exceed that bound |
| BringUp.BootLedger | src/mm.c:130-357 | At the CR3 load the invariant of all runs holds, every usable page is accounted for and none is held |
| BringUp.AlwaysReachable | src/mm.c:93-95 | In every run after boot each page the manager knows - free, handed out, bitmap or table - stays mapped writable at its HHDM address, as long as no request maps over the HHDM address of usable or reclaimable memory |
| BringUp.DeviceProper | src/drivers/pic/ioapic.c:92-93 | A device mapping at an HHDM address is of that kind if and only if none of the device's pages is usable or reclaimable memory |
| BringUp.ReclaimAllowed | src/main.c:116 | After any run since boot the reclaimable memory is still unknown to the manager |
| BringUp.ReclaimFreesNothingInUse | src/mm.c:171-187 | After any run since boot, reclaiming frees no page that is held, a table or part of the bitmap, keeps the invariant and changes no translation |
| Example.ExampleBootOk | src/main.c:83-89 | A realistic memory map and kernel image meet every assumption of the boot theorems |
| Example.ExampleStarts | src/main.c:88-89 | That machine starts |
| Example.ExampleDevicesProper | src/drivers/pic/lapic.c:79-84 | On it, the mappings that the I/O APIC and local APIC drivers ask for keep all RAM reachable |
| Operations.Allocate | src/mm.c:97-114 | Allocation is a step of the ledger and keeps its invariant |
| Operations.AllocateBytes | src/mm.c:83-86 | kalloc is a step of the ledger: the pages behind its pointer become the caller's |
| Operations.Free | src/mm.c:124-128 | Freeing held pages panics on an unaligned address only, and is a step of the ledger that keeps its invariant |
| Operations.FreeBytes | src/mm.c:88-91 | kfree of held pages cannot panic and is a step of the ledger |
| Operations.MapRange | src/mm.c:273-281 | Mapping canonical addresses is a step of the ledger and keeps its invariant |
| Operations.MapDevice | src/mm.c:283-288 | So is vmm_map_unaligned, the drivers' call |
| Operations.ReclaimMemory | src/mm.c:171-187 | Reclaiming memory unknown so far is a step of the ledger that keeps its invariant. When the stack ends at the HHDM address of top, the exact panic condition; and afterwards exactly those pages are free that were free or start in a reclaimable entry and are not those of the bytes from top - size to top |
| Operations.ZeroFree | src/mm.c:190-196 | Clearing the free pages is a step of the ledger and keeps its invariant |
| Guarantees.InitPages | src/mm.c:130-169 | After pmm_init exactly those pages are free that start in a usable entry and not in the bitmap's bytes; the bitmap covers every entry and no page more and lies in the first usable entry longer than it; panics exactly when there is none or it starts at 0 |
| Guarantees.AllocateLowest | src/mm.c:97-114 | pmm_alloc_pages returns the lowest address from which the pages are free, takes exactly these and writes only bitmap bytes; panics exactly when there is no such run |
| Guarantees.MapPage | src/mm.c:218-270 | For flags built from the constants: the page gets exactly the write and execute rights and the cache bits asked for, its leaf the user bit, no other page changes; the exact panic condition |
| Guarantees.MapRegion | src/mm.c:273-281 | For a range inside one half of the address space: each page gets the frame at its place with exactly the write and execute rights and the cache bits asked for, no other page changes; the exact panic condition |
| Guarantees.HhdmKinds | src/mm.c:303-330 | At the CR3 load a page of a mapped entry is at its HHDM address: writable unless the entry is a reserved mapped one, never executable, write-combining exactly for the frame buffer |
| Guarantees.ImageRights | src/mm.c:334-354 | An image page has the rights of bits 1 and 0 of the flags of the last PT_GNU_RELRO that touches it, or of the last PT_LOAD where no PT_GNU_RELRO does |
| Guarantees.NothingElse | src/mm.c:290-357 | A page number that is neither a page of a mapped entry nor one touched by a mapped header is not mapped at the CR3 load |
| Runs.OperationKeeps | src/mm.c:97-288 | Every operation keeps the invariant: tree, disjoint ownership of pages, no write-and-execute, no user access, page 0 unmapped |
| Runs.TraceKeeps | src/mm.c:97-288 | Over every run the invariant holds and translations change by the mapping requests alone |
| Runs.AllocFresh | src/mm.c:97-114 | Pages handed out are no tables, no part of the bitmap and held by nobody else |
| Runs.TablesFormTree | src/mm.c:199-270 | In every reachable state no table is reached by two paths, and each table is a managed page neither free nor held |
| Runs.NoLargePages | src/mm.c:204-212 | In every reachable state no present non-leaf entry has ps or us set |
| Runs.Conservation | src/mm.c:97-216 | Managed pages are the held, the free, the bitmap's and the tables', each counted once |
| Runs.LastMappingDecides | src/mm.c:218-281 | In every run a page translates as its last mapping asked: write and execute by flag bits 0 and 1, cache bits by flag bits 4:3, never user access |
| Runs.TraceSafe | src/mm.c:218-281 | In every run no page is ever found writable and executable, open to user mode or faulting, and virtual page 0 is never mapped |
| Runs.StaysTaken | src/mm.c:97-128 | A page that is not free - one of the live stack after reclaiming, say - is never handed out and never becomes free until it is released or taken in |
| Interrupt.StubsMatch | src/interrupt.s:52-307 | The vectors with an error-code stub are those for which the processor pushes one |
| Interrupt.Machine.Deliver | src/interrupt.c:266-293 | Delivery through an interrupt gate aligns the stack, pushes the interrupted context and continues at the gate's entry point |
| Interrupt.Machine.Stub | src/interrupt.s:1-23 | Both stubs leave room for a uniform frame and load the vector |
| Interrupt.Machine.Enter | src/interrupt.s:1-38 | Entry builds every field of struct stack_frame at its offset, with or without an error code, passes vector and frame, aligns the stack for the call, leaves the return address on it, switches interrupts, tracing and string direction off and writes no byte above the frame |
| Interrupt.Machine.Leave | src/interrupt.s:39-49 | From a frame that holds a context, the exit path loads every register of that context |
| Interrupt.Machine.Resume | src/interrupt.s:27-49 | Back from a handler that kept its frame and the calling convention, the exit path can run and restores every register |
| Interrupt.EntryParts | src/interrupt.s:1-38 | Delivery, stub and common part fit together: the saved registers sit at the offsets of struct stack_frame |
| Interrupt.FrameSurvives | src/interrupt.s:38-39 | When such a handler returns, the stack pointer is at the frame and the frame still holds the interrupted context |
| Interrupt.OnlyExit | src/interrupt.s:39-49 | From such a frame exit has one outcome: the interrupted registers, with memory as the handler left it |
| Interrupt.InterruptTransparent | src/interrupt.s:1-49 | For every vector, state and depth of nesting, once the handler has returned the exit path can run, its only outcome restores every register, and no byte of suspended code has changed |
| Interrupt.IdleHandler | src/interrupt.s:38 | A handler that returns at once meets the assumptions, from every state and at any depth |
| Interrupt.ServicedExactly | src/interrupt.s:1-49 | Every handled interrupt is serviced to the end, so nested interrupts need no further assumption |
| IoApic.PutPin | src/drivers/pic/ioapic.c:9-69 | A 64-bit write by pin number changes the entry of exactly the pin with the same low seven bits |
| IoApic.ReadBack | src/drivers/pic/ioapic.c:47-69 | Reading both halves returns the value written |
| IoApic.IsaEntryMeans | src/drivers/pic/ioapic.c:75-85 | The written entry has vector 0x30 + irq, fixed delivery, the route's polarity and trigger, and is not masked |
| IoApic.MaskedPinsMean | src/drivers/pic/ioapic.c:95-101 | The pins below the maximum entry are masked, and every other pin keeps its entry |
| IoApic.NmiEntryMeans | src/drivers/pic/ioapic.c:104-116 | The entry of an NMI source has NMI delivery, is not masked, and is active low or level for every polarity or trigger but 0 |
| IoApic.EnabledAllPins | src/drivers/pic/ioapic.c:75-86 | After any interrupts were enabled in any order a pin has the entry of the last one that reaches it, or its old entry |
| IoApic.DistinctPinsKept | src/drivers/pic/ioapic.c:75-86 | Whatever else is enabled, an interrupt whose pin is its own and below 120 keeps its entry on that pin |
| IoApic.RegisteredOnce | src/drivers/pic/ioapic.c:88-93 | A registered chip has a base other than 0, so a second one is refused |
| IoApic.Controller.Read64 | src/drivers/pic/ioapic.c:53-58 | Reads both halves of a register pair |
| IoApic.Controller.Write64 | src/drivers/pic/ioapic.c:60-69 | Two select/window writes store both halves |
| IoApic.Controller.EnableIsaInterrupt | src/drivers/pic/ioapic.c:75-86 | Writes the interrupt's entry to the pin of its route, and faults exactly when no chip is registered |
| IoApic.Controller.InitRegister | src/drivers/pic/ioapic.c:88-102 | Panics exactly on a second chip, a remapped chip, registers that cannot be mapped or too few pins; otherwise the registers are mapped and the pins below the maximum entry masked |
| IoApic.Controller.InitNmiSource | src/drivers/pic/ioapic.c:104-116 | Writes the NMI entry to the source's pin, and faults exactly when no chip is registered |
| IoApic.Controller.InitSourceOverride | src/drivers/pic/ioapic.c:118-127 | Replaces the route of one interrupt and panics exactly on a bus other than ISA; Routing.IsaRouting says what the route makes of the flags |
| Lapic.NmiLvtMeans | src/drivers/pic/lapic.c:96-112 | A local NMI entry has NMI delivery, is not masked, is active low exactly for polarity 3, and sets bit 5 instead of the trigger mode for trigger 3 |
| Lapic.LocalApic.InitBegin | src/drivers/pic/lapic.c:64-94 | Masks the local lines and enables the spurious vector (Routing.LinesBegun); panics exactly when the registers have to be mapped and cannot be |
| Lapic.LocalApic.InitNmi | src/drivers/pic/lapic.c:96-112 | Programs the named line for the boot processor or all processors, and changes no other register |
| Madt.WalkRecords | src/drivers/acpi/madt.c:19-48 | The walk ends and dispatches exactly the records of the table, once each and in order, panicking exactly when one of them does; the Routing members say which records these are and what the registers hold |
| Madt.AcpiParseMadt | src/drivers/acpi/madt.c:12-49 | Starts the local APIC and walks the table from the memory state this leaves; returns exactly when neither panics, with the state of both controllers |
| Madt.WalkInvertsSerialize | src/drivers/acpi/madt.c:19-48 | The walk over a serialized list of records, padded or not, sees exactly that list |
| Madt.DecodeEncode | src/drivers/acpi/madt.h:13-45 | Every encoded record is read back field by field |
| Routing.WalkReturns | src/drivers/acpi/madt.c:19-48 | The walk returns if and only if every record has a known type, every override is of bus 0, the only I/O APIC starts at interrupt 0, can be mapped uncached and has at least 16 pins, and every NMI source comes after it |
| Routing.PinsAfterWalk | src/drivers/pic/ioapic.c:88-116 | After the walk a pin has, bit for bit, the entry of the last NMI source with the same low seven bits; without one it is masked if the table has an I/O APIC and the pin is below the maximum entry, and else keeps its entry |
| Routing.LinesAfterWalk | src/drivers/pic/lapic.c:96-112 | After the walk a local interrupt line has, bit for bit, the entry its last record for processor 0 or 0xFF asked for, and every other register its old value |
| Routing.LinesBegun | src/drivers/pic/lapic.c:86-93 | Before the walk exactly the mask bit is set in the six local lines, the spurious vector register holds 0x1FF, and every other register is unchanged |
| Routing.RouteAfter | src/drivers/pic/ioapic.c:118-127 | After any number of records an interrupt's route is the last override's: its number, active low exactly for polarity 3, level-triggered exactly for trigger 3 |
| Routing.IsaRouting | src/drivers/pic/ioapic.c:28-127 | From table bytes to entry bits: enabling an interrupt programs the pin of its last override, or that of its own number, with vector 0x30 + irq, bit 13 exactly for polarity 3 and bit 15 exactly for trigger 3, all else clear, and no other pin |
| Routing.ChipReached | src/drivers/pic/ioapic.c:92-93 | Once the I/O APIC is registered each of its 0x20 bytes is reached at its HHDM address, writable, not executable and uncached |
| Routing.LinesReached | src/drivers/pic/lapic.c:79-84 | Once the local APIC is started without x2APIC each of its 0x400 bytes is reached at its HHDM address, writable, not executable and cached |
| Routing.PinOfOverride | src/drivers/pic/ioapic.c:124 | The interrupt number of an override survives the 8-bit truncations if and only if it is below 128 |
| PrintUnsigned.PrintUnsigned | src/common.c:19-39 | The text is a numeral without leading zeros of at most 16 digits that stands for value mod base^16, written inside the buffer |
| PrintUnsigned.NumeralUnique | src/common.c:19-39 | A number has one such numeral, so the text is determined completely |
| PrintUnsigned.DigitAt | src/common.c:26-38 | The k-th digit from the right is the character 0-9 or A-Z of value / base^k % base |
| PrintUnsigned.PrintedExactly | src/common.c:19-39 | The text stands for the value itself if and only if the value is below base^16 |
| PrintUnsigned.SixteenDigits | src/common.c:19-39 | 16 hexadecimal digits hold every 64-bit value; 16 decimal digits do not |

## Left out

- Interrupt.Machine.Deliver: models delivery without a stack switch (kernel code on its own stack, no IST); status flags after arithmetic are left open, because nothing reads them.
- MemoryManager.MemoryManager.VmmMap: after a panic nothing is promised about memory, because the kernel halts.
- BringUp.AlwaysReachable: assumes that no request maps over the HHDM address of usable or reclaimable memory, which the kernel does not check; BringUp.DeviceProper says exactly which device mappings meet this.
- Madt.AcpiParseMadt: leaves out the port commands that disable the legacy PIC before the walk; assumes records of at least two bytes that tile the table and ISA sources below 16, which the kernel does not check, and that the table's own bytes do not change during the walk.
- Lapic.LocalApic.InitBegin: leaves out the MSR accesses that switch the APIC on; the base address and whether x2APIC is available are parameters.
- IoApic.Controller.InitNmiSource: the chip's delivery status and remote IRR bits are not modelled.
- Pointers to tables and to the bitmap are kept as physical addresses; that the HHDM makes both the same is what BootTheorems.SelfMapped and BringUp.AlwaysReachable prove.
- Long loops of `src/mm.c` are split into methods for their rounds; the order of stores is that of the source, except that the bit-fields of one entry are assigned to a copy that is stored once.
- A read of a word goes through a snapshot of memory; there is no model of caches, TLBs or of the accessed and dirty bits that the processor sets.
- Ill-formed boot input is a precondition: memory of at most 2^52 bytes, usable entries page-aligned and inside memory, a window for the HHDM and one for the kernel image that do not overlap, segments inside the image.
- The frame-buffer and other device memory beyond the managed pages is not part of the byte array.
- CPUID, the PAT register write, the CR3 load, port and MSR access, and log output are effects outside memory.
- `interrupt_handler`'s dispatch to devices, descriptor tables, PS/2, serial and 8259 code: sequences of device commands and constant tables.
- `kprintv`, `memcpy` and `strncmp` walk over their arguments; RSDP, XSDT and FADT parsing sum bytes, look up a signature and read two flags.
