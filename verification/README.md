# pekOS in Dafny

A model of the kernel's memory and console code, with proofs of what every run of it keeps.

The centre is the paging subsystem. The kernel never edits page tables by physical address: it writes
them through a window at 0xFFC00000 in which the page directory serves as its own last page table, so
every load and store is resolved by the tables that are being edited. Three allocators sit on top (a
bitmap of virtual pages with a resume hint, a bump counter of physical frames, a pool of 256 page
tables), and the page-fault handler re-enters the mapper by two routes.

The model has three layers:

1. `Machine.Machine` is the running machine: physical memory as frames of 32-bit words, cr3, a TLB and a
   cache of directory entries that may drop entries, or load any current translation, before every
   access. The C functions are methods written only in terms of translated loads and stores, with the
   shifts and masks of the source (`Bits` proves what those compute).
2. `Tables`, `Bitmap` and `Kernel` are the same steps as plain functions on physical memory. Every method
   of layer 1 is proved equal to its function, with no access faulting and no cached translation stale.
3. `Hardware.Space` is the address space: a map from the 2^20 pages to frames. The functions of layer 2
   are proved to be one-point updates of it, and `Runs` and `Requests` prove what all runs of them keep.
   `Traces` carries this back: a whole run on the machine ends in the state layer 2 gives.

On this stand the ACPI discovery (`Rsdp`, `Acpi`, `Headers`, `Madt`), the C library functions it uses
(`Libc`), and from boot through the search for the root pointer to the walk of a table in one piece,
`Startup`. `Rewriting` is to the loop that rewrites the root table what `Kernel` and `Runs` are to the
paging code: a transition system, and what every run of it leaves. `Absent` says when the answer 0 of
`get_physaddr` means "absent". `Terminal` and `Printf` are the console: the screen is a function of
everything printed since initialisation.

Layouts and constants are stated a second time in plain numbers and bytes, independent of the functions
that compute with them: `Images` lays root tables out byte by byte, and lemmas named `...Numbers`,
`...Bytes` and `...Digits` say what address, byte or digit a result comes down to.

## Assumptions

- `kernel_PTs` is page aligned, which nothing in the source declares (kernel/arch/i386/memory/paging.c:12).
- The kernel image lies between 1 MiB and the slot of the VGA page, and the loader has cleared .bss.
- The linker layout is any `Tables.Layout` that satisfies `Valid`. The frames of the variables that are
  class fields here (`virtual_mmap` and the counters) are `Layout.vars`, above 1 MiB. Ordinary stores of a
  run, and root tables, are outside those frames and outside the table frames; the search, the table
  walks and the table pointers of a root table do not read those frames.
- CR4.PSE is off; accessed and dirty bits are ignored; all of physical memory behaves as memory.
- An access of the paging code to a word does not cross a page. The signatures of tables, which are
  loaded byte by byte, may.

## Where the code differs from its comments

- kernel/arch/i386/memory/paging.c:13 and :129 say that pool table 0 is the boot table and numbering
  starts at 1. The code starts at 0, and the boot table is not in the pool. The model follows the code.
- kernel/arch/i386/devices/rsdt.c:123 speaks of the first 1 KiB of the EBDA; the loop covers 4 KiB.
- kernel/arch/i386/devices/rsdt.c:46 says the length excludes the header; the code subtracts the header.
- `map_page` flushes and clears as if it had to. `Machine.GrowthAgrees` shows that its edits only make
  absent pages present, so no cached translation is ever wrong even before a flush, and the clearing loop
  writes zeros over zeros.

## Results where the code does not do what a caller might expect

- Rewriting a root table can spoil itself. After each pointer is replaced the loop loads the four bytes of
  that table's signature. When the signature runs over its page, the loads fault a demand frame in behind
  it, and when that page is clear in the index ("spills"), the next request is given the page and gets the
  demand frame. `Rewriting.RewriteExactly` gives the condition: at every iteration the index covers and all
  words so far lead to their tables if and only if no table before spilled. At the end the same holds for
  pointers that do not point at the demand frames about to be handed out (`Rewriting.RewrittenExactly`);
  what a spill costs is `Rewriting.SpillTakesNext`, `Rewriting.SpillLosesNext` and
  `Rewriting.LastSpillLoses`. Signatures within a page never spill (`Rewriting.NoCrossing`).
- The search for the root pointer reads the EBDA through the kernel mapping. After boot it faults nowhere if
  and only if each EBDA candidate before the first root pointer is shown there, with its record when it has
  the signature (`Rsdp.SearchableExactly`). All the range that the loop may read is mapped if and only if it
  ends at or below the kernel's end (`Rsdp.EbdaRange`).
- Nobody checks for NULL. Without a root pointer `init_rsdt` reads the record from a demand frame that it
  faults in at address 0 (`Acpi.LocateNothing`). When no clear page is left, the next table is mapped to
  page 0, and later ones are not mapped at all (`Machine.Machine.FindAndMap`, `Runs.NullKeeps`).
- The pool has no bound check. `Runs.PoolRunsOut` gives the run of demand faults that uses it up. The next
  call makes the frame behind the pool a page table. If that frame holds neither tables nor variables, it
  is zeroed (`Tables.MapPageOverruns`), or on the window route taken with whatever it holds
  (`Tables.WindowRouteOverruns`), and no table structure is left; `Machine.Machine.MapPage` shows that the
  call takes this course through the window. If it holds `kernel_PT_index`, that is zeroed too, and pool
  tables are issued a second time (`Tables.TableIssuedTwice`). Requests alone never get there
  (`Requests.RequestsFit`).
- The page index is not told about demand faults. An event keeps it covering if and only if it is no
  fault on a clear page between 0xC0000000 and the window (`Requests.CoveredStep`).
  `Requests.RequestDelivers` gives the exact condition under which a find-then-map request gets its
  frame; `Requests.FaultSpoilsRequest` the failing case.
- `get_physaddr` answers 0 for an absent page, and 0xC0000000 leads to physical 0. A request for frame 0,
  which a zero pointer in a root table makes, adds a second such page. `Absent.OnceStep` shows that
  nothing else does; without such a request 0 means "absent" for every address but 0xC0000000, in every
  run (`Absent.ZeroMeansAbsent`), and in runs that keep the index covering a request for frame 0 is
  exactly what ends this (`Absent.AbsentUnlessZeroRequested`).
- `printf` checks its count against INT_MAX except for a few conversions. `Printf.EndingFits` gives the
  exact condition for returning the length, `Printf.OverflowsExactly` the one for overflowing `written`
  instead of returning -1, and `Printf.UncheckedZeroOverflows` an input that does: 2047 times one string
  of 1 MiB, the same string without its first character, and a zero.
- The MADT walk spins if and only if it comes back to an offset it has been at (`Madt.TerminatesExactly`,
  for every length, short ones that wrap included); while the offset cannot wrap, that takes a record of
  length 0 (`Madt.EndsExactly`). A MADT is mapped by one page; on a longer one the walk faults if and only
  if it visits a record whose head lies behind that page (`Startup.EntryFaults`).

## Model

| member | source | states |
|---|---|---|
| Bits.AddressSplit | kernel/arch/i386/memory/paging.c:137-138 | the shift-and-mask index computations are quotient and remainder |
| Bits.EntrySplit | kernel/arch/i386/memory/paging.c:113-118 | `e & 1` and `e & ~0xFFF` are the parity and the frame part of every 32-bit entry |
| Bits.EntryJoin | kernel/arch/i386/memory/paging.c:168 | or-ing flags into an aligned address is addition |
| Bits.SetBit | kernel/arch/i386/memory/paging.c:181 | setting bit k changes no other bit |
| Hardware.PutWordAt | kernel/arch/i386/devices/rsdt.c:60 | an unaligned store is read back, and every word clear of it is unchanged |
| Hardware.LittleEndian | kernel/arch/i386/devices/rsdt.c:12 | byte 0 of a word is its lowest, byte 3 its highest |
| Hardware.TranslateNumbers | kernel/arch/i386/memory/paging.c:94-119 | address bits 22-31 and 12-21 choose the entries; entry bits 0, 1 and 12-31 say present, writable and where it leads |
| Tables.SlotsDiffer | kernel/arch/i386/memory/paging.c:122-132 | different directory slots lead to different tables |
| Tables.StructureHolds | kernel/arch/i386/memory/paging.c:122-159 | entry 1023 is the directory, 768 the boot table, every other present entry has its own issued pool frame, exactly 2 + index entries are present, unissued frames are zero |
| Tables.InstallRefines | kernel/arch/i386/memory/paging.c:150-156 | a new table adds its window page to the address space and nothing else; all its 1024 pages are unmapped without the clearing |
| Tables.SetLeafRefines | kernel/arch/i386/memory/paging.c:162-168 | a leaf in an existing table is a one-point update of the address space |
| Tables.MapPageRefines | kernel/arch/i386/memory/paging.c:134-172 | map_page leaves a mapped page alone, sends an unmapped one to its frame, and changes only that page and the window page of a new table |
| Tables.MapPageNumbers | kernel/arch/i386/memory/paging.c:134-172 | below the window, address by address: an untranslated address comes to lead to `physaddr` plus its offset, writable if and only if flag bit 1 is set; a translated one stays, and with it everything |
| Tables.WindowRouteInstalls | kernel/arch/i386/process/exception_handler.c:100-111 | a window fault makes map_page edit the directory as a table, and the result is exactly an installed empty table |
| Tables.DataWriteKeeps | kernel/arch/i386/devices/rsdt.c:97 | stores outside the table frames keep structure and address space |
| Tables.MapPageOverruns | kernel/arch/i386/memory/paging.c:122-168 | with the pool used up and a frame behind it that holds neither tables nor variables, that frame is entered and zeroed whatever it held, the page is mapped, and no table structure is left |
| Tables.WindowRouteOverruns | kernel/arch/i386/process/exception_handler.c:100-111 | on the window route such a frame is not cleared: its old contents are taken for page table entries |
| Tables.TableIssuedTwice | kernel/arch/i386/memory/paging.c:122-156 | when the frame behind the pool holds `kernel_PT_index`, zeroing it restarts the issue: the next new slot shares the first issued table, all of whose pages have been unmapped |
| Tables.ZeroAddress | kernel/arch/i386/memory/paging.c:94-119 | while frame 0 is mapped once, an address translates to 0 if and only if it is 0xC0000000 |
| Machine.GrowthAgrees | kernel/arch/i386/memory/paging.c:150-171 | an edit that only makes pages present leaves every cached translation correct |
| Machine.TableEditAgrees | kernel/arch/i386/memory/paging.c:153-168 | an edit of a table that one slot alone leads to leaves cached translations of all other slots correct |
| Machine.WindowWalk | kernel/arch/i386/boot.S:108-117 | the pages of the window are the page tables, the last one the directory |
| Machine.BootNumbers | kernel/arch/i386/boot.S:61-117 | after boot, for every address: the image is seen at 0xC0000000 above its place, 0xC03FF000 shows 0xB8000, 0xFFF00000 the boot table, 0xFFFFF000 the directory, and nothing else is translated |
| Machine.Machine.Boot | kernel/arch/i386/boot.S:52-142 | boot establishes the whole invariant with an empty pool use and exactly two frames written; the address space is the kernel image, text memory at 0xB8000 behind 0xC03FF000, and two window pages; the first demand frame is at 0x10000000 |
| Machine.Machine.FillBootTable | kernel/arch/i386/boot.S:61-85 | the loop maps exactly the pages below the kernel's end, linearly |
| Machine.Machine.LeaveIdentityMap | kernel/arch/i386/boot.S:138-142 | slot 0 is cleared through the mapping it is about to lose, and the reload removes the stale translations |
| Machine.Machine.Speculate | kernel/arch/i386/memory/control_registers.S:3-5 | whatever the processor caches or drops between accesses, the caches keep agreeing with the tables |
| Machine.Machine.Load | kernel/arch/i386/memory/paging.c:43 | a load through any cached translation reads where the tables say |
| Machine.Machine.Store | kernel/arch/i386/memory/paging.c:168 | a store through any cached translation writes where the tables say |
| Machine.Machine.GetPhysaddr | kernel/arch/i386/memory/paging.c:94-119 | for every address, window included, the software walk is the hardware walk, 0 when there is none; while frame 0 is mapped once, 0 means absent for every address but 0xC0000000 |
| Machine.Machine.GetPeValue | kernel/arch/i386/memory/paging.c:69-92 | the raw entry, present or not, 0 only for an absent directory entry |
| Machine.Machine.AllocatePt | kernel/arch/i386/memory/paging.c:122-132 | call i answers `kernel_PTs` plus i times 4 KiB, a pool frame exactly for i below 256 |
| Machine.Machine.MapPage | kernel/arch/i386/memory/paging.c:134-172 | through the window and any TLB it does what the plain physical edit does, the call that takes the frame behind the pool included; faults nowhere, has flushed when it mapped, and keeps the structure while the pool lasts |
| Machine.Machine.ClearTable | kernel/arch/i386/memory/paging.c:153-156 | the clearing loop zeroes the frame of the new table and stays within it; on a pool frame it leaves memory as it was |
| Machine.Machine.MapVirtualMemory | kernel/arch/i386/memory/paging.c:30-56 | afterwards a page's bit is set exactly when the page translates, for all 2^20 pages |
| Machine.Machine.PresentBits | kernel/arch/i386/memory/paging.c:37-44 | the shift-and-or loop collects the present bits of 32 entries, first entry highest |
| Machine.Machine.InitPageAllocation | kernel/arch/i386/memory/paging.c:21-27 | from then on the index covers every translated page from 0xC0000000 to the window |
| Machine.Machine.FindFreeVirtaddr | kernel/arch/i386/memory/paging.c:174-190 | the search resumed at the hint equals first fit: the answer is the lowest address from 0xC0000000 on whose page is clear, whose bit alone it sets; NULL exactly when none is clear, and then nothing changes |
| Machine.Machine.PageFaultHandler | kernel/arch/i386/process/exception_handler.c:75-114 | a supervisor not-present fault, error code bits 0 and 2 clear, takes the step HandleFault, the one that overruns the pool included, and keeps the invariant while the pool lasts; other faults halt with nothing changed |
| Machine.Machine.FindAndMap | kernel/arch/i386/devices/rsdt.c:29-30 | the two calls take the step FindAndMap and keep the invariant; NULL leads to the step MapNull, on page 0 |
| Machine.Machine.Touch | kernel/arch/i386/process/exception_handler.c:75-114 | a load of a byte anywhere is repeated after a demand fault where nothing is mapped, and then reads where the tables say |
| Machine.Machine.MapPhysical | kernel/arch/i386/devices/apic.c:136-138 | the address computed for a device or table translates to its physical address, offset included |
| Machine.OffsetByOr | kernel/arch/i386/devices/apic.c:137 | joining page and offset by "or" equals adding them |
| Bitmap.MarkTakes | kernel/arch/i386/memory/paging.c:181 | marking a page sets its bit and no other |
| Bitmap.TakenNumbers | kernel/arch/i386/memory/paging.c:181 | page p is bit 31 - p % 32 of word p / 32 |
| Bitmap.FirstFit | kernel/arch/i386/memory/paging.c:174-190 | a call takes the lowest clear page from page 0xC0000 on and no other |
| Bitmap.FindLowest | kernel/arch/i386/memory/paging.c:174-190 | a call returns the lowest clear page and takes exactly it; nothing exactly when none is clear; words below the hint stay full |
| Bitmap.FindManyAscends | kernel/arch/i386/memory/paging.c:174-190 | over any number of calls the results ascend, so no page is returned twice |
| Bitmap.FindManyServes | kernel/arch/i386/memory/paging.c:174-190 | n calls return min(n, number of clear pages) pages |
| Kernel.DemandBound | kernel/arch/i386/memory/paging.c:192-197 | at most 257 tables hold pages below the window, so at most 263168 demand frames exist and the counter does not wrap |
| Runs.FaultProgress | kernel/arch/i386/process/exception_handler.c:75-114 | the handler returns with the faulting page translated, all earlier translations intact and fewer untranslated pages |
| Runs.FaultNumbers | kernel/arch/i386/process/exception_handler.c:96-111 | a faulting address below 0xFFC00000 comes to lead to `cur_physaddr` plus its offset, and `cur_physaddr` grows by 4 KiB; one above to the next pool table |
| Runs.FaultOnlyAdds | kernel/arch/i386/process/exception_handler.c:75-114 | a fault translates no third page, writes to no frame but the tables, and takes nothing from the index |
| Runs.NullKeeps | kernel/arch/i386/memory/paging.c:174-189 | with no clear page left a request maps page 0 when that is untranslated, and else nothing; all translations stay |
| Runs.RunKeeps | kernel/arch/i386/memory/paging.c:134-172 | every run keeps the invariant and every translation ever made |
| Runs.RunKeepsStructure | kernel/arch/i386/memory/paging.c:122-159 | every run keeps the plain table structure |
| Runs.VgaPageStays | kernel/arch/i386/boot.S:88-89 | in every run every address of the page 0xC03FF000 leads to its place in text memory at 0xB8000, writable, and no table is there |
| Runs.KernelStays | kernel/arch/i386/memory/paging.c:127-128 | in every run every address of the kernel image, `kernel_PTs` and all pool tables included, translates to its place below 0xC0000000 |
| Runs.FaultsBounded | kernel/arch/i386/process/exception_handler.c:75-114 | a run has at most as many faults as pages were untranslated |
| Runs.FaultsOnce | kernel/arch/i386/process/exception_handler.c:75-114 | no page faults twice in a run |
| Runs.DemandFramesAscend | kernel/arch/i386/memory/paging.c:192-197 | the frames handed to faults are consecutive |
| Runs.DemandNumbers | kernel/arch/i386/memory/paging.c:192-197 | from boot on they are the frames 0x10000, 0x10001 and so on |
| Runs.DemandFramesFresh | kernel/arch/i386/memory/paging.c:192-197 | each differs from all others and holds neither kernel nor tables; they are at most 263168, and the counter stays in their range |
| Runs.PoolRunsOut | kernel/arch/i386/memory/paging.c:122-132 | after as many faults in new slots as tables are left, the pool is used up; the next fault takes the frame behind it, which is entered as a page table and zeroed when it holds neither tables nor variables |
| Requests.RequestDelivers | kernel/arch/i386/devices/rsdt.c:95-98 | a request gets its frame if and only if the lowest clear page was untranslated or led there already; an abort changes nothing, and never is a page translated besides this one and a new table's window page |
| Requests.CoveredDelivers | kernel/arch/i386/devices/rsdt.c:95-98 | with a covering index map_page never aborts and the page leads to the requested frame |
| Requests.FaultSpoilsRequest | kernel/arch/i386/process/exception_handler.c:96-111 | a demand fault on the lowest clear page makes the next request abort and get the demand frame |
| Requests.CoveredStep | kernel/arch/i386/devices/rsdt.c:95-98 | a request, data write or fault keeps the index covering if and only if it is no fault on a clear page between 0xC0000000 and the window |
| Requests.FaultsElsewhere | kernel/arch/i386/process/exception_handler.c:96-111 | faults below 0xC0000000 and in the window are harmless in every run |
| Requests.RunDelivers | kernel/arch/i386/devices/rsdt.c:86-98 | in every run without a fault on a clear page, each request's page still leads to its frame at the end, below the window |
| Requests.GrantedFirstFit | kernel/arch/i386/memory/paging.c:174-190 | the granted pages are the allocator's first-fit sequence, whatever faults and data writes the run has |
| Requests.RequestFindsTable | kernel/arch/i386/memory/paging.c:122-132 | requests use at most the 254 slots 769 to 1022, so each finds a pool table |
| Requests.RequestsFit | kernel/arch/i386/memory/paging.c:122-132 | as many requests as pages are clear go through, with at most 254 pool tables |
| Traces.Perform | kernel/arch/i386/process/exception_handler.c:75-114 | one fault, request or data write handled by the code, behind any caches, is one step of the transition system |
| Traces.Execute | kernel/arch/i386/memory/paging.c:134-172 | a run of any length on the machine ends in the final state of the transition system, so all that is proved of runs holds of the machine |
| Absent.BootZeroOnce | kernel/arch/i386/boot.S:52-142 | boot maps physical frame 0 once |
| Absent.RequestMapsAgain | kernel/arch/i386/devices/rsdt.c:95-98 | a frame that one page leads to gets a second page if and only if it is requested and the page granted was untranslated |
| Absent.OnceStep | kernel/arch/i386/memory/paging.c:134-172 | a step keeps a low frame that one page leads to mapped once if and only if it is no request for it that gets a page of its own |
| Absent.RunOnce | kernel/arch/i386/memory/paging.c:134-172 | over a whole run, whatever faults it has, such a frame stays mapped once if and only if no request of the run maps it again |
| Absent.OnceUnlessRequested | kernel/arch/i386/devices/rsdt.c:91-98 | in runs that keep the index covering, if and only if no request asks for it |
| Absent.ZeroMeansAbsent | kernel/arch/i386/memory/paging.c:94-119 | in every run without a request for frame 0, whatever faults it has, an address translates to 0 if and only if it is 0xC0000000 |
| Absent.AbsentUnlessZeroRequested | kernel/arch/i386/devices/rsdt.c:91-98 | in runs that keep the index covering, frame 0 stays mapped once if and only if no request asks for it |
| Rsdp.Search.DoChecksumRsdp | kernel/arch/i386/devices/rsdt.c:180-194 | sets the version of the record and accepts exactly a byte sum of 0 modulo 256, over 20 bytes when byte 15 is 0 and else over 36 |
| Rsdp.Search.Check | kernel/arch/i386/devices/rsdt.c:134-143 | a candidate passes exactly when it is a root pointer |
| Rsdp.RootPointerBytes | kernel/arch/i386/devices/rsdt.c:134-143 | byte by byte: a root pointer is "RSD PTR " with a sum of 0 modulo 256 over its first 20 bytes when byte 15 is 0, whatever follows, and else over its first 36 |
| Rsdp.FirstPlace | kernel/arch/i386/devices/rsdt.c:131-163 | address by address: the answer is the first root pointer in the 4 KiB of the EBDA, else the first from 0xC00E0000 to 0xC00FFFF0 |
| Rsdp.RootAddressBytes | kernel/arch/i386/devices/rsdt.c:112-120 | the root table is at the number in bytes 16 to 19 when byte 15 is 0, else in bytes 24 to 27 |
| Rsdp.Search.FindRsdp | kernel/arch/i386/devices/rsdt.c:122-167 | on the running machine, reading of each candidate no more than it needs and nothing behind the first root pointer: the first root pointer among all candidates, NULL exactly when there is none, and ACPI_version describes it whatever failed before |
| Rsdp.SearchableExactly | kernel/arch/i386/devices/rsdt.c:122-163 | after boot all that the search reads up to the first root pointer can be read if and only if every EBDA candidate up to there, and its record if it has the signature, lies below the kernel end or in the page that shows the VGA frame, outside the paging variables |
| Rsdp.EbdaRange | kernel/arch/i386/devices/rsdt.c:122-134 | after boot the whole range that the EBDA loop may read is mapped if and only if it ends at or below the kernel end, the page of the VGA frame counted in when the image reaches up to it |
| Rsdp.Search.FindRsdt | kernel/arch/i386/devices/rsdt.c:112-120 | the address is the number in bytes 16 to 19 or 24 to 27, as byte 15 says |
| Acpi.RewritePointers | kernel/arch/i386/devices/rsdt.c:50-69 | both in-place loops on the running machine, signature loads and their demand faults included, pass through the states of the iterated specification, each iteration reading the pointer that the firmware left there |
| Acpi.LoadSignature | kernel/arch/i386/devices/rsdt.c:64-67 | the four loads fault once when the signature runs over into an untranslated page, and else not |
| Rewriting.FilledUnread | kernel/arch/i386/devices/rsdt.c:52-61 | no pointer, compacted or not, is overwritten before it is read (`Images.ImageRead` says where the pointers are) |
| Rewriting.RewriteExactly | kernel/arch/i386/devices/rsdt.c:86-108 | at every iteration the index covers and all words so far lead to their tables if and only if no table before has its signature across a page end with the page behind its mapping clear |
| Rewriting.RewrittenExactly | kernel/arch/i386/devices/rsdt.c:86-108 | the same at the end of the loop, for pointers apart from the demand frames about to be handed out |
| Rewriting.SpillsNumbers | kernel/arch/i386/devices/rsdt.c:102-105 | a table spills if and only if its page offset is at least 0xFFD and the page behind the next one is clear and below 0xFFC00000 |
| Rewriting.SpillTakesNext | kernel/arch/i386/devices/rsdt.c:102-105 | a spilling table makes the next request abort on a page that leads to a demand frame |
| Rewriting.SpillLosesNext | kernel/arch/i386/devices/rsdt.c:102-105 | the word behind a spilling one leads to its table at the end if and only if that lies in the demand frame the fault was given |
| Rewriting.LastSpillLoses | kernel/arch/i386/devices/rsdt.c:102-105 | a spill in the last iteration costs the covering index |
| Rewriting.TraceReadable | kernel/arch/i386/devices/rsdt.c:209-224 | spill or not, four bytes can be read through every rewritten word |
| Acpi.InitRsdt | kernel/arch/i386/devices/rsdt.c:21-110 | the first root pointer is found, address and layout of the root table both come from it, the table is mapped at its offset, its entries counted, its pointers replaced; unless a table spills, they lead to the tables |
| Acpi.InitRootTable | kernel/arch/i386/devices/rsdt.c:28-110 | the part behind the search, for any root table address and either layout |
| Images.ImageRead | kernel/arch/i386/devices/rsdt.c:46-53 | a root table in bytes, 36 of header with the length at 4, then n pointers of 8 or 4 bytes, has n entries, and pointer e is read from offset 36 + 8 * e or 36 + 4 * e |
| Images.RewriteImage | kernel/arch/i386/devices/rsdt.c:28-110 | on such a table `entries` is n, and unless a table spills, the 32-bit word at offset 36 + 4 * e comes to lead to the low word of pointer e, for either layout |
| Acpi.LocateNothing | kernel/arch/i386/devices/rsdt.c:112-120 | without a root pointer the record at address 0 is read from a demand frame that the first load faults in |
| Headers.FindByHeader | kernel/arch/i386/devices/rsdt.c:209-234 | the first word behind which the signature is read, across a page end or not; 0 exactly when there is none, always 0 for an XSDT |
| Startup.DiscoverTables | kernel/kernel/kernel.c:29-37 | from boot through the search to the root table no access faults and nothing runs out, for every root pointer the search finds in mapped memory and every root table that fits its page; the rewriting ends in the right pointers unless a table spills |
| Startup.DiscoverTable | kernel/arch/i386/devices/apic.c:41 | with an RSDT whose tables have their signatures within a page, a driver gets the first table with its signature among those the firmware listed, 0 exactly when there is none |
| Images.Discover | kernel/kernel/kernel.c:29-37 | from power-on with the root table given in bytes: pointers counted, table mapped, every word leads to what its pointer pointed to; tables with page offsets up to 0xFFC never spill |
| Images.FindListed | kernel/arch/i386/devices/apic.c:41 | with an RSDT in bytes a driver gets an address of the first listed table whose first four bytes in memory are the signature |
| Startup.FindEntry | kernel/arch/i386/devices/apic.c:162-179 | on a MADT within its page, records from byte 44 on, the walk faults nowhere and gives the first record of the type, 0 when there is none |
| Startup.EntryFaults | kernel/arch/i386/devices/apic.c:167-176 | with nothing mapped behind the page of the MADT, the walk faults if and only if it visits a record whose head lies behind the page |
| Startup.BootIndexed | kernel/kernel/kernel.c:29-36 | after boot and indexing the index covers what is mapped, frame 0 is mapped once, and pages and tables are left for up to 254 * 1024 requests |
| Startup.PlentyClear | kernel/kernel/kernel.c:35-37 | after boot 254 * 1024 pages are clear |
| Madt.ParseSerialize | kernel/include/kernel/apic.h:30-43 | parsing a serialised record list gives the list back |
| Madt.SerializeParse | kernel/include/kernel/apic.h:30-43 | every well-formed area is the serialisation of what it parses to |
| Madt.RecordBytes | kernel/include/kernel/apic.h:30-43 | a record is its type, its length with these two bytes included, and its body |
| Madt.FindMadtEntryByType | kernel/arch/i386/devices/apic.c:162-179 | on the running machine, for every length, short ones that wrap offset and address included, wherever the loop terminates the answer is where it stops, 0 at the end |
| Madt.TerminatesExactly | kernel/arch/i386/devices/apic.c:167-176 | for every length the loop terminates if and only if it never comes back to an offset |
| Madt.EndsExactly | kernel/arch/i386/devices/apic.c:167-176 | while the offset cannot wrap, the loop terminates if and only if no record of length 0 comes before the end or the match |
| Madt.FindInTable | kernel/arch/i386/devices/apic.c:162-179 | on a record list the walk ends, and its one answer is the first record of the type, 0 exactly when no record has it |
| Madt.WalkTable | kernel/arch/i386/devices/apic.c:162-179 | a record list that is mapped is walked without a fault |
| Madt.PositionIsFirst | kernel/arch/i386/devices/apic.c:167-173 | the position is the length of the records before the first match |
| Libc.Strncmp | libc/string/strncmp.c:3-13 | on the running machine, reading no further than the first difference: zero exactly on equal strings cut off at n, negative exactly when the first is lexicographically less |
| Libc.CStringOrder | libc/string/strncmp.c:3-13 | byte by byte: two strings are equal if and only if they differ nowhere before a NUL or n, and the first difference decides their order |
| Libc.TextEquals | kernel/arch/i386/devices/rsdt.c:134 | against a text without NUL, equality is equality of bytes |
| Libc.Memcmp | libc/string/memcmp.c:3-13 | 0 exactly on equal blocks, -1 exactly when the first difference is in favour of the first |
| Libc.Memmove | libc/string/memmove.c:3-14 | for any overlap the destination gets what the source held, the rest is unchanged |
| Terminal.ShownAppend | kernel/arch/i386/tty.c:80-83 | one more cell changes exactly the screen cell it falls on |
| Terminal.ShownIsLast | kernel/arch/i386/tty.c:85-121 | a screen cell shows the last character whose position is its number modulo 2000 |
| Terminal.CharacterAdds | kernel/arch/i386/tty.c:80-83 | a character other than newline adds one cell with the character in the low byte and the colour in the high one |
| Terminal.NewlineAligns | kernel/arch/i386/tty.c:150-155 | a newline adds 1 to 80 spaces in the current colour and ends on a multiple of 80 |
| Terminal.Terminal.constructor | kernel/arch/i386/tty.c:61-74 | the screen of an empty history is 0x0720 in all 2000 cells: blanks in light grey on black; cursor at row 0, column 0 |
| Terminal.Terminal.PutChar | kernel/arch/i386/tty.c:85-97 | screen and cursor remain the function of the history, which grew by this character. The cell under the cursor takes the character in its low byte and the colour in its high byte; a newline fills the rest of the row with spaces; the cursor moves on, and no other cell changes |
| Terminal.Terminal.HandlePosition | kernel/arch/i386/tty.c:111-121 | column 80 becomes the start of the next row, row 25 the first row |
| Terminal.Terminal.ClearRestOfLine | kernel/arch/i386/tty.c:150-155 | terminates, having written spaces from the cursor to the end of its row and nothing else |
| Terminal.Terminal.Write | kernel/arch/i386/tty.c:99-105 | the history grows by the text, character by character, in the current colour |
| Terminal.Terminal.ScrollDown | kernel/arch/i386/tty.c:133-141 | in place, every row takes the old row d below it, the last d rows stay |
| Printf.NumbersRoundTrip | libc/stdio/printf.c:78-195 | the %d, %u and %x text of all 2^32 values reads back as the value and fits the digit buffers |
| Printf.CharacterAndString | libc/stdio/printf.c:47-76 | "%c" prints the low byte of its argument, "%s" the string |
| Printf.NumbersReadBack | libc/stdio/printf.c:78-195 | "%d", "%u" and "%x" print texts that read back as the argument, "%x" behind "0x", for all 2^32 values |
| Printf.NumbersDigits | libc/stdio/printf.c:144-192 | digit k from the right is argument / base^k % base, as "0" to "9" or "a" to "f", without leading zeros |
| Printf.SignedAsUnsigned | libc/stdio/printf.c:78-128 | "%d" of a negative number prints a minus sign and what "%u" prints for its magnitude |
| Printf.RenderFirst | libc/stdio/printf.c:20-62 | a format is rendered piece by piece: characters, "%%" and conversions as they are alone; an unknown conversion prints itself and all the rest |
| Printf.NaturalRoundTrip | libc/stdio/printf.c:130-161 | the digits of a number read back as the number and have no leading zero |
| Printf.EndingFits | libc/stdio/printf.c:16-217 | the return value is the length of the rendering exactly when that is at most 2147483647 |
| Printf.OverflowsExactly | libc/stdio/printf.c:46-195 | `written` overflows if and only if a conversion is reached that passes its check though its text does not fit behind what precedes it |
| Printf.SlipsNumbers | libc/stdio/printf.c:84-97 | what passes the check and overflows: "0", "0x0" and "-2147483648", and "0x" of a hexadecimal number that fits without it |
| Printf.UncheckedZeroOverflows | libc/stdio/printf.c:91-97 | an input the kernel can hold for which that happens |
| Printf.LiteralRender | libc/stdio/printf.c:25-40 | a literal run, "%%" included, is what the character-by-character rendering gives |
| Printf.FillDigits | libc/stdio/printf.c:105-109 | the buffer reversed is the digit string, within 10 or 8 bytes |
| Printf.PutChar | libc/stdio/putchar.c:7-15 | one character reaches the terminal |
| Printf.Print | libc/stdio/printf.c:8-14 | exactly the given bytes are printed |
| Printf.Convert | libc/stdio/printf.c:46-195 | a conversion prints its whole text or, when its check fails, nothing |
| Printf.Printf | libc/stdio/printf.c:16-217 | what is printed is a beginning of the rendering, all of it when its length fits an int; the outcome is the specified one |

## Left out

- Machine.Machine.MapPage: assumes an aligned physical address, flags with bit 0 set, and window targets only from the fault handler, because the code promises nothing otherwise. A table is left, or the frame behind the pool holds neither tables nor variables; `Tables.TableIssuedTwice` has a frame with the paging code's variables, as plain memory writes.
- Machine.Machine.AllocatePt: assumes fewer than 0xF0000 calls, so that the answer stays below 4 GiB.
- Machine.Machine.FindAndMap: assumes that the page granted lies below the window. The allocator hands out the clear pages of the window only after all others; a table mapped there would be taken for a page table.
- Machine.Machine.PageFaultHandler: what follows a fault that overran the pool is not modelled, because no table structure is left; halting is an early return.
- Acpi.InitRsdt: the search finds a root pointer (`Acpi.LocateNothing` has the other case up to the root table's address) and reads mapped memory; the root table fits its page, and its frame holds neither tables nor paging variables. The signature bytes loaded are not kept: the source only prints them.
- Rsdp.Search.FindRsdp: assumes that what it reads is mapped (`Rsdp.SearchableExactly`); the demand frames that an EBDA elsewhere would be given are not modelled.
- Rewriting.RewrittenExactly: a pointer at a demand frame about to be handed out is excluded; there a spill can give the next table its own frame by chance (`Rewriting.SpillLosesNext`).
- Madt.FindMadtEntryByType: the records visited can be read without a fault (`Startup.EntryFaults`).
- Libc.Strncmp: pointers do not wrap around the address space.
- Printf.Printf: arguments match the format, strings end, and `putchar` never fails; %s of NULL is not modelled.
- Terminal.Terminal.ScrollDown: d is between 0 and 25; nothing in the kernel calls it with another value, and `terminal_new_row` has no caller.
- Messages printed from the paging and ACPI code, the VGA cursor ports, and the serial, PIC, PS/2, APIC timer and IOAPIC register sequences.
- GDT, IDT and TSS setup, interrupt stubs, EOI dispatch, multiboot structures and the build.
- `memset`, `memcpy`, `strlen` and the unused `do_checksum_ACPISDT` and `find_entry_in_RSDT`.
