# Boot memory, device ids and the store connection of a Xen host

Three parts of the Xen host code are modelled here, and properties of whole runs are proved about them:

1. **The PV guest builder** (`crates/xen/xenplatform`). It populates a domain's memory, loads a kernel, sizes and
   places page tables that have to map themselves, fills them through host mappings of guest frames, hands them over
   and sets the first CPU's registers.
2. **Device ids** (`crates/xen/xenclient`). A circular bitmap allocator lives in the store; concurrent transactions
   load it, use it, and commit it with retry.
3. **The store connection** (`crates/xen/xenstore`). Many callers share one byte stream, with request ids that wrap, a
   map of waiters, watch events, and message framing.

## How the parts fit

`PageTables` holds the counting of tables as functions, `Layouts` what the finished plan guarantees, and `Paging` an
independent reader: the 4-level walk of the Intel SDM, Volume 3A, sections 4.5 and 4.6, including present, write, user
and page-size bits. `Paging.WalkIsExact` connects the two: in filled tables every address, mapped or not, translates
exactly as planned. `XenCalls` stands for the hypervisor and the mapping driver: guest memory is a map from frames to
4096 bytes, a host mapping a map from host pages to frames, the control calls a list, and every outcome the builder
does not control is arbitrary within its contract; a mapping call that fails may have mapped any part of its range.
`PhysicalPageCache`, `BootDomains` and `X86Pv` are the builder's objects with their fields changed in place; `Filling`
proves the shift arithmetic of the fill loop. `GuestView` and `Boot` state what the started guest reads through its
own tables, and `Boot.CreateGuest` runs both phases from an untouched domain.

`DeviceIds`, `DiskNames`, `Transactions` and `XenTransactions` are the second part. `Transactions` is a state machine
over the single steps of any number of clients; the store lets a commit through only if neither allocator node has
changed since it was read, and may refuse any commit. `XenTransactions` holds the objects and the retry loops; the
results are tied to the steps by the functions both use. `TransactionRuns` proves that a loop among any other clients
is a run of the state machine.

`Multiplexer` and `Wire` are the third part: a state machine of callers, processor and server with the shared objects
(`Multiplexer.Router`) whose methods are its steps, and a parser with its printer.

## Conditions

The end-to-end theorem asks for what a caller can check before the call (`Boot.OrdinaryInputs`, `Boot.ImageOk`):

- `virt_base` is page aligned; the p2m base is page aligned and below `virt_base`, otherwise the list is placed first
  (`crates/xen/xenplatform/src/x86pv.rs:491-495`). The list crosses no 2^48 boundary. Below 2^48 the builder itself
  keeps list and area apart; a list at 2^48 or above is compared unmasked with a masked area
  (`crates/xen/xenplatform/src/x86pv.rs:222-226`), and must be clear of the area in its low 48 bits.
- The pages needed for kernel, ramdisk and the shared pages, plus 1/128 of them and 6 MiB, end before the next 2^48
  boundary after `virt_base`. The sizing loop is proved to stay within this bound, so that domains of any memory size
  are covered.
- Every program header, loadable or not, begins in the loadable span, has a memory size of at least its file size, and
  ends in the span if it has more memory than file bytes, as `ElfLoader.Parse` proves of images with loadable segments
  only; the loader copies headers that the span computation skips (`crates/xen/xenplatform/src/elfloader.rs:203-215`
  against `crates/xen/xenplatform/src/elfloader.rs:275-300`).
- The hypercall page, if any, is inside the kernel; its bytes are the hypervisor's afterwards.
- A ramdisk is taken in the order used for images with `unmapped_initrd`
  (`crates/xen/xenplatform/src/boot.rs:208-210`).
- The command line has at most 1024 characters; storing a longer one fails past the end of its field
  (`crates/xen/xenplatform/src/x86pv.rs:650-656`).

The hypervisor's part: populated frames are distinct and have numbers below 2^40, the shared-information frame is none
of them, an unused host range is really unused. The store server's part: it answers each request once, under the
request's id. The multiplexer's results hold for runs in which no unfinished request is overtaken by 2^32 later ids.

## Findings

- `setup_page_tables` cannot always fill what was planned. When the p2m base and the masked `virt_base` lie in one 2
  MiB region, the list has no leaf table of its own, its level starts past the last segment, and the pointer lookup
  fails. `X86Pv.X86PvPlatform.SetupPageTables` proves success if and only if there is such a table,
  `TableCounts.NoLeafTable` the exact condition on the image, and `Boot.CreateGuest` that creation then fails.
  `Boot.CloseImageIsOrdinary` is an input that meets it and every stated condition.
- A failed mapping call can leave guest pages mapped for good. `pfn_alloc` gives up after a successful `mmap` without
  unmapping, and `mmap_batch` reports a page to retry after it has mapped others
  (`crates/xen/xenplatform/src/mem.rs:101-113`, `crates/xen/xencall/src/lib.rs:288-337`).
  `PhysicalPageCache.LeakSurvives` proves that exactly these pages survive the unmapping of everything listed, and
  `PhysicalPageCache.FailedCallLeavesPage` is such a state. Creating a guest leaves nothing else behind unless
  unmapping fails.
- After a failed `unmap_all` the list still names regions that are gone, and lookups return dead pointers.
  `PhysicalPageCache.DroppedValid` proves that the list is right if and only if no region was dropped,
  `PhysicalPageCache.StaleLookup` which lookups are dead, and `PhysicalPageCache.DeadPointer` is a cache of two
  regions. What remains true is that every mapping that is left is listed, which is what the second call in `boot`
  needs.
- For an image whose p2m base is not below `virt_base`, or not page aligned, the frame that becomes cr3 and is handed
  to the pin call is not the root's. The list is placed first and takes the root table into its own segment, but both
  use the first frame of the segment of the other tables (`crates/xen/xenplatform/src/x86pv.rs:490-512`,
  `crates/xen/xenplatform/src/x86pv.rs:669-677`, `crates/xen/xenplatform/src/x86pv.rs:727-741`).
  `Boot.InitializeInternal` proves that the frame is the root's if and only if the image is not of this kind;
  `Boot.ListFirstIsAccepted` is such an image, which nothing but the hypervisor or the mapping driver can stop in the
  first phase.
- The overlap test of the sizing compares an unmasked range with masked ones, so that it does not notice a p2m list at
  2^48 or above that runs into the area. `X86Pv.LayoutExact` proves that the plan is right if and only if the low 48
  bits are apart, and `TableCounts.OverlapUnnoticed` is an accepted plan in which one page is in both.
- A grant entry keeps 32 bits of a frame number. `Boot.GrantsTold` proves that console and store are granted at the
  frames the guest is told if and only if their numbers are below 2^32
  (`crates/xen/xenplatform/src/x86pv.rs:698-704`); in `X86Pv.GrantOfAnotherPage` the granted frame is another page of
  the domain.
- A released id can be handed out again at once although another id is free. `DeviceIds.ReissuedNext` gives the exact
  condition, `DeviceIds.LatestReissuedLast` the case in which the id just allocated is released (then it comes last),
  and `DeviceIds.ReleasedIdCanReturnAtOnce` a state in which it happens.

## Model

| member | source | states |
|---|---|---|
| Boot.CreateGuest | crates/xen/xenplatform/src/domain.rs:57-82 | whenever both phases succeed, the guest is ready (`Started`): every address translates as planned under cr3; the image, the frame list, the ramdisk, the stack and the start info are where addresses and registers say; the numbers returned for the domain are those the guest reads; the control calls are exactly the listed ones, in order, with the root pinned, the stubs where the guest looks for them, and two different event channels; event delivery is masked in the shared page; the grants name the frames the guest reads exactly if these are below 2^32; no guest page is left mapped in the host. For an image whose sizes fit the domain (`OrdinaryFits`), and if no host call fails, it succeeds if and only if the p2m list and the area do not begin in one 2 MiB region. Whatever the outcome, an error from outside means that a call has failed, and unless unmapping failed only mappings of failed calls are left, and none if no mapping call failed |
| Boot.Initialize | crates/xen/xenplatform/src/boot.rs:222-262 | the first phase ends with `Initialized` and nothing left behind by a failed call, or cleans up: unless unmapping failed only the mappings of failed calls are left |
| Boot.InitializeInternal | crates/xen/xenplatform/src/boot.rs:180-219 | after the first phase the special pages are in order, the tables planned and clear, the kernel image in place before all of them and untouched by what was allocated later, the mapped area no larger than its bound, and two different event channels taken, the console's first; for every image, the frame that becomes cr3 is the root's if and only if the p2m list is not placed first; an image whose sizes fit, in either order, can be stopped by the hypervisor or the mapping driver only |
| Boot.LoadKernelSegment | crates/xen/xenplatform/src/boot.rs:289-307 | the segment lands at the image's virtual address and its bytes are the ELF load image, for any number of overlapping headers |
| Boot.AllocModule | crates/xen/xenplatform/src/boot.rs:45-50 | a module's bytes are readable in its pages and no other page of the domain changes |
| Boot.LoadImages | crates/xen/xenplatform/src/boot.rs:204-210 | kernel and ramdisk end up in disjoint pages, each byte for byte what was given, the kernel at its virtual address, and the cursor right behind them |
| Boot.FillMemory | crates/xen/xenplatform/src/boot.rs:264-274 | tables, frame list and start info are complete together, none overwriting another; every earlier page keeps its contents except the hypervisor's; fails when the p2m list has no leaf table of its own |
| Boot.FillAndPin | crates/xen/xenplatform/src/boot.rs:272-276 | tables, list, start info and shared page are complete together, the first frame of the table segment is pinned, and no page below the start info changes but the hypervisor's |
| Boot.GuestFound | crates/xen/xenplatform/src/boot.rs:264-281 | prepared memory (`Prepared`): filled memory, in which everything below the start info is as the first phase left it, is a ready guest with its ramdisk |
| Boot.StubsReached | crates/xen/xenplatform/src/x86pv.rs:758-767 | the frame the guest reaches at the hypercall address is the one the hypervisor was asked to fill |
| Boot.RamdiskVisible | crates/xen/xenplatform/src/x86pv.rs:646-649 | through the finished tables the ramdisk can be read, byte for byte, at the address and length the start info gives; without one both fields read 0 |
| Boot.TableFrames | crates/xen/xenplatform/src/x86pv.rs:627-628 | the tables of the first mapping can be read one after another from the given address, the root first, and none of them written |
| Boot.BootInternal | crates/xen/xenplatform/src/boot.rs:264-281 | fill, pin, shared page, registers, grants, unmap: on success the guest is ready; on failure every leftover mapping is still listed or accounted for as left by a failed call |
| Boot.BootGuest | crates/xen/xenplatform/src/boot.rs:283-287 | success keeps the ready guest; every outcome cleans up, as far as the calls allow; fails when the p2m list has no leaf table of its own |
| Boot.ReadyGuest | crates/xen/xenplatform/src/x86pv.rs:714-756 | the three registers of the first CPU, walked through the finished tables, give the planned address space, the start info and the stack |
| Boot.ReadyPages | crates/xen/xenplatform/src/x86pv.rs:731-734 | rsi and rsp - 1 reach the start-info and boot-stack frames, both writable |
| Boot.ReadyStartInfo | crates/xen/xenplatform/src/x86pv.rs:602-658 | the start info, read through the guest's own tables, gives the page count, the address of the frame list, the frames of the store and console pages right behind the start info, and the tables: as many as stated, from the stated address, root first, all read-only |
| Boot.StartInfoVisible | crates/xen/xenplatform/src/x86pv.rs:602-658 | the guest reads every field of the start info at rsi, at the offsets of the public interface, the magic, and the command line with its terminating zero; the rest of the page is zero |
| Boot.KernelVisible | crates/xen/xenplatform/src/elfloader.rs:264-302 | virt_kstart + k, translated by the walk, reads byte k of the ELF load image, which is that of the last header covering it |
| Boot.P2mVisible | crates/xen/xenplatform/src/x86pv.rs:520-535 | the guest word at virt_p2m_base + 8 i is entry i of the frame list, after the tables behind it have been filled |
| Boot.OrdinaryEnd | crates/xen/xenplatform/src/x86pv.rs:441-457 | a check on the inputs alone (image, ramdisk and page count) guarantees that the area chosen by the sizing loop crosses no 2^48 boundary and keeps clear of a list at 2^48 or above |
| Boot.GrantsTold | crates/xen/xenplatform/src/x86pv.rs:681-712 | grant 0 gives access to the frame that the guest reads as its console's, grant 1 to the one it reads as its store's, each if and only if the number is below 2^32 |
| X86Pv.GrantOfAnotherPage | crates/xen/xenplatform/src/x86pv.rs:698-704 | a list of two frames the hypervisor can give: the grant for the second page names the first |
| Boot.ListFirstIsAccepted | crates/xen/xenplatform/src/x86pv.rs:490-512 | an image with its list first, 1024 pages and no ramdisk that meets every check of the first phase |
| Boot.TypicalImageStarts | crates/xen/xenplatform/src/domain.rs:57-82 | an image at the addresses of a Linux kernel that meets every condition with 256 MiB, so that only a failing call can stop its creation |
| Boot.CloseImageIsOrdinary | crates/xen/xenplatform/src/x86pv.rs:490-518 | an image, a page count and a ramdisk that meet every stated condition and for which creation always fails |
| Paging.WalkIsExact | crates/xen/xenplatform/src/x86pv.rs:520-579 | for every address, the walk of Intel SDM Volume 3A sections 4.5 and 4.6 through correctly filled tables gives exactly the planned frame and write permission, through tables that all allow user accesses, and nothing for an address outside both areas |
| Paging.WalkDown | crates/xen/xenplatform/src/x86pv.rs:536-576 | from the table responsible for an address, at every level, the walk ends where the plan says |
| Paging.WalkIsInjective | crates/xen/xenplatform/src/x86pv.rs:520-579 | two addresses in different mapped pages never reach one frame |
| Paging.ReadOnlyIsTable | crates/xen/xenplatform/src/x86pv.rs:162-201 | a mapped page is read-only exactly when it holds a page table |
| Paging.EntryBits | crates/xen/xenplatform/src/x86pv.rs:162-201 | all twelve low bits of every entry: 0x67 above the leaf; in a leaf 0x23, or 0x21 exactly if its page holds a table |
| Layouts.PlanIsLayout | crates/xen/xenplatform/src/x86pv.rs:203-284 | the two mappings as counted and placed form one layout (whole regions, no overlap, areas and tables at disjoint pfns inside the domain) if and only if the areas, reduced to 48 bits, do not overlap |
| Layouts.AreasApart | crates/xen/xenplatform/src/x86pv.rs:222-226 | the overlap test, which compares inclusive ends strictly, is exact for page-aligned areas |
| Layouts.LevelsPartition | crates/xen/xenplatform/src/x86pv.rs:231-281 | at each level a region has a table exactly when either area touches it, and never two |
| Layouts.MappedIsCovered | crates/xen/xenplatform/src/x86pv.rs:231-281 | every mapped address has its page and a table at each of the four levels |
| Layouts.PageOfAddress | crates/xen/xenplatform/src/x86pv.rs:536-576 | an address has a page exactly when it is in one of the areas, and it is the page at the same distance from the start |
| Layouts.PfnsDistinct | crates/xen/xenplatform/src/x86pv.rs:203-284 | distinct tables, and distinct mapped pages, have distinct pfns below the domain's size |
| Layouts.TableIntervalsExact | crates/xen/xenplatform/src/x86pv.rs:167-201 | the interval test used for the read-only bit holds for exactly the pfns of tables the walk can visit, also after the shift of the second mapping |
| PageTables.CountFirst | crates/xen/xenplatform/src/x86pv.rs:231-281 | at each level the first mapping owns exactly the regions its area touches |
| PageTables.CountSecond | crates/xen/xenplatform/src/x86pv.rs:231-281 | at each level the second mapping owns exactly the touched regions the first one does not own, one table each |
| PageTables.SecondRange | crates/xen/xenplatform/src/x86pv.rs:246-274 | trimming leaves whole regions: exactly the untrimmed ones minus those owned earlier, or the pair (0, 0) |
| PageTables.TrimOne | crates/xen/xenplatform/src/x86pv.rs:246-268 | for areas that do not overlap an earlier range never lies strictly inside a later one, so cutting one side is enough |
| TableCounts.TablesAreRegions | crates/xen/xenplatform/src/x86pv.rs:231-281 | the tables of both mappings at a level are as many as the distinct regions the two areas touch |
| TableCounts.LeafTablesShared | crates/xen/xenplatform/src/x86pv.rs:536-543 | on any plan, the second mapping has no leaf table if and only if all its 2 MiB regions also contain addresses of the first area |
| TableCounts.NoLeafTable | crates/xen/xenplatform/src/x86pv.rs:536-543 | on the image alone, whatever end the builder chooses: no leaf table, and so no filling, if and only if the p2m base and virt_base, both masked, lie in one 2 MiB region |
| TableCounts.CloseImageHasNoLeafTable | crates/xen/xenplatform/src/x86pv.rs:490-518 | for 1024 pages, ten of them taken before the tables, the builder's first try is accepted with four tables, and the plan has no leaf table for the list |
| TableCounts.ListFirstPlan | crates/xen/xenplatform/src/x86pv.rs:465-512 | for such an image each step of the plan is accepted: the list's four tables with the root at pfn 3, and one more table for the area at pfn 10 |
| TableCounts.OverlapUnnoticed | crates/xen/xenplatform/src/x86pv.rs:222-226 | an image whose list and area share a page, and whose plan passes every check at the first try |
| X86Pv.X86PvPlatform.CountPageTables | crates/xen/xenplatform/src/x86pv.rs:203-284 | the conditions of acceptance, both ways; on success only the new mapping changes, on failure nothing |
| X86Pv.X86PvPlatform.CountLevels | crates/xen/xenplatform/src/x86pv.rs:229-281 | the level loop, with pfns assigned from the top level down, yields the counted mapping |
| X86Pv.X86PvPlatform.TrimLevel | crates/xen/xenplatform/src/x86pv.rs:246-268 | the loop over earlier mappings, with its early exit, equals the recursive cut |
| X86Pv.X86PvPlatform.ChooseEnd | crates/xen/xenplatform/src/x86pv.rs:433-457 | the ends that are tried are exactly these: the end of the 4 MiB block in which 129 more pages end, and then, as long as they do not fit, of the one in which the tables counted for the last end and 129 pages do; each is at least 4 MiB further; the end chosen is inside the domain and no more than 1/128 plus 6 MiB above what was used before; it is found whenever the domain has more pages than that bound |
| X86Pv.NextEndBounded | crates/xen/xenplatform/src/x86pv.rs:441-457 | an end tried within the bound asks for so few tables that the next one is within it too |
| X86Pv.TriesBounded | crates/xen/xenplatform/src/x86pv.rs:441-457 | no try of the sizing loop leaves the bound, and none asks for so many tables that the next one does |
| X86Pv.FewTables | crates/xen/xenplatform/src/x86pv.rs:203-284 | the number of tables is at most one per 2 MiB, 1 GiB and 512 GiB of the area, plus seven |
| X86Pv.SecondFewTables | crates/xen/xenplatform/src/x86pv.rs:203-284 | the list and its tables need no more pages than the list's size allows for: one table per 2 MiB, 1 GiB and 512 GiB, plus six |
| X86Pv.LateAccepted | crates/xen/xenplatform/src/x86pv.rs:465-488 | behind an area that leaves that many pages and whose low 48 bits miss the list's, the list is accepted and its segment fits |
| X86Pv.X86PvPlatform.AllocPageTables | crates/xen/xenplatform/src/x86pv.rs:433-463 | the tables follow the used pages, are clear and mapped, and the mapping counted for the chosen end is installed; with enough memory only a failed mapping can make it fail |
| X86Pv.X86PvPlatform.AllocTablesAndStack | crates/xen/xenplatform/src/x86pv.rs:511-515 | after the tables neither the stack page nor the padding can fail, and the next free pfn is the first one past the area |
| X86Pv.X86PvPlatform.AllocP2mSegment | crates/xen/xenplatform/src/x86pv.rs:465-488 | list and tables share one segment, the tables behind the list, and the mapping is shifted accordingly; placed first, it holds the root |
| X86Pv.X86PvPlatform.AllocMagicPages | crates/xen/xenplatform/src/x86pv.rs:490-518 | the order of the special pages, the console's event channel, the plan of both mappings, and no page below them changed; the table segment starts with the root if and only if the p2m base is aligned and below virt_base; with enough pages and free addresses only the hypervisor or the mapping driver can make it fail |
| X86Pv.LayoutExact | crates/xen/xenplatform/src/x86pv.rs:222-230 | for areas that cross no 2^48 boundary, what the allocator arranged is a layout if and only if the low 48 bits of list and area do not meet |
| X86Pv.PlannedIsLayout | crates/xen/xenplatform/src/x86pv.rs:490-518 | what the allocator arranged is a layout in the sense the walk needs |
| X86Pv.X86PvPlatform.GetPgProt | crates/xen/xenplatform/src/x86pv.rs:162-201 | for any number of mappings, a leaf entry lacks the write bit exactly if its pfn is in a table interval; what the bits are is `Paging.EntryBits` |
| X86Pv.X86PvPlatform.FillRun | crates/xen/xenplatform/src/x86pv.rs:544-574 | exactly the slots for the child range's regions receive the intended entries, all other words keep their value |
| X86Pv.X86PvPlatform.FillLevel | crates/xen/xenplatform/src/x86pv.rs:536-576 | the tables of one level of one mapping end up complete; fails exactly when they would start past the last segment |
| X86Pv.X86PvPlatform.SetupPageTables | crates/xen/xenplatform/src/x86pv.rs:520-579 | every slot of every table holds its intended entry, the list stays intact, nothing below the tables changes; succeeds if and only if the second mapping has a leaf table |
| X86Pv.X86PvPlatform.SetupStartInfo | crates/xen/xenplatform/src/x86pv.rs:602-658 | all thirteen fields hold the values of the arranged segments, the module fields 0 without a ramdisk; magic and command line are zero-terminated text, the latter cut to its field; only that page changes |
| X86Pv.X86PvPlatform.SetupSharedInfo | crates/xen/xenplatform/src/x86pv.rs:581-600 | the foreign page is clear except for the event masks of the 32 virtual CPUs, and no other frame changes |
| X86Pv.X86PvPlatform.SetupHypercallPage | crates/xen/xenplatform/src/x86pv.rs:758-767 | only the named page changes, or none |
| X86Pv.X86PvPlatform.Bootlate | crates/xen/xenplatform/src/x86pv.rs:660-679 | when the root is pinned, both unmappings have found their regions and no host mapping covers a frame of either table segment; it fails by unmapping or pinning only |
| X86Pv.X86PvPlatform.InitializeMemory | crates/xen/xenplatform/src/x86pv.rs:320-431 | the loaded list is the assignment the hypervisor made, all frames distinct and present |
| DomainMemory.BuildP2m | crates/xen/xenplatform/src/x86pv.rs:345-426 | superpage batches and single pages together populate every pfn exactly once and record the frame of each; injective, of the domain's length, with consecutive frames in each whole block of 2 MiB; an error means that a call failed |
| Filling.RunPlan | crates/xen/xenplatform/src/x86pv.rs:555-565 | the shifted bounds p_s, p_e and the first pfn select exactly the slots that translate a region of the child range |
| GuestView.AreaContents | crates/xen/xenplatform/src/x86pv.rs:520-579 | bytes and words the guest reads in an area are those of the pages the plan put there |
| BootDomains.BootDomain.ChkAllocPages | crates/xen/xenplatform/src/boot.rs:100-111 | both cursors move together; succeeds exactly when the pages fit |
| BootDomains.BootDomain.AllocPaddingPages | crates/xen/xenplatform/src/boot.rs:87-98 | succeeds exactly for an aligned boundary at or after the cursor with enough pages left, and then the cursor is at the boundary |
| BootDomains.BootDomain.AllocPage | crates/xen/xenplatform/src/boot.rs:113-127 | the page is the next pfn, at the matching address |
| BootDomains.BootDomain.AllocSegment | crates/xen/xenplatform/src/boot.rs:52-85 | a fresh, cleared, mapped segment at the next pfns, disjoint from all earlier ones; no other page changes, and fresh pfns never meet the cache's out-of-range error |
| PhysicalPageCache.PhysicalPages.PfnToPtr | crates/xen/xenplatform/src/mem.rs:47-79 | the answer is that of the scan, also on a list that is no longer right; in a consistent cache it is mapped page by page to the frames of the range; a new range adds one region or reports a mapping error, and only then can anything be left behind |
| PhysicalPageCache.LookupExact | crates/xen/xenplatform/src/mem.rs:47-79 | in a consistent cache the scan refines a plain lookup: a contained range has the pointer of its only region, backed to the region's end; exactly the partial overlaps are errors; exactly the unmet ranges are not found |
| PhysicalPageCache.PhysicalPages.PfnAlloc | crates/xen/xenplatform/src/mem.rs:81-125 | success maps the frames of the pfns, keeps every earlier mapping and adds the region; failure adds none, and the pages it has mapped are exactly those added to the leaked ones |
| PhysicalPageCache.LeakSurvives | crates/xen/xenplatform/src/mem.rs:101-113 | after a failed mapping call, unmapping every listed region leaves exactly the pages that call has mapped |
| PhysicalPageCache.FailedCallLeavesPage | crates/xen/xenplatform/src/mem.rs:101-113 | a state of this kind: the second of two pages is mapped, the first is to be retried, and the second stays |
| PhysicalPageCache.PhysicalPages.MapForeignPages | crates/xen/xenplatform/src/mem.rs:127-168 | the region maps the foreign frames and is listed, so that it is unmapped later |
| PhysicalPageCache.ForeignFound | crates/xen/xenplatform/src/mem.rs:127-168 | a lookup of pfns within the foreign frame numbers finds the foreign region, if no earlier one meets it |
| PhysicalPageCache.PhysicalPages.LoadP2m | crates/xen/xenplatform/src/mem.rs:39-41 | the cache stays consistent if and only if its regions map what the new list says, as they do when there are none |
| PhysicalPageCache.PhysicalPages.UnmapAll | crates/xen/xenplatform/src/mem.rs:179-193 | the mappings left are the old ones without the first `dropped` regions; success drops all and leaves only what failed calls left; a failure keeps the whole list, which is right if and only if nothing was dropped; it can be called again |
| PhysicalPageCache.DroppedValid | crates/xen/xenplatform/src/mem.rs:179-193 | a list whose first n regions are unmapped is consistent if and only if n is 0 |
| PhysicalPageCache.StaleLookup | crates/xen/xenplatform/src/mem.rs:179-193 | on such a list the start of every region is still found, and its pointer is dead exactly for the first n |
| PhysicalPageCache.DeadPointer | crates/xen/xenplatform/src/mem.rs:179-193 | a cache of two regions in which a lookup after a failed `unmap_all` returns an unmapped address |
| PhysicalPageCache.PhysicalPages.Unmap | crates/xen/xenplatform/src/mem.rs:195-218 | drops the region that starts at the pfn and its pages and nothing else, or fails without a change; on a consistent cache nothing overlaps it afterwards |
| XenCalls.XenCall.PopulatePhysmap | crates/xen/xencall/src/lib.rs:677-709 | what is relied on: each extent receives consecutive frames, nobody else's, and earlier assignments stay |
| XenCalls.XenCall.MmapBatch | crates/xen/xencall/src/lib.rs:261-337 | what is relied on: 0 means that the range maps the given frames; with any other outcome an arbitrary part of it does |
| ElfLoader.ParseSpan | crates/xen/xenplatform/src/elfloader.rs:195-215 | the least start and greatest end over the loadable segments, both attained; if all are loadable and none has more file bytes than memory, they fit the span, as loading demands |
| ElfLoader.Parse | crates/xen/xenplatform/src/elfloader.rs:168-244 | accepted exactly if all notes are there and virt_base is given whenever paddr_offset is; the image is the loadable span, both its ends moved by the difference of the two; for segments that are all loadable, what the loader demands holds if and only if the moved span does not wrap around |
| ElfLoader.Load | crates/xen/xenplatform/src/elfloader.rs:264-302 | every byte of the destination is, header by header, that of the last header that covers it (`IsLoaded`): its file byte, or a zero past its file bytes; zeros where no header covers; a copy that runs past the end is cut off there |
| ElfLoader.ImageExact | crates/xen/xenplatform/src/elfloader.rs:275-300 | the recursive load image is exactly that |
| DeviceIds.DeviceIdAllocator.Allocate | crates/xen/xenclient/src/devalloc.rs:43-60 | the first free id from the cursor on, going round: every id between is taken, the bit is set, the cursor moves just past it; none exactly if all are taken or the stored cursor is past the last id, and then nothing changes |
| DeviceIds.AllocatesFirstFree | crates/xen/xenclient/src/devalloc.rs:43-60 | an id is returned if and only if it is the first free one in circular order; only its bit changes and the cursor moves past it; none if and only if all are used, and then nothing changes; the cursor bound is kept |
| DeviceIds.ReissuedNext | crates/xen/xenclient/src/devalloc.rs:43-64 | a released id is the next one handed out if and only if every id from the cursor up to it is taken |
| DeviceIds.LatestReissuedLast | crates/xen/xenclient/src/devalloc.rs:43-64 | the id allocated last and released is handed out next if and only if every other id is taken |
| DeviceIds.ReleasedIdCanReturnAtOnce | crates/xen/xenclient/src/devalloc.rs:43-64 | an id released while another one is free can be the next one handed out: a concrete state |
| DeviceIds.DeviceIdAllocator.Deserialize | crates/xen/xenclient/src/devalloc.rs:25-41 | the stored value is accepted exactly at its length and read little-endian |
| DeviceIds.DeviceIdAllocator.Serialize | crates/xen/xenclient/src/devalloc.rs:70-78 | the four pushed bytes and the bitmap are the stored form |
| DeviceIds.StoredLayout | crates/xen/xenclient/src/devalloc.rs:25-78 | the cursor is the first four bytes, least significant first; the bit of id i is bit i mod 8, counted from the most significant, of byte 4 + i / 8 |
| DeviceIds.StorageRoundTrip | crates/xen/xenclient/src/devalloc.rs:25-78 | loading what was stored gives the same allocator, for every state |
| DeviceIds.StoredIsSerialized | crates/xen/xenclient/src/devalloc.rs:25-78 | every value that loads is the stored form of what it loads as |
| DiskNames.VbdBlkidxToDiskName | crates/xen/xenclient/src/util.rs:3-21 | the prefix xvd and letters from which the index can be read back, pushed least significant first and reversed |
| DiskNames.IndexOfSuffix | crates/xen/xenclient/src/util.rs:3-21 | the index can be read back from its suffix |
| DiskNames.SuffixOfIndex | crates/xen/xenclient/src/util.rs:3-21 | every nonempty lowercase string is the suffix of its index |
| DiskNames.NamesInOrder | crates/xen/xenclient/src/util.rs:3-21 | smaller index if and only if the suffix is shorter, or of equal length and earlier in the dictionary |
| DiskNames.NamesDistinct | crates/xen/xenclient/src/util.rs:3-21 | equal names have equal indexes |
| DiskNames.DeviceRangesApart | crates/xen/xenclient/src/tx/vbd.rs:110-117 | the device-number ranges of two disks, partitions included, are disjoint across both numbering schemes |
| DiskNames.NumberNamesDisk | crates/xen/xenclient/src/tx/vbd.rs:110-117 | disk and partition can be read back from every number of the range, by major 202 or the extended form |
| Transactions.StepInv | crates/xen/xenclient/src/tx/mod.rs:30-93 | every step of every client keeps: both stored bitmaps are the live ids, live ids are unique, and each transaction whose reads are current carries the bitmaps of what it plans |
| Transactions.RunInv | crates/xen/xenclient/src/tx/mod.rs:30-93 | the invariant holds in every state of every run |
| Transactions.CommittedIdsAreLive | crates/xen/xenclient/src/tx/mod.rs:299-321 | in every interleaving of additions, removals, refused commits and retries, the committed bitmaps are exactly the live ids and no two live devices share one |
| Transactions.AddedDevicesAreNew | crates/xen/xenclient/src/lib.rs:98-141 | what a successful addition returns are as many devices as asked for, each of the kind asked for, none live before and all live after |
| Transactions.FirstIds | crates/xen/xenclient/src/tx/mod.rs:51-83 | with unwritten or malformed nodes the first device has id 0, and a disk block index 0 |
| Transactions.AddAllIsAssigned | crates/xen/xenclient/src/lib.rs:98-141 | adding all devices of an attempt at once is a run of single steps of the concurrent model |
| Transactions.LiveDisksDistinct | crates/xen/xenclient/src/tx/vbd.rs:80-130 | live disks of a domain have distinct names and distinct device numbers |
| XenTransactions.XenTransaction.LoadIdAllocator | crates/xen/xenclient/src/tx/mod.rs:51-66 | missing or malformed state loads as a fresh allocator, all free with the cursor at 0 |
| XenTransactions.XenTransaction.AddDevice | crates/xen/xenclient/src/tx/vbd.rs:80-130 | the object does the concurrent model's step: every device takes a device id, a disk and nothing else a block index; the disk's name and number come from its index, and the number gives it back |
| XenTransactions.XenTransaction.ReleaseDevice | crates/xen/xenclient/src/tx/mod.rs:85-93 | the object does the concurrent model's release step |
| XenTransactions.XenTransaction.BeforeCommit | crates/xen/xenclient/src/tx/mod.rs:299-321 | what is written are the stored forms of the transaction's own two allocators |
| XenTransactions.Init | crates/xen/xenclient/src/lib.rs:98-141 | results and stored state are those of the transaction whose commit went through; every earlier one was refused and leaves no trace |
| XenTransactions.DestroyDevice | crates/xen/xenclient/src/lib.rs:278-287 | what is stored is the last transaction's own reading with exactly the device's ids cleared |
| TransactionRuns.RoundIsRun | crates/xen/xenclient/src/tx/mod.rs:30-93 | among any steps of other clients, a transaction that reads what the store holds, and whose commit passes the version test if it is granted, is a run of the concurrent model |
| TransactionRuns.LoopIsRun | crates/xen/xenclient/src/lib.rs:98-141 | a whole retry loop, adding or removing, is such a run; it ends with the returned results committed and the stored bytes in the store, the invariant kept, and the devices live or the removed one gone |
| Multiplexer.StepInv | crates/xen/xenstore/src/bus.rs:138-304 | every step of callers, processor and server keeps: an unfinished request is in one place, its waiter registered under its id |
| Multiplexer.RunInv | crates/xen/xenstore/src/bus.rs:138-304 | the invariant holds in every state of every run |
| Multiplexer.CallersGetTheirOwn | crates/xen/xenstore/src/bus.rs:138-167 | a caller only ever receives the answer to its own request; while it waits its request is under way and its waiter registered |
| Multiplexer.DispatchReachesOwner | crates/xen/xenstore/src/bus.rs:244-268 | an answer finds the waiter of its own call; watch events and answers to unwatches change no call |
| Multiplexer.AnsweredOnce | crates/xen/xenstore/src/bus.rs:244-268 | a call that has its answer keeps it, and nothing for it is under way |
| Multiplexer.LiveIdsDiffer | crates/xen/xenstore/src/bus.rs:139-144 | requests unfinished at the same time have different ids on the wire although ids wrap at 2^32 |
| Multiplexer.Router.SendBuf | crates/xen/xenstore/src/bus.rs:138-157 | a call's way to its wait is three steps of the bus: an id modulo 2^32, an empty open channel registered under it, and the request queued with it, or refused and the channel closed |
| Multiplexer.Router.HandleReceived | crates/xen/xenstore/src/bus.rs:244-268 | a message that is no watch event is delivered to the channel registered under its id, if that is open, the entry is removed, and no other channel changes; anything else changes nothing; in every reachable state the answer to a waiting call reaches that call's channel, and channels hold messages exactly for calls that have got theirs |
| Multiplexer.Router.Abandon | crates/xen/xenstore/src/bus.rs:156-157 | a caller that goes away is the cancel step: its entry stays and receives nothing |
| Multiplexer.Router.WriteUnwatchRequest | crates/xen/xenstore/src/bus.rs:274-296 | an unwatch request takes its own id, which no call gets |
| Wire.StreamRoundTrip | crates/xen/xenstore/src/bus.rs:202-227 | reading the bytes of any messages yields exactly those messages, whatever follows |
| Wire.PartialMessage | crates/xen/xenstore/src/bus.rs:202-227 | nothing is delivered from a proper prefix of a message |
| Wire.ParsedIsPrefix | crates/xen/xenstore/src/bus.rs:202-227 | the messages read, encoded again, are a prefix of the stream |
| Wire.Decode | crates/xen/xenstore/src/sys.rs:18-26 | four 32-bit numbers in order, each from four bytes, least significant first; an error exactly below 16 bytes |
| Wire.EncodeTo | crates/xen/xenstore/src/sys.rs:28-34 | appends sixteen bytes: type, request, transaction and length, each least significant byte first |
| Wire.Connection.ReadMessage | crates/xen/xenstore/src/bus.rs:211-227 | takes exactly the first message off the stream; a length above 4096 is an error of its own, and any other error means that the message is not complete |
| Wire.Connection.ProcessRx | crates/xen/xenstore/src/bus.rs:202-209 | passes on all complete messages of the stream, in order, and stops with the right error |
| Wire.SendPayload | crates/xen/xenstore/src/bus.rs:169-175 | the loop joins the strings with a NUL after each |
| Wire.ParseStringVec | crates/xen/xenstore/src/bus.rs:318-331 | the loop splits at NULs, drops an unterminated rest, and fails exactly when a piece is not UTF-8 |
| Wire.StringsRoundTrip | crates/xen/xenstore/src/bus.rs:169-175 | any list of NUL-free strings is recovered from its joined payload |
| Wire.PayloadRoundTrip | crates/xen/xenstore/src/bus.rs:318-331 | a payload is the joining of its pieces if and only if it is empty or ends in NUL |

## Left out

- Hypercalls and device files: `populate_physmap`, `mmap`, `mmap_batch`, `munmap` and `hypercall_init` are contracts;
  other calls only succeed or fail. The retry inside `mmap_batch`, whose inner loop never ends once it has passed the
  last page (`crates/xen/xencall/src/lib.rs:311-317`), and the creation of the domain itself are not modelled.
- Boot.InitializeInternal: the order for a ramdisk that is mapped before the frame list is loaded is not modelled. The
  PV platform never loads its kernel early.
- X86Pv.X86PvPlatform.AllocMagicPages: for a p2m list that comes first, the place of the root is proved and when the
  steps succeed, and nothing about the contents of the tables.
- Boot.CreateGuest: an image whose p2m list comes first is followed through the first phase only, because cr3 does not
  name its root. Registers other than rip, rsp, rsi and cr3 are not modelled.
- Boot.BootInternal: takes no image whose p2m list comes first, for the same reason.
- Boot.BootGuest: takes no image whose p2m list comes first, for the same reason.
- X86Pv.X86PvPlatform.SetupSharedInfo: the mapped region is listed under its frame number; nothing looks up a pfn
  afterwards.
- X86Pv.X86PvPlatform.GnttabSeed: the grant table is no memory of the domain; a mapping of it that could not be
  removed is not tracked.
- X86Pv.X86PvPlatform.ChooseEnd: 64-bit wrap-around of addresses is not modelled; the condition on the area keeps
  every sum below the next 2^48 boundary.
- Address space that `mmap` reserves and nobody releases after a failed `mmap_batch`: only mapped pages are tracked.
- ElfLoader.Parse: the bytes of ELF headers and notes and decompression are not modelled; headers and note values are
  parameters.
- XenTransactions.XenTransaction.AddDevice: the items written below the device's directories and the errors of
  incomplete device descriptions are not modelled.
- XenTransactions.Init: the loop ends when the given rounds run out, because nothing bounds the number of refusals.
  Devices of all categories are one list, and commit errors other than a refusal, the extra keys and paths, and the
  loop that declares the domain are left out.
- Transactions.StepInv: store nodes other than the two allocators and a commit that fails with another error are the
  step `Drop`; removals of one device by two clients at once are excluded.
- Multiplexer.StepInv: the bounded reply queue between reader and processor, the end of the processor on malformed
  watch events, delivery to watches, and liveness are not modelled; a refused queue and a caller that goes away are.
- Wire.ParseStringVec: validity of UTF-8 is a parameter.
- The payload of unwatch requests, watch tokens and error replies.
- PCI devices, device configuration builders, device-state polling, and teardown of the store tree.
