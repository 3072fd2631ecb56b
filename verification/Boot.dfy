/** The whole boot: populate memory, load the kernel, place and fill the tables, start the virtual CPU. */
module Boot {
  import opened Arithmetic
  import opened BootDomains
  import opened Bytes
  import opened ElfLoader
  import opened Filling
  import opened GuestView
  import opened Layouts
  import opened PageTables
  import opened Pages
  import opened Paging
  import opened PhysicalPageCache
  import opened Results
  import opened TableCounts
  import opened X86Pv
  import opened XenCalls

  /** The bytes from the start of page `pfn` on are the load image. */
  ghost predicate HoldsImage(mem: Memory, p2m: seq<nat>, pfn: nat, size: nat, headers: seq<ProgramHeader>, start: nat) {
    forall k :: 0 <= k < size ==> ByteAt(mem, p2m, pfn, k) == ImageByte(headers, start, k)
  }

  lemma ImageKept(mem: Memory, mem': Memory, p2m: seq<nat>, pfn: nat, n: nat, size: nat, lo: nat, hi: nat,
                  headers: seq<ProgramHeader>, start: nat)
    requires HoldsImage(mem, p2m, pfn, size, headers, start) && size <= 4096 * n
    requires KeptOutside(mem, mem', p2m, lo, hi) && (pfn + n <= lo || hi <= pfn)
    ensures HoldsImage(mem', p2m, pfn, size, headers, start)
  {
    hide ImageByte;
    forall k | 0 <= k < size
      ensures ByteAt(mem', p2m, pfn, k) == ImageByte(headers, start, k)
    {
      var i := pfn + k / 4096;
      assert ByteAt(mem, p2m, pfn, k) == ImageByte(headers, start, k);
      if i < |p2m| {
        assert p2m[i] in mem && mem'[p2m[i]] == mem[p2m[i]];
      }
    }
  }

  /** The kernel has an aligned place at or after `allocEnd`. */
  predicate KernelFits(info: BootImageInfo, allocEnd: nat) {
    0 < info.virtKstart && allocEnd <= info.virtKstart < info.virtKend && info.virtKstart % 4096 == 0
  }

  /** Pages taken for it, with those skipped before it. */
  function KernelPages(info: BootImageInfo, allocEnd: nat): nat
    requires KernelFits(info, allocEnd)
  {
    (info.virtKstart - allocEnd) / 4096 + PagesFor(info.virtKend - info.virtKstart)
  }

  /** Place the kernel segment at its virtual address and load the image into it. */
  method LoadKernelSegment(domain: BootDomain, headers: seq<ProgramHeader>) returns (r: Result<DomainSegment>)
    requires domain.Valid() && domain.imageInfo.virtKstart <= domain.imageInfo.virtKend
    requires InSpan(headers, domain.imageInfo.start, domain.imageInfo.virtKend - domain.imageInfo.virtKstart)
    modifies domain`virtAllocEnd, domain`pfnAllocEnd, domain.phys`pages, domain.phys`leaked, domain.phys.call`mem
    modifies domain.phys.call`hostMap, domain.phys.call`failures
    ensures LeaksOnly(r, old(domain.phys.leaked), domain.phys.leaked)
    ensures Faulted(r, old(domain.phys.call.failures), domain.phys.call.failures)
    ensures domain.Valid() && domain.pfnAllocEnd >= old(domain.pfnAllocEnd)
    ensures r.Ok? ==>
              var seg, info := r.value, domain.imageInfo;
              && seg.size == info.virtKend - info.virtKstart <= seg.pages * 4096 && seg.pages == PagesFor(seg.size)
              && domain.pfnAllocEnd == seg.pfn + seg.pages && seg.vstart == info.virtBase + seg.pfn * 4096
              && (info.virtKstart > 0 && info.virtBase % 4096 == 0 ==> seg.vstart == info.virtKstart)
              && HoldsImage(domain.phys.call.mem, domain.phys.p2m, seg.pfn, seg.size, headers, info.start)
    ensures KernelFits(domain.imageInfo, old(domain.virtAllocEnd))
            && old(domain.pfnAllocEnd) + KernelPages(domain.imageInfo, old(domain.virtAllocEnd))
               <= domain.totalPages ==>
              && (r.Ok? || MappingError(r.error))
              && (r.Ok? ==> domain.pfnAllocEnd == old(domain.pfnAllocEnd)
                                                  + KernelPages(domain.imageInfo, old(domain.virtAllocEnd)))
  {
    hide RegionsOk, CoveredBy, KeptOutside, Owned, Distinct, Frames, ImageByte, AllZero;
    var info := domain.imageInfo;
    var segment :- domain.AllocSegment(info.virtKstart, info.virtKend - info.virtKstart);
    RegionBacked(domain, PhysicalPage(segment.pfn, segment.addr, segment.pages));
    Load(domain, headers, info.start, segment.size, segment.addr, segment.pfn, segment.pages);
    return Ok(segment);
  }

  lemma RegionBacked(domain: BootDomain, r: PhysicalPage)
    requires domain.Valid() && r in domain.phys.pages && domain.totalPages > 0
    ensures r.pfn + r.count <= domain.totalPages
    ensures Backed(domain.phys.call.hostMap, domain.phys.p2m, r.ptr, r.pfn, r.count)
  {
    var j :| 0 <= j < |domain.phys.pages| && domain.phys.pages[j] == r;
    assert RegionOk(domain.phys.Tracked(), domain.phys.p2m, r);
    BackedMore(domain.phys.Tracked(), domain.phys.call.hostMap, domain.phys.p2m, r.ptr, r.pfn, r.count);
  }

  /** The bytes from the start of page `pfn` on are `bytes`. */
  ghost predicate HoldsBytes(mem: Memory, p2m: seq<nat>, pfn: nat, bytes: seq<Byte>) {
    forall k :: 0 <= k < |bytes| ==> ByteAt(mem, p2m, pfn, k) == bytes[k]
  }

  /** Place and fill a module, such as the initial ramdisk. */
  method AllocModule(domain: BootDomain, buffer: seq<Byte>) returns (r: Result<DomainSegment>)
    requires domain.Valid()
    modifies domain`virtAllocEnd, domain`pfnAllocEnd, domain.phys`pages, domain.phys`leaked, domain.phys.call`mem
    modifies domain.phys.call`hostMap, domain.phys.call`failures
    ensures LeaksOnly(r, old(domain.phys.leaked), domain.phys.leaked)
    ensures Faulted(r, old(domain.phys.call.failures), domain.phys.call.failures)
    ensures domain.Valid() && domain.pfnAllocEnd >= old(domain.pfnAllocEnd)
    ensures r.Ok? ==>
              var seg := r.value;
              && seg.pfn == old(domain.pfnAllocEnd) && domain.pfnAllocEnd == seg.pfn + seg.pages
              && seg.pages == PagesFor(|buffer|) && seg.size == |buffer|
              && seg.vstart == domain.imageInfo.virtBase + seg.pfn * 4096
              && KeptOutside(old(domain.phys.call.mem), domain.phys.call.mem, domain.phys.p2m, seg.pfn,
                             seg.pfn + seg.pages)
              && HoldsBytes(domain.phys.call.mem, domain.phys.p2m, seg.pfn, buffer)
    ensures |buffer| > 0 && old(domain.pfnAllocEnd) + PagesFor(|buffer|) <= domain.totalPages ==>
              r.Ok? || MappingError(r.error)
  {
    hide RegionsOk, CoveredBy, KeptOutside, Owned, Distinct, Frames, AllZero;
    ghost var mem0 := domain.phys.call.mem;
    var segment :- domain.AllocSegment(0, |buffer|);
    ghost var mem1 := domain.phys.call.mem;
    RegionBacked(domain, PhysicalPage(segment.pfn, segment.addr, segment.pages));
    domain.CopyToSlice(segment.addr, segment.pfn, segment.pages, 0, buffer);
    KeptTwice(mem0, mem1, domain.phys.call.mem, domain.phys.p2m, segment.pfn, segment.pfn + segment.pages,
              segment.pfn, segment.pfn + segment.pages, segment.pfn, segment.pfn + segment.pages);
    return Ok(segment);
  }

  /** A platform and a domain on which nothing has been done yet. */
  ghost predicate Untouched(platform: X86PvPlatform, domain: BootDomain)
    reads platform, domain, domain.phys, domain.phys.call
  {
    && platform.table.mappingsCount == 0 && platform.p2mSegment == None
    && domain.phys.Valid() && domain.phys.pages == [] && domain.phys.call.physmap == map[]
    && domain.pfnAllocEnd == 0 && domain.totalPages > 0 && domain.initrdSegment == None
    && domain.phys.leaked == {} && |domain.cmdline| <= CMDLINE_SIZE && domain.phys.call.calls == []
  }

  lemma EnoughPages(size: nat)
    ensures size <= PagesFor(size) * 4096
  {
  }

  lemma BytesKept(mem: Memory, mem': Memory, p2m: seq<nat>, pfn: nat, n: nat, bytes: seq<Byte>, lo: nat, hi: nat)
    requires HoldsBytes(mem, p2m, pfn, bytes) && |bytes| <= n * 4096
    requires KeptOutside(mem, mem', p2m, lo, hi) && (pfn + n <= lo || hi <= pfn)
    ensures HoldsBytes(mem', p2m, pfn, bytes)
  {
    forall k | 0 <= k < |bytes|
      ensures ByteAt(mem', p2m, pfn, k) == bytes[k]
    {
      var i := pfn + k / 4096;
      assert ByteAt(mem, p2m, pfn, k) == bytes[k];
      if i < |p2m| {
        assert p2m[i] in mem && mem'[p2m[i]] == mem[p2m[i]];
      }
    }
  }

  /** Pages of the kernel, the ramdisk, and the three pages shared with the host. */
  function PagesBeforeTables(info: BootImageInfo, initrd: Option<seq<Byte>>): nat
    requires info.virtKstart <= info.virtKend
  {
    PagesFor(info.virtKend - info.virtKstart) + (if initrd.Some? then PagesFor(|initrd.value|) else 0) + 3
  }

  /** What the first phase leaves: the arranged pages and tables, and the loaded kernel before all of them. */
  ghost predicate Initialized(platform: X86PvPlatform, domain: BootDomain, headers: seq<ProgramHeader>,
                              initrd: Option<seq<Byte>>, kernel: DomainSegment)
    requires domain.imageInfo.virtKstart <= domain.imageInfo.virtKend
    reads platform, domain, domain.phys, domain.phys.call`mem, domain.phys.call`physmap, domain.phys.call`hostMap
  {
    var info := domain.imageInfo;
    && platform.Arranged(domain)
    && EndBounded(info.virtBase, kernel.vstart + PagesBeforeTables(info, initrd) * 4096, domain.virtPgtabEnd)
    && KernelLoaded(domain, kernel, platform.startInfoSegment.value.pfn, headers)
    && RamdiskPlaced(domain, kernel, platform.startInfoSegment.value.pfn, initrd)
  }

  /** The kernel is in place before the page at `before`, at its address if that is not 0. */
  ghost predicate KernelLoaded(domain: BootDomain, kernel: DomainSegment, before: nat, headers: seq<ProgramHeader>)
    requires domain.imageInfo.virtKstart <= domain.imageInfo.virtKend
    reads domain, domain.phys, domain.phys.call`mem
  {
    KernelIn(domain.phys.call.mem, domain.phys.p2m, domain.imageInfo, kernel, before, headers)
  }

  ghost predicate KernelIn(mem: Memory, p2m: seq<nat>, info: BootImageInfo, kernel: DomainSegment, before: nat,
                           headers: seq<ProgramHeader>)
    requires info.virtKstart <= info.virtKend
  {
    && kernel.size == info.virtKend - info.virtKstart <= kernel.pages * 4096
    && kernel.pfn + kernel.pages <= before
    && kernel.vstart == info.virtBase + kernel.pfn * 4096
    && (info.virtKstart > 0 && info.virtBase % 4096 == 0 ==> kernel.vstart == info.virtKstart)
    && HoldsImage(mem, p2m, kernel.pfn, kernel.size, headers, info.start)
  }

  /** The ramdisk, if any, is in place between the kernel and the page at `before`. */
  ghost predicate RamdiskPlaced(domain: BootDomain, kernel: DomainSegment, before: nat, initrd: Option<seq<Byte>>)
    reads domain, domain.phys, domain.phys.call`mem
  {
    RamdiskIn(domain.phys.call.mem, domain.phys.p2m, domain.imageInfo.virtBase, kernel, domain.initrdSegment, before,
              initrd)
  }

  ghost predicate RamdiskIn(mem: Memory, p2m: seq<nat>, virtBase: nat, kernel: DomainSegment,
                            segment: Option<DomainSegment>, before: nat, initrd: Option<seq<Byte>>)
  {
    match initrd
    case None => segment == None
    case Some(bytes) =>
      && segment.Some?
      && var seg := segment.value;
      && kernel.pfn + kernel.pages <= seg.pfn && seg.pfn + seg.pages <= before
      && seg.vstart == virtBase + seg.pfn * 4096 && seg.size == |bytes| <= seg.pages * 4096
      && HoldsBytes(mem, p2m, seg.pfn, bytes)
  }

  /** Kernel and ramdisk stay when only pages from `before` on change. */
  lemma ImagesStay(mem: Memory, mem': Memory, p2m: seq<nat>, info: BootImageInfo, kernel: DomainSegment,
                   segment: Option<DomainSegment>, before: nat, hi: nat, headers: seq<ProgramHeader>,
                   initrd: Option<seq<Byte>>)
    requires info.virtKstart <= info.virtKend && KernelIn(mem, p2m, info, kernel, before, headers)
    requires RamdiskIn(mem, p2m, info.virtBase, kernel, segment, before, initrd)
    requires KeptOutside(mem, mem', p2m, before, hi)
    ensures KernelIn(mem', p2m, info, kernel, before, headers)
    ensures RamdiskIn(mem', p2m, info.virtBase, kernel, segment, before, initrd)
  {
    hide HoldsImage, HoldsBytes, KeptOutside;
    ImageKept(mem, mem', p2m, kernel.pfn, kernel.pages, kernel.size, before, hi, headers, info.start);
    if initrd.Some? {
      BytesKept(mem, mem', p2m, segment.value.pfn, segment.value.pages, initrd.value, before, hi);
    }
  }

  predicate ImagesFit(info: BootImageInfo, allocEnd: nat, initrd: Option<seq<Byte>>) {
    KernelFits(info, allocEnd) && (initrd.Some? ==> |initrd.value| > 0)
  }

  /** Pages taken for kernel and ramdisk. */
  function ImagePages(info: BootImageInfo, allocEnd: nat, initrd: Option<seq<Byte>>): nat
    requires ImagesFit(info, allocEnd, initrd)
  {
    KernelPages(info, allocEnd) + if initrd.Some? then PagesFor(|initrd.value|) else 0
  }

  /** The sizes of an image whose p2m list comes first let everything follow: no step of the first phase has a
      reason to fail but the hypervisor and the mapping driver. */
  predicate ListFirstPhaseFits(t: PageTable, info: BootImageInfo, initrd: Option<seq<Byte>>, totalPages: nat)
    requires t.mappingsCount == 0
  {
    && P2mFirst(info) && info.virtBase % 4096 == 0 && totalPages * 4096 < U64
    && ImagesFit(info, info.virtBase, initrd)
    && ImagePages(info, info.virtBase, initrd) <= totalPages
    && ListFirstFits(t, info, ImagePages(info, info.virtBase, initrd), totalPages)
  }

  /** The sizes of an image in the usual order let everything follow: no step of the first phase has a reason to fail
      but the hypervisor and the mapping driver. */
  predicate OrdinaryFits(info: BootImageInfo, initrd: Option<seq<Byte>>, totalPages: nat) {
    && info.virtBase % 4096 == 0 && totalPages * 4096 < U64
    && ImagesFit(info, info.virtBase, initrd)
    && ImagePages(info, info.virtBase, initrd) <= totalPages
    && ListLastFits(info, ImagePages(info, info.virtBase, initrd), totalPages)
  }

  /** The kernel, and then the ramdisk of an image that does not want it mapped first. */
  method LoadImages(domain: BootDomain, headers: seq<ProgramHeader>, initrd: Option<seq<Byte>>)
    returns (r: Result<DomainSegment>)
    requires domain.Valid() && ImageOk(domain.imageInfo, headers) && domain.initrdSegment == None
    modifies domain`virtAllocEnd, domain`pfnAllocEnd, domain`initrdSegment
    modifies domain.phys`pages, domain.phys`leaked, domain.phys.call`mem, domain.phys.call`hostMap
    modifies domain.phys.call`failures
    ensures LeaksOnly(r, old(domain.phys.leaked), domain.phys.leaked)
    ensures Faulted(r, old(domain.phys.call.failures), domain.phys.call.failures)
    ensures domain.Valid()
    ensures r.Ok? ==>
              && KernelLoaded(domain, r.value, domain.pfnAllocEnd, headers)
              && RamdiskPlaced(domain, r.value, domain.pfnAllocEnd, initrd)
              && domain.virtAllocEnd + 3 * 4096 == r.value.vstart + PagesBeforeTables(domain.imageInfo, initrd) * 4096
    ensures ImagesFit(domain.imageInfo, old(domain.virtAllocEnd), initrd)
            && old(domain.pfnAllocEnd) + ImagePages(domain.imageInfo, old(domain.virtAllocEnd), initrd)
               <= domain.totalPages ==>
              && (r.Ok? || MappingError(r.error))
              && (r.Ok? ==> domain.pfnAllocEnd == old(domain.pfnAllocEnd)
                                                  + ImagePages(domain.imageInfo, old(domain.virtAllocEnd), initrd))
  {
    hide RegionsOk, CoveredBy, KeptOutside, Owned, Distinct, Frames, HoldsImage, HoldsBytes, InSpan, PagesFor;
    var kernel :- LoadKernelSegment(domain, headers);
    if initrd.Some? {
      ghost var mem := domain.phys.call.mem;
      var segment :- AllocModule(domain, initrd.value);
      domain.initrdSegment := Some(segment);
      EnoughPages(|initrd.value|);
      ImageKept(mem, domain.phys.call.mem, domain.phys.p2m, kernel.pfn, kernel.pages, kernel.size, segment.pfn,
                segment.pfn + segment.pages, headers, domain.imageInfo.start);
    }
    return Ok(kernel);
  }

  /** Memory and images. */
  method InitializeImages(platform: X86PvPlatform, domain: BootDomain, headers: seq<ProgramHeader>,
                          initrd: Option<seq<Byte>>)
    returns (r: Result<DomainSegment>)
    requires Untouched(platform, domain) && ImageOk(domain.imageInfo, headers)
    modifies domain, domain.phys`p2m, domain.phys`pages, domain.phys`leaked
    modifies domain.phys.call`physmap, domain.phys.call`mem, domain.phys.call`hostMap, domain.phys.call`calls
    modifies domain.phys.call`failures
    ensures LeaksOnly(r, old(domain.phys.leaked), domain.phys.leaked)
    ensures Faulted(r, old(domain.phys.call.failures), domain.phys.call.failures)
    ensures domain.phys.Valid()
    ensures r.Ok? ==>
              domain.phys.call.calls == [SetAddressSize(64), ClaimPages(domain.totalPages), ClaimPages(0)]
    ensures r.Ok? ==>
              && domain.Valid()
              && KernelLoaded(domain, r.value, domain.pfnAllocEnd, headers)
              && RamdiskPlaced(domain, r.value, domain.pfnAllocEnd, initrd)
              && domain.virtAllocEnd + 3 * 4096 == r.value.vstart + PagesBeforeTables(domain.imageInfo, initrd) * 4096
    ensures domain.totalPages * 4096 < U64 && ImagesFit(domain.imageInfo, domain.imageInfo.virtBase, initrd)
            && ImagePages(domain.imageInfo, domain.imageInfo.virtBase, initrd) <= domain.totalPages ==>
              && (r.Err? ==> HostError(r.error))
              && (r.Ok? ==> domain.pfnAllocEnd == ImagePages(domain.imageInfo, domain.imageInfo.virtBase, initrd))
  {
    hide RegionsOk, CoveredBy, Owned, Distinct, Frames, HoldsImage, HoldsBytes, InSpan, PagesFor, PagesBeforeTables,
         ImagesFit, ImagePages, KernelLoaded, RamdiskPlaced;
    var _ :- platform.InitializeMemory(domain);
    domain.virtAllocEnd := domain.imageInfo.virtBase;
    r := LoadImages(domain, headers, initrd);
  }

  /** Memory, images and special pages. */
  method InitializePages(platform: X86PvPlatform, domain: BootDomain, headers: seq<ProgramHeader>,
                         initrd: Option<seq<Byte>>)
    returns (r: Result<DomainSegment>)
    requires Untouched(platform, domain) && ImageOk(domain.imageInfo, headers)
    modifies platform, domain, domain.phys`p2m, domain.phys`pages, domain.phys`leaked
    modifies domain.phys.call`physmap, domain.phys.call`mem, domain.phys.call`hostMap, domain.phys.call`calls
    modifies domain.phys.call`failures
    ensures LeaksOnly(r, old(domain.phys.leaked), domain.phys.leaked)
    ensures Faulted(r, old(domain.phys.call.failures), domain.phys.call.failures)
    ensures domain.phys.Valid()
    ensures r.Ok? ==> domain.Valid()
    ensures r.Ok? ==> platform.TablesTaken(domain) && (platform.RootLeads() <==> !P2mFirst(domain.imageInfo))
    ensures r.Ok? ==>
              && domain.phys.call.calls == [SetAddressSize(64), ClaimPages(domain.totalPages), ClaimPages(0),
                                            AllocUnbound(domain.consoleEvtchn)]
              && domain.consoleEvtchn < 0x1_0000_0000
    ensures r.Ok? && !P2mFirst(domain.imageInfo) && domain.imageInfo.virtBase % 4096 == 0 ==>
              Initialized(platform, domain, headers, initrd, r.value)
    ensures r.Err? && old(ListFirstPhaseFits(platform.table, domain.imageInfo, initrd, domain.totalPages)) ==>
              HostError(r.error)
    ensures r.Err? && OrdinaryFits(domain.imageInfo, initrd, domain.totalPages) ==> HostError(r.error)
  {
    hide RegionsOk, CoveredBy, KeptOutside, Owned, Distinct, Frames, HoldsImage, HoldsBytes, InSpan, EndBounded,
         PagesFor, ListFirstFits, ListLastFits, ImagePages, PhysicalPages.Valid;
    hide PlannedTables, AllZero, PagesBeforeTables, ImagesFit, X86PvPlatform.TablesTaken, KernelIn, RamdiskIn;
    var kernel :- InitializeImages(platform, domain, headers, initrd);
    ghost var mem, imagesEnd := domain.phys.call.mem, domain.pfnAllocEnd;
    var _ :- platform.AllocMagicPages(domain);
    if !P2mFirst(domain.imageInfo) && domain.imageInfo.virtBase % 4096 == 0 {
      ImagesStay(mem, domain.phys.call.mem, domain.phys.p2m, domain.imageInfo, kernel, domain.initrdSegment, imagesEnd,
                 domain.pfnAllocEnd, headers, initrd);
    }
    return Ok(kernel);
  }

  /** The frame that `Vcpu` puts into cr3 is the one of the planned root table. */
  ghost predicate RegisterIsRoot(platform: X86PvPlatform, domain: BootDomain)
    requires platform.TablesTaken(domain)
    reads platform, domain, domain.phys
  {
    domain.phys.p2m[platform.pageTableSegment.value.pfn] == Root(platform.table, domain.phys.p2m)
  }

  lemma SamePage(p2m: seq<nat>, i: nat, j: nat)
    requires Distinct(p2m) && i < |p2m| && j < |p2m|
    ensures p2m[i] == p2m[j] <==> i == j
  {
  }

  /** The steps of the first phase, in order; the result is the kernel segment. */
  method InitializeInternal(platform: X86PvPlatform, domain: BootDomain, headers: seq<ProgramHeader>,
                            initrd: Option<seq<Byte>>)
    returns (r: Result<DomainSegment>)
    requires Untouched(platform, domain) && ImageOk(domain.imageInfo, headers)
    modifies platform, domain, domain.phys`p2m, domain.phys`pages, domain.phys`leaked
    modifies domain.phys.call`physmap, domain.phys.call`mem, domain.phys.call`hostMap, domain.phys.call`calls
    modifies domain.phys.call`failures
    ensures LeaksOnly(r, old(domain.phys.leaked), domain.phys.leaked)
    ensures Faulted(r, old(domain.phys.call.failures), domain.phys.call.failures)
    ensures domain.phys.Valid()
    ensures r.Ok? ==> domain.Valid()
    ensures r.Ok? ==>
              && platform.TablesTaken(domain)
              && (RegisterIsRoot(platform, domain) <==>
                    var info := domain.imageInfo; info.virtP2mBase < info.virtBase && info.virtP2mBase % 4096 == 0)
    ensures r.Ok? ==> PortsApart(domain) && domain.phys.call.calls == FirstCalls(domain)
    ensures r.Ok? && !P2mFirst(domain.imageInfo) && domain.imageInfo.virtBase % 4096 == 0 ==>
              Initialized(platform, domain, headers, initrd, r.value)
    ensures r.Err? && old(ListFirstPhaseFits(platform.table, domain.imageInfo, initrd, domain.totalPages)) ==>
              HostError(r.error)
    ensures r.Err? && OrdinaryFits(domain.imageInfo, initrd, domain.totalPages) ==> HostError(r.error)
  {
    hide RegionsOk, CoveredBy, Owned, Distinct, Frames, HoldsImage, HoldsBytes, InSpan, EndBounded, PagesFor,
         PlannedTables, AllZero, PagesBeforeTables;
    var kernel :- InitializePages(platform, domain, headers, initrd);
    var evtchn :- domain.phys.call.AllocPort();
    domain.storeEvtchn := evtchn;
    SamePage(domain.phys.p2m, platform.pageTableSegment.value.pfn, platform.table.mappings[0].levels[3].pfn);
    return Ok(kernel);
  }

  // ----- what the guest finds -----

  lemma FirstAreaOffset(t: PageTable, info: BootImageInfo, end: nat, tables: nat, p2mSize: nat, x: nat)
    requires PlannedTables(t, info, end, tables, p2mSize) && OrdinaryAddresses(info, end, p2mSize)
    requires info.virtBase + x < end
    ensures var a := t.mappings[0].area;
            a.pfn == 0 && (info.virtBase + x) % VIRT_LIMIT == a.from + x && a.from + x <= a.to
  {
    hide PlannedTables, PagesFor;
    PlannedAreas(t, info, end, tables, p2mSize);
    LowAddress(info.virtBase, end, x);
    var a := t.mappings[0].area;
    assert a.from + x <= a.from + (end - 1 - info.virtBase) == a.to;
  }

  lemma SecondAreaOffset(t: PageTable, info: BootImageInfo, end: nat, tables: nat, p2mSize: nat, i: nat)
    requires PlannedTables(t, info, end, tables, p2mSize) && OrdinaryAddresses(info, end, p2mSize)
    requires i < p2mSize
    ensures var b := t.mappings[1].area;
            && b.pfn == (end - info.virtBase) / 4096
            && (info.virtP2mBase + 8 * i) % VIRT_LIMIT == b.from + 8 * i && b.from + 8 * i <= b.to
  {
    hide PlannedTables, PagesFor;
    PlannedAreas(t, info, end, tables, p2mSize);
    RoomForWords(p2mSize, i);
    LowAddress(info.virtP2mBase, info.virtP2mBase + PagesFor(8 * p2mSize) * 4096, 8 * i);
  }

  lemma RoomForWords(n: nat, i: nat)
    requires i < n
    ensures 8 * i < PagesFor(8 * n) * 4096
  {
  }

  /** Everything between virt_base and the end of the mapped area is the domain's memory in pfn order. */
  lemma FirstAreaContents(mem: Memory, p2m: seq<nat>, t: PageTable, info: BootImageInfo, end: nat, tables: nat,
                          pfn: nat, k: nat)
    requires Complete(mem, p2m, t)
    requires PlannedTables(t, info, end, tables, |p2m|) && OrdinaryAddresses(info, end, |p2m|)
    requires info.virtBase + pfn * 4096 + k < end
    ensures GuestByte(mem, Root(t, p2m), info.virtBase + pfn * 4096 + k) == Some(ByteAt(mem, p2m, pfn, k))
    ensures k % 8 == 0 ==>
              GuestWord(mem, Root(t, p2m), info.virtBase + pfn * 4096 + k) == Some(WordAt(mem, p2m, pfn, k / 8))
  {
    hide Complete, GuestByte, GuestWord, ByteAt, WordAt, Root, PlannedTables, OrdinaryAddresses;
    FirstAreaOffset(t, info, end, tables, |p2m|, pfn * 4096 + k);
    AreaContents(mem, p2m, t, 0, pfn, k, info.virtBase + pfn * 4096 + k);
  }

  /** A page of the first area translates to its frame; it is writable unless it holds a table. */
  lemma FirstAreaFrame(mem: Memory, p2m: seq<nat>, t: PageTable, info: BootImageInfo, end: nat, tables: nat, pfn: nat,
                       k: nat)
    requires Complete(mem, p2m, t)
    requires PlannedTables(t, info, end, tables, |p2m|) && OrdinaryAddresses(info, end, |p2m|)
    requires info.virtBase + pfn * 4096 + k < end && k < 4096
    ensures pfn < |p2m|
    ensures Translate(mem, Root(t, p2m), info.virtBase + pfn * 4096 + k)
         == Some(Translation(p2m[pfn], !InTableInterval(t.mappings[0], pfn)
                                       && !InTableInterval(t.mappings[1], pfn), true))
  {
    hide Complete, Translate, Root, PlannedTables, OrdinaryAddresses, InTableInterval;
    FirstAreaOffset(t, info, end, tables, |p2m|, pfn * 4096 + k);
    PageOfByte(pfn, k);
    AreaFrame(mem, p2m, t, 0, pfn * 4096 + k, info.virtBase + pfn * 4096 + k);
  }

  lemma PageOfByte(pfn: nat, k: nat)
    requires k < 4096
    ensures (pfn * 4096 + k) / 4096 == pfn
  {
  }

  /** Through the finished tables the kernel's addresses read the load image. */
  lemma KernelVisible(mem: Memory, p2m: seq<nat>, t: PageTable, info: BootImageInfo, end: nat, tables: nat, pfn: nat,
                      headers: seq<ProgramHeader>, k: nat)
    requires Complete(mem, p2m, t)
    requires PlannedTables(t, info, end, tables, |p2m|) && OrdinaryAddresses(info, end, |p2m|)
    requires info.virtKstart == info.virtBase + pfn * 4096 && info.virtKstart + k < end
    requires ByteAt(mem, p2m, pfn, k) == ImageByte(headers, info.start, k)
    ensures GuestByte(mem, Root(t, p2m), info.virtKstart + k) == Some(ImageByte(headers, info.start, k))
    ensures IsLoaded(headers, info.start + k, GuestByte(mem, Root(t, p2m), info.virtKstart + k).value)
  {
    hide Complete, GuestByte, ByteAt, WordAt, Root, ImageByte, PlannedTables, IsLoaded;
    ImageExact(headers, info.start, k);
    FirstAreaContents(mem, p2m, t, info, end, tables, pfn, k);
  }

  /** Through the finished tables the words at the p2m base are the list of frames. */
  lemma P2mVisible(mem: Memory, p2m: seq<nat>, t: PageTable, info: BootImageInfo, end: nat, tables: nat, i: nat)
    requires Complete(mem, p2m, t) && i < |p2m|
    requires PlannedTables(t, info, end, tables, |p2m|) && OrdinaryAddresses(info, end, |p2m|)
    requires P2mStored(mem, p2m, (end - info.virtBase) / 4096)
    ensures GuestWord(mem, Root(t, p2m), info.virtP2mBase + 8 * i) == Some(p2m[i])
  {
    hide Complete, GuestByte, GuestWord, ByteAt, WordAt, Root, PlannedTables, OrdinaryAddresses;
    SecondAreaOffset(t, info, end, tables, |p2m|, i);
    AreaContents(mem, p2m, t, 1, (end - info.virtBase) / 4096, 8 * i, info.virtP2mBase + 8 * i);
    assert WordAt(mem, p2m, (end - info.virtBase) / 4096, i) == p2m[i];
  }

  /** A guest started with these registers finds the planned address space under cr3, its image at the image's
      addresses (except in the hypercall page), the list of its frames at the p2m base, and writable
      start-info and stack pages at rsi and below rsp. */
  ghost predicate GuestReady(mem: Memory, p2m: seq<nat>, t: PageTable, info: BootImageInfo, vcpu: VcpuContext,
                             startInfo: nat, stack: nat, headers: seq<ProgramHeader>)
  {
    var cr3 := vcpu.cr3 / 4096;
    && (forall va: nat :: Translate(mem, cr3, va) == Planned(t, p2m, va % VIRT_LIMIT))
    && (forall k :: 0 <= k < info.virtKend - info.virtKstart
                    && !InHypercallPage(info, (info.virtKstart + k - info.virtBase) / 4096) ==>
          GuestByte(mem, cr3, info.virtKstart + k) == Some(ImageByte(headers, info.start, k)))
    && (forall i :: 0 <= i < |p2m| ==> GuestWord(mem, cr3, info.virtP2mBase + 8 * i) == Some(p2m[i]))
    && startInfo < |p2m| && stack < |p2m|
    && Translate(mem, cr3, vcpu.rsi) == Some(Translation(p2m[startInfo], true, true))
    && vcpu.rsp > 0 && vcpu.rsp % 4096 == 0 && vcpu.rsi % 4096 == 0
    && Translate(mem, cr3, (vcpu.rsp - 1) as nat) == Some(Translation(p2m[stack], true, true))
    && ToldInStartInfo(mem, p2m, info, vcpu.rsi, cr3, startInfo)
  }

  /** The start info at address `rsi`, read by the guest: the size of its memory, the address of the frame list,
      the frames of the store and console pages, which follow the start-info page, and the address and number of
      its page tables, of which the first is the root; it may read but not write any of them. */
  ghost predicate ToldInStartInfo(mem: Memory, p2m: seq<nat>, info: BootImageInfo, rsi: nat, cr3: nat, startInfo: nat) {
    && GuestWord(mem, cr3, rsi + 32) == Some(|p2m| % U64)
    && GuestWord(mem, cr3, rsi + 104) == Some(info.virtP2mBase % U64)
    && startInfo + 2 < |p2m|
    && GuestWord(mem, cr3, rsi + 56) == Some(p2m[startInfo + 1])
    && GuestWord(mem, cr3, rsi + 72) == Some(p2m[startInfo + 2])
    && GuestWord(mem, cr3, rsi + 88).Some? && GuestWord(mem, cr3, rsi + 96).Some?
    && var at, n := GuestWord(mem, cr3, rsi + 88).value, GuestWord(mem, cr3, rsi + 96).value;
    && n > 0 && Translate(mem, cr3, at) == Some(Translation(cr3, false, true))
    && forall j :: 0 <= j < n ==> ReadOnlyPage(mem, cr3, at + j * 4096)
  }

  predicate ReadOnlyPage(mem: Memory, cr3: nat, va: nat) {
    Translate(mem, cr3, va).Some? && !Translate(mem, cr3, va).value.writable
  }

  /** The ramdisk is where the start info says, byte for byte; without one both fields are 0. */
  ghost predicate RamdiskReady(mem: Memory, cr3: nat, rsi: nat, at: nat, initrd: Option<seq<Byte>>) {
    match initrd
    case None =>
      GuestWord(mem, cr3, rsi + 112) == Some(0) && GuestWord(mem, cr3, rsi + 120) == Some(0)
    case Some(bytes) =>
      && GuestWord(mem, cr3, rsi + 112) == Some(at % U64)
      && GuestWord(mem, cr3, rsi + 120) == Some(|bytes| % U64)
      && forall k :: 0 <= k < |bytes| ==> GuestByte(mem, cr3, at + k) == Some(bytes[k])
  }

  /** Page `pfn` is the one the hypervisor fills. */
  predicate InHypercallPage(info: BootImageInfo, pfn: int) {
    info.virtHypercall != U64 - 1 && pfn == (info.virtHypercall - info.virtBase) / 4096
  }

  /** The image is in place, except for the page the hypervisor fills. */
  ghost predicate ShowsImage(mem: Memory, p2m: seq<nat>, info: BootImageInfo, pfn: nat, headers: seq<ProgramHeader>) {
    forall k :: 0 <= k < info.virtKend - info.virtKstart && !InHypercallPage(info, pfn + k / 4096) ==>
      ByteAt(mem, p2m, pfn, k) == ImageByte(headers, info.start, k)
  }

  /** Where the kernel segment lies, and which page of it the hypervisor fills. */
  predicate KernelPlaced(info: BootImageInfo, kernel: DomainSegment, before: nat) {
    && info.virtKstart <= info.virtKend <= info.virtKstart + kernel.pages * 4096
    && kernel.pfn + kernel.pages <= before && info.virtKstart == info.virtBase + kernel.pfn * 4096
    && (info.virtHypercall == U64 - 1 || info.virtKstart <= info.virtHypercall < info.virtKend)
  }

  /** The page the hypervisor fills, if any, is below `before`. */
  predicate HypercallBelow(info: BootImageInfo, before: nat) {
    info.virtHypercall != U64 - 1 ==>
      info.virtBase <= info.virtHypercall && (info.virtHypercall - info.virtBase) / 4096 < before
  }

  lemma HypercallPage(info: BootImageInfo, kernel: DomainSegment, before: nat)
    requires KernelPlaced(info, kernel, before)
    ensures HypercallBelow(info, kernel.pfn + kernel.pages) && HypercallBelow(info, before)
  {
  }

  /** Pages below `before` have kept their contents, except the one the hypervisor fills. */
  ghost predicate KeptBelow(mem: Memory, mem': Memory, p2m: seq<nat>, info: BootImageInfo, before: nat) {
    forall i :: 0 <= i < |p2m| && i < before && !InHypercallPage(info, i) ==>
      p2m[i] in mem && p2m[i] in mem' && mem'[p2m[i]] == mem[p2m[i]]
  }

  /** Changes from `before` on and in the hypercall page are no others. */
  lemma StagesKeepBelow(mem0: Memory, mem1: Memory, mem2: Memory, mem: Memory, p2m: seq<nat>, info: BootImageInfo,
                        before: nat, lo: nat, hi: nat)
    requires HypercallBelow(info, before) && before <= lo
    requires KeptOutside(mem0, mem1, p2m, lo, hi) && KeptOutside(mem1, mem2, p2m, before, before + 1)
    requires if info.virtHypercall == U64 - 1 then mem == mem2
             else var h := (info.virtHypercall - info.virtBase) / 4096; KeptOutside(mem2, mem, p2m, h, h + 1)
    ensures KeptBelow(mem0, mem, p2m, info, before)
  {
    forall i | 0 <= i < |p2m| && i < before && !InHypercallPage(info, i)
      ensures p2m[i] in mem0 && p2m[i] in mem && mem[p2m[i]] == mem0[p2m[i]]
    {
      assert p2m[i] in mem1 && mem1[p2m[i]] == mem0[p2m[i]];
      assert p2m[i] in mem2 && mem2[p2m[i]] == mem1[p2m[i]];
    }
  }

  /** What lies below is still there. */
  lemma ImageShown(mem: Memory, mem': Memory, p2m: seq<nat>, info: BootImageInfo, kernel: DomainSegment, before: nat,
                   headers: seq<ProgramHeader>)
    requires KernelPlaced(info, kernel, before) && KeptBelow(mem, mem', p2m, info, before)
    requires HoldsImage(mem, p2m, kernel.pfn, info.virtKend - info.virtKstart, headers, info.start)
    ensures ShowsImage(mem', p2m, info, kernel.pfn, headers)
  {
    hide ImageByte;
    forall k | 0 <= k < info.virtKend - info.virtKstart && !InHypercallPage(info, kernel.pfn + k / 4096)
      ensures ByteAt(mem', p2m, kernel.pfn, k) == ImageByte(headers, info.start, k)
    {
      var i := kernel.pfn + k / 4096;
      assert ByteAt(mem, p2m, kernel.pfn, k) == ImageByte(headers, info.start, k);
      if i < |p2m| {
        assert p2m[i] in mem && mem'[p2m[i]] == mem[p2m[i]];
      }
    }
  }

  lemma BytesShown(mem: Memory, mem': Memory, p2m: seq<nat>, info: BootImageInfo, pfn: nat, bytes: seq<Byte>,
                   before: nat)
    requires HoldsBytes(mem, p2m, pfn, bytes) && KeptBelow(mem, mem', p2m, info, before)
    requires HypercallBelow(info, pfn) && pfn * 4096 + |bytes| <= before * 4096
    ensures HoldsBytes(mem', p2m, pfn, bytes)
  {
    forall k | 0 <= k < |bytes|
      ensures ByteAt(mem', p2m, pfn, k) == bytes[k]
    {
      var i := pfn + k / 4096;
      assert ByteAt(mem, p2m, pfn, k) == bytes[k];
      if i < |p2m| {
        assert p2m[i] in mem && mem'[p2m[i]] == mem[p2m[i]];
      }
    }
  }

  /** The arranged plan is a layout whose tables lie in mapped segments. */
  lemma ArrangedIsMapped(platform: X86PvPlatform, domain: BootDomain)
    requires domain.Valid() && platform.Arranged(domain)
    requires !P2mFirst(domain.imageInfo) && domain.imageInfo.virtBase % 4096 == 0
    requires OrdinaryAddresses(domain.imageInfo, domain.virtPgtabEnd, domain.totalPages)
    ensures platform.TablesMapped(domain)
  {
    hide RegionsOk, CoveredBy, Owned, Distinct, Frames, AllZero, CountMapping, Shift;
    var pt := platform.pageTableSegment.value;
    PlannedIsLayout(platform.table, domain.imageInfo, domain.virtPgtabEnd, pt.pfn, domain.totalPages);
    PlannedAreas(platform.table, domain.imageInfo, domain.virtPgtabEnd, pt.pfn, domain.totalPages);
    ListFits(platform.table, domain.totalPages);
  }

  /** The p2m list fits the pages in front of its tables. */
  lemma ListFits(t: PageTable, pages: nat)
    requires Layout(t, pages)
    requires t.mappings[1].area.to + 1 - t.mappings[1].area.from == PagesFor(8 * pages) * 4096
    ensures t.mappings[1].levels[3].pfn - t.mappings[1].area.pfn == PagesFor(8 * pages)
    ensures pages <= 512 * (t.mappings[1].levels[3].pfn - t.mappings[1].area.pfn)
  {
    hide Owns, OwnsRest, Stacked;
    var b := t.mappings[1].area;
    assert b.from % 4096 == 0 && (b.to + 1) % 4096 == 0;
    PageAligned(b.from, b.to);
  }

  /** Fill tables, start info and hypercall page. */
  method FillMemory(platform: X86PvPlatform, domain: BootDomain, sharedInfoFrame: nat) returns (r: Result<()>)
    requires domain.Valid() && platform.Arranged(domain)
    requires !P2mFirst(domain.imageInfo) && domain.imageInfo.virtBase % 4096 == 0
    requires OrdinaryAddresses(domain.imageInfo, domain.virtPgtabEnd, domain.totalPages)
    requires HypercallBelow(domain.imageInfo, platform.startInfoSegment.value.pfn)
    requires |domain.cmdline| <= CMDLINE_SIZE
    modifies domain.phys`pages, domain.phys`leaked, domain.phys.call`hostMap, domain.phys.call`mem
    modifies domain.phys.call`failures
    modifies domain.phys.call`calls, domain.phys.call`failures
    ensures LeaksOnly(r, old(domain.phys.leaked), domain.phys.leaked)
    ensures Faulted(r, old(domain.phys.call.failures), domain.phys.call.failures)
    ensures domain.Valid() && platform.TablesMapped(domain)
    ensures r.Ok? ==> MemoryFilled(platform, domain, sharedInfoFrame, domain.phys.call.mem)
    ensures r.Ok? ==> KeptBelow(old(domain.phys.call.mem), domain.phys.call.mem, domain.phys.p2m, domain.imageInfo,
                                platform.startInfoSegment.value.pfn)
    ensures r.Ok? ==>
              domain.phys.call.calls == old(domain.phys.call.calls) + StubCalls(domain.imageInfo, domain.phys.p2m)
    // the p2m list must have a lowest-level table of its own
    ensures platform.table.mappings[1].levels[0].pgtables == 0 ==> r.Err?
    ensures r.Err? && platform.table.mappings[1].levels[0].pgtables > 0 ==> HostError(r.error)
  {
    hide RegionsOk, CoveredBy, Owned, Distinct, Frames, Layout, Filled, KeptOutside, AllZero, P2mStored, WordAt,
         PlannedTables, OrdinaryAddresses, HypercallBelow, StartInfoAt, KeptBelow,
         PhysicalPages.Valid;
    ArrangedIsMapped(platform, domain);
    ghost var si := platform.startInfoSegment.value.pfn;
    assert si + 2 < platform.pageTableSegment.value.pfn && si < domain.totalPages;
    ghost var mem0 := domain.phys.call.mem;
    var _ :- platform.SetupPageTables(domain);
    ghost var mem1 := domain.phys.call.mem;
    var _ :- platform.SetupStartInfo(domain, sharedInfoFrame);
    ghost var mem2 := domain.phys.call.mem;
    HypercallAt(domain.imageInfo, si);
    var _ :- platform.SetupHypercallPage(domain);
    StagesKeepBelow(mem0, mem1, mem2, domain.phys.call.mem, domain.phys.p2m, domain.imageInfo, si,
                    platform.pageTableSegment.value.pfn, domain.pfnAllocEnd);
    FillEffects(platform, domain, sharedInfoFrame, mem1, mem2);
    return Ok(());
  }

  lemma HypercallAt(info: BootImageInfo, before: nat)
    requires HypercallBelow(info, before)
    ensures info.virtHypercall != U64 - 1 ==>
              info.virtBase <= info.virtHypercall && (info.virtHypercall - info.virtBase) / 4096 < before
  {
  }

  /** Complete tables, the frame list and the start info are in memory. */
  ghost predicate MemoryFilled(platform: X86PvPlatform, domain: BootDomain, sharedInfoFrame: nat, mem: Memory)
    requires platform.startInfoSegment.Some? && platform.xenstoreSegment.Some?
    requires platform.pageTableSegment.Some? && platform.p2mSegment.Some?
    requires platform.xenstoreSegment.value.pfn < |domain.phys.p2m|
    reads platform, domain, domain.phys`p2m
  {
    var p2m := domain.phys.p2m;
    && Complete(mem, p2m, platform.table)
    && P2mStored(mem, p2m, platform.p2mSegment.value.pfn)
    && StartInfoAt(mem, p2m, platform.startInfoSegment.value.pfn, platform.StartInfoOf(domain, sharedInfoFrame))
  }

  /** Later stages leave what the earlier ones wrote. */
  lemma FillEffects(platform: X86PvPlatform, domain: BootDomain, sharedInfoFrame: nat, mem1: Memory, mem2: Memory)
    requires domain.Valid() && platform.TablesMapped(domain) && platform.startInfoSegment.Some?
    requires platform.xenstoreSegment.Some? && platform.xenstoreSegment.value.pfn < |domain.phys.p2m|
    requires platform.startInfoSegment.value.pfn + 1 < platform.pageTableSegment.value.pfn
    requires HypercallBelow(domain.imageInfo, platform.startInfoSegment.value.pfn)
    requires Filled(mem1, domain.phys.p2m, platform.table)
             && P2mStored(mem1, domain.phys.p2m, platform.p2mSegment.value.pfn)
    requires var si := platform.startInfoSegment.value.pfn; KeptOutside(mem1, mem2, domain.phys.p2m, si, si + 1)
    requires StartInfoAt(mem2, domain.phys.p2m, platform.startInfoSegment.value.pfn,
                         platform.StartInfoOf(domain, sharedInfoFrame))
    requires domain.imageInfo.virtHypercall == U64 - 1 ==> domain.phys.call.mem == mem2
    requires domain.imageInfo.virtHypercall != U64 - 1 ==>
               && domain.imageInfo.virtBase <= domain.imageInfo.virtHypercall
               && var pfn := (domain.imageInfo.virtHypercall - domain.imageInfo.virtBase) / 4096;
                  KeptOutside(mem2, domain.phys.call.mem, domain.phys.p2m, pfn, pfn + 1)
    ensures MemoryFilled(platform, domain, sharedInfoFrame, domain.phys.call.mem)
  {
    hide RegionsOk, CoveredBy, Owned, Distinct, Frames, Layout, Filled, KeptOutside, WordAt;
    var mem, p2m, t, info := domain.phys.call.mem, domain.phys.p2m, platform.table, domain.imageInfo;
    var si, pt, ps := platform.startInfoSegment.value.pfn, platform.pageTableSegment.value, platform.p2mSegment.value;
    platform.P2mBacked(domain);
    platform.SegmentsPositive(domain);
    var n := t.mappings[1].levels[3].pfn - ps.pfn;
    FilledKept(mem1, mem2, p2m, t, si, si + 1);
    FlatKept(mem1, mem2, p2m, si, si + 1, ps.pfn, n);
    if info.virtHypercall != U64 - 1 {
      var h := (info.virtHypercall - info.virtBase) / 4096;
      FilledKept(mem2, mem, p2m, t, h, h + 1);
      FlatKept(mem2, mem, p2m, h, h + 1, ps.pfn, n);
      StartInfoKept(mem2, mem, p2m, h, h + 1, si, platform.StartInfoOf(domain, sharedInfoFrame));
    }
  }

  /** The start info depends on its own page only. */
  lemma StartInfoKept(mem: Memory, mem': Memory, p2m: seq<nat>, lo: nat, hi: nat, pfn: nat, s: StartInfo)
    requires KeptOutside(mem, mem', p2m, lo, hi) && (pfn + 1 <= lo || hi <= pfn) && pfn < |p2m|
    requires StartInfoAt(mem, p2m, pfn, s)
    ensures StartInfoAt(mem', p2m, pfn, s)
  {
    hide FieldOf, TextStored;
    FlatKept(mem, mem', p2m, lo, hi, pfn, 1);
    assert forall k :: 0 <= k < 4096 ==> ByteAt(mem', p2m, pfn, k) == ByteAt(mem, p2m, pfn, k);
    hide WordAt, ByteAt;
    TextKept(mem, mem', p2m, pfn, 0, 32, GUEST_MAGIC, |GUEST_MAGIC|);
    TextKept(mem, mem', p2m, pfn, CMDLINE_AT, CMDLINE_SIZE, s.cmdline, CmdlineLength(s.cmdline));
  }

  /** Changes to a frame that is none of the domain's change none of its pages. */
  lemma FrameApart(mem: Memory, mem': Memory, p2m: seq<nat>, frame: nat)
    requires frame !in p2m && Owned(mem, p2m) && mem'.Keys == mem.Keys
    requires forall f :: f in mem' && f != frame ==> mem'[f] == mem[f]
    ensures KeptOutside(mem, mem', p2m, 0, 0)
  {
  }

  /** Memory stays filled when none of the domain's pages changes. */
  lemma FilledStays(platform: X86PvPlatform, domain: BootDomain, frame: nat, mem: Memory, mem': Memory)
    requires platform.startInfoSegment.Some? && platform.xenstoreSegment.Some?
    requires platform.pageTableSegment.Some? && platform.p2mSegment.Some?
    requires platform.xenstoreSegment.value.pfn < |domain.phys.p2m|
    requires platform.startInfoSegment.value.pfn < |domain.phys.p2m|
    requires MemoryFilled(platform, domain, frame, mem) && KeptOutside(mem, mem', domain.phys.p2m, 0, 0)
    requires platform.p2mSegment.value.pfn * 512 + |domain.phys.p2m| <= 512 * |domain.phys.p2m|
    ensures MemoryFilled(platform, domain, frame, mem')
  {
    hide Layout, Filled, Frames, Distinct, StartInfoAt;
    var p2m, ps := domain.phys.p2m, platform.p2mSegment.value.pfn;
    FilledKept(mem, mem', p2m, platform.table, 0, 0);
    StartInfoKept(mem, mem', p2m, 0, 0, platform.startInfoSegment.value.pfn, platform.StartInfoOf(domain, frame));
    FlatKept(mem, mem', p2m, 0, 0, ps, |p2m|);
  }

  /** Registers, start info, image and list of frames, as the guest finds them in complete tables. */
  lemma ReadyGuest(mem: Memory, p2m: seq<nat>, t: PageTable, info: BootImageInfo, end: nat, tables: nat,
                   kernel: DomainSegment, si: nat, bs: nat, headers: seq<ProgramHeader>, start: StartInfo,
                   vcpu: VcpuContext)
    requires Complete(mem, p2m, t)
    requires PlannedTables(t, info, end, tables, |p2m|) && OrdinaryAddresses(info, end, |p2m|)
    requires P2mStored(mem, p2m, (end - info.virtBase) / 4096)
    requires !P2mFirst(info) && info.virtBase % 4096 == 0
    requires KernelPlaced(info, kernel, si) && ShowsImage(mem, p2m, info, kernel.pfn, headers)
    requires si + 2 < tables && bs == tables + t.mappings[0].area.pgtables && bs < (end - info.virtBase) / 4096
    requires tables < |p2m| && StartInfoAt(mem, p2m, si, start) && Told(start, p2m, t, info, tables, si)
    requires vcpu == VcpuContext(info.virtEntry, info.virtBase + (bs + 1) * 4096, info.virtBase + si * 4096,
                                 p2m[tables] * 4096)
    ensures GuestReady(mem, p2m, t, info, vcpu, si, bs, headers)
  {
    hide Filled, PlannedTables, OrdinaryAddresses, ShowsImage, Translate, Planned, GuestByte, GuestWord, ImageByte,
         WordAt, ByteAt, Complete, P2mStored, StartInfoAt, KernelPlaced, Root, Told, ToldInStartInfo, InHypercallPage,
         Layout, P2mFirst;
    WholePage(info.virtBase, bs + 1);
    WholePage(info.virtBase, si);
    RowColumn(p2m[tables], 0, 4096);
    PlannedIsLayout(t, info, end, tables, |p2m|);
    var cr3 := vcpu.cr3 / 4096;
    RootFrame(t, p2m);
    assert cr3 == Root(t, p2m);
    forall va: nat
      ensures Translate(mem, cr3, va) == Planned(t, p2m, va % VIRT_LIMIT)
    {
      CompleteWalk(mem, p2m, t, va);
    }
    ReadyImage(mem, p2m, t, info, end, tables, kernel, si, headers);
    forall i | 0 <= i < |p2m|
      ensures GuestWord(mem, cr3, info.virtP2mBase + 8 * i) == Some(p2m[i])
    {
      P2mVisible(mem, p2m, t, info, end, tables, i);
    }
    ReadyPages(mem, p2m, t, info, end, tables, si, bs);
    ReadyStartInfo(mem, p2m, t, info, end, tables, si, start);
  }

  lemma WholePage(base: nat, n: nat)
    requires base % 4096 == 0
    ensures (base + n * 4096) % 4096 == 0
  {
    RowColumn(base / 4096 + n, 0, 4096);
  }

  lemma RootFrame(t: PageTable, p2m: seq<nat>)
    requires t.mappings[0].levels[3].pfn < |p2m|
    ensures Root(t, p2m) == p2m[t.mappings[0].levels[3].pfn]
  {
  }

  lemma CompleteWalk(mem: Memory, p2m: seq<nat>, t: PageTable, va: nat)
    requires Complete(mem, p2m, t)
    ensures Translate(mem, Root(t, p2m), va) == Planned(t, p2m, va % VIRT_LIMIT)
  {
    hide Layout, Filled, Translate, Planned;
    WalkIsExact(mem, p2m, t, va);
  }

  lemma ReadyImage(mem: Memory, p2m: seq<nat>, t: PageTable, info: BootImageInfo, end: nat, tables: nat,
                   kernel: DomainSegment, si: nat, headers: seq<ProgramHeader>)
    requires Complete(mem, p2m, t) && KernelPlaced(info, kernel, si) && ShowsImage(mem, p2m, info, kernel.pfn, headers)
    requires PlannedTables(t, info, end, tables, |p2m|) && OrdinaryAddresses(info, end, |p2m|)
    requires si < (end - info.virtBase) / 4096
    ensures forall k :: 0 <= k < info.virtKend - info.virtKstart
                        && !InHypercallPage(info, (info.virtKstart + k - info.virtBase) / 4096) ==>
              GuestByte(mem, Root(t, p2m), info.virtKstart + k) == Some(ImageByte(headers, info.start, k))
  {
    hide PlannedTables, OrdinaryAddresses, GuestByte, ImageByte, ByteAt, Complete, Root;
    forall k | 0 <= k < info.virtKend - info.virtKstart
               && !InHypercallPage(info, (info.virtKstart + k - info.virtBase) / 4096)
      ensures GuestByte(mem, Root(t, p2m), info.virtKstart + k) == Some(ImageByte(headers, info.start, k))
    {
      assert (info.virtKstart + k - info.virtBase) / 4096 == kernel.pfn + k / 4096;
      KernelVisible(mem, p2m, t, info, end, tables, kernel.pfn, headers, k);
    }
  }

  /** rsi and the byte below rsp lie in the writable start-info and stack pages. */
  lemma ReadyPages(mem: Memory, p2m: seq<nat>, t: PageTable, info: BootImageInfo, end: nat, tables: nat, si: nat,
                   bs: nat)
    requires Complete(mem, p2m, t)
    requires PlannedTables(t, info, end, tables, |p2m|) && OrdinaryAddresses(info, end, |p2m|)
    requires !P2mFirst(info) && info.virtBase % 4096 == 0
    requires si < tables && bs == tables + t.mappings[0].area.pgtables && bs < (end - info.virtBase) / 4096
    ensures si < |p2m| && bs < |p2m|
    ensures Translate(mem, Root(t, p2m), info.virtBase + si * 4096) == Some(Translation(p2m[si], true, true))
    ensures Translate(mem, Root(t, p2m), (info.virtBase + (bs + 1) * 4096 - 1) as nat)
            == Some(Translation(p2m[bs], true, true))
  {
    hide OrdinaryAddresses, Translate, Complete, Root, CountMapping, Shift;
    PlannedIsLayout(t, info, end, tables, |p2m|);
    SecondTablesLater(t, |p2m|);
    PlannedAreas(t, info, end, tables, |p2m|);
    FirstAreaFrame(mem, p2m, t, info, end, tables, si, 0);
    FirstAreaFrame(mem, p2m, t, info, end, tables, bs, 4095);
    hide PlannedTables, Layout;
  }

  lemma SecondTablesLater(t: PageTable, pages: nat)
    requires Layout(t, pages)
    ensures t.mappings[1].area.pfn < t.mappings[1].levels[3].pfn
    ensures t.mappings[0].area.pgtables > 0
  {
    SegmentsOrdered(t, pages);
    FirstHasLeafTables(t, pages);
    LevelPlace(t, pages, 0, 1);
  }

  /** What the builder means the start info to say. */
  predicate Told(s: StartInfo, p2m: seq<nat>, t: PageTable, info: BootImageInfo, tables: nat, si: nat) {
    && s.nrPages == |p2m| && s.mfnList == info.virtP2mBase
    && si + 2 < |p2m| && s.storeMfn == p2m[si + 1] && s.consoleMfn == p2m[si + 2]
    && s.ptBase == info.virtBase + tables * 4096 && s.nrPtFrames == t.mappings[0].area.pgtables
  }

  /** A text of n characters at an address, as the guest reads it: zeros follow up to the size of its field. */
  ghost predicate TextRead(mem: Memory, cr3: nat, at: nat, size: nat, text: string, n: nat)
    requires n <= |text|
  {
    forall k: nat :: k < size ==> CharRead(mem, cr3, at, text, n, k)
  }

  predicate CharRead(mem: Memory, cr3: nat, at: nat, text: string, n: nat, k: nat)
    requires n <= |text|
  {
    GuestByte(mem, cr3, at + k) == Some(if k < n then text[k] as int % 256 else 0)
  }

  /** The guest reads this start info at `rsi`: the offsets are those of the public interface, `struct start_info`
      in xen/include/public/xen.h. */
  ghost predicate ReadsStartInfo(mem: Memory, cr3: nat, rsi: nat, s: StartInfo) {
    && TextRead(mem, cr3, rsi, 32, "xen-3.0-x86_64", 14)
    && GuestWord(mem, cr3, rsi + 32) == Some(s.nrPages % U64)
    && GuestWord(mem, cr3, rsi + 40) == Some(s.sharedInfo % U64)
    && GuestWord(mem, cr3, rsi + 48) == Some(0)  // flags
    && GuestWord(mem, cr3, rsi + 56) == Some(s.storeMfn % U64)
    && GuestWord(mem, cr3, rsi + 64) == Some(s.storeEvtchn % U64)
    && GuestWord(mem, cr3, rsi + 72) == Some(s.consoleMfn % U64)
    && GuestWord(mem, cr3, rsi + 80) == Some(s.consoleEvtchn % U64)
    && GuestWord(mem, cr3, rsi + 88) == Some(s.ptBase % U64)
    && GuestWord(mem, cr3, rsi + 96) == Some(s.nrPtFrames % U64)
    && GuestWord(mem, cr3, rsi + 104) == Some(s.mfnList % U64)
    && GuestWord(mem, cr3, rsi + 112) == Some(s.modStart % U64)
    && GuestWord(mem, cr3, rsi + 120) == Some(s.modLen % U64)
    && TextRead(mem, cr3, rsi + 128, 1024, s.cmdline, if |s.cmdline| < 1024 then |s.cmdline| else 1023)
    && GuestWord(mem, cr3, rsi + 1152) == Some(s.firstP2mPfn % U64)
    && GuestWord(mem, cr3, rsi + 1160) == Some(s.nrP2mFrames % U64)
    && forall w: nat :: 146 <= w < 512 ==> WordRead(mem, cr3, rsi, w, 0)
  }

  predicate WordRead(mem: Memory, cr3: nat, rsi: nat, w: nat, v: nat) {
    GuestWord(mem, cr3, rsi + 8 * w) == Some(v)
  }

  lemma StartInfoVisible(mem: Memory, p2m: seq<nat>, t: PageTable, info: BootImageInfo, end: nat, tables: nat, si: nat,
                         s: StartInfo)
    requires Complete(mem, p2m, t) && StartInfoAt(mem, p2m, si, s) && si < (end - info.virtBase) / 4096
    requires PlannedTables(t, info, end, tables, |p2m|) && OrdinaryAddresses(info, end, |p2m|)
    ensures ReadsStartInfo(mem, Root(t, p2m), info.virtBase + si * 4096, s)
  {
    hide GuestWord, GuestByte, Complete, Root, WordAt, ByteAt, PlannedTables, OrdinaryAddresses, FieldOf;
    FieldValues(s);
    forall w: nat | FieldWord(w)
      ensures WordRead(mem, Root(t, p2m), info.virtBase + si * 4096, w, FieldOf(s, w) % U64)
    {
      FirstAreaContents(mem, p2m, t, info, end, tables, si, 8 * w);
    }
    forall k: nat | k < 4096
      ensures GuestByte(mem, Root(t, p2m), info.virtBase + si * 4096 + k) == Some(ByteAt(mem, p2m, si, k))
    {
      FirstAreaContents(mem, p2m, t, info, end, tables, si, k);
    }
    TextVisible(mem, p2m, Root(t, p2m), info.virtBase + si * 4096, si, 0, 32, GUEST_MAGIC, |GUEST_MAGIC|);
    TextVisible(mem, p2m, Root(t, p2m), info.virtBase + si * 4096, si, CMDLINE_AT, CMDLINE_SIZE, s.cmdline,
                CmdlineLength(s.cmdline));
      EveryField(mem, Root(t, p2m), info.virtBase + si * 4096, s);
  }

  lemma EveryField(mem: Memory, cr3: nat, rsi: nat, s: StartInfo)
    requires forall w: nat :: FieldWord(w) ==> WordRead(mem, cr3, rsi, w, FieldOf(s, w) % U64)
    requires TextRead(mem, cr3, rsi, 32, GUEST_MAGIC, |GUEST_MAGIC|)
    requires TextRead(mem, cr3, rsi + CMDLINE_AT, CMDLINE_SIZE, s.cmdline, CmdlineLength(s.cmdline))
    ensures ReadsStartInfo(mem, cr3, rsi, s)
  {
    hide GuestWord, TextRead, FieldOf;
    FieldValues(s);
    assert WordRead(mem, cr3, rsi, NR_PAGES, FieldOf(s, NR_PAGES) % U64);
    assert WordRead(mem, cr3, rsi, SHARED_INFO, FieldOf(s, SHARED_INFO) % U64);
    assert WordRead(mem, cr3, rsi, FLAGS, FieldOf(s, FLAGS) % U64);
    assert WordRead(mem, cr3, rsi, STORE_MFN, FieldOf(s, STORE_MFN) % U64);
    assert WordRead(mem, cr3, rsi, STORE_EVTCHN, FieldOf(s, STORE_EVTCHN) % U64);
    assert WordRead(mem, cr3, rsi, CONSOLE_MFN, FieldOf(s, CONSOLE_MFN) % U64);
    assert WordRead(mem, cr3, rsi, CONSOLE_EVTCHN, FieldOf(s, CONSOLE_EVTCHN) % U64);
    assert WordRead(mem, cr3, rsi, PT_BASE, FieldOf(s, PT_BASE) % U64);
    assert WordRead(mem, cr3, rsi, NR_PT_FRAMES, FieldOf(s, NR_PT_FRAMES) % U64);
    assert WordRead(mem, cr3, rsi, MFN_LIST, FieldOf(s, MFN_LIST) % U64);
    assert WordRead(mem, cr3, rsi, MOD_START, FieldOf(s, MOD_START) % U64);
    assert WordRead(mem, cr3, rsi, MOD_LEN, FieldOf(s, MOD_LEN) % U64);
    assert WordRead(mem, cr3, rsi, FIRST_P2M_PFN, FieldOf(s, FIRST_P2M_PFN) % U64);
    assert WordRead(mem, cr3, rsi, NR_P2M_FRAMES, FieldOf(s, NR_P2M_FRAMES) % U64);
    forall w: nat | 146 <= w < 512
      ensures WordRead(mem, cr3, rsi, w, 0)
    {
      NoField(s, w);
      assert WordRead(mem, cr3, rsi, w, FieldOf(s, w) % U64);
    }
  }

  lemma NoField(s: StartInfo, w: nat)
    requires w >= 146
    ensures FieldOf(s, w) == 0
  {
  }

  lemma TextVisible(mem: Memory, p2m: seq<nat>, cr3: nat, rsi: nat, si: nat, at: nat, size: nat, text: string, n: nat)
    requires n <= |text| && at + size <= 4096 && TextStored(mem, p2m, si, at, size, text, n)
    requires forall k: nat :: k < 4096 ==> GuestByte(mem, cr3, rsi + k) == Some(ByteAt(mem, p2m, si, k))
    ensures TextRead(mem, cr3, rsi + at, size, text, n)
  {
    hide GuestByte, ByteAt;
    var x := rsi + at;
    forall k: nat | k < size
      ensures CharRead(mem, cr3, x, text, n, k)
    {
      assert CharStored(mem, p2m, si, at, text, n, k);
      assert x + k == rsi + (at + k);
      assert GuestByte(mem, cr3, rsi + (at + k)) == Some(ByteAt(mem, p2m, si, at + k));
    }
  }

  /** The start info, read by the guest, tells it all that. */
  lemma ReadyStartInfo(mem: Memory, p2m: seq<nat>, t: PageTable, info: BootImageInfo, end: nat, tables: nat, si: nat,
                       start: StartInfo)
    requires Complete(mem, p2m, t)
    requires PlannedTables(t, info, end, tables, |p2m|) && OrdinaryAddresses(info, end, |p2m|)
    requires !P2mFirst(info) && info.virtBase % 4096 == 0
    requires si + 2 < tables < (end - info.virtBase) / 4096 && tables < |p2m|
    requires StartInfoAt(mem, p2m, si, start) && Told(start, p2m, t, info, tables, si)
    ensures ToldInStartInfo(mem, p2m, info, info.virtBase + si * 4096, Root(t, p2m), si)
  {
    hide Translate, GuestWord, GuestByte, Complete, Root, CountMapping, Shift, WordAt, ByteAt, PlannedTables,
         ReadOnlyPage, FieldOf, TextRead, StartInfoAt, OrdinaryAddresses, Layout;
    var rsi, cr3, n := info.virtBase + si * 4096, Root(t, p2m), t.mappings[0].area.pgtables;
    PlannedIsLayout(t, info, end, tables, |p2m|);
    SecondTablesLater(t, |p2m|);
    RootFrame(t, p2m);
    FramesSmall(mem, p2m, t, si + 1);
    FramesSmall(mem, p2m, t, si + 2);
    AreaTables(t, info, end, tables, |p2m|);
    StartInfoVisible(mem, p2m, t, info, end, tables, si, start);
    FieldValues(start);
    TableFrames(mem, p2m, t, info, end, tables);
  }

  lemma FramesSmall(mem: Memory, p2m: seq<nat>, t: PageTable, i: nat)
    requires Complete(mem, p2m, t) && i < |p2m|
    ensures p2m[i] % U64 == p2m[i]
  {
    hide Layout, Filled, Distinct, Owned;
  }

  /** The number of tables is no more than the pages of the area. */
  lemma AreaTables(t: PageTable, info: BootImageInfo, end: nat, tables: nat, pages: nat)
    requires PlannedTables(t, info, end, tables, pages) && OrdinaryAddresses(info, end, pages)
    ensures t.mappings[0].area.pgtables % U64 == t.mappings[0].area.pgtables
  {
    hide CountMapping, Shift, PagesFor;
    LowAddress(info.virtBase, end, 0);
    assert end - 1 - info.virtBase < VIRT_LIMIT;
    assert t.mappings[0].area.pgtables < (end - info.virtBase) / 4096 <= VIRT_LIMIT / 4096;
  }

  /** The tables of the first mapping, from its root on, are mapped read-only one after another. */
  lemma TableFrames(mem: Memory, p2m: seq<nat>, t: PageTable, info: BootImageInfo, end: nat, tables: nat)
    requires Complete(mem, p2m, t)
    requires PlannedTables(t, info, end, tables, |p2m|) && OrdinaryAddresses(info, end, |p2m|)
    requires !P2mFirst(info) && info.virtBase % 4096 == 0 && tables < |p2m|
    ensures var at := (info.virtBase + tables * 4096) % U64;
            && Translate(mem, Root(t, p2m), at) == Some(Translation(Root(t, p2m), false, true))
            && forall j :: 0 <= j < t.mappings[0].area.pgtables ==> ReadOnlyPage(mem, Root(t, p2m), at + j * 4096)
  {
    hide Translate, Complete, Root, CountMapping, Shift;
    PlannedIsLayout(t, info, end, tables, |p2m|);
    SecondTablesLater(t, |p2m|);
    RootFrame(t, p2m);
    var x := info.virtBase + tables * 4096;
    forall j | 0 <= j < t.mappings[0].area.pgtables
      ensures ReadOnlyPage(mem, Root(t, p2m), x % U64 + j * 4096)
    {
      FirstAreaFrame(mem, p2m, t, info, end, tables, tables + j, 0);
      TranslateWrapped(mem, Root(t, p2m), x, j * 4096);
    }
    FirstAreaFrame(mem, p2m, t, info, end, tables, tables, 0);
    TranslateLow(mem, Root(t, p2m), x);
  }

  lemma TranslateWrapped(mem: Memory, cr3: nat, x: nat, d: nat)
    ensures Translate(mem, cr3, x % U64 + d) == Translate(mem, cr3, x + d)
  {
    hide Translate;
    TranslateLow(mem, cr3, x % U64 + d);
    TranslateLow(mem, cr3, x + d);
    WrapLater(x, d);
  }

  lemma WrapLater(x: nat, d: nat)
    ensures (x % U64 + d) % U64 == (x + d) % U64
  {
  }

  /** A 64-bit address translates like the number it came from. */
  lemma TranslateLow(mem: Memory, cr3: nat, x: nat)
    ensures Translate(mem, cr3, x % U64) == Translate(mem, cr3, x)
  {
    var q := x / U64;
    var r := x % U64;
    assert x == VIRT_LIMIT * (q * 0x1_0000) + r;
    assert r % VIRT_LIMIT == x % VIRT_LIMIT;
  }

  /** What the second phase relies on. */
  ghost predicate ReadyToBoot(platform: X86PvPlatform, domain: BootDomain, kernel: DomainSegment,
                              headers: seq<ProgramHeader>, initrd: Option<seq<Byte>>)
    reads platform, domain, domain.phys, domain.phys.call
  {
    var info := domain.imageInfo;
    && domain.Valid() && platform.Arranged(domain) && domain.phys.leaked == {}
    && !P2mFirst(info) && info.virtBase % 4096 == 0
    && OrdinaryAddresses(info, domain.virtPgtabEnd, domain.totalPages)
    && KernelPlaced(info, kernel, platform.startInfoSegment.value.pfn)
    && |domain.cmdline| <= CMDLINE_SIZE
    && HoldsImage(domain.phys.call.mem, domain.phys.p2m, kernel.pfn, info.virtKend - info.virtKstart, headers,
                  info.start)
    && RamdiskPlaced(domain, kernel, platform.startInfoSegment.value.pfn, initrd)
    && PortsApart(domain) && domain.phys.call.calls == FirstCalls(domain)
  }

  /** A guest that is ready to run. */
  ghost predicate Runnable(platform: X86PvPlatform, domain: BootDomain, headers: seq<ProgramHeader>,
                           initrd: Option<seq<Byte>>, vcpu: VcpuContext)
    reads platform, domain, domain.phys`p2m, domain.phys.call`mem, domain.phys.call`grants, domain.phys.call`calls
  {
    && platform.startInfoSegment.Some? && platform.bootStackSegment.Some?
    && GuestReady(domain.phys.call.mem, domain.phys.p2m, platform.table, domain.imageInfo, vcpu,
                  platform.startInfoSegment.value.pfn, platform.bootStackSegment.value.pfn, headers)
    && (initrd.Some? ==> domain.initrdSegment.Some?)
    && RamdiskReady(domain.phys.call.mem, vcpu.cr3 / 4096, vcpu.rsi,
                    if domain.initrdSegment.Some? then domain.initrdSegment.value.vstart else 0, initrd)
    && GrantSeeded(domain.phys.call.grants, 0, GuestWord(domain.phys.call.mem, vcpu.cr3 / 4096, vcpu.rsi + 72))
    && GrantSeeded(domain.phys.call.grants, 1, GuestWord(domain.phys.call.mem, vcpu.cr3 / 4096, vcpu.rsi + 56))
    && platform.xenstoreSegment.Some? && platform.pageTableSegment.Some? && platform.p2mSegment.Some?
    && platform.xenstoreSegment.value.pfn < |domain.phys.p2m|
    && domain.phys.call.sharedInfoFrame !in domain.phys.p2m
    && EventsMasked(domain.phys.call.mem, domain.phys.call.sharedInfoFrame)
    && ReadsStartInfo(domain.phys.call.mem, vcpu.cr3 / 4096, vcpu.rsi,
                      platform.StartInfoOf(domain, domain.phys.call.sharedInfoFrame))
    && LearnsDomain(platform, domain, vcpu)
    && vcpu.rip == domain.imageInfo.virtEntry
    && PortsApart(domain)
    && domain.phys.call.calls == FilledCalls(domain, vcpu.cr3 / 4096) + [SetContext(vcpu), MapGrantTable]
    && StubsAt(domain.phys.call.mem, vcpu.cr3 / 4096, domain.imageInfo.virtHypercall, domain.phys.call.calls)
  }

  /** The frame the guest reaches at the named address is one the hypervisor has filled with its stubs. */
  ghost predicate StubsAt(mem: Memory, cr3: nat, va: nat, calls: seq<ControlCall>) {
    va != 0xffff_ffff_ffff_ffff ==>
      Translate(mem, cr3, va).Some? && InitHypercalls(Translate(mem, cr3, va).value.frame) in calls
  }

  /** The numbers that the host returns for the domain are those the guest reads: the store's page and event channel
      and the console's. The shared page is the hypervisor's, and the frame list and its tables are the last pages
      that were taken, at the stated pfn. */
  ghost predicate LearnsDomain(platform: X86PvPlatform, domain: BootDomain, vcpu: VcpuContext)
    reads platform, domain, domain.phys`p2m, domain.phys.call`mem
  {
    var mem, cr3, rsi := domain.phys.call.mem, vcpu.cr3 / 4096, vcpu.rsi;
    && GuestWord(mem, cr3, rsi + 40) == Some(domain.phys.call.sharedInfoFrame * 4096 % U64)
    && GuestWord(mem, cr3, rsi + 56) == Some(domain.storeMfn % U64)
    && GuestWord(mem, cr3, rsi + 64) == Some(domain.storeEvtchn % U64)
    && GuestWord(mem, cr3, rsi + 72) == Some(domain.consoleMfn % U64)
    && GuestWord(mem, cr3, rsi + 80) == Some(domain.consoleEvtchn % U64)
    && platform.p2mSegment.Some?
    && var ps := platform.p2mSegment.value;
    && GuestWord(mem, cr3, rsi + 1152) == Some(ps.pfn % U64)
    && GuestWord(mem, cr3, rsi + 1160) == Some(ps.pages % U64)
    && P2mStored(mem, domain.phys.p2m, ps.pfn) && ps.pfn + ps.pages == domain.pfnAllocEnd
  }

  /** Two different event channels. */
  predicate PortsApart(domain: BootDomain)
    reads domain
  {
    domain.consoleEvtchn != domain.storeEvtchn
    && domain.consoleEvtchn < 0x1_0000_0000 && domain.storeEvtchn < 0x1_0000_0000
  }

  /** The control calls of the first phase, in their order. */
  function FirstCalls(domain: BootDomain): seq<ControlCall>
    reads domain
  {
    [SetAddressSize(64), ClaimPages(domain.totalPages), ClaimPages(0), AllocUnbound(domain.consoleEvtchn),
     AllocUnbound(domain.storeEvtchn)]
  }

  /** The call that has the hypervisor fill the page of the named address, if one is named. */
  function StubCalls(info: BootImageInfo, p2m: seq<nat>): seq<ControlCall> {
    if info.virtHypercall == U64 - 1 || info.virtHypercall < info.virtBase
       || (info.virtHypercall - info.virtBase) / 4096 >= |p2m| then []
    else [InitHypercalls(p2m[(info.virtHypercall - info.virtBase) / 4096])]
  }

  /** The control calls up to the pinning of the root. */
  function FilledCalls(domain: BootDomain, root: nat): seq<ControlCall>
    reads domain, domain.phys`p2m
  {
    FirstCalls(domain) + StubCalls(domain.imageInfo, domain.phys.p2m) + [PinRoot(root)]
  }

  /** A guest that is ready to run, with none of its pages mapped in the host any more. */
  ghost predicate Started(platform: X86PvPlatform, domain: BootDomain, headers: seq<ProgramHeader>,
                          initrd: Option<seq<Byte>>, vcpu: VcpuContext)
    reads platform, domain, domain.phys, domain.phys.call
  {
    Runnable(platform, domain, headers, initrd, vcpu) && domain.phys.call.hostMap == map[]
  }

  /** The ramdisk, read through the finished tables. */
  lemma RamdiskVisible(mem: Memory, p2m: seq<nat>, t: PageTable, info: BootImageInfo, end: nat, tables: nat, si: nat,
                       start: StartInfo, pfn: nat, initrd: Option<seq<Byte>>)
    requires Complete(mem, p2m, t) && si < tables < (end - info.virtBase) / 4096
    requires PlannedTables(t, info, end, tables, |p2m|) && OrdinaryAddresses(info, end, |p2m|)
    requires StartInfoAt(mem, p2m, si, start)
    requires initrd.None? ==> start.modStart == 0 && start.modLen == 0
    requires initrd.Some? ==>
               && start.modStart == info.virtBase + pfn * 4096 && start.modLen == |initrd.value|
               && HoldsBytes(mem, p2m, pfn, initrd.value) && pfn * 4096 + |initrd.value| <= si * 4096
    ensures RamdiskReady(mem, Root(t, p2m), info.virtBase + si * 4096, info.virtBase + pfn * 4096, initrd)
  {
    hide Translate, GuestWord, GuestByte, Complete, Root, WordAt, ByteAt, PlannedTables, OrdinaryAddresses, FieldOf,
         TextRead, StartInfoAt;
    StartInfoVisible(mem, p2m, t, info, end, tables, si, start);
    FieldValues(start);
    if initrd.Some? {
      forall k | 0 <= k < |initrd.value|
        ensures GuestByte(mem, Root(t, p2m), info.virtBase + pfn * 4096 + k) == Some(initrd.value[k])
      {
        FirstAreaContents(mem, p2m, t, info, end, tables, pfn, k);
      }
    }
  }

  /** Memory is filled, and everything below the start info is as the first phase left it in `mem0`. */
  ghost predicate Prepared(platform: X86PvPlatform, domain: BootDomain, kernel: DomainSegment,
                           headers: seq<ProgramHeader>, initrd: Option<seq<Byte>>, mem0: Memory, frame: nat)
    reads platform, domain, domain.phys`p2m, domain.phys.call`mem
  {
    && platform.startInfoSegment.Some? && platform.xenstoreSegment.Some? && platform.pageTableSegment.Some?
    && platform.bootStackSegment.Some? && platform.p2mSegment.Some?
    && platform.xenstoreSegment.value.pfn < |domain.phys.p2m|
    && MemoryFilled(platform, domain, frame, domain.phys.call.mem)
    && (var info, p2m, si, pt, bs := domain.imageInfo, domain.phys.p2m, platform.startInfoSegment.value.pfn,
                                     platform.pageTableSegment.value, platform.bootStackSegment.value.pfn;
        && !P2mFirst(info) && info.virtBase % 4096 == 0 && |p2m| == domain.totalPages
        && PlannedTables(platform.table, info, domain.virtPgtabEnd, pt.pfn, |p2m|)
        && OrdinaryAddresses(info, domain.virtPgtabEnd, |p2m|)
        && platform.p2mSegment.value.pfn == (domain.virtPgtabEnd - info.virtBase) / 4096
        && platform.p2mSegment.value.vstart == info.virtP2mBase
        && platform.xenstoreSegment.value.pfn == si + 1 && si + 2 < pt.pfn < |p2m|
        && domain.storeMfn == p2m[si + 1] && domain.consoleMfn == p2m[si + 2]
        && platform.p2mSegment.value.pfn + platform.p2mSegment.value.pages == domain.pfnAllocEnd
        && pt.vstart == info.virtBase + pt.pfn * 4096
        && bs == pt.pfn + platform.table.mappings[0].area.pgtables
        && bs < (domain.virtPgtabEnd - info.virtBase) / 4096
        && KernelPlaced(info, kernel, si)
        && HoldsImage(mem0, p2m, kernel.pfn, info.virtKend - info.virtKstart, headers, info.start)
        && KeptBelow(mem0, domain.phys.call.mem, p2m, info, si))
    && (initrd.None? ==> domain.initrdSegment == None)
    && (initrd.Some? ==>
          && domain.initrdSegment.Some?
          && var seg := domain.initrdSegment.value;
          && kernel.pfn + kernel.pages <= seg.pfn && seg.pfn + seg.pages <= platform.startInfoSegment.value.pfn
          && seg.vstart == domain.imageInfo.virtBase + seg.pfn * 4096
          && seg.size == |initrd.value| <= seg.pages * 4096
          && HoldsBytes(mem0, domain.phys.p2m, seg.pfn, initrd.value))
  }

  /** Such memory is a ready guest. */
  lemma GuestFound(platform: X86PvPlatform, domain: BootDomain, kernel: DomainSegment, headers: seq<ProgramHeader>,
                   initrd: Option<seq<Byte>>, mem0: Memory, sharedInfoFrame: nat, vcpu: VcpuContext)
    requires Prepared(platform, domain, kernel, headers, initrd, mem0, sharedInfoFrame)
    requires var virtBase, p2m := domain.imageInfo.virtBase, domain.phys.p2m;
             vcpu == VcpuContext(domain.imageInfo.virtEntry,
                                 virtBase + (platform.bootStackSegment.value.pfn + 1) * 4096,
                                 virtBase + platform.startInfoSegment.value.pfn * 4096,
                                 p2m[platform.pageTableSegment.value.pfn] * 4096)
    ensures GuestReady(domain.phys.call.mem, domain.phys.p2m, platform.table, domain.imageInfo, vcpu,
                       platform.startInfoSegment.value.pfn, platform.bootStackSegment.value.pfn, headers)
    ensures RamdiskReady(domain.phys.call.mem, vcpu.cr3 / 4096, vcpu.rsi,
                         if domain.initrdSegment.Some? then domain.initrdSegment.value.vstart else 0, initrd)
    ensures ReadsStartInfo(domain.phys.call.mem, vcpu.cr3 / 4096, vcpu.rsi,
                           platform.StartInfoOf(domain, sharedInfoFrame))
  {
    hide Layout, PlannedTables, OrdinaryAddresses, Complete, GuestReady, KeptBelow, StartInfoAt, HoldsImage,
         HoldsBytes, ShowsImage, P2mStored, GuestWord, GuestByte;
    var mem, info, p2m, t := domain.phys.call.mem, domain.imageInfo, domain.phys.p2m, platform.table;
    var si, pt, bs := platform.startInfoSegment.value.pfn, platform.pageTableSegment.value.pfn,
        platform.bootStackSegment.value.pfn;
    var start := platform.StartInfoOf(domain, sharedInfoFrame);
    ImageShown(mem0, mem, p2m, info, kernel, si, headers);
    ReadyGuest(mem, p2m, t, info, domain.virtPgtabEnd, pt, kernel, si, bs, headers, start, vcpu);
    HypercallPage(info, kernel, si);
    var pfn := 0;
    if initrd.Some? {
      pfn := domain.initrdSegment.value.pfn;
      BytesShown(mem0, mem, p2m, info, pfn, initrd.value, si);
    }
    RamdiskVisible(mem, p2m, t, info, domain.virtPgtabEnd, pt, si, start, pfn, initrd);
    StartInfoVisible(mem, p2m, t, info, domain.virtPgtabEnd, pt, si, start);
    PlannedIsLayout(t, info, domain.virtPgtabEnd, pt, |p2m|);
    RootFrame(t, p2m);
  }

  /** The steps up to the shared information: fill memory, hand the tables over, set up the shared page. */
  method FillAndPin(platform: X86PvPlatform, domain: BootDomain, sharedInfoFrame: nat) returns (r: Result<()>)
    requires domain.Valid() && platform.Arranged(domain) && domain.phys.leaked == {}
    requires !P2mFirst(domain.imageInfo) && domain.imageInfo.virtBase % 4096 == 0
    requires OrdinaryAddresses(domain.imageInfo, domain.virtPgtabEnd, domain.totalPages)
    requires HypercallBelow(domain.imageInfo, platform.startInfoSegment.value.pfn)
    requires |domain.cmdline| <= CMDLINE_SIZE && sharedInfoFrame !in domain.phys.p2m
    modifies domain.phys`pages, domain.phys`leaked, domain.phys.call`hostMap, domain.phys.call`mem
    modifies domain.phys.call`failures
    modifies domain.phys.call`calls, domain.phys.call`failures
    ensures domain.phys.Covered() && LeaksOnly(r, old(domain.phys.leaked), domain.phys.leaked)
    ensures r.Ok? ==>
              && MemoryFilled(platform, domain, sharedInfoFrame, domain.phys.call.mem)
              && EventsMasked(domain.phys.call.mem, sharedInfoFrame)
              && platform.pageTableSegment.value.pfn < |domain.phys.p2m|
              && domain.phys.call.calls
                 == old(domain.phys.call.calls) + StubCalls(domain.imageInfo, domain.phys.p2m)
                    + [PinRoot(domain.phys.p2m[platform.pageTableSegment.value.pfn])]
              && KeptBelow(old(domain.phys.call.mem), domain.phys.call.mem, domain.phys.p2m, domain.imageInfo,
                           platform.startInfoSegment.value.pfn)
    ensures platform.table.mappings[1].levels[0].pgtables == 0 ==> r.Err?
    ensures r.Err? && platform.table.mappings[1].levels[0].pgtables > 0 ==> OutsideError(r.error)
    ensures Faulted(r, old(domain.phys.call.failures), domain.phys.call.failures)
  {
    hide RegionsOk, CoveredBy, Distinct, Frames, Owned, Layout, Filled, AllZero, P2mStored, WordAt, PlannedTables,
         OrdinaryAddresses, ByteAt, Unmapped, KeptBelow, StartInfoAt, HypercallBelow, KeptOutside, EventsMasked;
    ghost var mem0, p2m, si := domain.phys.call.mem, domain.phys.p2m, platform.startInfoSegment.value.pfn;
    var _ :- FillMemory(platform, domain, sharedInfoFrame);
    var _ :- platform.Bootlate(domain);
    ghost var mem := domain.phys.call.mem;
    var _ :- platform.SetupSharedInfo(domain, sharedInfoFrame);
    FrameApart(mem, domain.phys.call.mem, p2m, sharedInfoFrame);
    FilledStays(platform, domain, sharedInfoFrame, mem, domain.phys.call.mem);
    KeptBelowStill(mem0, mem, domain.phys.call.mem, p2m, domain.imageInfo, si);
    return Ok(());
  }

  /** Everything of the second phase but dropping the host mappings. */
  method PrepareGuest(platform: X86PvPlatform, domain: BootDomain, ghost kernel: DomainSegment,
                      ghost headers: seq<ProgramHeader>, ghost initrd: Option<seq<Byte>>)
    returns (r: Result<VcpuContext>)
    requires ReadyToBoot(platform, domain, kernel, headers, initrd)
    modifies domain.phys`pages, domain.phys`leaked, domain.phys.call`hostMap, domain.phys.call`mem
    modifies domain.phys.call`failures
    modifies domain.phys.call`calls, domain.phys.call`grants, domain.phys.call`failures
    ensures LeaksOnly(r, old(domain.phys.leaked), domain.phys.leaked)
    ensures Faulted(r, old(domain.phys.call.failures), domain.phys.call.failures)
    ensures r.Ok? ==> Runnable(platform, domain, headers, initrd, r.value)
    ensures domain.phys.Covered()
    ensures platform.table.mappings[1].levels[0].pgtables == 0 ==> r.Err?
    ensures r.Err? && platform.table.mappings[1].levels[0].pgtables > 0 ==> OutsideError(r.error)
  {
    hide RegionOk, Overlaps, Covers, Owned, Distinct, Frames, Layout, Filled, AllZero, P2mStored, WordAt,
         PlannedTables, OrdinaryAddresses, ImageByte, ByteAt, Unmapped, Complete, GuestReady, KernelPlaced, KeptBelow,
         StartInfoAt, HoldsImage, HoldsBytes, HypercallBelow, RamdiskReady, ReadsStartInfo, GrantSeeded, GrantOf,
         EventsMasked, GuestWord, TextRead, CoveredBy, RegionsOk, Lookup, PagesFor, P2mFirst;
    ghost var mem0, si := domain.phys.call.mem, platform.startInfoSegment.value.pfn;
    HypercallPage(domain.imageInfo, kernel, si);
    var frame :- domain.phys.call.SharedInfoFrame(domain.phys.p2m);
    var _ :- FillAndPin(platform, domain, frame);
    r := SetRegisters(platform, domain, kernel, headers, initrd, mem0, frame);
  }

  /** The second phase: fill, hand the tables over, set the registers and drop all host mappings. */
  method BootInternal(platform: X86PvPlatform, domain: BootDomain, ghost kernel: DomainSegment,
                      ghost headers: seq<ProgramHeader>, ghost initrd: Option<seq<Byte>>)
    returns (r: Result<VcpuContext>)
    requires ReadyToBoot(platform, domain, kernel, headers, initrd)
    modifies domain.phys`pages, domain.phys`leaked, domain.phys.call`hostMap, domain.phys.call`mem
    modifies domain.phys.call`failures
    modifies domain.phys.call`calls, domain.phys.call`grants, domain.phys.call`failures
    ensures LeaksOnly(r, old(domain.phys.leaked), domain.phys.leaked)
    ensures Faulted(r, old(domain.phys.call.failures), domain.phys.call.failures)
    ensures r.Ok? ==> Started(platform, domain, headers, initrd, r.value)
    ensures domain.phys.Covered()
    ensures platform.table.mappings[1].levels[0].pgtables == 0 ==> r.Err?
    ensures r.Err? && platform.table.mappings[1].levels[0].pgtables > 0 ==> OutsideError(r.error)
  {
    hide Runnable, ReadyToBoot, PhysicalPages.Covered, Dropped;
    ReadyUnleaked(platform, domain, kernel, headers, initrd);
    var vcpu :- PrepareGuest(platform, domain, kernel, headers, initrd);
    var _, _ :- domain.phys.UnmapAll();
    return Ok(vcpu);
  }

  lemma ReadyUnleaked(platform: X86PvPlatform, domain: BootDomain, kernel: DomainSegment,
                      headers: seq<ProgramHeader>, initrd: Option<seq<Byte>>)
    requires ReadyToBoot(platform, domain, kernel, headers, initrd)
    ensures domain.phys.leaked == {}
  {
  }

  /** The first CPU's registers and the first grants. */
  method SetRegisters(platform: X86PvPlatform, domain: BootDomain, ghost kernel: DomainSegment,
                      ghost headers: seq<ProgramHeader>, ghost initrd: Option<seq<Byte>>, ghost mem0: Memory,
                      ghost frame: nat)
    returns (r: Result<VcpuContext>)
    requires Prepared(platform, domain, kernel, headers, initrd, mem0, frame)
    requires Frames(domain.phys.p2m) && PortsApart(domain) && frame == domain.phys.call.sharedInfoFrame
    requires domain.phys.call.calls == FilledCalls(domain, domain.phys.p2m[platform.pageTableSegment.value.pfn])
    requires frame !in domain.phys.p2m && EventsMasked(domain.phys.call.mem, frame)
    modifies domain.phys.call`grants, domain.phys.call`calls, domain.phys.call`failures
    ensures r.Ok? ==> Runnable(platform, domain, headers, initrd, r.value)
    ensures r.Err? ==> OutsideError(r.error)
    ensures Faulted(r, old(domain.phys.call.failures), domain.phys.call.failures)
  {
    hide Prepared, Frames, EventsMasked, Runnable, FilledCalls, PortsApart, GrantOf;
    PreparedSegments(platform, domain, kernel, headers, initrd, mem0, frame);
    var vcpu :- platform.Vcpu(domain);
    var _ :- platform.GnttabSeed(domain);
    TwoMore(FilledCalls(domain, domain.phys.p2m[platform.pageTableSegment.value.pfn]), SetContext(vcpu), MapGrantTable);
    GuestRuns(platform, domain, kernel, headers, initrd, mem0, frame, vcpu);
    return Ok(vcpu);
  }

  lemma TwoMore<T>(s: seq<T>, a: T, b: T)
    ensures s + [a] + [b] == s + [a, b]
  {
  }

  lemma PreparedSegments(platform: X86PvPlatform, domain: BootDomain, kernel: DomainSegment,
                         headers: seq<ProgramHeader>, initrd: Option<seq<Byte>>, mem0: Memory, frame: nat)
    requires Prepared(platform, domain, kernel, headers, initrd, mem0, frame)
    ensures platform.startInfoSegment.Some? && platform.xenstoreSegment.Some? && platform.pageTableSegment.Some?
    ensures platform.bootStackSegment.Some? && platform.pageTableSegment.value.pfn < |domain.phys.p2m|
    ensures platform.xenstoreSegment.value.pfn < |domain.phys.p2m|
  {
  }

  /** With these registers, grants and calls, prepared memory is a guest that can run. */
  lemma GuestRuns(platform: X86PvPlatform, domain: BootDomain, kernel: DomainSegment, headers: seq<ProgramHeader>,
                  initrd: Option<seq<Byte>>, mem0: Memory, frame: nat, vcpu: VcpuContext)
    requires Prepared(platform, domain, kernel, headers, initrd, mem0, frame)
    requires Frames(domain.phys.p2m) && PortsApart(domain) && frame == domain.phys.call.sharedInfoFrame
    requires frame !in domain.phys.p2m && EventsMasked(domain.phys.call.mem, frame)
    requires var virtBase, p2m := domain.imageInfo.virtBase, domain.phys.p2m;
             vcpu == VcpuContext(domain.imageInfo.virtEntry,
                                 virtBase + (platform.bootStackSegment.value.pfn + 1) * 4096,
                                 virtBase + platform.startInfoSegment.value.pfn * 4096,
                                 p2m[platform.pageTableSegment.value.pfn] * 4096)
    requires domain.phys.call.calls == FilledCalls(domain, domain.phys.p2m[platform.pageTableSegment.value.pfn])
                                       + [SetContext(vcpu), MapGrantTable]
    requires var grants := domain.phys.call.grants;
             && 0 in grants && grants[0] == GrantOf(domain.consoleMfn)
             && 1 in grants && grants[1] == GrantOf(domain.phys.p2m[platform.xenstoreSegment.value.pfn])
    ensures Runnable(platform, domain, headers, initrd, vcpu)
  {
    hide Frames, MemoryFilled, PlannedTables, OrdinaryAddresses, GuestReady, KernelPlaced, KeptBelow, HoldsImage,
         HoldsBytes, RamdiskReady, ReadsStartInfo, GrantSeeded, GrantOf, EventsMasked, GuestWord, FilledCalls,
         LearnsDomain, P2mFirst, StubsAt;
    GuestFound(platform, domain, kernel, headers, initrd, mem0, frame, vcpu);
    GrantsTold(platform, domain, frame, vcpu);
    DomainLearned(platform, domain, vcpu);
    StubsFound(platform, domain, kernel, headers, initrd, mem0, frame, vcpu.cr3 / 4096,
               [SetContext(vcpu), MapGrantTable]);
  }

  lemma StubsFound(platform: X86PvPlatform, domain: BootDomain, kernel: DomainSegment, headers: seq<ProgramHeader>,
                   initrd: Option<seq<Byte>>, mem0: Memory, frame: nat, root: nat, more: seq<ControlCall>)
    requires Prepared(platform, domain, kernel, headers, initrd, mem0, frame)
    requires root == domain.phys.p2m[platform.pageTableSegment.value.pfn]
    requires domain.phys.call.calls == FilledCalls(domain, root) + more
    ensures StubsAt(domain.phys.call.mem, root, domain.imageInfo.virtHypercall, domain.phys.call.calls)
  {
    hide Complete, PlannedTables, OrdinaryAddresses, KernelPlaced, KeptBelow, HoldsImage, HoldsBytes, StubsAt,
         StubCalls, P2mStored, StartInfoAt;
    var info, p2m, t, pt := domain.imageInfo, domain.phys.p2m, platform.table, platform.pageTableSegment.value.pfn;
    PlannedIsLayout(t, info, domain.virtPgtabEnd, pt, |p2m|);
    RootFrame(t, p2m);
    StubsReached(domain.phys.call.mem, p2m, t, info, domain.virtPgtabEnd, pt, platform.startInfoSegment.value.pfn,
                 kernel, domain.phys.call.calls);
  }

  lemma StubsReached(mem: Memory, p2m: seq<nat>, t: PageTable, info: BootImageInfo, end: nat, tables: nat, si: nat,
                     kernel: DomainSegment, calls: seq<ControlCall>)
    requires Complete(mem, p2m, t) && KernelPlaced(info, kernel, si) && si < (end - info.virtBase) / 4096
    requires PlannedTables(t, info, end, tables, |p2m|) && OrdinaryAddresses(info, end, |p2m|)
    requires forall c :: c in StubCalls(info, p2m) ==> c in calls
    ensures StubsAt(mem, Root(t, p2m), info.virtHypercall, calls)
  {
    hide Complete, PlannedTables, OrdinaryAddresses, Root, Translate, InTableInterval;
    if info.virtHypercall != U64 - 1 {
      var x := info.virtHypercall - info.virtBase;
      FirstAreaFrame(mem, p2m, t, info, end, tables, x / 4096, x % 4096);
      assert InitHypercalls(p2m[x / 4096]) in StubCalls(info, p2m);
    }
  }

  lemma DomainLearned(platform: X86PvPlatform, domain: BootDomain, vcpu: VcpuContext)
    requires platform.xenstoreSegment.Some? && platform.pageTableSegment.Some? && platform.p2mSegment.Some?
    requires platform.xenstoreSegment.value.pfn < |domain.phys.p2m|
    requires domain.storeMfn == domain.phys.p2m[platform.xenstoreSegment.value.pfn]
    requires ReadsStartInfo(domain.phys.call.mem, vcpu.cr3 / 4096, vcpu.rsi,
                            platform.StartInfoOf(domain, domain.phys.call.sharedInfoFrame))
    requires platform.startInfoSegment.Some?
             && MemoryFilled(platform, domain, domain.phys.call.sharedInfoFrame, domain.phys.call.mem)
    requires platform.p2mSegment.value.pfn + platform.p2mSegment.value.pages == domain.pfnAllocEnd
    ensures LearnsDomain(platform, domain, vcpu)
  {
    hide GuestWord, TextRead, P2mStored;
  }

  /** The first two grants are for the frames that the guest reads in its start info. */
  lemma GrantsTold(platform: X86PvPlatform, domain: BootDomain, frame: nat, vcpu: VcpuContext)
    requires platform.xenstoreSegment.Some? && platform.pageTableSegment.Some? && platform.p2mSegment.Some?
    requires platform.xenstoreSegment.value.pfn < |domain.phys.p2m| && Frames(domain.phys.p2m)
    requires domain.consoleMfn in domain.phys.p2m
    requires ReadsStartInfo(domain.phys.call.mem, vcpu.cr3 / 4096, vcpu.rsi, platform.StartInfoOf(domain, frame))
    requires var grants := domain.phys.call.grants;
             && 0 in grants && grants[0] == GrantOf(domain.consoleMfn)
             && 1 in grants && grants[1] == GrantOf(domain.phys.p2m[platform.xenstoreSegment.value.pfn])
    ensures GrantSeeded(domain.phys.call.grants, 0,
                        GuestWord(domain.phys.call.mem, vcpu.cr3 / 4096, vcpu.rsi + 72))
    ensures GrantSeeded(domain.phys.call.grants, 1,
                        GuestWord(domain.phys.call.mem, vcpu.cr3 / 4096, vcpu.rsi + 56))
  {
    hide GuestWord, TextRead, GrantSeeded, GrantOf;
    GrantNames(domain.phys.call.grants, 0, domain.consoleMfn);
    GrantNames(domain.phys.call.grants, 1, domain.phys.p2m[platform.xenstoreSegment.value.pfn]);
  }

  lemma KeptBelowStill(mem0: Memory, mem: Memory, mem': Memory, p2m: seq<nat>, info: BootImageInfo, before: nat)
    requires KeptBelow(mem0, mem, p2m, info, before) && KeptOutside(mem, mem', p2m, 0, 0)
    ensures KeptBelow(mem0, mem', p2m, info, before)
  {
  }

  /** Bytes of the area that are taken before the tables. */
  function UsedBytes(info: BootImageInfo, initrd: Option<seq<Byte>>): nat
    requires info.virtBase <= info.virtKstart <= info.virtKend
  {
    info.virtKstart - info.virtBase + PagesBeforeTables(info, initrd) * 4096
  }

  /** A condition on the inputs alone: the area needed for the kernel, the ramdisk and their tables ends before
      the next 2^48 boundary, the p2m list lies below virt_base and crosses no such boundary, and the named
      addresses are in place. A list at 2^48 or above is compared unmasked by the builder, and so has to be clear
      of the area in its low 48 bits. */
  predicate OrdinaryInputs(info: BootImageInfo, totalPages: nat, initrd: Option<seq<Byte>>)
    requires info.virtKstart <= info.virtKend
  {
    && info.virtBase % 4096 == 0 && !P2mFirst(info)
    && info.virtP2mBase / VIRT_LIMIT == (info.virtP2mBase + PagesFor(8 * totalPages) * 4096 - 1) / VIRT_LIMIT
    && 0 < info.virtKstart
    && (info.virtBase <= info.virtKstart ==>
          && AreaFits(info.virtBase, UsedBytes(info, initrd))
          && (info.virtP2mBase >= VIRT_LIMIT ==> ListClear(info, totalPages, UsedBytes(info, initrd))))
    && (info.virtHypercall == U64 - 1 || info.virtKstart <= info.virtHypercall < info.virtKend)
  }

  /** An area that keeps its bound meets the condition on the chosen end. */
  lemma OrdinaryEnd(info: BootImageInfo, totalPages: nat, initrd: Option<seq<Byte>>, end: nat)
    requires info.virtBase <= info.virtKstart <= info.virtKend && OrdinaryInputs(info, totalPages, initrd)
    requires end > info.virtBase
    requires EndBounded(info.virtBase, info.virtKstart + PagesBeforeTables(info, initrd) * 4096, end)
    requires totalPages > 0
    ensures OrdinaryAddresses(info, end, totalPages)
  {
    hide PagesFor, PagesBeforeTables, AreaLimit;
    var q := info.virtBase / VIRT_LIMIT;
    assert info.virtBase == q * VIRT_LIMIT + info.virtBase % VIRT_LIMIT;
    DivUnique(end - 1, q, VIRT_LIMIT);
    LowAddress(info.virtBase, end, 0);
    EnoughPages(8 * totalPages);
    LowAddress(info.virtP2mBase, info.virtP2mBase + PagesFor(8 * totalPages) * 4096, 0);
  }

  const CLOSE_RAMDISK: nat := 6 * 4096

  /** An input for which no guest can be created, although it meets every condition: the image of
      `CloseImageHasNoLeafTable` with one page of kernel, a ramdisk of six pages, and any memory of 1024 pages. */
  lemma CloseImageIsOrdinary(ramdisk: seq<Byte>)
    requires |ramdisk| == CLOSE_RAMDISK
    ensures ImageOk(CLOSE_IMAGE, [ProgramHeader(true, 0, 4096, [])])
    ensures OrdinaryInputs(CLOSE_IMAGE, 1024, Some(ramdisk)) && StartTogether(CLOSE_IMAGE)
    ensures PagesBeforeTables(CLOSE_IMAGE, Some(ramdisk)) == 10
  {
    assert HeaderFits(ProgramHeader(true, 0, 4096, []), 0, 4096);
  }

  /** The addresses of a Linux kernel of 32 MiB. */
  const TYPICAL_IMAGE := BootImageInfo(0x100_0000, 0xffff_ffff_8000_0000, 0xffff_ffff_8100_0000, 0xffff_ffff_8300_0000,
                                       0xffff_ffff_8100_1000, 0x80_0000_0000, 0xffff_ffff_8100_0000)

  /** An input that meets every condition: with 256 MiB only a failing call can stop its creation. */
  lemma TypicalImageStarts()
    ensures ImageOk(TYPICAL_IMAGE, [ProgramHeader(true, 0x100_0000, 0x200_0000, [])])
    ensures OrdinaryInputs(TYPICAL_IMAGE, 0x1_0000, None) && OrdinaryFits(TYPICAL_IMAGE, None, 0x1_0000)
    ensures !StartTogether(TYPICAL_IMAGE)
  {
    assert HeaderFits(ProgramHeader(true, 0x100_0000, 0x200_0000, []), 0x100_0000, 0x200_0000);
  }

  /** An input whose p2m list comes first and that has no other reason to fail: with 1024 pages and without a ramdisk
      only the hypervisor and the mapping driver can stop the first phase, which then leaves a frame for cr3 that is
      not the root's. */
  lemma ListFirstIsAccepted(t: PageTable)
    requires t.mappingsCount == 0
    ensures ImageOk(LIST_FIRST_IMAGE, [ProgramHeader(true, 0, 4096, [])])
    ensures ListFirstPhaseFits(t, LIST_FIRST_IMAGE, None, 1024)
  {
    hide ListFirstFits;
    assert HeaderFits(ProgramHeader(true, 0, 4096, []), 0, 4096);
    ListFirstPlan(t);
  }

  /** However an operation ends, the host mappings that are left are accounted for; unless unmapping failed, they
      are those of mapping calls that failed, and there are none if no mapping call failed. */
  ghost predicate CleanedUp<T>(phys: PhysicalPages, r: Result<T>)
    reads phys, phys.call
  {
    && phys.Covered()
    && ((r.Err? && r.error == UnmapFailed)
        || (phys.call.hostMap.Keys <= phys.leaked && LeaksOnly(r, {}, phys.leaked)))
  }

  /** The first phase; when it fails, the regions it made are dropped. */
  method Initialize(platform: X86PvPlatform, domain: BootDomain, headers: seq<ProgramHeader>, initrd: Option<seq<Byte>>)
    returns (r: Result<DomainSegment>)
    requires Untouched(platform, domain) && ImageOk(domain.imageInfo, headers)
    modifies platform, domain, domain.phys`p2m, domain.phys`pages, domain.phys`leaked
    modifies domain.phys.call`physmap, domain.phys.call`mem, domain.phys.call`hostMap, domain.phys.call`calls
    modifies domain.phys.call`failures
    ensures r.Ok? ==> domain.Valid() && domain.phys.leaked == {}
    ensures r.Ok? ==>
              && platform.TablesTaken(domain)
              && (RegisterIsRoot(platform, domain) <==>
                    var info := domain.imageInfo; info.virtP2mBase < info.virtBase && info.virtP2mBase % 4096 == 0)
    ensures r.Ok? ==> PortsApart(domain) && domain.phys.call.calls == FirstCalls(domain)
    ensures r.Ok? && !P2mFirst(domain.imageInfo) && domain.imageInfo.virtBase % 4096 == 0 ==>
              Initialized(platform, domain, headers, initrd, r.value)
    ensures r.Err? && old(ListFirstPhaseFits(platform.table, domain.imageInfo, initrd, domain.totalPages)) ==>
              HostError(r.error) || r.error == UnmapFailed
    ensures r.Err? && OrdinaryFits(domain.imageInfo, initrd, domain.totalPages) ==> OutsideError(r.error)
    ensures r.Err? ==> CleanedUp(domain.phys, r)
    ensures Faulted(r, old(domain.phys.call.failures), domain.phys.call.failures)
  {
    var result := InitializeInternal(platform, domain, headers, initrd);
    if result.Err? {
      var _, _ :- domain.phys.UnmapAll();
    }
    return result;
  }

  /** The second phase; whatever its outcome, the regions are dropped. */
  method BootGuest(platform: X86PvPlatform, domain: BootDomain, ghost kernel: DomainSegment,
                   ghost headers: seq<ProgramHeader>, ghost initrd: Option<seq<Byte>>)
    returns (r: Result<VcpuContext>)
    requires ReadyToBoot(platform, domain, kernel, headers, initrd)
    modifies domain.phys`pages, domain.phys`leaked, domain.phys.call`hostMap, domain.phys.call`mem
    modifies domain.phys.call`failures
    modifies domain.phys.call`calls, domain.phys.call`grants, domain.phys.call`failures
    ensures r.Ok? ==> Started(platform, domain, headers, initrd, r.value)
    ensures CleanedUp(domain.phys, r)
    ensures platform.table.mappings[1].levels[0].pgtables == 0 ==> r.Err?
    ensures r.Err? && platform.table.mappings[1].levels[0].pgtables > 0 ==> OutsideError(r.error)
    ensures Faulted(r, old(domain.phys.call.failures), domain.phys.call.failures)
  {
    hide Runnable, ReadyToBoot, CoveredBy, RegionsOk;
    ReadyUnleaked(platform, domain, kernel, headers, initrd);
    var result := BootInternal(platform, domain, kernel, headers, initrd);
    var _, _ :- domain.phys.UnmapAll();
    return result;
  }

  /** Both phases from a fresh domain: whenever they succeed, the guest is ready. They fail for every image whose
      p2m list begins in the 2 MiB region in which its mapped area begins. However they end, a page of the guest
      stays mapped in the host only where mapping or unmapping failed. */
  method CreateGuest(platform: X86PvPlatform, domain: BootDomain, headers: seq<ProgramHeader>,
                     initrd: Option<seq<Byte>>)
    returns (r: Result<VcpuContext>)
    requires Untouched(platform, domain) && ImageOk(domain.imageInfo, headers)
    requires OrdinaryInputs(domain.imageInfo, domain.totalPages, initrd)
    modifies platform, domain, domain.phys`p2m, domain.phys`pages, domain.phys`leaked
    modifies domain.phys.call`physmap, domain.phys.call`mem, domain.phys.call`hostMap, domain.phys.call`calls
    modifies domain.phys.call`failures
    modifies domain.phys.call`grants
    ensures r.Ok? ==> Started(platform, domain, headers, initrd, r.value)
    ensures StartTogether(domain.imageInfo) ==> r.Err?
    ensures CleanedUp(domain.phys, r)
    ensures Faulted(r, old(domain.phys.call.failures), domain.phys.call.failures)
    // if no call to the hypervisor or the driver fails, creation succeeds
    ensures OrdinaryFits(domain.imageInfo, initrd, domain.totalPages)
            && domain.phys.call.failures == old(domain.phys.call.failures) ==>
              (r.Ok? <==> !StartTogether(domain.imageInfo))
  {
    hide RegionsOk, CoveredBy, Owned, Distinct, Frames, AllZero, CountMapping, Shift, ImageByte, HoldsImage,
         HoldsBytes, GuestReady, RamdiskReady, InSpan, StartTogether,
         PhysicalPages.Valid, PhysicalPages.Covered, OrdinaryFits;
    var kernel :- Initialize(platform, domain, headers, initrd);
    OrdinaryEnd(domain.imageInfo, domain.totalPages, initrd, domain.virtPgtabEnd);
    NoLeafTable(platform.table, domain.imageInfo, domain.virtPgtabEnd, platform.pageTableSegment.value.pfn,
                domain.totalPages);
    r := BootGuest(platform, domain, kernel, headers, initrd);
  }
}
