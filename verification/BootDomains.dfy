/** The domain under construction: a bump allocator that advances a pfn cursor and a virtual cursor together. */
module BootDomains {
  import opened Bytes
  import opened Pages
  import opened Paging
  import opened PhysicalPageCache
  import opened Results
  import opened XenCalls

  datatype DomainSegment = DomainSegment(vstart: nat, vend: nat, pfn: nat, addr: nat, size: nat, pages: nat)

  datatype BootImageInfo = BootImageInfo(
    start: nat, virtBase: nat, virtKstart: nat, virtKend: nat, virtHypercall: nat, virtP2mBase: nat,
    virtEntry: nat)

  /** Pages needed for `size` bytes. */
  function PagesFor(size: nat): nat {
    (size + 4095) / 4096
  }

  ghost predicate Owned(mem: Memory, p2m: seq<nat>) {
    forall i :: 0 <= i < |p2m| ==> p2m[i] in mem
  }

  /** Outside the pfns [lo, hi) every page of the domain has kept its contents. */
  ghost predicate KeptOutside(before: Memory, after: Memory, p2m: seq<nat>, lo: nat, hi: nat) {
    && after.Keys == before.Keys
    && forall i :: 0 <= i < |p2m| && !(lo <= i < hi) ==>
         p2m[i] in before && p2m[i] in after && after[p2m[i]] == before[p2m[i]]
  }

  predicate ZeroAt(mem: Memory, p2m: seq<nat>, pfn: nat) {
    pfn < |p2m| && p2m[pfn] in mem && mem[p2m[pfn]] == ZeroPage()
  }

  ghost predicate AllZero(mem: Memory, p2m: seq<nat>, lo: nat, hi: nat) {
    forall i :: lo <= i < hi ==> ZeroAt(mem, p2m, i)
  }

  /** Changes confined to two ranges are confined to any range around them. */
  lemma KeptTwice(a: Memory, b: Memory, c: Memory, p2m: seq<nat>, lo: nat, hi: nat, lo': nat, hi': nat, l: nat, h: nat)
    requires KeptOutside(a, b, p2m, lo, hi) && KeptOutside(b, c, p2m, lo', hi')
    requires l <= lo && hi <= h && l <= lo' && hi' <= h
    ensures KeptOutside(a, c, p2m, l, h)
  {
    forall i | 0 <= i < |p2m| && !(l <= i < h)
      ensures p2m[i] in a && p2m[i] in c && c[p2m[i]] == a[p2m[i]]
    {
      assert p2m[i] in b && b[p2m[i]] == a[p2m[i]];
    }
  }

  lemma KeptWider(a: Memory, b: Memory, p2m: seq<nat>, lo: nat, hi: nat, l: nat, h: nat)
    requires KeptOutside(a, b, p2m, lo, hi) && l <= lo && hi <= h
    ensures KeptOutside(a, b, p2m, l, h)
  {
  }

  lemma ZeroKept(before: Memory, after: Memory, p2m: seq<nat>, lo: nat, hi: nat, lo': nat, hi': nat)
    requires AllZero(before, p2m, lo, hi) && KeptOutside(before, after, p2m, lo', hi')
    requires hi <= lo' || hi' <= lo
    ensures AllZero(after, p2m, lo, hi)
  {
    forall i | lo <= i < hi
      ensures ZeroAt(after, p2m, i)
    {
      assert ZeroAt(before, p2m, i) && p2m[i] in before && after[p2m[i]] == before[p2m[i]];
    }
  }

  lemma ZeroFilled(before: Memory, after: Memory, hostMap: map<nat, nat>, p2m: seq<nat>, addr: nat, pfn: nat, n: nat)
    requires Distinct(p2m) && Owned(before, p2m) && pfn + n <= |p2m|
    requires Backed(hostMap, p2m, addr, pfn, n)
    requires after.Keys == before.Keys
    requires forall h :: h in PageRange(addr / 4096, n) ==> hostMap[h] in after && after[hostMap[h]] == ZeroPage()
    requires forall f :: f in after && (forall h :: h in PageRange(addr / 4096, n) ==> hostMap[h] != f) ==>
               after[f] == before[f]
    ensures AllZero(after, p2m, pfn, pfn + n) && KeptOutside(before, after, p2m, pfn, pfn + n)
  {
    var base := addr / 4096;
    forall i | pfn <= i < pfn + n
      ensures ZeroAt(after, p2m, i)
    {
      assert base + (i - pfn) in PageRange(base, n);
      assert hostMap[base + (i - pfn)] == p2m[i];
    }
    forall i | 0 <= i < |p2m| && !(pfn <= i < pfn + n)
      ensures after[p2m[i]] == before[p2m[i]]
    {
      forall h | h in PageRange(base, n)
        ensures hostMap[h] != p2m[i]
      {
        assert hostMap[h] == p2m[pfn + (h - base)];
      }
    }
  }

  /** Word w of the domain's memory counted from the start of page `pfn`. */
  function WordAt(mem: Memory, p2m: seq<nat>, pfn: nat, w: nat): nat {
    if pfn + w / 512 < |p2m| && p2m[pfn + w / 512] in mem then ReadWord(mem[p2m[pfn + w / 512]], w % 512) else 0
  }

  lemma FlatStore(mem: Memory, mem': Memory, p2m: seq<nat>, pfn: nat, n: nat, w: nat, v: nat)
    requires Distinct(p2m) && Owned(mem, p2m) && pfn + n <= |p2m| && w < 512 * n && v < U64
    requires var f := p2m[pfn + w / 512];
             mem' == mem[f := WriteWord(mem[f], w % 512, v)]
    ensures KeptOutside(mem, mem', p2m, pfn, pfn + n) && Owned(mem', p2m)
    ensures forall x :: 0 <= x < 512 * n ==> WordAt(mem', p2m, pfn, x) == if x == w then v else WordAt(mem, p2m, pfn, x)
  {
    forall x | 0 <= x < 512 * n
      ensures WordAt(mem', p2m, pfn, x) == if x == w then v else WordAt(mem, p2m, pfn, x)
    {
      var i, j := pfn + x / 512, pfn + w / 512;
      assert i != j ==> p2m[i] != p2m[j];
    }
    forall i | 0 <= i < |p2m| && !(pfn <= i < pfn + n)
      ensures mem'[p2m[i]] == mem[p2m[i]]
    {
      var j := pfn + w / 512;
      assert p2m[i] != p2m[j];
    }
  }

  lemma FlatZero(mem: Memory, p2m: seq<nat>, pfn: nat, n: nat)
    requires AllZero(mem, p2m, pfn, pfn + n)
    ensures forall w :: 0 <= w < 512 * n ==> WordAt(mem, p2m, pfn, w) == 0
  {
    ZeroPageWords();
    forall w | 0 <= w < 512 * n
      ensures WordAt(mem, p2m, pfn, w) == 0
    {
      assert ZeroAt(mem, p2m, pfn + w / 512);
    }
  }

  /** Words of pages outside a changed range read as before. */
  lemma FlatKept(mem: Memory, mem': Memory, p2m: seq<nat>, lo: nat, hi: nat, pfn: nat, n: nat)
    requires KeptOutside(mem, mem', p2m, lo, hi) && (pfn + n <= lo || hi <= pfn)
    ensures forall w :: 0 <= w < 512 * n ==> WordAt(mem', p2m, pfn, w) == WordAt(mem, p2m, pfn, w)
  {
    forall w | 0 <= w < 512 * n
      ensures WordAt(mem', p2m, pfn, w) == WordAt(mem, p2m, pfn, w)
    {
      var i := pfn + w / 512;
      if i < |p2m| {
        assert p2m[i] in mem && mem'[p2m[i]] == mem[p2m[i]];
      }
    }
  }

  /** Byte k of the domain's memory counted from the start of page `pfn`. */
  function ByteAt(mem: Memory, p2m: seq<nat>, pfn: nat, k: nat): Byte {
    if pfn + k / 4096 < |p2m| && p2m[pfn + k / 4096] in mem then mem[p2m[pfn + k / 4096]][k % 4096] else 0
  }

  lemma FlatByteStore(mem: Memory, mem': Memory, p2m: seq<nat>, pfn: nat, n: nat, k: nat, b: Byte)
    requires Distinct(p2m) && Owned(mem, p2m) && pfn + n <= |p2m| && k < 4096 * n
    requires var f := p2m[pfn + k / 4096];
             mem' == mem[f := mem[f][k % 4096 := b]]
    ensures KeptOutside(mem, mem', p2m, pfn, pfn + n) && Owned(mem', p2m)
    ensures forall x :: 0 <= x < 4096 * n ==>
              ByteAt(mem', p2m, pfn, x) == if x == k then b else ByteAt(mem, p2m, pfn, x)
  {
    forall x | 0 <= x < 4096 * n
      ensures ByteAt(mem', p2m, pfn, x) == if x == k then b else ByteAt(mem, p2m, pfn, x)
    {
      var i, j := pfn + x / 4096, pfn + k / 4096;
      assert i != j ==> p2m[i] != p2m[j];
    }
    forall i | 0 <= i < |p2m| && !(pfn <= i < pfn + n)
      ensures mem'[p2m[i]] == mem[p2m[i]]
    {
      var j := pfn + k / 4096;
      assert p2m[i] != p2m[j];
    }
  }

  lemma WordKeepsBytes(mem: Memory, mem': Memory, p2m: seq<nat>, pfn: nat, n: nat, w: nat, v: nat)
    requires Distinct(p2m) && Owned(mem, p2m) && pfn + n <= |p2m| && w < 512 * n && v < U64
    requires var f := p2m[pfn + w / 512];
             mem' == mem[f := WriteWord(mem[f], w % 512, v)]
    ensures forall k :: 0 <= k < 4096 * n && k / 8 != w ==> ByteAt(mem', p2m, pfn, k) == ByteAt(mem, p2m, pfn, k)
  {
    hide WriteWord;
    forall k | 0 <= k < 4096 * n && k / 8 != w
      ensures ByteAt(mem', p2m, pfn, k) == ByteAt(mem, p2m, pfn, k)
    {
      var i, j := pfn + k / 4096, pfn + w / 512;
      if i == j {
        OtherBytes(mem[p2m[j]], w % 512, v);
        assert k % 4096 / 8 != w % 512;
      } else {
        assert p2m[i] != p2m[j];
      }
    }
  }

  lemma ByteKeepsWords(mem: Memory, mem': Memory, p2m: seq<nat>, pfn: nat, n: nat, k: nat, b: Byte)
    requires Distinct(p2m) && Owned(mem, p2m) && pfn + n <= |p2m| && k < 4096 * n
    requires var f := p2m[pfn + k / 4096];
             mem' == mem[f := mem[f][k % 4096 := b]]
    ensures forall w :: 0 <= w < 512 * n && w != k / 8 ==> WordAt(mem', p2m, pfn, w) == WordAt(mem, p2m, pfn, w)
  {
    hide ReadWord;
    forall w | 0 <= w < 512 * n && w != k / 8
      ensures WordAt(mem', p2m, pfn, w) == WordAt(mem, p2m, pfn, w)
    {
      var i, j := pfn + w / 512, pfn + k / 4096;
      if i == j {
        OtherWords(mem[p2m[j]], k % 4096, b);
        assert w % 512 != k % 4096 / 8;
      } else {
        assert p2m[i] != p2m[j];
      }
    }
  }

  lemma ZeroBytes(mem: Memory, p2m: seq<nat>, pfn: nat, n: nat)
    requires AllZero(mem, p2m, pfn, pfn + n)
    ensures forall k :: 0 <= k < 4096 * n ==> ByteAt(mem, p2m, pfn, k) == 0
  {
    forall k | 0 <= k < 4096 * n
      ensures ByteAt(mem, p2m, pfn, k) == 0
    {
      assert ZeroAt(mem, p2m, pfn + k / 4096);
    }
  }

  class BootDomain {
    var virtAllocEnd: nat
    var pfnAllocEnd: nat
    var virtPgtabEnd: nat
    var storeMfn: nat
    var consoleMfn: nat
    var initrdSegment: Option<DomainSegment>
    var storeEvtchn: nat
    var consoleEvtchn: nat
    const totalPages: nat
    const cmdline: string
    const imageInfo: BootImageInfo
    const phys: PhysicalPages

    /** The two cursors agree, and every pfn mapped so far lies below them. */
    ghost predicate Valid()
      reads this, phys, phys.call`mem, phys.call`physmap, phys.call`hostMap
    {
      && phys.Valid()
      && |phys.p2m| == totalPages && Distinct(phys.p2m) && Frames(phys.p2m) && Owned(phys.call.mem, phys.p2m)
      && virtAllocEnd == imageInfo.virtBase + pfnAllocEnd * 4096
      && pfnAllocEnd <= totalPages
      && forall j :: 0 <= j < |phys.pages| ==> phys.pages[j].pfn + phys.pages[j].count <= pfnAllocEnd
    }

    constructor (totalPages: nat, imageInfo: BootImageInfo, cmdline: string, phys: PhysicalPages)
      ensures this.cmdline == cmdline && this.totalPages == totalPages && this.imageInfo == imageInfo
              && this.phys == phys
      ensures virtAllocEnd == 0 && pfnAllocEnd == 0 && virtPgtabEnd == 0 && initrdSegment == None
      ensures storeMfn == 0 && consoleMfn == 0 && storeEvtchn == 0 && consoleEvtchn == 0
    {
      this.totalPages, this.imageInfo, this.cmdline, this.phys := totalPages, imageInfo, cmdline, phys;
      virtAllocEnd, pfnAllocEnd, virtPgtabEnd := 0, 0, 0;
      storeMfn, consoleMfn, storeEvtchn, consoleEvtchn, initrdSegment := 0, 0, 0, 0, None;
    }

    method ChkAllocPages(pages: nat) returns (r: Result<()>)
      requires Valid()
      modifies this`virtAllocEnd, this`pfnAllocEnd
      ensures Valid()
      ensures r.Ok? <==> old(pfnAllocEnd) + pages <= totalPages
      ensures pfnAllocEnd == old(pfnAllocEnd) + (if r.Ok? then pages else 0)
      ensures r.Err? ==> r.error.MemorySetupFailed?
    {
      if pages > totalPages || pfnAllocEnd > totalPages || pages > totalPages - pfnAllocEnd {
        return Err(MemorySetupFailed("no more pages left"));
      }
      pfnAllocEnd := pfnAllocEnd + pages;
      virtAllocEnd := virtAllocEnd + pages * 4096;
      return Ok(());
    }

    method AllocPaddingPages(boundary: nat) returns (r: Result<()>)
      requires Valid()
      modifies this`virtAllocEnd, this`pfnAllocEnd
      ensures Valid() && pfnAllocEnd >= old(pfnAllocEnd)
      ensures r.Ok? <==> boundary % 4096 == 0 && boundary >= old(virtAllocEnd)
                         && old(pfnAllocEnd) + (boundary - old(virtAllocEnd)) / 4096 <= totalPages
      ensures r.Ok? ==> pfnAllocEnd == old(pfnAllocEnd) + (boundary - old(virtAllocEnd)) / 4096
      ensures r.Ok? && imageInfo.virtBase % 4096 == 0 ==> virtAllocEnd == boundary
      ensures r.Err? ==> r.error.MemorySetupFailed?
    {
      if boundary % 4096 != 0 {
        return Err(MemorySetupFailed("boundary is incorrect"));
      }
      if boundary < virtAllocEnd {
        return Err(MemorySetupFailed("boundary is below allocation end"));
      }
      var pages := (boundary - virtAllocEnd) / 4096;
      r := ChkAllocPages(pages);
    }

    method AllocPage() returns (r: Result<DomainSegment>)
      requires Valid()
      modifies this`virtAllocEnd, this`pfnAllocEnd
      ensures Valid()
      ensures r.Ok? <==> old(pfnAllocEnd) < totalPages
      ensures r.Ok? ==>
                && pfnAllocEnd == old(pfnAllocEnd) + 1
                && r.value.pfn == old(pfnAllocEnd) && r.value.pages == 1
                && r.value.vstart == imageInfo.virtBase + r.value.pfn * 4096 && r.value.vend == r.value.vstart + 4095
                && r.value.addr == 0 && r.value.size == 0
      ensures r.Err? ==> pfnAllocEnd == old(pfnAllocEnd)
      ensures r.Err? ==> r.error.MemorySetupFailed?
    {
      var start, pfn := virtAllocEnd, pfnAllocEnd;
      var _ :- ChkAllocPages(1);
      return Ok(DomainSegment(start, start + 4096 - 1, pfn, 0, 0, 1));
    }

    /** Take pages for `size` bytes (at virtual address `start` unless it is 0), map them and clear them. */
    method AllocSegment(start: nat, size: nat) returns (r: Result<DomainSegment>)
      requires Valid()
      modifies this`virtAllocEnd, this`pfnAllocEnd, phys`pages, phys`leaked, phys.call`mem, phys.call`hostMap
      modifies phys.call`failures
      ensures LeaksOnly(r, old(phys.leaked), phys.leaked)
      ensures Faulted(r, old(phys.call.failures), phys.call.failures)
      ensures Valid() && pfnAllocEnd >= old(pfnAllocEnd)
      ensures r.Ok? ==>
                var seg := r.value;
                && seg.pages == PagesFor(size) > 0 && seg.size == size
                && seg.pfn >= old(pfnAllocEnd) && pfnAllocEnd == seg.pfn + seg.pages
                && (start == 0 ==> seg.pfn == old(pfnAllocEnd))
                && (start > 0 && imageInfo.virtBase % 4096 == 0 ==> seg.vstart == start)
                && seg.vstart == imageInfo.virtBase + seg.pfn * 4096 && seg.vend == seg.vstart + seg.pages * 4096
                && phys.pages == old(phys.pages) + [PhysicalPage(seg.pfn, seg.addr, seg.pages)]
                && AllZero(phys.call.mem, phys.p2m, seg.pfn, seg.pfn + seg.pages)
                && KeptOutside(old(phys.call.mem), phys.call.mem, phys.p2m, seg.pfn, seg.pfn + seg.pages)
      ensures r.Err? ==> phys.pages == old(phys.pages) && phys.call.mem == old(phys.call.mem)
      ensures size > 0 && start == 0 && old(pfnAllocEnd) + PagesFor(size) <= totalPages ==>
                r.Ok? || MappingError(r.error)
      ensures size > 0 && start > 0 && start % 4096 == 0 && start >= old(virtAllocEnd)
              && old(pfnAllocEnd) + (start - old(virtAllocEnd)) / 4096 + PagesFor(size) <= totalPages ==>
                && (r.Ok? || MappingError(r.error))
                && (r.Ok? ==> r.value.pfn == old(pfnAllocEnd) + (start - old(virtAllocEnd)) / 4096)
    {
      if start > 0 {
        var _ :- AllocPaddingPages(start);
      }
      var pages := PagesFor(size);
      var segment := DomainSegment(virtAllocEnd, 0, pfnAllocEnd, 0, size, pages);
      var _ :- ChkAllocPages(pages);
      var ptr :- MapCleared(segment.pfn, pages);
      return Ok(segment.(addr := ptr, vend := virtAllocEnd));
    }

    /** Map fresh pfns in the host and clear them. */
    method MapCleared(pfn: nat, pages: nat) returns (r: Result<nat>)
      requires phys.Valid() && pfn + pages <= |phys.p2m|
      requires Distinct(phys.p2m) && Owned(phys.call.mem, phys.p2m)
      requires forall j :: 0 <= j < |phys.pages| ==> phys.pages[j].pfn + phys.pages[j].count <= pfn
      modifies phys`pages, phys`leaked, phys.call`mem, phys.call`hostMap, phys.call`failures
      ensures LeaksOnly(r, old(phys.leaked), phys.leaked)
      ensures Faulted(r, old(phys.call.failures), phys.call.failures)
      ensures phys.Valid() && Owned(phys.call.mem, phys.p2m)
      ensures r.Ok? ==>
                && pages > 0
                && phys.pages == old(phys.pages) + [PhysicalPage(pfn, r.value, pages)]
                && AllZero(phys.call.mem, phys.p2m, pfn, pfn + pages)
                && KeptOutside(old(phys.call.mem), phys.call.mem, phys.p2m, pfn, pfn + pages)
      ensures r.Err? ==> phys.pages == old(phys.pages) && phys.call.mem == old(phys.call.mem)
      ensures r.Err? && pages > 0 ==> MappingError(r.error)
    {
      hide RegionsOk, CoveredBy, Lookup;
      phys.Found(pfn, pages);
      var ptr :- phys.PfnToPtr(pfn, pages);
      ClearPages(ptr, pfn, pages);
      return Ok(ptr);
    }

    /** `fill(0)` of n pages at a host address that maps the pages from `pfn` on. */
    method ClearPages(addr: nat, pfn: nat, n: nat)
      requires phys.Valid() && pfn + n <= |phys.p2m| && |phys.p2m| > 0
      requires Distinct(phys.p2m) && Owned(phys.call.mem, phys.p2m)
      requires Backed(phys.call.hostMap, phys.p2m, addr, pfn, n)
      modifies phys.call`mem
      ensures phys.Valid() && Owned(phys.call.mem, phys.p2m)
      ensures AllZero(phys.call.mem, phys.p2m, pfn, pfn + n)
      ensures KeptOutside(old(phys.call.mem), phys.call.mem, phys.p2m, pfn, pfn + n)
    {
      hide RegionsOk, CoveredBy;
      BackedKeys(phys.call.hostMap, phys.p2m, addr, pfn, n);
      phys.call.FillZero(addr, n);
      ZeroFilled(old(phys.call.mem), phys.call.mem, phys.call.hostMap, phys.p2m, addr, pfn, n);
    }

    /** `slice[w] = v` for a slice of n pages at host address `addr`, which maps the pages from `pfn` on. */
    method StoreInSlice(addr: nat, ghost pfn: nat, ghost n: nat, w: nat, v: nat)
      requires Valid() && pfn + n <= totalPages && w < 512 * n && v < U64
      requires Backed(phys.call.hostMap, phys.p2m, addr, pfn, n)
      modifies phys.call`mem
      ensures Valid()
      ensures KeptOutside(old(phys.call.mem), phys.call.mem, phys.p2m, pfn, pfn + n)
      ensures forall x :: 0 <= x < 512 * n ==>
                WordAt(phys.call.mem, phys.p2m, pfn, x)
                == if x == w then v else WordAt(old(phys.call.mem), phys.p2m, pfn, x)
      ensures forall k :: 0 <= k < 4096 * n && k / 8 != w ==>
                ByteAt(phys.call.mem, phys.p2m, pfn, k) == ByteAt(old(phys.call.mem), phys.p2m, pfn, k)
    {
      hide RegionsOk, CoveredBy, KeptOutside, Owned, WordAt, ByteAt, Distinct, Frames;
      SliceAddress(addr, w);
      var host := addr / 4096 + w / 512;
      assert host in phys.call.hostMap && phys.call.hostMap[host] == phys.p2m[pfn + w / 512];
      ghost var mem := phys.call.mem;
      ghost var mem' := mem[phys.call.hostMap[host] := WriteWord(mem[phys.call.hostMap[host]], w % 512, v)];
      FlatStore(mem, mem', phys.p2m, pfn, n, w, v);
      WordKeepsBytes(mem, mem', phys.p2m, pfn, n, w, v);
      phys.call.StoreWord(addr + 8 * w, v);
    }

    method StoreByteInSlice(addr: nat, ghost pfn: nat, ghost n: nat, k: nat, b: Byte)
      requires Valid() && pfn + n <= totalPages && k < 4096 * n
      requires Backed(phys.call.hostMap, phys.p2m, addr, pfn, n)
      modifies phys.call`mem
      ensures Valid()
      ensures KeptOutside(old(phys.call.mem), phys.call.mem, phys.p2m, pfn, pfn + n)
      ensures forall x :: 0 <= x < 4096 * n ==>
                ByteAt(phys.call.mem, phys.p2m, pfn, x)
                == if x == k then b else ByteAt(old(phys.call.mem), phys.p2m, pfn, x)
      ensures forall w :: 0 <= w < 512 * n && w != k / 8 ==>
                WordAt(phys.call.mem, phys.p2m, pfn, w) == WordAt(old(phys.call.mem), phys.p2m, pfn, w)
    {
      hide RegionsOk, CoveredBy, KeptOutside, Owned, WordAt, ByteAt, Distinct, Frames;
      SliceByteAddress(addr, k);
      var host := addr / 4096 + k / 4096;
      assert host in phys.call.hostMap && phys.call.hostMap[host] == phys.p2m[pfn + k / 4096];
      ghost var mem := phys.call.mem;
      ghost var mem' := mem[phys.call.hostMap[host] := mem[phys.call.hostMap[host]][k % 4096 := b]];
      FlatByteStore(mem, mem', phys.p2m, pfn, n, k, b);
      ByteKeepsWords(mem, mem', phys.p2m, pfn, n, k, b);
      phys.call.StoreByte(addr + k, b);
    }

    /** `copy(&mut slice[off..], data)`. */
    method CopyToSlice(addr: nat, ghost pfn: nat, ghost n: nat, off: nat, data: seq<Byte>)
      requires Valid() && pfn + n <= totalPages && off + |data| <= 4096 * n
      requires Backed(phys.call.hostMap, phys.p2m, addr, pfn, n)
      modifies phys.call`mem
      ensures Valid()
      ensures KeptOutside(old(phys.call.mem), phys.call.mem, phys.p2m, pfn, pfn + n)
      ensures forall x :: 0 <= x < 4096 * n ==>
                ByteAt(phys.call.mem, phys.p2m, pfn, x)
                == if off <= x < off + |data| then data[x - off] else ByteAt(old(phys.call.mem), phys.p2m, pfn, x)
    {
      hide RegionsOk, CoveredBy, KeptOutside, Owned, ByteAt, Distinct, Frames, Backed;
      ghost var mem0 := phys.call.mem;
      KeptSelf(mem0, phys.p2m, pfn, pfn + n);
      var i := 0;
      while i < |data|
        invariant 0 <= i <= |data| && Valid()
        invariant KeptOutside(mem0, phys.call.mem, phys.p2m, pfn, pfn + n)
        invariant forall x :: 0 <= x < 4096 * n ==>
                    ByteAt(phys.call.mem, phys.p2m, pfn, x)
                    == if off <= x < off + i then data[x - off] else ByteAt(mem0, phys.p2m, pfn, x)
        modifies phys.call`mem
      {
        ghost var mem1 := phys.call.mem;
        StoreByteInSlice(addr, pfn, n, off + i, data[i]);
        KeptTwice(mem0, mem1, phys.call.mem, phys.p2m, pfn, pfn + n, pfn, pfn + n, pfn, pfn + n);
        i := i + 1;
      }
    }
  }

  lemma KeptSelf(mem: Memory, p2m: seq<nat>, lo: nat, hi: nat)
    requires Owned(mem, p2m)
    ensures KeptOutside(mem, mem, p2m, lo, hi)
  {
  }

  lemma SliceByteAddress(addr: nat, k: nat)
    requires addr % 4096 == 0
    ensures (addr + k) / 4096 == addr / 4096 + k / 4096 && (addr + k) % 4096 == k % 4096
  {
  }

  lemma SliceAddress(addr: nat, w: nat)
    requires addr % 4096 == 0
    ensures (addr + 8 * w) / 4096 == addr / 4096 + w / 512
    ensures (addr + 8 * w) % 4096 / 8 == w % 512 && (addr + 8 * w) % 8 == 0
  {
  }
}
