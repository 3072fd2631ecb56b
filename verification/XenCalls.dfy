/** The hypervisor and the privileged-command driver, reduced to what the boot builder relies on:
    guest frames, the frames given to a domain, and host pages that map guest frames. Outcomes the builder
    does not control are arbitrary values, accepted only when they meet the call's contract. */
module XenCalls {
  import opened Bytes
  import opened Pages
  import opened Paging
  import opened Results

  /** The pfn -> frame assignment of a domain never gives one frame twice. */
  predicate GoodPhysmap(physmap: map<nat, nat>, mem: Memory) {
    && (forall p :: p in physmap ==> physmap[p] in mem && physmap[p] < FRAME_LIMIT)
    && (forall p, q :: p in physmap && q in physmap && p != q ==> physmap[p] != physmap[q])
  }

  predicate InExtents(starts: seq<nat>, size: nat, p: nat) {
    exists i :: 0 <= i < |starts| && starts[i] <= p < starts[i] + size
  }

  /** Each extent of `size` pages at starts[i] received the frames from extents[i] on; nothing else changed. */
  predicate Populated(old': map<nat, nat>, new': map<nat, nat>, starts: seq<nat>, size: nat, extents: seq<nat>) {
    && |extents| == |starts|
    && (forall p :: p in new' ==> p in old' || InExtents(starts, size, p))
    && (forall p :: p in old' ==> p in new' && new'[p] == old'[p])
    && (forall i, p :: 0 <= i < |starts| && starts[i] <= p < starts[i] + size ==>
          p in new' && new'[p] == extents[i] + (p - starts[i]))
  }

  predicate Extends(mem: Memory, mem': Memory) {
    forall f :: f in mem ==> f in mem' && mem'[f] == mem[f]
  }

  /** Page numbers base .. base + n. */
  function PageRange(base: nat, n: nat): (r: set<nat>)
    ensures forall h :: h in r <==> base <= h < base + n
  {
    if n == 0 then {} else PageRange(base, n - 1) + {base + n - 1}
  }

  /** The host pages base, base + 1, ... map the given frames. */
  predicate MapsFrames(hostMap: map<nat, nat>, base: nat, frames: seq<nat>) {
    forall h :: base <= h < base + |frames| ==> h in hostMap && hostMap[h] == frames[h - base]
  }

  /** Some of the host pages base, base + 1, ... may newly map their frame; every other mapping is as before. */
  predicate PartlyMapped(hostMap: map<nat, nat>, hostMap': map<nat, nat>, base: nat, frames: seq<nat>) {
    && (forall h :: h in hostMap ==> h in hostMap' && hostMap'[h] == hostMap[h])
    && (forall h :: h in hostMap' ==>
          h in hostMap || (base <= h < base + |frames| && hostMap'[h] == frames[h - base]))
  }

  /** One entry of a grant table; `frame` has 32 bits. */
  datatype GrantEntry = GrantEntry(flags: nat, domid: nat, frame: nat)

  /** The registers the builder chooses for the first CPU. */
  datatype VcpuContext = VcpuContext(rip: nat, rsp: nat, rsi: nat, cr3: nat)

  /** The calls that change nothing in memory, with their arguments, or with the port that was returned. */
  datatype ControlCall =
    | SetAddressSize(bits: nat)
    | ClaimPages(pages: nat)
    | AllocUnbound(port: nat)
    | InitHypercalls(frame: nat)
    | PinRoot(frame: nat)
    | SetContext(context: VcpuContext)
    | MapGrantTable

  /** Mapping some pages of an unused range. */
  lemma SomeMapped(hostMap: map<nat, nat>, mapped: set<nat>, base: nat, frames: seq<nat>)
    requires PageRange(base, |frames|) !! hostMap.Keys && mapped <= PageRange(base, |frames|)
    ensures var hostMap' := hostMap + map h | h in mapped :: frames[h - base];
            && PartlyMapped(hostMap, hostMap', base, frames)
            && (mapped == PageRange(base, |frames|) ==> MapsFrames(hostMap', base, frames))
    ensures mapped == {} ==> PartlyMapped(hostMap, hostMap, base, frames)
  {
    assert forall h :: base <= h < base + |frames| ==> h in PageRange(base, |frames|);
  }

  class XenCall {
    var mem: Memory             // contents of guest frames
    var physmap: map<nat, nat>  // guest pfn -> frame the hypervisor populated it with
    var hostMap: map<nat, nat>  // host page number -> guest frame mapped there
    var failures: nat           // calls of any kind that failed
    var calls: seq<ControlCall> // the control calls that succeeded, in their order
    var grants: map<nat, GrantEntry>  // the domain's grant table
    const sharedInfoFrame: nat  // where the hypervisor shares its information about the domain

    ghost predicate Valid()
      reads this`mem, this`physmap, this`hostMap
    {
      (forall h :: h in hostMap ==> hostMap[h] in mem) && GoodPhysmap(physmap, mem)
    }

    /** Give the domain `size` frames for each of the pfns in `starts`; a pfn is populated once. */
    method PopulatePhysmap(starts: seq<nat>, size: nat) returns (r: Result<seq<nat>>)
      requires Valid()
      requires forall p :: p in physmap ==> !InExtents(starts, size, p)
      modifies this`physmap, this`mem, this`failures
      ensures Faulted(r, old(failures), failures)
      ensures Valid() && Extends(old(mem), mem)
      ensures r.Err? ==> physmap == old(physmap) && r.error == PopulatePhysmapFailed
      ensures r.Ok? ==> Populated(old(physmap), physmap, starts, size, r.value)
    {
      var extents: seq<nat>, physmap': map<nat, nat>, mem': Memory := *, *, *;
      if Populated(physmap, physmap', starts, size, extents) && Extends(mem, mem') && GoodPhysmap(physmap', mem') {
        physmap, mem := physmap', mem';
        return Ok(extents);
      }
      failures := failures + 1;
      return Err(PopulatePhysmapFailed);
    }

    /** Reserve an unused, page-aligned range of `pages` host pages. */
    method Mmap(pages: nat) returns (addr: Option<nat>)
      modifies this`failures
      ensures failures == old(failures) + if addr.Some? then 0 else 1
      ensures addr.Some? ==>
                addr.value % 4096 == 0 && PageRange(addr.value / 4096, pages) !! hostMap.Keys
    {
      var start: int := *;
      if start >= 0 && start % 4096 == 0 && PageRange(start / 4096, pages) !! hostMap.Keys {
        return Some(start);
      }
      failures := failures + 1;
      return None;
    }

    /** Map the frames at a reserved range. Only 0 means that all of them are mapped; with any other outcome an
        arbitrary part of the range may be. */
    method MmapBatch(addr: nat, frames: seq<nat>) returns (r: Result<nat>)
      requires Valid() && addr % 4096 == 0
      requires PageRange(addr / 4096, |frames|) !! hostMap.Keys
      modifies this`hostMap, this`failures
      ensures failures == old(failures) + if r == Ok(0) then 0 else 1
      ensures Valid() && PartlyMapped(old(hostMap), hostMap, addr / 4096, frames)
      ensures r == Ok(0) ==> MapsFrames(hostMap, addr / 4096, frames)
      ensures r.Err? ==> r.error == MmapBatchFailed
    {
      hide GoodPhysmap;
      var base := addr / 4096;
      var mapped: set<nat>, code: nat := *, *;
      hide PartlyMapped, MapsFrames, PageRange;
      SomeMapped(hostMap, {}, base, frames);
      if mapped <= PageRange(base, |frames|) && forall h :: h in mapped ==> frames[h - base] in mem {
        SomeMapped(hostMap, mapped, base, frames);
        hostMap := hostMap + map h | h in mapped :: frames[h - base];
      } else {
        mapped := {};
      }
      if code == 0 && mapped != PageRange(base, |frames|) {
        failures := failures + 1;
        return Err(MmapBatchFailed);
      }
      failures := failures + if code == 0 then 0 else 1;
      return Ok(code);
    }

    method Munmap(addr: nat, pages: nat) returns (ok: bool)
      requires Valid()
      modifies this`hostMap, this`failures
      ensures failures == old(failures) + if ok then 0 else 1
      ensures Valid()
      ensures ok ==> hostMap == old(hostMap) - PageRange(addr / 4096, pages)
      ensures !ok ==> hostMap == old(hostMap)
    {
      ok := *;
      if ok {
        hostMap := hostMap - PageRange(addr / 4096, pages);
      } else {
        failures := failures + 1;
      }
    }

    /** A store of one 64-bit word through a host mapping. */
    method StoreWord(addr: nat, v: nat)
      requires Valid() && addr % 8 == 0 && addr / 4096 in hostMap && v < U64
      modifies this`mem
      ensures Valid()
      ensures var f := hostMap[addr / 4096];
              mem == old(mem)[f := WriteWord(old(mem)[f], addr % 4096 / 8, v)]
    {
      var f := hostMap[addr / 4096];
      mem := mem[f := WriteWord(mem[f], addr % 4096 / 8, v)];
    }

    method StoreByte(addr: nat, b: Byte)
      requires Valid() && addr / 4096 in hostMap
      modifies this`mem
      ensures Valid()
      ensures var f := hostMap[addr / 4096];
              mem == old(mem)[f := old(mem)[f][addr % 4096 := b]]
    {
      var f := hostMap[addr / 4096];
      mem := mem[f := mem[f][addr % 4096 := b]];
    }

    /** A control call: it works or it does not. The hypervisor may refuse any of them, such as to pin a frame that
        holds no root table. */
    method Control(call: ControlCall) returns (r: Result<()>)
      modifies this`calls, this`failures
      ensures Faulted(r, old(failures), failures)
      ensures r.Ok? ==> calls == old(calls) + [call]
      ensures r.Err? ==> calls == old(calls) && r.error == HypercallFailed
    {
      var ok: bool := *;
      if ok {
        calls := calls + [call];
      } else {
        failures := failures + 1;
      }
      return if ok then Ok(()) else Err(HypercallFailed);
    }

    /** A store into the grant table through its mapping. */
    method StoreGrant(ref: nat, entry: GrantEntry)
      modifies this`grants
      ensures grants == old(grants)[ref := entry]
    {
      grants := grants[ref := entry];
    }

    /** Remove the mapping of the grant table. */
    method UnmapGrants() returns (r: Result<()>)
      modifies this`failures
      ensures Faulted(r, old(failures), failures)
      ensures r.Err? ==> r.error == UnmapFailed
    {
      var ok: bool := *;
      if !ok {
        failures := failures + 1;
        return Err(UnmapFailed);
      }
      return Ok(());
    }

    /** An unbound event channel: a 32-bit port number that has not been given out before. */
    method AllocPort() returns (r: Result<nat>)
      modifies this`calls, this`failures
      ensures Faulted(r, old(failures), failures)
      ensures r.Ok? ==>
                r.value < 0x1_0000_0000 && AllocUnbound(r.value) !in old(calls)
                && calls == old(calls) + [AllocUnbound(r.value)]
      ensures r.Err? ==> calls == old(calls) && r.error == HypercallFailed
    {
      var port: int := *;
      if port < 0 || port >= 0x1_0000_0000 || AllocUnbound(port) in calls {
        failures := failures + 1;
        return Err(HypercallFailed);
      }
      calls := calls + [AllocUnbound(port)];
      return Ok(port);
    }

    /** The frame in which the hypervisor shares its information about the domain: not one of the domain's own. */
    method SharedInfoFrame(own: seq<nat>) returns (r: Result<nat>)
      modifies this`failures
      ensures Faulted(r, old(failures), failures)
      ensures r.Ok? ==> r.value == sharedInfoFrame && r.value !in own
      ensures r.Err? ==> r.error == HypercallFailed
    {
      var ok: bool := *;
      if !ok || sharedInfoFrame in own {
        failures := failures + 1;
        return Err(HypercallFailed);
      }
      return Ok(sharedInfoFrame);
    }

    /** `fill(0)` of the first n bytes of a mapped page. */
    method ClearBytes(addr: nat, n: nat)
      requires Valid() && addr % 4096 == 0 && n <= 4096 && addr / 4096 in hostMap
      modifies this`mem
      ensures Valid()
      ensures var f := hostMap[addr / 4096];
              mem == old(mem)[f := ZeroPage()[..n] + old(mem)[f][n..]]
    {
      var f := hostMap[addr / 4096];
      mem := mem[f := ZeroPage()[..n] + mem[f][n..]];
    }

    /** The hypervisor writes its call stubs into one frame; nothing is known of their bytes. */
    method HypercallInit(frame: nat) returns (ok: bool)
      requires Valid() && frame in mem
      modifies this`mem, this`calls, this`failures
      ensures failures == old(failures) + if ok then 0 else 1
      ensures Valid() && mem.Keys == old(mem.Keys)
      ensures forall f :: f in mem && f != frame ==> mem[f] == old(mem)[f]
      ensures calls == if ok then old(calls) + [InitHypercalls(frame)] else old(calls)
      ensures !ok ==> mem == old(mem)
    {
      ok := *;
      var stubs: Page := *;
      if ok && |stubs| == 4096 {
        mem := mem[frame := stubs];
        calls := calls + [InitHypercalls(frame)];
      } else {
        ok := false;
        failures := failures + 1;
      }
    }

    /** `fill(0)` of `pages` mapped pages. */
    method FillZero(addr: nat, pages: nat)
      requires Valid() && addr % 4096 == 0
      requires PageRange(addr / 4096, pages) <= hostMap.Keys
      modifies this`mem
      ensures Valid() && mem.Keys == old(mem.Keys)
      ensures forall h :: h in PageRange(addr / 4096, pages) ==> mem[hostMap[h]] == ZeroPage()
      ensures forall f :: f in mem && (forall h :: h in PageRange(addr / 4096, pages) ==> hostMap[h] != f) ==>
                mem[f] == old(mem)[f]
    {
      hide PageRange;
      var base := addr / 4096;
      var i := 0;
      while i < pages
        invariant 0 <= i <= pages && Valid() && mem.Keys == old(mem.Keys)
        invariant forall h :: h in PageRange(base, i) ==> mem[hostMap[h]] == ZeroPage()
        invariant forall f :: f in mem && (forall h :: h in PageRange(base, i) ==> hostMap[h] != f) ==>
                    mem[f] == old(mem)[f]
      {
        assert base + i in PageRange(base, pages);
        mem := mem[hostMap[base + i] := ZeroPage()];
        i := i + 1;
      }
    }
  }
}
