/** Loading the kernel image: the span of its loadable segments, and the bytes each address receives. */
module ElfLoader {
  import opened Arithmetic
  import opened BootDomains
  import opened Bytes
  import opened Pages
  import opened Paging
  import opened PhysicalPageCache
  import opened Results

  const U64_MAX: nat := 0xffff_ffff_ffff_ffff

  /** A program header with the file bytes of its segment; `loadable` for PT_LOAD with some access flag. */
  datatype ProgramHeader = ProgramHeader(loadable: bool, paddr: nat, memsz: nat, data: seq<Byte>)

  /** A header the loader can copy into `size` bytes for the addresses from `start` on: it begins there and has at
      least as much memory as file bytes, and if it has more, all of it lies there. A copy of file bytes alone is
      cut off at the end. */
  predicate HeaderFits(h: ProgramHeader, start: nat, size: nat) {
    && start <= h.paddr <= start + size && |h.data| <= h.memsz
    && (|h.data| < h.memsz ==> h.paddr + h.memsz <= start + size)
  }

  /** Every header, loadable or not, can be copied. */
  predicate InSpan(headers: seq<ProgramHeader>, start: nat, size: nat) {
    forall i :: 0 <= i < |headers| ==> HeaderFits(headers[i], start, size)
  }

  /** The image's own numbers fit together. */
  predicate ImageOk(info: BootImageInfo, headers: seq<ProgramHeader>) {
    info.virtKstart <= info.virtKend && InSpan(headers, info.start, info.virtKend - info.virtKstart)
  }

  /** There are segments, all loadable, and none has more file bytes than memory. */
  predicate AllLoadable(headers: seq<ProgramHeader>) {
    |headers| > 0 && forall i :: 0 <= i < |headers| ==> headers[i].loadable && |headers[i].data| <= headers[i].memsz
  }

  /** The smallest start and the largest end of the loadable segments; the extreme values if there is none. */
  predicate SpanOf(headers: seq<ProgramHeader>, start: nat, end: nat) {
    && (forall i :: 0 <= i < |headers| && headers[i].loadable ==>
          start <= headers[i].paddr && headers[i].paddr + headers[i].memsz <= end)
    && (start == U64_MAX || exists i :: 0 <= i < |headers| && headers[i].loadable && headers[i].paddr == start)
    && (end == 0 || exists i :: 0 <= i < |headers| && headers[i].loadable && headers[i].paddr + headers[i].memsz == end)
  }

  /** Physical bounds of the loadable segments: the smallest start and the largest end. If all are loadable, they
      fit the bytes between the two. */
  method ParseSpan(headers: seq<ProgramHeader>) returns (start: nat, end: nat)
    ensures SpanOf(headers, start, end)
    ensures AllLoadable(headers) ==> start <= end && InSpan(headers, start, end - start)
    ensures start <= U64_MAX
    ensures (forall i :: 0 <= i < |headers| ==> headers[i].paddr + headers[i].memsz <= U64_MAX) ==> end <= U64_MAX
  {
    start, end := U64_MAX, 0;
    for n := 0 to |headers|
      invariant forall i :: 0 <= i < n && headers[i].loadable ==>
                  start <= headers[i].paddr && headers[i].paddr + headers[i].memsz <= end
      invariant start <= U64_MAX
      invariant start == U64_MAX || exists i :: 0 <= i < n && headers[i].loadable && headers[i].paddr == start
      invariant end == 0 || exists i :: 0 <= i < n && headers[i].loadable && headers[i].paddr + headers[i].memsz == end
    {
      var header := headers[n];
      if !header.loadable {
        continue;
      }
      if start > header.paddr {
        start := header.paddr;
      }
      if end < header.paddr + header.memsz {
        end := header.paddr + header.memsz;
      }
    }
    if |headers| > 0 && headers[0].loadable {
      assert start <= headers[0].paddr && headers[0].paddr + headers[0].memsz <= end;
    }
  }

  /** The notes that have to be there. */
  datatype XenNote = PaddrOffset | VirtBase | Entry | HypercallPage | InitP2m | ModStartPfn

  const NOTES: set<XenNote> := {PaddrOffset, VirtBase, Entry, HypercallPage, InitP2m, ModStartPfn}

  /** `notes.get(..).ok_or(..)`, in the order of the original. */
  method NoteValue(notes: map<XenNote, nat>, note: XenNote, name: string) returns (r: Result<nat>)
    ensures r == if note in notes then Ok(notes[note]) else Err(ElfXenNoteMissing(name))
  {
    return if note in notes then Ok(notes[note]) else Err(ElfXenNoteMissing(name));
  }

  /** The image's addresses, from its notes and program headers; sums are those of 64-bit words. For segments that
      are all loadable, the loader's demand is met if and only if the span does not wrap around. */
  method Parse(headers: seq<ProgramHeader>, notes: map<XenNote, nat>) returns (r: Result<BootImageInfo>, ghost end: nat)
    requires forall note :: note in notes ==> notes[note] <= U64_MAX
    requires forall i :: 0 <= i < |headers| ==> headers[i].paddr + headers[i].memsz <= U64_MAX
    ensures r.Ok? <==> NOTES <= notes.Keys && (notes[VirtBase] == U64_MAX ==> notes[PaddrOffset] == U64_MAX)
    ensures r.Ok? ==>
              && r.value.virtBase == notes[VirtBase] && r.value.virtHypercall == notes[HypercallPage]
              && r.value.virtP2mBase == notes[InitP2m] && r.value.virtEntry == notes[Entry]
              // the image is the loadable span, moved from physical address p to p - paddr_offset + virt_base
              && SpanOf(headers, r.value.start, end)
              && r.value.virtKstart < U64 && r.value.virtKend < U64
              && (r.value.virtKstart + notes[PaddrOffset]) % U64 == (r.value.start + notes[VirtBase]) % U64
              && (r.value.virtKend + notes[PaddrOffset]) % U64 == (end + notes[VirtBase]) % U64
    ensures r.Ok? && AllLoadable(headers) ==> (ImageOk(r.value, headers) <==> r.value.virtKstart <= r.value.virtKend)
  {
    end := 0;
    var paddrOffset :- NoteValue(notes, PaddrOffset, "PADDR_OFFSET");
    var virtBase :- NoteValue(notes, VirtBase, "VIRT_BASE");
    var entry :- NoteValue(notes, Entry, "ENTRY");
    var virtHypercall :- NoteValue(notes, HypercallPage, "HYPERCALL_PAGE");
    var initP2m :- NoteValue(notes, InitP2m, "INIT_P2M");
    var modStartPfn :- NoteValue(notes, ModStartPfn, "MOD_START_PFN");
    var start, last := ParseSpan(headers);
    end := last;
    if paddrOffset != U64_MAX && virtBase == U64_MAX {
      return Err(ElfInvalidImage("paddr_offset specified, but virt_base is not specified")), end;
    }
    var virtOffset := (virtBase - paddrOffset) % U64;
    var virtKstart, virtKend := (start + virtOffset) % U64, (last + virtOffset) % U64;
    Moved(start, virtBase, paddrOffset);
    Moved(last, virtBase, paddrOffset);
    SpanKept(start, last, virtOffset);
    return Ok(BootImageInfo(start, virtBase, virtKstart, virtKend, virtHypercall, initP2m, entry)), end;
  }

  lemma Moved(x: nat, base: nat, offset: nat)
    ensures ((x + (base - offset) % U64) % U64 + offset) % U64 == (x + base) % U64
  {
    var d := (base - offset) % U64;
    var q := (base - offset) / U64;
    assert base - offset == q * U64 + d;
    var p := (x + d) / U64;
    assert x + d == p * U64 + (x + d) % U64;
    assert (x + d) % U64 + offset == x + base - (p + q) * U64;
    SameWord(x + base, p + q);
  }

  lemma SameWord(x: int, n: int)
    ensures (x - n * U64) % U64 == x % U64
  {
    var q := x / U64;
    assert x - n * U64 == (q - n) * U64 + x % U64;
    DivUnique(x - n * U64, q - n, U64);
  }

  /** Unless it wraps around, a moved span keeps its length. */
  lemma SpanKept(start: nat, end: nat, offset: nat)
    requires start <= U64_MAX && end <= U64_MAX && offset <= U64_MAX
    ensures start <= end && (start + offset) % U64 <= (end + offset) % U64 ==>
              (end + offset) % U64 - (start + offset) % U64 == end - start
  {
  }

  /** Byte k of the load image: the last header covering it decides, file bytes first and then zeros;
      a byte no header covers is zero. */
  function ImageByte(headers: seq<ProgramHeader>, start: nat, k: nat): Byte {
    if |headers| == 0 then 0
    else
      var h := headers[|headers| - 1];
      if h.paddr <= start + k < h.paddr + h.memsz then
        var o := start + k - h.paddr;
        if o < |h.data| then h.data[o] else 0
      else ImageByte(headers[..|headers| - 1], start, k)
  }

  predicate InSegment(h: ProgramHeader, x: nat) {
    h.paddr <= x < h.paddr + h.memsz
  }

  /** Header i covers address x, and no later one does. */
  predicate Decides(headers: seq<ProgramHeader>, i: nat, x: nat) {
    i < |headers| && InSegment(headers[i], x) && forall j :: i < j < |headers| ==> !InSegment(headers[j], x)
  }

  /** What has to be loaded at address x, header by header: the file byte of the last header that covers it, or a
      zero past its file bytes, and a zero where no header covers it. */
  ghost predicate IsLoaded(headers: seq<ProgramHeader>, x: nat, b: Byte) {
    && (forall i: nat :: Decides(headers, i, x) ==>
          var h, o := headers[i], x - headers[i].paddr; b == if o < |h.data| then h.data[o] else 0)
    && ((forall i :: 0 <= i < |headers| ==> !InSegment(headers[i], x)) ==> b == 0)
  }

  lemma {:induction false} ImageExact(headers: seq<ProgramHeader>, start: nat, k: nat)
    ensures IsLoaded(headers, start + k, ImageByte(headers, start, k))
  {
    hide InSegment;
    if |headers| > 0 {
      hide ImageByte, IsLoaded;
      var rest, last := headers[..|headers| - 1], headers[|headers| - 1];
      LastHeader(headers, start, k);
      assert headers == rest + [last];
      if InSegment(last, start + k) {
        JustTheLast(rest, last, start + k, ImageByte(headers, start, k));
      } else {
        ImageExact(rest, start, k);
        NotTheLast(rest, last, start + k, ImageByte(rest, start, k));
      }
    }
  }

  lemma JustTheLast(rest: seq<ProgramHeader>, last: ProgramHeader, x: nat, b: Byte)
    requires InSegment(last, x)
    requires var o := x - last.paddr; b == if o < |last.data| then last.data[o] else 0
    ensures IsLoaded(rest + [last], x, b)
  {
    var headers := rest + [last];
    assert headers[|rest|] == last;
    assert forall i: nat :: Decides(headers, i, x) ==> i == |rest|;
  }

  lemma LastHeader(headers: seq<ProgramHeader>, start: nat, k: nat)
    requires |headers| > 0
    ensures var n := |headers| - 1;
            var h, o := headers[n], start + k - headers[n].paddr;
            ImageByte(headers, start, k)
            == if InSegment(h, start + k) then (if o < |h.data| then h.data[o] else 0)
               else ImageByte(headers[..n], start, k)
  {
  }

  lemma NotTheLast(rest: seq<ProgramHeader>, last: ProgramHeader, x: nat, b: Byte)
    requires !InSegment(last, x) && IsLoaded(rest, x, b)
    ensures IsLoaded(rest + [last], x, b)
  {
    var headers := rest + [last];
    assert forall i :: 0 <= i < |rest| ==> headers[i] == rest[i];
    forall i: nat | Decides(headers, i, x)
      ensures var h, o := headers[i], x - headers[i].paddr; b == if o < |h.data| then h.data[o] else 0
    {
      assert headers[|rest|] == last;
      DecidesEarlier(rest, last, i, x);
    }
    if forall i :: 0 <= i < |headers| ==> !InSegment(headers[i], x) {
      forall i | 0 <= i < |rest|
        ensures !InSegment(rest[i], x)
      {
        assert headers[i] == rest[i];
      }
    }
  }

  lemma DecidesEarlier(rest: seq<ProgramHeader>, last: ProgramHeader, i: nat, x: nat)
    requires !InSegment(last, x) && Decides(rest + [last], i, x)
    ensures i < |rest| && Decides(rest, i, x)
  {
    hide InSegment;
    assert (rest + [last])[|rest|] == last;
    forall j | i < j < |rest|
      ensures !InSegment(rest[j], x)
    {
      assert (rest + [last])[j] == rest[j];
    }
  }

  /** Load all segments into `size` bytes of a cleared slice of n pages at host address `addr`. */
  method Load(domain: BootDomain, headers: seq<ProgramHeader>, start: nat, size: nat, addr: nat, ghost pfn: nat,
              ghost n: nat)
    requires domain.Valid() && pfn + n <= domain.totalPages && size <= 4096 * n && InSpan(headers, start, size)
    requires Backed(domain.phys.call.hostMap, domain.phys.p2m, addr, pfn, n)
    requires AllZero(domain.phys.call.mem, domain.phys.p2m, pfn, pfn + n)
    modifies domain.phys.call`mem
    ensures domain.Valid()
    ensures KeptOutside(old(domain.phys.call.mem), domain.phys.call.mem, domain.phys.p2m, pfn, pfn + n)
    ensures forall k :: 0 <= k < 4096 * n ==>
              ByteAt(domain.phys.call.mem, domain.phys.p2m, pfn, k)
              == if k < size then ImageByte(headers, start, k) else 0
    ensures forall k: nat :: k < size ==>
              IsLoaded(headers, start + k, ByteAt(domain.phys.call.mem, domain.phys.p2m, pfn, k))
  {
    hide RegionsOk, CoveredBy, KeptOutside, Owned, ByteAt, Distinct, Frames, Backed;
    ghost var mem0, p2m := domain.phys.call.mem, domain.phys.p2m;
    KeptSelf(mem0, p2m, pfn, pfn + n);
    ZeroBytes(mem0, p2m, pfn, n);
    assert headers[..0] == [];
    for i := 0 to |headers|
      invariant domain.Valid()
      invariant KeptOutside(mem0, domain.phys.call.mem, p2m, pfn, pfn + n)
      invariant forall k :: 0 <= k < 4096 * n ==>
                  ByteAt(domain.phys.call.mem, p2m, pfn, k) == if k < size then ImageByte(headers[..i], start, k) else 0
      modifies domain.phys.call`mem
    {
      var header := headers[i];
      assert HeaderFits(header, start, size);
      var baseOffset := header.paddr - start;
      var filesz := |header.data|;
      var copied := if filesz <= size - baseOffset then header.data else header.data[..size - baseOffset];
      ghost var mem1 := domain.phys.call.mem;
      domain.CopyToSlice(addr, pfn, n, baseOffset, copied);
      ghost var mem2 := domain.phys.call.mem;
      KeptTwice(mem0, mem1, mem2, p2m, pfn, pfn + n, pfn, pfn + n, pfn, pfn + n);
      if header.memsz - filesz > 0 {
        domain.CopyToSlice(addr, pfn, n, baseOffset + filesz, Zeros(header.memsz - filesz));
        KeptTwice(mem0, mem2, domain.phys.call.mem, p2m, pfn, pfn + n, pfn, pfn + n, pfn, pfn + n);
      }
      assert headers[..i + 1][..i] == headers[..i];
    }
    assert headers[..|headers|] == headers;
    forall k: nat | k < size
      ensures IsLoaded(headers, start + k, ByteAt(domain.phys.call.mem, p2m, pfn, k))
    {
      ImageExact(headers, start, k);
      assert ByteAt(domain.phys.call.mem, p2m, pfn, k) == ImageByte(headers, start, k);
    }
  }

  function Zeros(n: nat): seq<Byte> {
    seq(n, _ => 0)
  }
}
