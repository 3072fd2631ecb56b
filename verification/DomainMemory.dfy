/** Populating a domain's memory: superpage batches, then single pages, building the pfn -> frame list. */
module DomainMemory {
  import opened Pages
  import opened Paging
  import opened Results
  import opened XenCalls

  const SUPERPAGE_PFNS: nat := 512
  const SUPERPAGE_BATCH: nat := 512

  /** The pfns below `n` are populated, and the list holds their frames; the rest of it holds the pfns. */
  ghost predicate PopulatedBelow(p2m: seq<nat>, physmap: map<nat, nat>, n: nat) {
    && n <= |p2m|
    && (forall p :: p in physmap <==> 0 <= p < n)
    && (forall p :: 0 <= p < n ==> p2m[p] == physmap[p])
    && (forall p :: n <= p < |p2m| ==> p2m[p] == p)
  }

  /** The pfns below n, in blocks of 512, have consecutive frames within each block. */
  ghost predicate Superpages(physmap: map<nat, nat>, n: nat) {
    forall p: nat, q: nat :: p < q < n && p / 512 == q / 512 ==> Consecutive(physmap, p, q)
  }

  predicate Consecutive(physmap: map<nat, nat>, p: nat, q: nat) {
    p in physmap && q in physmap && physmap[q] == physmap[p] + (q - p)
  }

  lemma MoreSuperpages(before: map<nat, nat>, after: map<nat, nat>, base: nat, extents: seq<nat>)
    requires base % 512 == 0 && Superpages(before, base)
    requires forall p :: p in before ==> p in after && after[p] == before[p]
    requires forall i, p: nat :: 0 <= i < |extents| ==> InSuperpage(after, base, extents, i, p)
    ensures Superpages(after, base + |extents| * 512)
  {
    forall p: nat, q: nat | p < q < base + |extents| * 512 && p / 512 == q / 512
      ensures Consecutive(after, p, q)
    {
      SameBlock(base, p, q);
      if p >= base {
        var i := (p - base) / 512;
        assert InSuperpage(after, base, extents, i, p) && InSuperpage(after, base, extents, i, q);
      } else {
        assert Consecutive(before, p, q);
      }
    }
  }

  lemma SuperpagesKept(before: map<nat, nat>, after: map<nat, nat>, n: nat)
    requires Superpages(before, n) && forall p :: p in before ==> p in after && after[p] == before[p]
    ensures Superpages(after, n)
  {
    forall p: nat, q: nat | p < q < n && p / 512 == q / 512
      ensures Consecutive(after, p, q)
    {
      assert Consecutive(before, p, q);
    }
  }

  lemma NoSuperpages(physmap: map<nat, nat>)
    ensures Superpages(physmap, 0)
  {
  }

  lemma SameBlock(base: nat, p: nat, q: nat)
    requires base % 512 == 0 && p < q && p / 512 == q / 512
    ensures p >= base ==> base + (p - base) / 512 * 512 <= p && q < base + (p - base) / 512 * 512 + 512
    ensures p < base ==> q < base
  {
    var b := base / 512;
    assert base == 512 * b;
    assert (p - base) / 512 == p / 512 - b;
  }

  /** Frames of the pfns [from, to) are in place, those beyond are still pfns. */
  ghost predicate CopiedTo(p2m: seq<nat>, physmap: map<nat, nat>, to: nat) {
    && to <= |p2m|
    && (forall p :: 0 <= p < to ==> p in physmap && p2m[p] == physmap[p])
    && (forall p :: to <= p < |p2m| ==> p2m[p] == p)
  }

  /** Superpage extents, and single pages, cover exactly the pfns from `base` on. */
  lemma SuperpagesCover(starts: seq<nat>, base: nat, p: nat)
    requires forall i :: 0 <= i < |starts| ==> starts[i] == base + i * 512
    ensures InExtents(starts, 512, p) <==> base <= p < base + |starts| * 512
  {
    if base <= p < base + |starts| * 512 {
      var i := (p - base) / 512;
      assert starts[i] <= p < starts[i] + 512;
    }
  }

  lemma SinglesCover(starts: seq<nat>, base: nat, p: nat)
    requires forall i :: 0 <= i < |starts| ==> starts[i] == base + i
    ensures InExtents(starts, 1, p) <==> base <= p < base + |starts|
  {
    if base <= p < base + |starts| {
      assert starts[p - base] <= p < starts[p - base] + 1;
    }
  }

  /** One batch of `count` superpages from pfn `base` on. */
  method PopulateBatch(call: XenCall, p2m: array<nat>, base: nat, count: nat) returns (r: Result<()>)
    requires call.Valid() && base + count * SUPERPAGE_PFNS <= p2m.Length && count <= SUPERPAGE_BATCH
    requires PopulatedBelow(p2m[..], call.physmap, base)
    modifies p2m, call`physmap, call`mem, call`failures
    ensures call.Valid() && Extends(old(call.mem), call.mem)
    ensures r.Ok? ==> PopulatedBelow(p2m[..], call.physmap, base + count * SUPERPAGE_PFNS)
    ensures r.Ok? && base % 512 == 0 && Superpages(old(call.physmap), base) ==>
              Superpages(call.physmap, base + count * 512)
    ensures r.Err? ==> r.error == PopulatePhysmapFailed
    ensures Faulted(r, old(call.failures), call.failures)
  {
    var starts := ExtentStarts(p2m, base, count);
    forall p: nat
      ensures InExtents(starts, 512, p) <==> base <= p < base + count * 512
    {
      SuperpagesCover(starts, base, p);
    }
    var extents :- call.PopulatePhysmap(starts, 512);
    forall i, p: nat | 0 <= i < |extents|
      ensures InSuperpage(call.physmap, base, extents, i, p)
    {
      assert starts[i] == base + i * 512;
    }
    CopyExtents(p2m, call.physmap, base, extents);
    if base % 512 == 0 && Superpages(old(call.physmap), base) {
      MoreSuperpages(old(call.physmap), call.physmap, base, extents);
    }
    return Ok(());
  }

  /** If pfn p lies in superpage i from `base` on, its frame is the one at the same place in extent i. */
  predicate InSuperpage(physmap: map<nat, nat>, base: nat, extents: seq<nat>, i: nat, p: nat)
    requires i < |extents|
  {
    var start := base + i * 512;
    start <= p < start + 512 ==> p in physmap && physmap[p] == extents[i] + (p - start)
  }

  /** The pfns at which the superpages of a batch start. */
  method ExtentStarts(p2m: array<nat>, base: nat, count: nat) returns (starts: seq<nat>)
    requires base + count * 512 <= p2m.Length && count <= SUPERPAGE_BATCH
    requires forall p :: base <= p < p2m.Length ==> p2m[p] == p
    ensures |starts| == count && forall i :: 0 <= i < count ==> starts[i] == base + i * 512
  {
    var extentsInit := new nat[SUPERPAGE_BATCH](_ => 0);
    var j, pfn := 0, base;
    while pfn < base + count * 512
      invariant pfn == base + j * 512 && 0 <= j <= count
      invariant forall i :: 0 <= i < j ==> extentsInit[i] == base + i * 512
      modifies extentsInit
    {
      extentsInit[j] := p2m[pfn];
      pfn := pfn + 512;
      j := j + 1;
    }
    return extentsInit[..count];
  }

  /** Record 512 consecutive frames for each superpage. */
  method CopyExtents(p2m: array<nat>, ghost physmap: map<nat, nat>, base: nat, extents: seq<nat>)
    requires base + |extents| * 512 <= p2m.Length && CopiedTo(p2m[..], physmap, base)
    requires forall i, p: nat :: 0 <= i < |extents| ==> InSuperpage(physmap, base, extents, i, p)
    modifies p2m
    ensures CopiedTo(p2m[..], physmap, base + |extents| * 512)
  {
    var i, pfn := 0, base;
    while i < |extents|
      invariant 0 <= i <= |extents| && pfn == base + i * 512
      invariant CopiedTo(p2m[..], physmap, pfn)
      modifies p2m
    {
      var k := 0;
      while k < 512
        invariant 0 <= k <= 512 && pfn == base + i * 512 + k
        invariant CopiedTo(p2m[..], physmap, pfn)
        modifies p2m
      {
        assert InSuperpage(physmap, base, extents, i, pfn);
        p2m[pfn] := extents[i] + k;
        pfn := pfn + 1;
        k := k + 1;
      }
      i := i + 1;
    }
  }

  /** A run of `count` single pages from pfn `base` on. */
  method PopulateSingles(call: XenCall, p2m: array<nat>, base: nat, count: nat) returns (r: Result<()>)
    requires call.Valid() && base + count <= p2m.Length
    requires PopulatedBelow(p2m[..], call.physmap, base)
    modifies p2m, call`physmap, call`mem, call`failures
    ensures call.Valid() && Extends(old(call.mem), call.mem)
    ensures r.Ok? ==> PopulatedBelow(p2m[..], call.physmap, base + count)
    ensures forall p :: p in old(call.physmap) ==> p in call.physmap && call.physmap[p] == old(call.physmap)[p]
    ensures r.Err? ==> r.error == PopulatePhysmapFailed
    ensures Faulted(r, old(call.failures), call.failures)
  {
    var starts := p2m[base..base + count];
    forall p: nat
      ensures InExtents(starts, 1, p) <==> base <= p < base + count
    {
      SinglesCover(starts, base, p);
    }
    var result :- call.PopulatePhysmap(starts, 1);
    if |result| != count {
      return Err(PopulatePhysmapFailed);
    }
    SinglesPopulated(old(call.physmap), call.physmap, starts, base, result);
    CopySingles(p2m, call.physmap, base, result);
    return Ok(());
  }

  /** Record one frame for each page. */
  method CopySingles(p2m: array<nat>, ghost physmap: map<nat, nat>, base: nat, result: seq<nat>)
    requires base + |result| <= p2m.Length && CopiedTo(p2m[..], physmap, base)
    requires forall i :: 0 <= i < |result| ==> SingleAt(physmap, base, result, i)
    modifies p2m
    ensures CopiedTo(p2m[..], physmap, base + |result|)
  {
    var i := 0;
    while i < |result|
      invariant 0 <= i <= |result|
      invariant CopiedTo(p2m[..], physmap, base + i)
    {
      assert SingleAt(physmap, base, result, i);
      p2m[base + i] := result[i];
      i := i + 1;
    }
  }

  predicate SingleAt(physmap: map<nat, nat>, base: nat, result: seq<nat>, i: nat)
    requires i < |result|
  {
    base + i in physmap && physmap[base + i] == result[i]
  }

  /** Single pages: the frame for each pfn is the extent at its place, and the populated pfns grow by these. */
  lemma SinglesPopulated(before: map<nat, nat>, after: map<nat, nat>, starts: seq<nat>, base: nat, result: seq<nat>)
    requires Populated(before, after, starts, 1, result) && forall i :: 0 <= i < |starts| ==> starts[i] == base + i
    requires forall p :: p in before <==> 0 <= p < base
    ensures forall i :: 0 <= i < |result| ==> SingleAt(after, base, result, i)
    ensures forall p :: p in after <==> 0 <= p < base + |result|
    ensures forall p :: p in before ==> after[p] == before[p]
  {
    forall i | 0 <= i < |result|
      ensures SingleAt(after, base, result, i)
    {
      assert starts[i] <= base + i < starts[i] + 1;
    }
    forall p: nat
      ensures p in after <==> p < base + |result|
    {
      SinglesCover(starts, base, p);
      if base <= p < base + |result| {
        assert SingleAt(after, base, result, p - base);
      }
    }
  }

  /** The whole population of a fresh domain. On success the list is the assignment the hypervisor made:
      every pfn below `totalPages` was populated exactly once and its frame is recorded. */
  method BuildP2m(call: XenCall, totalPages: nat) returns (r: Result<seq<nat>>)
    requires call.Valid() && call.physmap == map[]
    modifies call`physmap, call`mem, call`failures
    ensures call.Valid() && Extends(old(call.mem), call.mem)
    ensures r.Ok? ==>
              && |r.value| == totalPages
              && (forall p :: p in call.physmap <==> 0 <= p < totalPages)
              && (forall p :: 0 <= p < totalPages ==> r.value[p] == call.physmap[p])
              && Distinct(r.value) && Frames(r.value)
              && forall p :: 0 <= p < totalPages ==> r.value[p] in call.mem
    // as far as the pages fill blocks of 2 MiB, each block has consecutive frames
    ensures r.Ok? ==> Superpages(call.physmap, totalPages / 512 * 512)
    ensures r.Err? && totalPages * 4096 < U64 ==> r.error == PopulatePhysmapFailed
    ensures Faulted(r, old(call.failures), call.failures)
  {
    hide Superpages, PopulatedBelow, GoodPhysmap;
    RangeLength(totalPages);
    // the byte length of the only memory range is a 64-bit number
    var rangeEnd := totalPages * 4096 % U64;
    var pages := rangeEnd / 4096;
    if pages != totalPages {
      return Err(MemorySetupFailed("total pages mismatch"));
    }
    var p2m := new nat[pages](i => i);
    assert forall i :: 0 <= i < pages ==> p2m[i] == i;
    var base :- PopulateSuperpages(call, p2m);
    var j: nat := base;
    while j < pages
      invariant call.Valid() && Extends(old(call.mem), call.mem) && call.failures == old(call.failures)
      invariant base <= j <= pages
      invariant PopulatedBelow(p2m[..], call.physmap, j) && Superpages(call.physmap, base)
    {
      var allocsz := if 1024 * 1024 < pages - j then 1024 * 1024 else pages - j;
      ghost var before := call.physmap;
      var _ :- PopulateSingles(call, p2m, j, allocsz);
      SuperpagesKept(before, call.physmap, base);
      j := j + allocsz;
    }
    WholeList(p2m[..], call.physmap, call.mem);
    return Ok(p2m[..]);
  }

  lemma RangeLength(pages: nat)
    ensures pages * 4096 < U64 ==> pages * 4096 % U64 / 4096 == pages
  {
  }

  /** When all pfns are populated the list is the assignment. */
  lemma WholeList(p2m: seq<nat>, physmap: map<nat, nat>, mem: Memory)
    requires PopulatedBelow(p2m, physmap, |p2m|) && GoodPhysmap(physmap, mem)
    ensures forall p :: p in physmap <==> 0 <= p < |p2m|
    ensures forall p :: 0 <= p < |p2m| ==> p2m[p] == physmap[p] && p2m[p] in mem
    ensures Distinct(p2m) && Frames(p2m)
  {
  }

  /** Whole superpages, in batches, as many as fit; the result is the first pfn after them. */
  method PopulateSuperpages(call: XenCall, p2m: array<nat>) returns (r: Result<nat>)
    requires call.Valid() && call.physmap == map[] && forall i :: 0 <= i < p2m.Length ==> p2m[i] == i
    modifies p2m, call`physmap, call`mem, call`failures
    ensures call.Valid() && Extends(old(call.mem), call.mem)
    ensures r.Ok? ==>
              && r.value == p2m.Length / 512 * 512
              && PopulatedBelow(p2m[..], call.physmap, r.value) && Superpages(call.physmap, r.value)
    ensures r.Err? ==> r.error == PopulatePhysmapFailed
    ensures Faulted(r, old(call.failures), call.failures)
  {
    hide Superpages;
    NoSuperpages(call.physmap);
    var superPages: nat, base: nat := p2m.Length / 512, 0;
    ghost var blocks := superPages;
    while superPages > 0
      invariant call.Valid() && Extends(old(call.mem), call.mem) && call.failures == old(call.failures)
      invariant 0 <= superPages <= blocks && base == 512 * (blocks - superPages)
      invariant PopulatedBelow(p2m[..], call.physmap, base) && Superpages(call.physmap, base)
    {
      var count := if superPages < SUPERPAGE_BATCH then superPages else SUPERPAGE_BATCH;
      superPages := superPages - count;
      var _ :- PopulateBatch(call, p2m, base, count);
      base := base + count * 512;
    }
    return Ok(base);
  }
}
