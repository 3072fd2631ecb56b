/** The builder's cache of foreign mappings: which pfn ranges of the domain are mapped where in the host. */
module PhysicalPageCache {
  import opened Pages
  import opened Results
  import opened XenCalls

  datatype PhysicalPage = PhysicalPage(pfn: nat, ptr: nat, count: nat)

  /** The pfns [pfn, pfn + n) lie in the region. */
  predicate Inside(r: PhysicalPage, pfn: nat, n: nat) {
    r.pfn <= pfn && pfn + n <= r.pfn + r.count
  }

  predicate Overlaps(r: PhysicalPage, pfn: nat, n: nat) {
    pfn < r.pfn + r.count && r.pfn < pfn + n
  }

  /** A lookup with count 0 asks for the single page `pfn`. */
  function Width(count: nat): nat {
    if count == 0 then 1 else count
  }

  function FrameOf(p2m: seq<nat>, pfn: nat): nat {
    if |p2m| == 0 then pfn else if pfn < |p2m| then p2m[pfn] else 0
  }

  /** The host pages from `addr` on map the frames of pfn, pfn + 1, ..., pfn + n - 1. */
  predicate Backed(hostMap: map<nat, nat>, p2m: seq<nat>, addr: nat, pfn: nat, n: nat) {
    && addr % 4096 == 0
    && forall h :: addr / 4096 <= h < addr / 4096 + n ==>
         h in hostMap && hostMap[h] == FrameOf(p2m, pfn + (h - addr / 4096))
  }

  predicate RegionOk(hostMap: map<nat, nat>, p2m: seq<nat>, r: PhysicalPage) {
    && r.count > 0
    && (|p2m| > 0 ==> r.pfn + r.count <= |p2m|)
    && Backed(hostMap, p2m, r.ptr, r.pfn, r.count)
  }

  predicate Covers(r: PhysicalPage, h: nat) {
    r.ptr / 4096 <= h < r.ptr / 4096 + r.count
  }

  /** Regions map what they claim, overlap neither in the domain nor in the host, and are all there is. */
  ghost predicate RegionsOk(pages: seq<PhysicalPage>, hostMap: map<nat, nat>, p2m: seq<nat>) {
    && (forall j :: 0 <= j < |pages| ==> RegionOk(hostMap, p2m, pages[j]))
    && (forall i, j :: 0 <= i < |pages| && 0 <= j < |pages| && i != j ==>
          !Overlaps(pages[i], pages[j].pfn, pages[j].count))
    && (forall i, j, h :: 0 <= i < |pages| && 0 <= j < |pages| && Covers(pages[i], h) && Covers(pages[j], h) ==> i == j)
    && (forall h :: h in hostMap ==> exists j :: 0 <= j < |pages| && Covers(pages[j], h))
  }

  lemma AddRegion(pages: seq<PhysicalPage>, hostMap: map<nat, nat>, p2m: seq<nat>, r: PhysicalPage,
                  hostMap': map<nat, nat>)
    requires RegionsOk(pages, hostMap, p2m) && RegionOk(hostMap', p2m, r)
    requires forall j :: 0 <= j < |pages| ==> !Overlaps(pages[j], r.pfn, r.count)
    requires PageRange(r.ptr / 4096, r.count) !! hostMap.Keys
    requires forall h :: h in hostMap ==> h in hostMap' && hostMap'[h] == hostMap[h]
    requires forall h :: h in hostMap' ==> h in hostMap || Covers(r, h)
    ensures RegionsOk(pages + [r], hostMap', p2m)
  {
    var all := pages + [r];
    forall j | 0 <= j < |pages|
      ensures RegionOk(hostMap', p2m, pages[j])
      ensures forall h :: Covers(pages[j], h) ==> h in hostMap && !Covers(r, h)
    {
      assert RegionOk(hostMap, p2m, pages[j]);
      forall h | Covers(pages[j], h)
        ensures h in hostMap && !Covers(r, h)
      {
        assert h in PageRange(r.ptr / 4096, r.count) <==> Covers(r, h);
      }
    }
    forall h | h in hostMap'
      ensures exists j :: 0 <= j < |all| && Covers(all[j], h)
    {
      if h in hostMap {
        var j :| 0 <= j < |pages| && Covers(pages[j], h);
        assert all[j] == pages[j];
      } else {
        assert all[|pages|] == r;
      }
    }
  }

  lemma DropRegion(pages: seq<PhysicalPage>, hostMap: map<nat, nat>, p2m: seq<nat>, d: nat)
    requires RegionsOk(pages, hostMap, p2m) && d < |pages|
    ensures RegionsOk(pages[..d] + pages[d + 1..], hostMap - PageRange(pages[d].ptr / 4096, pages[d].count), p2m)
    ensures var rest := pages[..d] + pages[d + 1..];
            forall i :: 0 <= i < |rest| ==> rest[i] in pages && !Overlaps(rest[i], pages[d].pfn, pages[d].count)
  {
    var rest := pages[..d] + pages[d + 1..];
    var hostMap' := hostMap - PageRange(pages[d].ptr / 4096, pages[d].count);
    assert |rest| == |pages| - 1;
    assert forall j :: 0 <= j < |rest| ==> rest[j] == pages[Skip(d, j)];
    forall j | 0 <= j < |rest|
      ensures RegionOk(hostMap', p2m, rest[j])
    {
      RegionKept(pages, hostMap, p2m, d, Skip(d, j));
    }
    RestCovers(pages, hostMap, p2m, rest, d);
    hide RegionOk;
    RestApart(pages, rest, d);
  }

  lemma RestCovers(pages: seq<PhysicalPage>, hostMap: map<nat, nat>, p2m: seq<nat>, rest: seq<PhysicalPage>, d: nat)
    requires RegionsOk(pages, hostMap, p2m) && d < |pages| && rest == pages[..d] + pages[d + 1..]
    ensures forall h :: h in hostMap - PageRange(pages[d].ptr / 4096, pages[d].count) ==>
              exists j :: 0 <= j < |rest| && Covers(rest[j], h)
  {
    hide RegionOk, Overlaps;
    forall h | h in hostMap - PageRange(pages[d].ptr / 4096, pages[d].count)
      ensures exists j :: 0 <= j < |rest| && Covers(rest[j], h)
    {
      var k :| 0 <= k < |pages| && Covers(pages[k], h);
      assert k != d;
      assert rest[if k < d then k else k - 1] == pages[k];
    }
  }

  lemma RestApart(pages: seq<PhysicalPage>, rest: seq<PhysicalPage>, d: nat)
    requires d < |pages| && |rest| == |pages| - 1
    requires forall j :: 0 <= j < |rest| ==> rest[j] == pages[Skip(d, j)]
    requires forall i, j :: 0 <= i < |pages| && 0 <= j < |pages| && i != j ==>
               !Overlaps(pages[i], pages[j].pfn, pages[j].count)
    requires forall i, j, h :: 0 <= i < |pages| && 0 <= j < |pages| && Covers(pages[i], h) && Covers(pages[j], h) ==>
               i == j
    ensures forall i, j :: 0 <= i < |rest| && 0 <= j < |rest| && i != j ==>
              !Overlaps(rest[i], rest[j].pfn, rest[j].count)
    ensures forall i, j, h :: 0 <= i < |rest| && 0 <= j < |rest| && Covers(rest[i], h) && Covers(rest[j], h) ==> i == j
    ensures forall i :: 0 <= i < |rest| ==> rest[i] in pages && !Overlaps(rest[i], pages[d].pfn, pages[d].count)
  {
    forall i, j, h | 0 <= i < |rest| && 0 <= j < |rest| && Covers(rest[i], h) && Covers(rest[j], h)
      ensures i == j
    {
      assert Covers(pages[Skip(d, i)], h) && Covers(pages[Skip(d, j)], h);
    }
  }

  function Skip(d: nat, j: nat): nat {
    if j < d then j else j + 1
  }

  lemma RegionKept(pages: seq<PhysicalPage>, hostMap: map<nat, nat>, p2m: seq<nat>, d: nat, k: nat)
    requires RegionsOk(pages, hostMap, p2m) && d < |pages| && k < |pages| && k != d
    ensures RegionOk(hostMap - PageRange(pages[d].ptr / 4096, pages[d].count), p2m, pages[k])
  {
    assert RegionOk(hostMap, p2m, pages[k]);
    forall h | Covers(pages[k], h)
      ensures h in hostMap - PageRange(pages[d].ptr / 4096, pages[d].count)
    {
      assert !Covers(pages[d], h);
    }
  }

  /** A pointer into a region addresses the rest of that region. */
  lemma PointerInto(hostMap: map<nat, nat>, p2m: seq<nat>, r: PhysicalPage, pfn: nat)
    requires RegionOk(hostMap, p2m, r) && r.pfn <= pfn < r.pfn + r.count
    ensures Backed(hostMap, p2m, r.ptr + (pfn - r.pfn) * 4096, pfn, r.pfn + r.count - pfn)
  {
    var addr := r.ptr + (pfn - r.pfn) * 4096;
    assert addr / 4096 == r.ptr / 4096 + (pfn - r.pfn) && addr % 4096 == 0;
  }

  lemma BackedPrefix(hostMap: map<nat, nat>, p2m: seq<nat>, addr: nat, pfn: nat, n: nat, m: nat)
    requires Backed(hostMap, p2m, addr, pfn, n) && m <= n
    ensures Backed(hostMap, p2m, addr, pfn, m)
  {
  }

  lemma BackedKeys(hostMap: map<nat, nat>, p2m: seq<nat>, addr: nat, pfn: nat, n: nat)
    requires Backed(hostMap, p2m, addr, pfn, n)
    ensures PageRange(addr / 4096, n) <= hostMap.Keys && addr % 4096 == 0
  {
  }

  /** A pfn range contained in one region meets no other. */
  lemma OnlyRegion(pages: seq<PhysicalPage>, hostMap: map<nat, nat>, p2m: seq<nat>, j: nat, pfn: nat, n: nat)
    requires RegionsOk(pages, hostMap, p2m) && j < |pages| && n > 0
    requires Overlaps(pages[j], pfn, n)
    ensures forall i :: 0 <= i < |pages| && Inside(pages[i], pfn, n) ==> i == j
    ensures Inside(pages[j], pfn, n) ==> forall i :: 0 <= i < |pages| && Overlaps(pages[i], pfn, n) ==> i == j
    ensures Inside(pages[j], pfn, n) ==>
              && Backed(hostMap, p2m, pages[j].ptr + (pfn - pages[j].pfn) * 4096, pfn,
                        pages[j].pfn + pages[j].count - pfn)
              && Backed(hostMap, p2m, pages[j].ptr + (pfn - pages[j].pfn) * 4096, pfn, n)
  {
    hide RegionOk, Backed, Covers;
    forall i | 0 <= i < |pages| && i != j
      ensures !Overlaps(pages[i], pages[j].pfn, pages[j].count)
    {
    }
    if Inside(pages[j], pfn, n) {
      PointerInto(hostMap, p2m, pages[j], pfn);
      BackedPrefix(hostMap, p2m, pages[j].ptr + (pfn - pages[j].pfn) * 4096, pfn, pages[j].pfn + pages[j].count - pfn,
                   n);
    }
  }

  // ----- looking up a range -----

  /** The scan of the regions: the first one that meets the range decides; None when there is none. */
  function Lookup(pages: seq<PhysicalPage>, pfn: nat, count: nat): Option<Result<nat>> {
    if |pages| == 0 then None
    else if !Overlaps(pages[0], pfn, Width(count)) then Lookup(pages[1..], pfn, count)
    else if Inside(pages[0], pfn, Width(count)) then Some(Ok(pages[0].ptr + (pfn - pages[0].pfn) * 4096))
    else Some(Err(MemorySetupFailed("pfn is out of range")))
  }

  lemma {:induction false} LookupFirst(pages: seq<PhysicalPage>, pfn: nat, count: nat) returns (j: nat)
    ensures j <= |pages| && forall i :: 0 <= i < j ==> !Overlaps(pages[i], pfn, Width(count))
    ensures j == |pages| <==> Lookup(pages, pfn, count) == None
    ensures j < |pages| ==>
              && Overlaps(pages[j], pfn, Width(count))
              && Lookup(pages, pfn, count)
                 == if Inside(pages[j], pfn, Width(count)) then Some(Ok(pages[j].ptr + (pfn - pages[j].pfn) * 4096))
                    else Some(Err(MemorySetupFailed("pfn is out of range")))
  {
    if |pages| == 0 || Overlaps(pages[0], pfn, Width(count)) {
      j := 0;
    } else {
      j := LookupFirst(pages[1..], pfn, count);
      j := j + 1;
    }
  }

  /** In a consistent cache the scan refines a plain table from pfns to frames: a contained range has the
      pointer of its only region, a partial overlap is an error, and nothing else is found. */
  lemma LookupExact(pages: seq<PhysicalPage>, hostMap: map<nat, nat>, p2m: seq<nat>, pfn: nat, count: nat)
    requires RegionsOk(pages, hostMap, p2m)
    ensures Lookup(pages, pfn, count) == None <==>
              forall j :: 0 <= j < |pages| ==> !Overlaps(pages[j], pfn, Width(count))
    ensures Lookup(pages, pfn, count) == Some(Err(MemorySetupFailed("pfn is out of range"))) <==>
              exists j :: 0 <= j < |pages| && Overlaps(pages[j], pfn, Width(count))
                && !Inside(pages[j], pfn, Width(count))
    ensures forall j :: 0 <= j < |pages| && Inside(pages[j], pfn, Width(count)) ==>
              var addr := pages[j].ptr + (pfn - pages[j].pfn) * 4096;
              && Lookup(pages, pfn, count) == Some(Ok(addr))
              && Backed(hostMap, p2m, addr, pfn, pages[j].pfn + pages[j].count - pfn)
              && Backed(hostMap, p2m, addr, pfn, Width(count))
    ensures Lookup(pages, pfn, count).Some? && Lookup(pages, pfn, count).value.Ok? ==>
              Backed(hostMap, p2m, Lookup(pages, pfn, count).value.value, pfn, Width(count))
  {
    hide RegionsOk, Backed, Lookup;
    var k := LookupFirst(pages, pfn, count);
    forall j | 0 <= j < |pages| && Overlaps(pages[j], pfn, Width(count))
      ensures Inside(pages[j], pfn, Width(count)) || Inside(pages[k], pfn, Width(count)) ==> j == k
      ensures Inside(pages[j], pfn, Width(count)) ==>
                var addr := pages[j].ptr + (pfn - pages[j].pfn) * 4096;
                && Backed(hostMap, p2m, addr, pfn, pages[j].pfn + pages[j].count - pfn)
                && Backed(hostMap, p2m, addr, pfn, Width(count))
    {
      OnlyRegion(pages, hostMap, p2m, j, pfn, Width(count));
      OnlyRegion(pages, hostMap, p2m, k, pfn, Width(count));
    }
  }

  // ----- dropping regions one after the other -----

  /** The host mappings left when the first n regions have been unmapped. */
  function Dropped(hostMap: map<nat, nat>, pages: seq<PhysicalPage>, n: nat): map<nat, nat>
    requires n <= |pages|
  {
    if n == 0 then hostMap
    else Dropped(hostMap, pages, n - 1) - PageRange(pages[n - 1].ptr / 4096, pages[n - 1].count)
  }

  lemma {:induction false} DroppedExact(hostMap: map<nat, nat>, pages: seq<PhysicalPage>, n: nat, h: nat)
    requires n <= |pages|
    ensures h in Dropped(hostMap, pages, n) <==> h in hostMap && forall i :: 0 <= i < n ==> !Covers(pages[i], h)
    ensures h in Dropped(hostMap, pages, n) ==> Dropped(hostMap, pages, n)[h] == hostMap[h]
  {
    if n > 0 {
      DroppedExact(hostMap, pages, n - 1, h);
      assert h in PageRange(pages[n - 1].ptr / 4096, pages[n - 1].count) <==> Covers(pages[n - 1], h);
    }
  }

  lemma {:induction false} DroppedMinus(hostMap: map<nat, nat>, pages: seq<PhysicalPage>, n: nat, leaked: set<nat>)
    requires n <= |pages|
    ensures Dropped(hostMap, pages, n) - leaked == Dropped(hostMap - leaked, pages, n)
  {
    if n > 0 {
      DroppedMinus(hostMap, pages, n - 1, leaked);
      var range := PageRange(pages[n - 1].ptr / 4096, pages[n - 1].count);
      var rest := Dropped(hostMap, pages, n - 1);
      assert rest - range - leaked == rest - leaked - range;
    }
  }

  /** A list whose first regions are unmapped is right exactly when there are none of these. */
  lemma DroppedValid(pages: seq<PhysicalPage>, hostMap: map<nat, nat>, p2m: seq<nat>, n: nat)
    requires RegionsOk(pages, hostMap, p2m) && n <= |pages|
    ensures RegionsOk(pages, Dropped(hostMap, pages, n), p2m) <==> n == 0
  {
    if n > 0 {
      StaleLookup(pages, hostMap, p2m, n, 0);
      assert RegionOk(hostMap, p2m, pages[0]);
      var h := pages[0].ptr / 4096;
      assert Covers(pages[0], h) && h !in Dropped(hostMap, pages, n);
      hide Dropped;
      assert !RegionOk(Dropped(hostMap, pages, n), p2m, pages[0]);
    }
  }

  /** After the first n regions are unmapped, looking up the start of a listed region still yields its pointer,
      which is dead exactly for these n. */
  lemma StaleLookup(pages: seq<PhysicalPage>, hostMap: map<nat, nat>, p2m: seq<nat>, n: nat, i: nat)
    requires RegionsOk(pages, hostMap, p2m) && n <= |pages| && i < |pages|
    ensures Lookup(pages, pages[i].pfn, 1) == Some(Ok(pages[i].ptr))
    ensures pages[i].ptr / 4096 !in Dropped(hostMap, pages, n) <==> i < n
  {
    var h := pages[i].ptr / 4096;
    RegionStart(pages, hostMap, p2m, i);
    DroppedExact(hostMap, pages, n, h);
    hide Dropped, Lookup, RegionsOk, Covers, Backed;
    LookupExact(pages, hostMap, p2m, pages[i].pfn, 1);
  }

  /** Only region i covers its first host page. */
  lemma RegionStart(pages: seq<PhysicalPage>, hostMap: map<nat, nat>, p2m: seq<nat>, i: nat)
    requires RegionsOk(pages, hostMap, p2m) && i < |pages|
    ensures Inside(pages[i], pages[i].pfn, 1) && pages[i].ptr / 4096 in hostMap
    ensures forall j :: 0 <= j < |pages| ==> (Covers(pages[j], pages[i].ptr / 4096) <==> j == i)
  {
    assert RegionOk(hostMap, p2m, pages[i]);
    assert Covers(pages[i], pages[i].ptr / 4096);
  }

  /** Two regions of one page each. When the second `munmap` of `unmap_all` fails, the list keeps both, and
      looking up pfn 0 yields an address at which nothing is mapped. */
  lemma DeadPointer()
    ensures var pages := [PhysicalPage(0, 4096, 1), PhysicalPage(1, 8192, 1)];
            var hostMap, p2m := map[1 := 70, 2 := 71], [70, 71];
            && RegionsOk(pages, hostMap, p2m)
            && Lookup(pages, 0, 1) == Some(Ok(4096)) && 1 !in Dropped(hostMap, pages, 1)
            && !RegionsOk(pages, Dropped(hostMap, pages, 1), p2m)
  {
    var pages := [PhysicalPage(0, 4096, 1), PhysicalPage(1, 8192, 1)];
    var hostMap, p2m := map[1 := 70, 2 := 71], [70, 71];
    assert Covers(pages[0], 1) && Covers(pages[1], 2);
    assert RegionsOk(pages, hostMap, p2m);
    StaleLookup(pages, hostMap, p2m, 1, 0);
    DroppedValid(pages, hostMap, p2m, 1);
  }

  // ----- mappings left by a failed call -----

  /** The pages a failed call has mapped survive the unmapping of every listed region, and nothing else does. */
  lemma LeakSurvives(pages: seq<PhysicalPage>, hostMap: map<nat, nat>, hostMap': map<nat, nat>, p2m: seq<nat>,
                     base: nat, frames: seq<nat>)
    requires RegionsOk(pages, hostMap, p2m) && PageRange(base, |frames|) !! hostMap.Keys
    requires PartlyMapped(hostMap, hostMap', base, frames)
    ensures Dropped(hostMap', pages, |pages|).Keys == hostMap'.Keys - hostMap.Keys
  {
    forall h: nat
      ensures h in Dropped(hostMap', pages, |pages|) <==> h in hostMap' && h !in hostMap
    {
      DroppedExact(hostMap', pages, |pages|, h);
      forall i | 0 <= i < |pages| && Covers(pages[i], h)
        ensures h in hostMap
      {
        assert RegionOk(hostMap, p2m, pages[i]);
      }
    }
  }

  /** Of two pages to map the first is paged out, so that only the second is mapped and the call reports one
      page to retry: the frame 71 stays mapped at host page 17 after every listed region is unmapped. */
  lemma FailedCallLeavesPage()
    ensures var pages, hostMap, hostMap' := [PhysicalPage(0, 4096, 1)], map[1 := 69], map[1 := 69, 17 := 71];
            && RegionsOk(pages, hostMap, [69, 70, 71])
            && PartlyMapped(hostMap, hostMap', 16, [70, 71])
            && Dropped(hostMap', pages, 1) == map[17 := 71]
  {
    var pages, hostMap, hostMap' := [PhysicalPage(0, 4096, 1)], map[1 := 69], map[1 := 69, 17 := 71];
    assert Covers(pages[0], 1);
    LeakSurvives(pages, hostMap, hostMap', [69, 70, 71], 16, [70, 71]);
    DroppedExact(hostMap', pages, 1, 17);
  }

  /** Mappings are only ever left behind, and only by a call that reports that it could not map. */
  predicate LeaksOnly<T>(r: Result<T>, before: set<nat>, after: set<nat>) {
    before <= after && (before != after ==> r.Err? && MappingError(r.error))
  }

  /** Every host mapping is one of `leaked` or lies in one of the regions from number n on. */
  ghost predicate CoveredBy(hostMap: map<nat, nat>, leaked: set<nat>, pages: seq<PhysicalPage>, n: nat) {
    forall h :: h in hostMap ==> h in leaked || exists i :: n <= i < |pages| && Covers(pages[i], h)
  }

  function FramesOf(p2m: seq<nat>, pfn: nat, count: nat): seq<nat> {
    seq<nat>(count, k requires 0 <= k < count => FrameOf(p2m, pfn + k))
  }

  lemma BackedMore(hostMap: map<nat, nat>, hostMap': map<nat, nat>, p2m: seq<nat>, addr: nat, pfn: nat, n: nat)
    requires Backed(hostMap, p2m, addr, pfn, n)
    requires forall h :: h in hostMap ==> h in hostMap' && hostMap'[h] == hostMap[h]
    ensures Backed(hostMap', p2m, addr, pfn, n)
  {
  }

  lemma NothingMapped(hostMap: map<nat, nat>, frames: seq<nat>)
    ensures PartlyMapped(hostMap, hostMap, 0, frames)
  {
  }

  /** What a failed call has mapped is accounted for as left behind; the rest is tracked as before. */
  lemma LeakCovers(hostMap: map<nat, nat>, hostMap': map<nat, nat>, leaked: set<nat>, pages: seq<PhysicalPage>,
                   base: nat, frames: seq<nat>)
    requires CoveredBy(hostMap, leaked, pages, 0) && PartlyMapped(hostMap, hostMap', base, frames)
    ensures CoveredBy(hostMap', leaked + (hostMap'.Keys - hostMap.Keys), pages, 0)
    ensures leaked <= hostMap.Keys ==>
              && leaked + (hostMap'.Keys - hostMap.Keys) <= hostMap'.Keys
              && hostMap' - (leaked + (hostMap'.Keys - hostMap.Keys)) == hostMap - leaked
  {
  }

  /** A newly mapped region accounts for what was mapped. */
  lemma NewRegionCovers(hostMap: map<nat, nat>, hostMap': map<nat, nat>, leaked: set<nat>, pages: seq<PhysicalPage>,
                        r: PhysicalPage, frames: seq<nat>)
    requires CoveredBy(hostMap, leaked, pages, 0) && |frames| == r.count
    requires PartlyMapped(hostMap, hostMap', r.ptr / 4096, frames)
    ensures CoveredBy(hostMap', leaked, pages + [r], 0)
    ensures forall h :: h in hostMap ==> h in hostMap'
  {
    var all := pages + [r];
    forall h | h in hostMap' && h !in leaked
      ensures exists i :: 0 <= i < |all| && Covers(all[i], h)
    {
      if h in hostMap {
        var i :| 0 <= i < |pages| && Covers(pages[i], h);
        assert all[i] == pages[i];
      } else {
        assert all[|pages|] == r;
      }
    }
  }

  /** In a consistent cache a region no other one meets joins the list. */
  lemma NewRegionOk(hostMap: map<nat, nat>, hostMap': map<nat, nat>, leaked: set<nat>, pages: seq<PhysicalPage>,
                    p2m: seq<nat>, r: PhysicalPage)
    requires RegionsOk(pages, hostMap - leaked, p2m) && Lookup(pages, r.pfn, r.count) == None
    requires leaked <= hostMap.Keys && PageRange(r.ptr / 4096, r.count) !! hostMap.Keys && r.ptr % 4096 == 0
    requires r.count > 0 && (|p2m| > 0 ==> r.pfn + r.count <= |p2m|)
    requires PartlyMapped(hostMap, hostMap', r.ptr / 4096, FramesOf(p2m, r.pfn, r.count))
    requires MapsFrames(hostMap', r.ptr / 4096, FramesOf(p2m, r.pfn, r.count))
    ensures RegionsOk(pages + [r], hostMap' - leaked, p2m) && leaked <= hostMap'.Keys
    ensures Backed(hostMap', p2m, r.ptr, r.pfn, r.count)
  {
    hide RegionsOk, Lookup;
    LookupExact(pages, hostMap - leaked, p2m, r.pfn, r.count);
    forall h | r.ptr / 4096 <= h < r.ptr / 4096 + r.count
      ensures h in hostMap' && h !in leaked && hostMap'[h] == FrameOf(p2m, r.pfn + (h - r.ptr / 4096))
    {
      assert h in PageRange(r.ptr / 4096, r.count);
    }
    assert RegionOk(hostMap' - leaked, p2m, r);
    AddRegion(pages, hostMap - leaked, p2m, r, hostMap' - leaked);
  }

  /** A lookup after foreign pages have been mapped can find them: it does so for every range within the frame
      numbers of the foreign region that no earlier region meets. */
  lemma ForeignFound(pages: seq<PhysicalPage>, foreign: PhysicalPage, pfn: nat, count: nat)
    requires Lookup(pages, pfn, count) == None && Inside(foreign, pfn, Width(count))
    ensures Lookup(pages + [foreign], pfn, count) == Some(Ok(foreign.ptr + (pfn - foreign.pfn) * 4096))
  {
    hide Lookup;
    var j := LookupFirst(pages, pfn, count);
    var all := pages + [foreign];
    var k := LookupFirst(all, pfn, count);
    assert all[j] == foreign;
    assert k == j;
  }

  class PhysicalPages {
    var p2m: seq<nat>
    var pages: seq<PhysicalPage>
    ghost var leaked: set<nat>  // host pages that failed mapping calls have left mapped
    const call: XenCall

    /** The host mappings the list has to account for. */
    ghost function Tracked(): map<nat, nat>
      reads this, call`mem, call`physmap, call`hostMap
    {
      call.hostMap - leaked
    }

    /** Every host mapping lies in a listed region or was left by a failed call. This outlives a failed
        `UnmapAll`, after which the list also names regions that are gone. */
    ghost predicate Covered()
      reads this, call`mem, call`physmap, call`hostMap
    {
      call.Valid() && CoveredBy(call.hostMap, leaked, pages, 0)
    }

    ghost predicate Valid()
      reads this, call`mem, call`physmap, call`hostMap
    {
      Covered() && leaked <= call.hostMap.Keys && RegionsOk(pages, Tracked(), p2m)
    }

    constructor (call: XenCall)
      requires call.Valid() && call.hostMap == map[]
      ensures Valid() && this.call == call && p2m == [] && pages == [] && leaked == {}
    {
      this.call, p2m, pages, leaked := call, [], [], {};
    }

    /** The list of frames is replaced; the cache is right afterwards if its regions map what the new list
        says, as they do when there are none. */
    method LoadP2m(p2m: seq<nat>)
      requires Covered()
      modifies this`p2m
      ensures Covered() && this.p2m == p2m
      ensures old(Valid()) ==> (Valid() <==> forall j :: 0 <= j < |pages| ==> RegionOk(Tracked(), p2m, pages[j]))
    {
      this.p2m := p2m;
    }

    /** Host address of a pfn range: in the region that contains it, else (for a count) in a new region. */
    method PfnToPtr(pfn: nat, count: nat) returns (r: Result<nat>)
      requires Covered()
      requires Lookup(pages, pfn, count) == None && count > 0 && |p2m| > 0 ==> pfn + count <= |p2m|
      modifies this`pages, this`leaked, call`hostMap, call`failures
      ensures Covered() && LeaksOnly(r, old(leaked), leaked)
      ensures Faulted(r, old(call.failures), call.failures)
      ensures Lookup(old(pages), pfn, count).Some? ==>
                r == Lookup(old(pages), pfn, count).value && pages == old(pages) && call.hostMap == old(call.hostMap)
      ensures Lookup(old(pages), pfn, count).None? && count == 0 ==>
                r == Err(MemorySetupFailed("page count is zero"))
                && pages == old(pages) && call.hostMap == old(call.hostMap)
      ensures Lookup(old(pages), pfn, count).None? && count > 0 && r.Err? ==> MappingError(r.error)
      ensures Lookup(old(pages), pfn, count).None? && count > 0 && r.Ok? ==>
                && pages == old(pages) + [PhysicalPage(pfn, r.value, count)]
                && forall h :: h in old(call.hostMap) ==> h in call.hostMap
      ensures r.Err? ==> pages == old(pages)
      ensures old(Valid()) ==> Valid() && (r.Ok? ==> Backed(call.hostMap, p2m, r.value, pfn, Width(count)))
      ensures Lookup(old(pages), pfn, count).Some? || count == 0 ==> call.failures == old(call.failures)
    {
      hide RegionsOk, Backed, CoveredBy;
      var j := 0;
      while j < |pages|
        invariant 0 <= j <= |pages|
        invariant Lookup(pages, pfn, count) == Lookup(pages[j..], pfn, count)
        modifies {}
      {
        var page := pages[j];
        ScanStep(pages, j, pfn, count);
        j := j + 1;
        if pfn >= page.pfn + page.count {
          continue;
        }
        if count > 0 {
          if pfn + count <= page.pfn {
            continue;
          }
          if pfn < page.pfn || pfn + count > page.pfn + page.count {
            return Err(MemorySetupFailed("pfn is out of range"));
          }
        } else {
          if pfn < page.pfn {
            continue;
          }
        }
        LookupBacked(pfn, count);
        return Ok(page.ptr + (pfn - page.pfn) * 4096);
      }
      if count == 0 {
        return Err(MemorySetupFailed("page count is zero"));
      }
      r := PfnAlloc(pfn, count);
    }

    /** In a consistent cache the scan finds exactly the regions that meet a range, and what they map. */
    lemma Found(pfn: nat, count: nat)
      requires Valid()
      ensures Lookup(pages, pfn, count) == None <==>
                forall j :: 0 <= j < |pages| ==> !Overlaps(pages[j], pfn, Width(count))
      ensures forall j :: 0 <= j < |pages| && Inside(pages[j], pfn, Width(count)) ==>
                var addr := pages[j].ptr + (pfn - pages[j].pfn) * 4096;
                && Lookup(pages, pfn, count) == Some(Ok(addr))
                && Backed(call.hostMap, p2m, addr, pfn, pages[j].pfn + pages[j].count - pfn)
    {
      hide RegionsOk, Backed, Lookup;
      LookupExact(pages, Tracked(), p2m, pfn, count);
      forall j | 0 <= j < |pages| && Inside(pages[j], pfn, Width(count))
        ensures Backed(call.hostMap, p2m, pages[j].ptr + (pfn - pages[j].pfn) * 4096, pfn,
                       pages[j].pfn + pages[j].count - pfn)
      {
        BackedMore(Tracked(), call.hostMap, p2m, pages[j].ptr + (pfn - pages[j].pfn) * 4096, pfn,
                   pages[j].pfn + pages[j].count - pfn);
      }
    }

    /** What is found in a consistent cache is mapped. */
    lemma LookupBacked(pfn: nat, count: nat)
      ensures Valid() && Lookup(pages, pfn, count).Some? && Lookup(pages, pfn, count).value.Ok? ==>
                Backed(call.hostMap, p2m, Lookup(pages, pfn, count).value.value, pfn, Width(count))
    {
      hide RegionsOk, Backed, Lookup;
      if Valid() {
        LookupExact(pages, Tracked(), p2m, pfn, count);
        if Lookup(pages, pfn, count).Some? && Lookup(pages, pfn, count).value.Ok? {
          BackedMore(Tracked(), call.hostMap, p2m, Lookup(pages, pfn, count).value.value, pfn, Width(count));
        }
      }
    }

    method PfnAlloc(pfn: nat, count: nat) returns (r: Result<nat>)
      requires Covered() && count > 0
      requires |p2m| > 0 ==> pfn + count <= |p2m|
      modifies this`pages, this`leaked, call`hostMap, call`failures
      ensures Covered() && LeaksOnly(r, old(leaked), leaked)
      ensures Faulted(r, old(call.failures), call.failures)
      ensures exists base :: PartlyMapped(old(call.hostMap), call.hostMap, base, FramesOf(p2m, pfn, count))
      ensures r.Ok? ==>
                && pages == old(pages) + [PhysicalPage(pfn, r.value, count)] && r.value % 4096 == 0
                && MapsFrames(call.hostMap, r.value / 4096, FramesOf(p2m, pfn, count))
      ensures r.Err? ==>
                && MappingError(r.error) && pages == old(pages)
                && leaked == old(leaked) + (call.hostMap.Keys - old(call.hostMap).Keys)
      ensures old(Valid()) && Lookup(old(pages), pfn, count) == None ==>
                Valid() && (r.Ok? ==> Backed(call.hostMap, p2m, r.value, pfn, count))
    {
      hide RegionsOk, Lookup, CoveredBy, PartlyMapped, MapsFrames, PageRange, Backed;
      var frames := EntryFrames(pfn, count);
      assert frames == FramesOf(p2m, pfn, count);
      var addr := call.Mmap(count);
      if addr.None? {
        NothingMapped(call.hostMap, frames);
        assert PartlyMapped(old(call.hostMap), call.hostMap, 0, FramesOf(p2m, pfn, count));
        return Err(MmapFailed);
      }
      var result := call.MmapBatch(addr.value, frames);
      assert PartlyMapped(old(call.hostMap), call.hostMap, addr.value / 4096, frames);
      if result != Ok(0) {
        LeakCovers(old(call.hostMap), call.hostMap, leaked, pages, addr.value / 4096, frames);
        leaked := leaked + (call.hostMap.Keys - old(call.hostMap).Keys);
        assert PartlyMapped(old(call.hostMap), call.hostMap, addr.value / 4096, FramesOf(p2m, pfn, count));
        return Err(if result.Err? then result.error else MmapFailed);
      }
      var page := PhysicalPage(pfn, addr.value, count);
      NewRegionCovers(old(call.hostMap), call.hostMap, leaked, pages, page, frames);
      if old(Valid()) && Lookup(pages, pfn, count) == None {
        NewRegionOk(old(call.hostMap), call.hostMap, leaked, pages, p2m, page);
      }
      pages := pages + [page];
      assert PartlyMapped(old(call.hostMap), call.hostMap, addr.value / 4096, FramesOf(p2m, pfn, count));
      return Ok(addr.value);
    }

    /** Map `count` frames from `mfn` on, whoever owns them. The region is listed under the frame number, so that
        afterwards the list is good for unmapping but not for looking up pfns. */
    method MapForeignPages(mfn: nat, count: nat) returns (r: Result<nat>)
      requires Covered() && count > 0
      modifies this`pages, this`leaked, call`hostMap, call`failures
      ensures Covered() && LeaksOnly(r, old(leaked), leaked)
      ensures Faulted(r, old(call.failures), call.failures)
      ensures r.Ok? ==>
                && pages == old(pages) + [PhysicalPage(mfn, r.value, count)] && r.value % 4096 == 0
                && MapsFrames(call.hostMap, r.value / 4096, seq(count, k requires 0 <= k < count => mfn + k))
      ensures r.Err? ==> MappingError(r.error) && pages == old(pages)
    {
      hide CoveredBy, PartlyMapped, PageRange;
      var frames: seq<nat> := seq(count, k requires 0 <= k < count => mfn + k);
      var addr := call.Mmap(count);
      if addr.None? {
        return Err(MmapFailed);
      }
      var result := call.MmapBatch(addr.value, frames);
      if result != Ok(0) {
        LeakCovers(old(call.hostMap), call.hostMap, leaked, pages, addr.value / 4096, frames);
        leaked := leaked + (call.hostMap.Keys - old(call.hostMap).Keys);
        return Err(if result.Err? then result.error else MmapFailed);
      }
      var page := PhysicalPage(mfn, addr.value, count);
      NewRegionCovers(old(call.hostMap), call.hostMap, leaked, pages, page, frames);
      pages := pages + [page];
      return Ok(addr.value);
    }

    /** The frames to map for a pfn range; before the p2m is loaded a pfn is its own frame. */
    method EntryFrames(pfn: nat, count: nat) returns (frames: seq<nat>)
      requires |p2m| > 0 ==> pfn + count <= |p2m|
      ensures |frames| == count && forall k :: 0 <= k < count ==> frames[k] == FrameOf(p2m, pfn + k)
    {
      frames := [];
      var i := 0;
      while i < count
        invariant 0 <= i <= count && |frames| == i
        invariant forall k :: 0 <= k < i ==> frames[k] == FrameOf(p2m, pfn + k)
      {
        frames := frames + [if |p2m| > 0 then p2m[pfn + i] else pfn + i];
        i := i + 1;
      }
    }

    /** Drop the regions in order. On success only what failed calls have left is still mapped. A failure stops
        after the first `dropped` regions and keeps the whole list, which is right exactly if that is none. */
    method UnmapAll() returns (r: Result<()>, ghost dropped: nat)
      requires Covered()
      modifies this`pages, call`hostMap, call`failures
      ensures Covered() && dropped <= |old(pages)|
      ensures call.hostMap == Dropped(old(call.hostMap), old(pages), dropped)
      ensures r.Ok? ==> pages == [] && dropped == |old(pages)| && call.hostMap.Keys <= leaked
      ensures r.Err? ==> r.error == UnmapFailed && pages == old(pages) && dropped < |pages|
      ensures old(Valid()) ==> (Valid() <==> r.Ok? || dropped == 0)
      ensures Faulted(r, old(call.failures), call.failures)
    {
      hide RegionsOk;
      ghost var tracked := Tracked();
      var j := 0;
      dropped := 0;
      while j < |pages|
        invariant 0 <= j <= |pages| && pages == old(pages) && call.Valid() && dropped == j
        invariant call.hostMap == Dropped(old(call.hostMap), pages, j) && call.failures == old(call.failures)
        modifies call`hostMap, call`failures
      {
        var ok := call.Munmap(pages[j].ptr, pages[j].count);
        if !ok {
          StillCovered(old(call.hostMap), j);
          if old(Valid()) {
            LeakedStay(old(call.hostMap), j);
            DroppedMinus(old(call.hostMap), pages, j, leaked);
            DroppedValid(pages, tracked, p2m, j);
          }
          return Err(UnmapFailed), dropped;
        }
        j := j + 1;
        dropped := dropped + 1;
      }
      StillCovered(old(call.hostMap), j);
      if old(Valid()) {
        LeakedStay(old(call.hostMap), j);
      }
      pages := [];
      assert old(Valid()) ==> Tracked() == map[];
      NoRegions(p2m);
      return Ok(()), dropped;
    }

    /** What is left lies in a region not yet dropped, or was left by a failed call. */
    lemma StillCovered(before: map<nat, nat>, n: nat)
      requires n <= |pages| && call.hostMap == Dropped(before, pages, n)
      requires CoveredBy(before, leaked, pages, 0)
      ensures CoveredBy(call.hostMap, leaked, pages, n)
    {
      forall h | h in call.hostMap && h !in leaked
        ensures exists i :: n <= i < |pages| && Covers(pages[i], h)
      {
        DroppedExact(before, pages, n, h);
        var i :| 0 <= i < |pages| && Covers(pages[i], h);
        assert i >= n;
      }
    }

    /** Regions do not meet what failed calls have left. */
    lemma LeakedStay(before: map<nat, nat>, n: nat)
      requires n <= |pages| && call.hostMap == Dropped(before, pages, n)
      requires leaked <= before.Keys && RegionsOk(pages, before - leaked, p2m)
      ensures leaked <= call.hostMap.Keys
    {
      forall h | h in leaked
        ensures h in call.hostMap
      {
        DroppedExact(before, pages, n, h);
        forall i | 0 <= i < n
          ensures !Covers(pages[i], h)
        {
          assert RegionOk(before - leaked, p2m, pages[i]);
          assert Covers(pages[i], h) ==> h in before - leaked;
        }
      }
    }

    /** Drop the region that starts at `pfn`. */
    method Unmap(pfn: nat) returns (r: Result<()>)
      requires Covered()
      modifies this`pages, call`hostMap, call`failures
      ensures Covered()
      ensures (forall j :: 0 <= j < |old(pages)| ==> old(pages)[j].pfn != pfn) ==> r.Err?
      ensures r.Ok? ==> exists j :: 0 <= j < |old(pages)| && old(pages)[j].pfn == pfn
                          && pages == old(pages)[..j] + old(pages)[j + 1..]
                          && call.hostMap == old(call.hostMap) - PageRange(old(pages)[j].ptr / 4096,
                                                                           old(pages)[j].count)
                          && (old(Valid()) ==> forall i :: 0 <= i < |pages| ==>
                                pages[i] in old(pages) && !Overlaps(pages[i], pfn, old(pages)[j].count))
      ensures r.Err? && (exists j :: 0 <= j < |old(pages)| && old(pages)[j].pfn == pfn) ==> r.error == UnmapFailed
      ensures r.Err? ==> pages == old(pages) && call.hostMap == old(call.hostMap)
      ensures old(Valid()) ==> Valid()
      ensures Faulted(r, old(call.failures), call.failures)
    {
      hide RegionsOk;
      var j := 0;
      while j < |pages| && pages[j].pfn != pfn
        invariant 0 <= j <= |pages|
        invariant forall i :: 0 <= i < j ==> pages[i].pfn != pfn
      {
        j := j + 1;
      }
      if j == |pages| {
        return Err(MemorySetupFailed("cannot unmap missing page"));
      }
      ghost var tracked := Tracked();
      var ok := call.Munmap(pages[j].ptr, pages[j].count);
      if !ok {
        return Err(UnmapFailed);
      }
      if old(Valid()) {
        DropRegion(pages, tracked, p2m, j);
        LeakedApart(tracked, j);
        assert Tracked() == tracked - PageRange(pages[j].ptr / 4096, pages[j].count);
      }
      OthersCover(old(call.hostMap), j);
      pages := pages[..j] + pages[j + 1..];
      return Ok(());
    }

    lemma LeakedApart(tracked: map<nat, nat>, j: nat)
      requires j < |pages| && RegionsOk(pages, tracked, p2m) && leaked !! tracked.Keys
      ensures leaked !! PageRange(pages[j].ptr / 4096, pages[j].count)
    {
      assert RegionOk(tracked, p2m, pages[j]);
    }

    lemma OthersCover(before: map<nat, nat>, j: nat)
      requires j < |pages| && call.hostMap == before - PageRange(pages[j].ptr / 4096, pages[j].count)
      requires CoveredBy(before, leaked, pages, 0)
      ensures CoveredBy(call.hostMap, leaked, pages[..j] + pages[j + 1..], 0)
    {
      var rest := pages[..j] + pages[j + 1..];
      forall h | h in call.hostMap && h !in leaked
        ensures exists i :: 0 <= i < |rest| && Covers(rest[i], h)
      {
        var i :| 0 <= i < |pages| && Covers(pages[i], h);
        assert i != j;
        assert rest[if i < j then i else i - 1] == pages[i];
      }
    }
  }

  lemma NoRegions(p2m: seq<nat>)
    ensures RegionsOk([], map[], p2m)
  {
  }

  lemma ScanStep(pages: seq<PhysicalPage>, j: nat, pfn: nat, count: nat)
    requires j < |pages|
    ensures Lookup(pages[j..], pfn, count)
         == if pfn >= pages[j].pfn + pages[j].count || pfn + Width(count) <= pages[j].pfn
            then Lookup(pages[j + 1..], pfn, count)
            else if Inside(pages[j], pfn, Width(count)) then Some(Ok(pages[j].ptr + (pfn - pages[j].pfn) * 4096))
            else Some(Err(MemorySetupFailed("pfn is out of range")))
  {
    assert pages[j..][0] == pages[j] && pages[j..][1..] == pages[j + 1..];
  }
}
