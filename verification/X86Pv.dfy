/** The PV platform: sizing, placing and filling the initial page tables of a guest. */
module X86Pv {
  import opened Arithmetic
  import opened BootDomains
  import opened Bytes
  import opened DomainMemory
  import opened Filling
  import opened Layouts
  import opened PageTables
  import opened Pages
  import opened Paging
  import opened PhysicalPageCache
  import opened Results
  import opened XenCalls

  const EXTRA_PAGES: nat := 1 + 512 * 1024 / 4096  // boot stack and 512 KiB of padding

  predicate DomainTooSmall(e: Error) {
    e == MemorySetupFailed("pfn_end greater than p2m size")
  }

  /** `BootDomain::round_up(addr, bits_to_mask(22))`: the last byte of the 4 MiB block of addr. */
  function RoundUp4M(addr: nat): nat {
    SetLow(addr, 0x40_0000)
  }

  /** The conditions under which a mapping of [from, to] to pfns from `pfn` on can be added. */
  predicate CountAccepted(t: PageTable, from: nat, to: nat, pfn: nat, p2mSize: nat)
    requires t.mappingsCount <= MAX_MAPPINGS && from <= to
  {
    && t.mappingsCount < MAX_MAPPINGS
    && pfn + (to - from) / 4096 < p2mSize
    && forall i :: 0 <= i < t.mappingsCount ==> !(from < t.mappings[i].area.to && to > t.mappings[i].area.from)
  }

  /** The first try of the sizing, with `pfns` pages taken before, is accepted and leaves room for its tables. */
  predicate FirstTryFits(t: PageTable, first: nat, pfns: nat, p2mSize: nat)
    requires t.mappingsCount <= MAX_MAPPINGS
  {
    var end := RoundUp4M(first + (pfns + EXTRA_PAGES) * 4096);
    RoundedUp(first + (pfns + EXTRA_PAGES) * 4096);
    var tables := CountMapping(t.mappings[..t.mappingsCount], first, end, pfns).area.pgtables;
    && CountAccepted(t, first, end, 0, p2mSize)
    && tables > 0 && first + (pfns + tables + EXTRA_PAGES) * 4096 <= end + 1
  }

  /** Each number is at least 4 MiB above the one before. */
  predicate Spaced(ends: seq<nat>) {
    forall i :: 0 <= i < |ends| - 1 ==> ends[i] + 0x40_0000 <= ends[i + 1]
  }

  lemma FewSpaced(ends: seq<nat>)
    requires |ends| <= 1
    ensures Spaced(ends)
  {
  }

  /** The ends that are tried, `allocEnd` being the end of what is taken before: the last byte of the 4 MiB block in
      which 129 pages end, and while the tables counted for an end do not fit before it with as many pages to spare,
      that of the block in which they do. */
  ghost predicate TriedEnds(cmps: seq<PageTableMapping>, first: nat, allocEnd: nat, base: nat, tries: seq<nat>) {
    && (|tries| > 0 ==> tries[0] == (allocEnd + 129 * 4096) / 0x40_0000 * 0x40_0000 + 0x3f_ffff)
    && forall i :: 0 <= i < |tries| - 1 ==> TriedAfter(cmps, first, allocEnd, base, tries[i], tries[i + 1])
  }

  predicate TriedAfter(cmps: seq<PageTableMapping>, first: nat, allocEnd: nat, base: nat, end: nat, next: nat) {
    var need := allocEnd + (CountMapping(cmps, first, end, base).area.pgtables + 129) * 4096;
    need > end + 1 && next == need / 0x40_0000 * 0x40_0000 + 0x3f_ffff
  }

  lemma NoneTried(cmps: seq<PageTableMapping>, first: nat, allocEnd: nat, base: nat)
    ensures TriedEnds(cmps, first, allocEnd, base, [])
  {
  }

  lemma TriedMore(cmps: seq<PageTableMapping>, first: nat, allocEnd: nat, base: nat, tries: seq<nat>, pages: nat)
    requires TriedEnds(cmps, first, allocEnd, base, tries)
    requires |tries| == 0 ==> pages == EXTRA_PAGES
    requires |tries| > 0 ==>
               && pages == EXTRA_PAGES + CountMapping(cmps, first, tries[|tries| - 1], base).area.pgtables
               && allocEnd + pages * 4096 > tries[|tries| - 1] + 1
    ensures TriedEnds(cmps, first, allocEnd, base, tries + [RoundUp4M(allocEnd + pages * 4096)])
  {
    hide CountMapping;
    BlockEnd(allocEnd + pages * 4096);
    hide RoundUp4M;
    var more := tries + [RoundUp4M(allocEnd + pages * 4096)];
    forall i | 0 <= i < |more| - 1
      ensures TriedAfter(cmps, first, allocEnd, base, more[i], more[i + 1])
    {
      if i < |tries| - 1 {
        assert TriedAfter(cmps, first, allocEnd, base, tries[i], tries[i + 1]);
      }
    }
  }

  lemma SpacedMore(ends: seq<nat>, x: nat)
    requires Spaced(ends) && (|ends| > 0 ==> ends[|ends| - 1] + 0x40_0000 <= x)
    ensures Spaced(ends + [x]) && (ends + [x])[|ends|] == x
  {
  }

  lemma AcceptedSize(t: PageTable, from: nat, to: nat, p2mSize: nat)
    requires t.mappingsCount <= MAX_MAPPINGS && from <= to
    ensures CountAccepted(t, from, to, 0, p2mSize) ==> t.mappingsCount < MAX_MAPPINGS && (to - from) / 4096 < p2mSize
  {
  }

  lemma WithinAccepted(t: PageTable, first: nat, allocEnd: nat, end: nat, p2mSize: nat)
    requires t.mappingsCount == 0 && first <= end && EndBounded(first, allocEnd, end + 1)
    ensures BoundFits(first, allocEnd, p2mSize) ==> CountAccepted(t, first, end, 0, p2mSize)
  {
    if BoundFits(first, allocEnd, p2mSize) {
      hide AreaLimit;
      DivOrder(end - first, AreaLimit(allocEnd - first), 4096);
    }
  }

  /** What the first try needs, in the terms of the loop. */
  lemma FirstTryOpen(t: PageTable, first: nat, pfns: nat, p2mSize: nat)
    requires t.mappingsCount <= MAX_MAPPINGS
    ensures var allocEnd := first + pfns * 4096;
            var end := RoundUp4M(allocEnd + EXTRA_PAGES * 4096);
            && first <= end
            && (FirstTryFits(t, first, pfns, p2mSize) ==>
                  && CountAccepted(t, first, end, 0, p2mSize)
                  && var tables := CountMapping(t.mappings[..t.mappingsCount], first, end, pfns).area.pgtables;
                     allocEnd + (tables + EXTRA_PAGES) * 4096 <= end + 1)
  {
    hide CountMapping;
    RoundedUp(first + pfns * 4096 + EXTRA_PAGES * 4096);
    assert first + (pfns + EXTRA_PAGES) * 4096 == first + pfns * 4096 + EXTRA_PAGES * 4096;
  }

  /** Then there are enough pages for the tables. */
  lemma FirstTryRoom(t: PageTable, first: nat, pfns: nat, p2mSize: nat)
    requires t.mappingsCount <= MAX_MAPPINGS && FirstTryFits(t, first, pfns, p2mSize)
    ensures var end := RoundUp4M(first + pfns * 4096 + EXTRA_PAGES * 4096);
            var tables := CountMapping(t.mappings[..t.mappingsCount], first, end, pfns).area.pgtables;
            tables > 0 && pfns + tables <= p2mSize
  {
    hide CountMapping;
    assert first + (pfns + EXTRA_PAGES) * 4096 == first + pfns * 4096 + EXTRA_PAGES * 4096;
  }

  /** With `pfns` pages taken before, the p2m list, the shared pages and the other tables can follow. */
  predicate ListFirstFits(t: PageTable, info: BootImageInfo, pfns: nat, p2mSize: nat)
    requires t.mappingsCount == 0
  {
    var n := PagesFor(8 * p2mSize);
    && n > 0
    && var to := info.virtP2mBase + n * 4096 - 1;
       var list := Shift(CountMapping([], info.virtP2mBase, to, pfns), pfns, n);
       var next := pfns + n + list.area.pgtables + 3;
    && CountAccepted(t, info.virtP2mBase, to, pfns, p2mSize) && next <= p2mSize
    && FirstTryFits(PageTable(1, t.mappings[0 := list]), info.virtBase, next, p2mSize)
  }

  /** Then the segment of the list fits. */
  lemma ListFirstSegment(t: PageTable, info: BootImageInfo, pfns: nat, p2mSize: nat)
    requires t.mappingsCount == 0 && ListFirstFits(t, info, pfns, p2mSize)
    ensures var n := PagesFor(8 * p2mSize);
            var to := info.virtP2mBase + n * 4096 - 1;
            var list := CountMapping([], info.virtP2mBase, to, pfns);
            && n > 0 && CountAccepted(t, info.virtP2mBase, to, pfns, p2mSize)
            && pfns + n + list.area.pgtables + 3 <= p2mSize
            && Shift(list, pfns, n).area.pgtables == list.area.pgtables
            && FirstTryFits(PageTable(1, t.mappings[0 := Shift(list, pfns, n)]), info.virtBase,
                            pfns + n + list.area.pgtables + 3, p2mSize)
  {
    hide CountMapping, FirstTryFits;
  }

  function P2mBytes(p2mSize: nat): nat {
    ClearLow(p2mSize * 8 + 4096 - 1, 4096)
  }

  lemma EmptyCache(phys: PhysicalPages)
    requires phys.Valid() && phys.pages == [] && phys.leaked == {}
    ensures phys.call.hostMap == map[]
  {
    assert phys.Tracked() == phys.call.hostMap;
    forall h | h in phys.call.hostMap
      ensures false
    {
    }
  }

  lemma RoundedUp(addr: nat)
    ensures addr <= RoundUp4M(addr) < addr + 0x40_0000 && (RoundUp4M(addr) + 1) % 0x40_0000 == 0
  {
  }

  /** Growing the tables past the tried end moves the next try at least 4 MiB further. */
  lemma RetryRaisesEnd(start: nat, pages: nat, pages': nat)
    requires start + pages' * 4096 > RoundUp4M(start + pages * 4096) + 1
    ensures RoundUp4M(start + pages' * 4096) >= RoundUp4M(start + pages * 4096) + 0x40_0000
  {
    var x, y, s := start + pages * 4096, start + pages' * 4096, 0x40_0000;
    BlockEnd(x);
    BlockEnd(y);
    hide RoundUp4M;
    DivUnique(x / s * s + s, x / s + 1, s);
    DivOrder(x / s * s + s, y, s);
  }

  lemma BlockEnd(addr: nat)
    ensures RoundUp4M(addr) == addr / 0x40_0000 * 0x40_0000 + 0x40_0000 - 1
  {
    ModBounds(addr, 0x40_0000);
  }

  /** A bound on the mapped area when `used` bytes from its start are taken before the tables. */
  function AreaLimit(used: nat): nat {
    used + used / 128 + 0x60_0000
  }

  /** Even an area of that size ends before the next 2^48 boundary. */
  predicate AreaFits(first: nat, used: nat) {
    first % VIRT_LIMIT + AreaLimit(used) < VIRT_LIMIT
  }

  /** The area ends within the bound for what was taken before its tables. */
  predicate EndBounded(first: nat, allocEnd: nat, end: nat) {
    first <= allocEnd && (AreaFits(first, allocEnd - first) ==> end <= first + AreaLimit(allocEnd - first))
  }

  /** The low 48 bits of the p2m list miss every area within the bound for `used` bytes. */
  predicate ListClear(info: BootImageInfo, totalPages: nat, used: nat) {
    || info.virtBase % VIRT_LIMIT + AreaLimit(used) <= info.virtP2mBase % VIRT_LIMIT
    || info.virtP2mBase % VIRT_LIMIT + PagesFor(8 * totalPages) * 4096 <= info.virtBase % VIRT_LIMIT
  }

  /** The domain has more pages than an area within its bound. */
  predicate BoundFits(first: nat, allocEnd: nat, p2mSize: nat) {
    first <= allocEnd && AreaFits(first, allocEnd - first) && AreaLimit(allocEnd - first) / 4096 < p2mSize
  }

  /** Pages for a list of n pages and its tables. */
  function ListPages(n: nat): nat {
    n + n * 4096 / 0x20_0000 + n * 4096 / 0x4000_0000 + n * 4096 / 0x80_0000_0000 + 6
  }

  /** Behind an area that ends at `end` there is room for the list and its tables, and its addresses are free. */
  predicate LateListFits(info: BootImageInfo, end: nat, p2mSize: nat)
    requires end > 0
  {
    && NoCrossing(info, end, p2mSize) && ListApart(info, end, p2mSize)
    && (end - info.virtBase) / 4096 + ListPages(PagesFor(8 * p2mSize)) <= p2mSize
  }

  /** This many pages for tables, stack and padding keep the area within its bound. */
  predicate PagesBounded(first: nat, allocEnd: nat, pages: nat) {
    first <= allocEnd
    && (AreaFits(first, allocEnd - first) ==>
          allocEnd - first + pages * 4096 + 0x40_0000 <= AreaLimit(allocEnd - first))
  }

  lemma TouchedAtMost(from: nat, to: nat, s: nat)
    requires from <= to && s > 0
    ensures to / s - from / s <= (to - from) / s + 1
  {
    var a, b, c := to / s, from / s, (to - from) / s;
    assert to < (a + 1) * s && from < (b + 1) * s && to - from < (c + 1) * s && a * s <= to;
    assert (b + 1) * s + (c + 1) * s == (b + c + 2) * s;
    MulOrder(b + c + 2, a, s);
  }

  /** The first mapping of an area needs few tables for its size. */
  lemma FewTables(first: nat, end: nat, base: nat)
    requires first < end && first / VIRT_LIMIT == end / VIRT_LIMIT
    ensures CountMapping([], first, end, base).area.pgtables
         <= (end - first) / 0x20_0000 + (end - first) / 0x4000_0000 + (end - first) / 0x80_0000_0000 + 7
  {
    hide CountMapping, Owns;
    var m := CountMapping([], first, end, base);
    CountStacked([], first, end, base);
    CountedArea([], first, end, base);
    LowAddresses(first, end);
    LevelTables(first, end, base, 1);
    LevelTables(first, end, base, 2);
    LevelTables(first, end, base, 3);
    LevelTables(first, end, base, 4);
    SpanValues();
    TouchedAtMost(m.area.from, m.area.to, Span(1));
    TouchedAtMost(m.area.from, m.area.to, Span(2));
    TouchedAtMost(m.area.from, m.area.to, Span(3));
    DivUnique(m.area.from, 0, Span(4));
    DivUnique(m.area.to, 0, Span(4));
  }

  /** The second mapping needs few tables, too. */
  lemma SecondFewTables(first: PageTableMapping, from: nat, n: nat, base: nat)
    requires AreaOk(first.area) && forall k :: 1 <= k <= 4 ==> Owns(first, k)
    requires from % 4096 == 0 && n > 0 && from / VIRT_LIMIT == (from + n * 4096 - 1) / VIRT_LIMIT
    requires (from + n * 4096 - 1) % VIRT_LIMIT < first.area.from || first.area.to < from % VIRT_LIMIT
    ensures n + CountMapping([first], from, from + n * 4096 - 1, base).area.pgtables <= ListPages(n)
  {
    hide CountMapping, Owns, Shift;
    var to := from + n * 4096 - 1;
    var m := CountMapping([first], from, to, base);
    LastByte(from, n);
    SameTop(from, to);
    CountStacked([first], from, to, base);
    SecondLevelTables(first, from % VIRT_LIMIT, to % VIRT_LIMIT, base, 1);
    SecondLevelTables(first, from % VIRT_LIMIT, to % VIRT_LIMIT, base, 2);
    SecondLevelTables(first, from % VIRT_LIMIT, to % VIRT_LIMIT, base, 3);
    SecondLevelTables(first, from % VIRT_LIMIT, to % VIRT_LIMIT, base, 4);
    CountMasked([first], from, to, base);
    SpanValues();
    hide Span;
    TouchedAtMost(from % VIRT_LIMIT, to % VIRT_LIMIT, 0x20_0000);
    TouchedAtMost(from % VIRT_LIMIT, to % VIRT_LIMIT, 0x4000_0000);
    TouchedAtMost(from % VIRT_LIMIT, to % VIRT_LIMIT, 0x80_0000_0000);
    DivOrder(to - from, n * 4096, 0x20_0000);
    DivOrder(to - from, n * 4096, 0x4000_0000);
    DivOrder(to - from, n * 4096, 0x80_0000_0000);
  }

  /** At most one table for each region touched, and no second root. */
  lemma SecondLevelTables(first: PageTableMapping, from: nat, to: nat, base: nat, k: nat)
    requires AreaOk(first.area) && 1 <= k <= 4 && Owns(first, k) && from < to < VIRT_LIMIT
    requires to < first.area.from || first.area.to < from
    ensures var m := CountMapping([first], from, to, base);
            Lev(m, k).pgtables <= if k == 4 then 0 else to / Span(k) - from / Span(k) + 1
  {
    hide CountMapping, Shift;
    hide Owns, Span, Tabled, Has;
    var m := CountMapping([first], from, to, base);
    CountSecond(first, from, to, base, 0, 0, k);
    CountedArea([first], from, to, base);
    ShiftedLevel(m, 0, 0, k);
    assert Shift(m, 0, 0).area.from == from && Shift(m, 0, 0).area.to == to;
    FewRest(Shift(m, 0, 0), first, k);
    if k == 4 {
      OnlyRoot(first, from, to);
      NoRest(Shift(m, 0, 0), first);
    }
  }

  lemma FewRest(m: PageTableMapping, first: PageTableMapping, k: nat)
    requires 1 <= k <= 4 && OwnsRest(m, first, k) && m.area.from < m.area.to
    ensures Lev(m, k).pgtables <= m.area.to / Span(k) - m.area.from / Span(k) + 1
  {
    var lv := Lev(m, k);
    DivNat(lv.from, Span(k));
    DivOrder(m.area.from, m.area.to, Span(k));
    if lv.from < lv.to {
      DivOrder(lv.from, lv.to, Span(k));
      hide Span;
      assert Has(lv, k, lv.from / Span(k)) && Has(lv, k, lv.to / Span(k));
    }
  }

  lemma NoRest(m: PageTableMapping, first: PageTableMapping)
    requires OwnsRest(m, first, 4)
    requires forall i: nat :: m.area.from / Span(4) <= i <= m.area.to / Span(4) ==> Has(Lev(first, 4), 4, i)
    ensures Lev(m, 4).pgtables == 0
  {
    hide Span;
    StartsSomewhere(Lev(m, 4), 4);
  }

  /** All addresses share the one region of the root, which the first mapping owns. */
  lemma OnlyRoot(first: PageTableMapping, from: nat, to: nat)
    requires AreaOk(first.area) && Owns(first, 4) && from < to < VIRT_LIMIT
    ensures forall i: nat :: from / Span(4) <= i <= to / Span(4) ==> Has(Lev(first, 4), 4, i)
  {
    SpanValues();
    DivUnique(from, 0, Span(4));
    DivUnique(to, 0, Span(4));
    DivUnique(first.area.from, 0, Span(4));
    DivUnique(first.area.to, 0, Span(4));
  }

  /** With `pfns` pages taken before, everything fits in the usual order: the shared pages, an area within its bound,
      and behind it the list and its tables, at addresses that no area within the bound needs. */
  predicate ListLastFits(info: BootImageInfo, pfns: nat, p2mSize: nat) {
    var used, n := pfns * 4096 + 3 * 4096, PagesFor(8 * p2mSize);
    && !P2mFirst(info) && p2mSize > 0 && AreaFits(info.virtBase, used)
    && info.virtP2mBase / VIRT_LIMIT == (info.virtP2mBase + n * 4096 - 1) / VIRT_LIMIT
    && ListClear(info, p2mSize, used)
    && AreaLimit(used) / 4096 + 1 + ListPages(n) <= p2mSize
  }

  /** A list accepted behind the first area, with its segment inside the domain, completes the plan. */
  lemma LatePlanned(before: PageTable, after: PageTable, info: BootImageInfo, end: nat, tables: nat, p2mSize: nat)
    requires before.mappingsCount == 1 && end > info.virtBase && end % 0x40_0000 == 0 && PagesFor(8 * p2mSize) > 0
    requires before.mappings[0] == CountMapping([], info.virtBase, (end - 1) as nat, tables)
    requires var n, base := PagesFor(8 * p2mSize), (end - info.virtBase) / 4096;
             var to := info.virtP2mBase + n * 4096 - 1;
             && CountAccepted(before, info.virtP2mBase, to, base, p2mSize)
             && after == PageTable(2, before.mappings[1 :=
                  Shift(CountMapping(before.mappings[..1], info.virtP2mBase, to, base), base, n)])
             && tables + before.mappings[0].area.pgtables < base
             && base + n + after.mappings[1].area.pgtables <= p2mSize
    ensures PlannedTables(after, info, end, tables, p2mSize)
  {
    hide CountMapping, Shift, PagesFor;
    assert before.mappings[..1] == [before.mappings[0]];
  }

  lemma ListLastParts(info: BootImageInfo, pfns: nat, p2mSize: nat)
    requires ListLastFits(info, pfns, p2mSize)
    ensures !P2mFirst(info) && pfns + 3 <= p2mSize
    ensures BoundFits(info.virtBase, info.virtBase + pfns * 4096 + 3 * 4096, p2mSize)
  {
    hide ListClear, AreaFits, PagesFor;
    DivOrder(pfns * 4096 + 3 * 4096, AreaLimit(pfns * 4096 + 3 * 4096), 4096);
    DivUnique(pfns * 4096 + 3 * 4096, pfns + 3, 4096);
  }

  lemma ListLastLate(info: BootImageInfo, pfns: nat, p2mSize: nat, end: nat)
    requires ListLastFits(info, pfns, p2mSize) && end > info.virtBase
    requires EndBounded(info.virtBase, info.virtBase + pfns * 4096 + 3 * 4096, end)
    ensures info.virtP2mBase % 4096 == 0 && LateListFits(info, end, p2mSize)
  {
    hide PagesFor, ListPages;
    var used := pfns * 4096 + 3 * 4096;
    var limit := AreaLimit(used);
    hide AreaLimit;
    P2mPages(p2mSize);
    DivOrder(end - info.virtBase, limit, 4096);
    var q, p := info.virtBase / VIRT_LIMIT, info.virtP2mBase / VIRT_LIMIT;
    ModBounds(info.virtBase, VIRT_LIMIT);
    ModBounds(info.virtP2mBase, VIRT_LIMIT);
    ModBounds(info.virtP2mBase + PagesFor(8 * p2mSize) * 4096 - 1, VIRT_LIMIT);
    DivUnique(end - 1, q, VIRT_LIMIT);
    ModBounds(end - 1, VIRT_LIMIT);
  }

  /** Then the list behind the first area is accepted, and its segment fits. */
  lemma LateAccepted(t: PageTable, info: BootImageInfo, end: nat, tables: nat, p2mSize: nat)
    requires t.mappingsCount == 1 && end > info.virtBase && end % 0x40_0000 == 0 && p2mSize > 0
    requires t.mappings[0] == CountMapping([], info.virtBase, (end - 1) as nat, tables)
    requires info.virtBase % 4096 == 0 && info.virtP2mBase % 4096 == 0 && LateListFits(info, end, p2mSize)
    ensures var n, base := PagesFor(8 * p2mSize), (end - info.virtBase) / 4096;
            var to := info.virtP2mBase + n * 4096 - 1;
            && n > 0 && CountAccepted(t, info.virtP2mBase, to, base, p2mSize)
            && base + n + CountMapping([t.mappings[0]], info.virtP2mBase, to, base).area.pgtables <= p2mSize
  {
    hide CountMapping, PagesFor, Owns;
    var n, base := PagesFor(8 * p2mSize), (end - info.virtBase) / 4096;
    P2mPages(p2mSize);
    PageAlignedEnd(end);
    FirstMapping(info.virtBase, end, tables);
    CountedArea([], info.virtBase, end - 1, tables);
    SecondFewTables(t.mappings[0], info.virtP2mBase, n, base);
    LastByte(info.virtP2mBase, n);
    SameTop(info.virtP2mBase, info.virtP2mBase + n * 4096 - 1);
    DivUnique(n * 4096 - 1, n - 1, 4096);
    if info.virtP2mBase < VIRT_LIMIT {
      ModBounds(info.virtP2mBase + n * 4096 - 1, VIRT_LIMIT);
      DivUnique(info.virtP2mBase, 0, VIRT_LIMIT);
    }
  }

  lemma LowAddresses(first: nat, end: nat)
    requires first < end && first / VIRT_LIMIT == end / VIRT_LIMIT
    ensures first % VIRT_LIMIT < end % VIRT_LIMIT && end % VIRT_LIMIT - first % VIRT_LIMIT == end - first
  {
    var q := first / VIRT_LIMIT;
    assert first == q * VIRT_LIMIT + first % VIRT_LIMIT && end == q * VIRT_LIMIT + end % VIRT_LIMIT;
  }

  lemma LevelTables(first: nat, end: nat, base: nat, k: nat)
    requires first % VIRT_LIMIT < end % VIRT_LIMIT && 1 <= k <= 4
    ensures var m := CountMapping([], first, end, base);
            Lev(m, k).pgtables == m.area.to / Span(k) - m.area.from / Span(k) + 1
  {
    hide CountMapping;
    var m := CountMapping([], first, end, base);
    CountFirst(first, end, base, k);
    CountedArea([], first, end, base);
    OwnedEnds(Lev(m, k), m.area, k);
  }

  /** An end tried within the bound leads to a number of pages that keeps the next one within it. */
  lemma NextEndBounded(first: nat, used: nat, end: nat, base: nat)
    requires AreaFits(first, used) && first < end && end < first + AreaLimit(used)
    ensures var tables := CountMapping([], first, end, base).area.pgtables;
            (tables + EXTRA_PAGES) * 4096 + used + 0x40_0000 <= AreaLimit(used)
  {
    hide CountMapping;
    DivUnique(first, first / VIRT_LIMIT, VIRT_LIMIT);
    var q := first / VIRT_LIMIT;
    assert first == q * VIRT_LIMIT + first % VIRT_LIMIT;
    DivUnique(end, q, VIRT_LIMIT);
    FewTables(first, end, base);
  }

  /** The sizing loop stays within the bound. */
  lemma TriesBounded(first: nat, allocEnd: nat, pages: nat, base: nat)
    requires PagesBounded(first, allocEnd, pages)
    ensures var end := RoundUp4M(allocEnd + pages * 4096);
            && EndBounded(first, allocEnd, end + 1)
            && (first < end ==>
                  PagesBounded(first, allocEnd, CountMapping([], first, end, base).area.pgtables + EXTRA_PAGES))
  {
    hide CountMapping;
    var end := RoundUp4M(allocEnd + pages * 4096);
    if AreaFits(first, allocEnd - first) && first < end {
      hide AreaFits, AreaLimit;
      NextEndBounded(first, allocEnd - first, end, base);
    }
  }

  lemma FirstTryBounded(first: nat, allocEnd: nat)
    requires first <= allocEnd
    ensures PagesBounded(first, allocEnd, EXTRA_PAGES)
  {
  }

  /** Once the tables are placed, one page and the padding up to the end of the area still fit. */
  lemma PaddingFits(first: nat, pfns: nat, end: nat, total: nat)
    requires first % 4096 == 0 && end % 0x40_0000 == 0 && (end - 1 - first) / 4096 < total
    requires first + pfns * 4096 + EXTRA_PAGES * 4096 <= end
    ensures pfns + 1 + (end - (first + (pfns + 1) * 4096)) / 4096 == (end - first) / 4096 <= total
    ensures end % 4096 == 0 && pfns + EXTRA_PAGES <= (end - first) / 4096
  {
    var b, e := first / 4096, end / 0x40_0000 * 1024;
    assert first == 4096 * b && end == 4096 * e;
    PaddingPages(first, end, b, e, pfns);
  }

  lemma PaddingPages(first: int, end: int, b: int, e: int, pfns: nat)
    requires first == 4096 * b && end == 4096 * e
    ensures (end - first) / 4096 == e - b && (end - 1 - first) / 4096 == e - b - 1
    ensures (end - (first + (pfns + 1) * 4096)) / 4096 == e - b - pfns - 1 && end % 4096 == 0
  {
    DivUnique(end - first, e - b, 4096);
    DivUnique(end - 1 - first, e - b - 1, 4096);
    DivUnique(end - (first + (pfns + 1) * 4096), e - b - pfns - 1, 4096);
  }

  // Word numbers of the start-info fields; each takes one 64-bit word, the text fields bytes before and after.
  const NR_PAGES: nat := 4
  const SHARED_INFO: nat := 5
  const FLAGS: nat := 6
  const STORE_MFN: nat := 7
  const STORE_EVTCHN: nat := 8
  const CONSOLE_MFN: nat := 9
  const CONSOLE_EVTCHN: nat := 10
  const PT_BASE: nat := 11
  const NR_PT_FRAMES: nat := 12
  const MFN_LIST: nat := 13
  const MOD_START: nat := 14
  const MOD_LEN: nat := 15
  const FIRST_P2M_PFN: nat := 144
  const NR_P2M_FRAMES: nat := 145

  const GUEST_MAGIC: string := "xen-3.0-x86_64"
  const CMDLINE_AT: nat := 128  // byte offset of the command line
  const CMDLINE_SIZE: nat := 1024

  datatype StartInfo = StartInfo(
    nrPages: nat, sharedInfo: nat, storeMfn: nat, storeEvtchn: nat, consoleMfn: nat, consoleEvtchn: nat,
    ptBase: nat, nrPtFrames: nat, mfnList: nat, modStart: nat, modLen: nat, firstP2mPfn: nat, nrP2mFrames: nat,
    cmdline: string)

  /** The value of word w of the start info; 0 for the flags and past the last field. */
  function FieldOf(s: StartInfo, w: nat): nat {
    if w == NR_PAGES then s.nrPages
    else if w == SHARED_INFO then s.sharedInfo
    else if w == STORE_MFN then s.storeMfn
    else if w == STORE_EVTCHN then s.storeEvtchn
    else if w == CONSOLE_MFN then s.consoleMfn
    else if w == CONSOLE_EVTCHN then s.consoleEvtchn
    else if w == PT_BASE then s.ptBase
    else if w == NR_PT_FRAMES then s.nrPtFrames
    else if w == MFN_LIST then s.mfnList
    else if w == MOD_START then s.modStart
    else if w == MOD_LEN then s.modLen
    else if w == FIRST_P2M_PFN then s.firstP2mPfn
    else if w == NR_P2M_FRAMES then s.nrP2mFrames
    else 0
  }

  lemma FieldValues(s: StartInfo)
    ensures FieldOf(s, NR_PAGES) == s.nrPages && FieldOf(s, SHARED_INFO) == s.sharedInfo && FieldOf(s, FLAGS) == 0
    ensures FieldOf(s, STORE_MFN) == s.storeMfn && FieldOf(s, STORE_EVTCHN) == s.storeEvtchn
    ensures FieldOf(s, CONSOLE_MFN) == s.consoleMfn && FieldOf(s, CONSOLE_EVTCHN) == s.consoleEvtchn
    ensures FieldOf(s, PT_BASE) == s.ptBase && FieldOf(s, NR_PT_FRAMES) == s.nrPtFrames
    ensures FieldOf(s, MFN_LIST) == s.mfnList && FieldOf(s, MOD_START) == s.modStart && FieldOf(s, MOD_LEN) == s.modLen
    ensures FieldOf(s, FIRST_P2M_PFN) == s.firstP2mPfn && FieldOf(s, NR_P2M_FRAMES) == s.nrP2mFrames
  {
  }

  /** Word w of the page is no part of a text field. */
  predicate FieldWord(w: nat) {
    NR_PAGES <= w < 16 || FIRST_P2M_PFN <= w < 512
  }

  /** Of the fields, those in `done` are stored and the others are still 0. */
  ghost predicate FieldsStored(mem: Memory, p2m: seq<nat>, pfn: nat, s: StartInfo, done: set<nat>) {
    forall w: nat :: FieldWord(w) ==> WordAt(mem, p2m, pfn, w) == if w in done then FieldOf(s, w) % U64 else 0
  }

  /** Place k of the field at `at` holds the k-th of n characters, or 0 past them. */
  predicate CharStored(mem: Memory, p2m: seq<nat>, pfn: nat, at: nat, text: string, n: nat, k: nat)
    requires n <= |text|
  {
    ByteAt(mem, p2m, pfn, at + k) == if k < n then text[k] as int % 256 else 0
  }

  /** The first n characters of a text as bytes at offset `at`, followed by zeros up to `size`. */
  ghost predicate TextStored(mem: Memory, p2m: seq<nat>, pfn: nat, at: nat, size: nat, text: string, n: nat)
    requires n <= |text|
  {
    forall k: nat :: k < size ==> CharStored(mem, p2m, pfn, at, text, n, k)
  }

  /** How many characters of the command line fit before the terminating zero. */
  function CmdlineLength(cmdline: string): (n: nat)
    ensures n <= |cmdline| && n < CMDLINE_SIZE
  {
    if |cmdline| < CMDLINE_SIZE then |cmdline| else CMDLINE_SIZE - 1
  }

  /** The page at `pfn` holds the start info. */
  ghost predicate StartInfoAt(mem: Memory, p2m: seq<nat>, pfn: nat, s: StartInfo) {
    && (forall w: nat :: FieldWord(w) ==> WordAt(mem, p2m, pfn, w) == FieldOf(s, w) % U64)
    && TextStored(mem, p2m, pfn, 0, 32, GUEST_MAGIC, |GUEST_MAGIC|)
    && TextStored(mem, p2m, pfn, CMDLINE_AT, CMDLINE_SIZE, s.cmdline, CmdlineLength(s.cmdline))
  }

  const SHARED_INFO_SIZE: nat := 3136  // 32 virtual CPUs of 64 bytes, 1024 bytes of event channels, 64 more

  /** The shared information in the frame is clear, except that every virtual CPU's event mask is set. */
  predicate EventsMasked(mem: Memory, frame: nat) {
    && frame in mem
    && forall k :: 0 <= k < 3136 ==> mem[frame][k] == if k < 32 * 64 && k % 64 == 1 then 1 else 0
  }

  lemma MaskByte(ptr: nat, i: nat)
    requires ptr % 4096 == 0 && i < 32
    ensures (ptr + 64 * i + 1) / 4096 == ptr / 4096 && (ptr + 64 * i + 1) % 4096 == 64 * i + 1
    ensures forall k: nat :: k < (i + 1) * 64 && k % 64 == 1 <==> (k < i * 64 && k % 64 == 1) || k == 64 * i + 1
  {
  }


  /** No host page maps a frame of the pfns [lo, hi). */
  ghost predicate Unmapped(hostMap: map<nat, nat>, p2m: seq<nat>, lo: nat, hi: nat) {
    forall h, q :: h in hostMap && lo <= q < hi && q < |p2m| ==> hostMap[h] != p2m[q]
  }

  /** Without a region over the pfns [lo, hi) none of their frames is mapped. */
  lemma NoRegionNoMapping(pages: seq<PhysicalPage>, hostMap: map<nat, nat>, p2m: seq<nat>, lo: nat, n: nat)
    requires RegionsOk(pages, hostMap, p2m) && Distinct(p2m) && |p2m| > 0
    requires forall i :: 0 <= i < |pages| ==> !Overlaps(pages[i], lo, n)
    ensures Unmapped(hostMap, p2m, lo, lo + n)
  {
    forall h, q | h in hostMap && lo <= q < lo + n && q < |p2m|
      ensures hostMap[h] != p2m[q]
    {
      var j :| 0 <= j < |pages| && Covers(pages[j], h);
      assert RegionOk(hostMap, p2m, pages[j]);
      var x := pages[j].pfn + (h - pages[j].ptr / 4096);
      assert hostMap[h] == p2m[x] && x != q;
    }
  }

  class X86PvPlatform {
    var table: PageTable
    var p2mSegment: Option<DomainSegment>
    var pageTableSegment: Option<DomainSegment>
    var startInfoSegment: Option<DomainSegment>
    var bootStackSegment: Option<DomainSegment>
    var xenstoreSegment: Option<DomainSegment>

    constructor ()
      ensures table == PageTable(0, [NO_MAPPING, NO_MAPPING]) && p2mSegment == None && pageTableSegment == None
      ensures startInfoSegment == None && bootStackSegment == None && xenstoreSegment == None
    {
      table := PageTable(0, [NO_MAPPING, NO_MAPPING]);
      p2mSegment, pageTableSegment, startInfoSegment := None, None, None;
      bootStackSegment, xenstoreSegment := None, None;
    }

    /** Populate the domain's memory and load the list of its frames. */
    method InitializeMemory(domain: BootDomain) returns (r: Result<()>)
      requires domain.phys.Valid() && domain.phys.pages == [] && domain.phys.call.physmap == map[]
      requires domain.phys.leaked == {} && domain.pfnAllocEnd == 0
      modifies domain.phys`p2m, domain.phys.call`physmap, domain.phys.call`mem, domain.phys.call`calls
      modifies domain.phys.call`failures
      ensures domain.phys.Valid()
      ensures r.Ok? ==>
                domain.phys.call.calls == old(domain.phys.call.calls)
                                          + [SetAddressSize(64), ClaimPages(domain.totalPages), ClaimPages(0)]
      ensures r.Ok? ==>
                var p2m, call := domain.phys.p2m, domain.phys.call;
                && |p2m| == domain.totalPages && Distinct(p2m) && Frames(p2m) && Owned(call.mem, p2m)
                && forall p :: 0 <= p < |p2m| ==> p in call.physmap && p2m[p] == call.physmap[p]
      ensures r.Err? && domain.totalPages * 4096 < U64 ==> HostError(r.error)
      ensures Faulted(r, old(domain.phys.call.failures), domain.phys.call.failures)
    {
      EmptyCache(domain.phys);
      var _ :- domain.phys.call.Control(SetAddressSize(64));
      var _ :- domain.phys.call.Control(ClaimPages(domain.totalPages));
      var p2m :- BuildP2m(domain.phys.call, domain.totalPages);
      domain.phys.LoadP2m(p2m);
      var _ :- domain.phys.call.Control(ClaimPages(0));
      return Ok(());
    }

    method GetPgProt(l: nat, pfn: nat) returns (prot: nat)
      requires table.mappingsCount <= MAX_MAPPINGS && l < 4
      ensures table.mappingsCount == MAX_MAPPINGS ==> prot == Prot(table, l, pfn)
      ensures l > 0 ==> prot == PAGE_PRESENT + PAGE_RW + PAGE_ACCESSED + PAGE_DIRTY + PAGE_USER
      ensures l == 0 ==>
                prot == PAGE_PRESENT + PAGE_ACCESSED
                        + if exists i :: 0 <= i < table.mappingsCount && InTableInterval(table.mappings[i], pfn) then 0
                          else PAGE_RW
    {
      prot := if l == 0 then PAGE_PRESENT + PAGE_RW + PAGE_ACCESSED
              else PAGE_PRESENT + PAGE_RW + PAGE_ACCESSED + PAGE_DIRTY + PAGE_USER;
      if l > 0 {
        return;
      }
      for m := 0 to table.mappingsCount
        invariant forall i :: 0 <= i < m ==> !InTableInterval(table.mappings[i], pfn)
      {
        var mapping := table.mappings[m];
        var pfnS := mapping.levels[3].pfn;
        var pfnE := mapping.area.pgtables + pfnS;
        if pfnS <= pfn < pfnE {
          return prot - PAGE_RW;
        }
      }
    }

    /** Cut the range of one level down to what the earlier mappings leave. */
    method TrimLevel(l: nat, lo: nat, hi: nat) returns (from: nat, to: nat)
      requires l < 4 && table.mappingsCount <= MAX_MAPPINGS
      ensures (from, to) == Trim(table.mappings[..table.mappingsCount], l, lo, hi)
    {
      from, to := lo, hi;
      var cmps := table.mappings[..table.mappingsCount];
      var i := 0;
      while i < |cmps|
        invariant 0 <= i <= |cmps|
        invariant Trim(cmps, l, lo, hi) == Trim(cmps[i..], l, from, to)
      {
        var cmp := cmps[i].levels[l];
        assert cmps[i..][1..] == cmps[i + 1..];
        i := i + 1;
        if cmp.from == cmp.to {
          continue;
        }
        if from >= cmp.from && to <= cmp.to {
          return 0, 0;
        }
        var f := if cmp.from <= from <= cmp.to then cmp.to + 1 else from;
        if cmp.from <= to <= cmp.to {
          to := cmp.from - 1;
        }
        from := f;
      }
      assert cmps[i..] == [];
    }

    method CountPageTables(domain: BootDomain, from: nat, to: nat, pfn: nat) returns (r: Result<nat>)
      requires table.mappingsCount <= MAX_MAPPINGS && from <= to
      modifies this`table
      ensures r.Ok? <==> CountAccepted(old(table), from, to, pfn, |domain.phys.p2m|)
      ensures r.Err? ==> table == old(table)
      ensures r.Err? && old(table.mappingsCount) == 0 ==> DomainTooSmall(r.error)
      ensures r.Ok? ==>
                var m := old(table.mappingsCount);
                && r.value == m
                && table == old(table).(mappings := old(table.mappings)[m :=
                     CountMapping(old(table.mappings)[..m], from, to, domain.pfnAllocEnd)])
      ensures r.Err? ==> r.error.MemorySetupFailed?
    {
      if table.mappingsCount == MAX_MAPPINGS {
        return Err(MemorySetupFailed("max page table count reached"));
      }
      var m := table.mappingsCount;
      var pfnEnd := pfn + (to - from) / 4096;
      if pfnEnd >= |domain.phys.p2m| {
        return Err(MemorySetupFailed("pfn_end greater than p2m size"));
      }
      for idx := 0 to table.mappingsCount
        invariant forall i :: 0 <= i < idx ==> !(from < table.mappings[i].area.to && to > table.mappings[i].area.from)
      {
        if from < table.mappings[idx].area.to && to > table.mappings[idx].area.from {
          return Err(MemorySetupFailed("page table calculation failed"));
        }
      }
      var mapping := CountLevels(domain.pfnAllocEnd, from % VIRT_LIMIT, to % VIRT_LIMIT);
      CountedPieces(table.mappings[..m], from, to, domain.pfnAllocEnd, mapping);
      table := table.(mappings := table.mappings[m := mapping]);
      return Ok(m);
    }

    /** The level loop of the count, for a masked area. */
    method CountLevels(base: nat, f: nat, t: nat) returns (mapping: PageTableMapping)
      requires table.mappingsCount < MAX_MAPPINGS
      ensures var cmps := table.mappings[..table.mappingsCount];
              && mapping.area == PageTableMappingLevel(f, t, 0, TablesAbove(cmps, f, t, 0) + TableCount(cmps, f, t, 0))
              && forall j :: 0 <= j < 4 ==> mapping.levels[j] == CountLevel(cmps, f, t, base, j)
    {
      ghost var cmps := table.mappings[..table.mappingsCount];
      hide CountedRange, TableCount;
      mapping := NO_MAPPING.(area := PageTableMappingLevel(f, t, 0, 0));
      var l := 4;
      while l > 0
        invariant 0 <= l <= 4
        invariant forall j :: l <= j < 4 ==> mapping.levels[j] == CountLevel(cmps, f, t, base, j)
        invariant forall j :: 0 <= j < l ==> mapping.levels[j] == NO_LEVEL
        invariant mapping.area == PageTableMappingLevel(f, t, 0,
                    if l == 0 then TablesAbove(cmps, f, t, 0) + TableCount(cmps, f, t, 0)
                    else TablesAbove(cmps, f, t, l - 1))
      {
        l := l - 1;
        var level := CountOneLevel(l, base + mapping.area.pgtables, f, t);
        mapping := mapping.(levels := mapping.levels[l := level],
                            area := mapping.area.(pgtables := mapping.area.pgtables + level.pgtables));
      }
    }

    method CountOneLevel(l: nat, pfn: nat, f: nat, t: nat) returns (level: PageTableMappingLevel)
      requires table.mappingsCount < MAX_MAPPINGS && l < 4
      ensures var cmps := table.mappings[..table.mappingsCount];
              var range := CountedRange(cmps, f, t, l);
              level == PageTableMappingLevel(range.0, range.1, pfn, TableCount(cmps, f, t, l))
    {
      level := NO_LEVEL.(pfn := pfn);
      if l == 3 {
        if table.mappingsCount == 0 {
          level := level.(from := 0, to := VIRT_LIMIT - 1, pgtables := 1);
          RootRange();
        }
      } else {
        var lo, hi := TrimLevel(l, ClearLow(f, Span(l + 1)), SetLow(t, Span(l + 1)));
        level := level.(from := lo, to := hi);
        if level.from < level.to {
          level := level.(pgtables := (level.to - level.from) / Span(l + 1) + 1);
        }
      }
    }

    /** Find an end for the mapped area that leaves room for the tables of that very area, the boot stack
        and the spare pages. */
    method ChooseEnd(domain: BootDomain) returns (r: Result<nat>, ghost tries: seq<nat>)
      requires domain.Valid() && table.mappingsCount <= MAX_MAPPINGS
      modifies this`table
      ensures r.Ok? ==>
                var m, end, first := old(table.mappingsCount), r.value, domain.imageInfo.virtBase;
                && m < MAX_MAPPINGS && end > first && end % 0x40_0000 == 0
                && table == PageTable(m, old(table.mappings)[m :=
                     CountMapping(old(table.mappings)[..m], first, (end - 1) as nat, domain.pfnAllocEnd)])
                && (end - 1 - first) / 4096 < domain.totalPages
                && domain.virtAllocEnd + (table.mappings[m].area.pgtables + EXTRA_PAGES) * 4096 <= end
      ensures r.Ok? && old(table.mappingsCount) == 0 ==>
                EndBounded(domain.imageInfo.virtBase, domain.virtAllocEnd, r.value)
      // the ends that were tried: each from the tables counted for the one before, with 129 pages to spare, and
      // at least 4 MiB further
      ensures TriedEnds(old(table.mappings)[..old(table.mappingsCount)], domain.imageInfo.virtBase,
                        domain.virtAllocEnd, domain.pfnAllocEnd, tries)
      ensures Spaced(tries)
      ensures r.Ok? ==> |tries| > 0 && r.value == tries[|tries| - 1] + 1
      ensures r.Err? && old(table.mappingsCount) == 0 ==> DomainTooSmall(r.error)
      ensures FirstTryFits(old(table), domain.imageInfo.virtBase, domain.pfnAllocEnd, domain.totalPages) ==>
                r == Ok(RoundUp4M(domain.virtAllocEnd + EXTRA_PAGES * 4096) + 1)
      // more pages than the bound on the area are always enough
      ensures old(table.mappingsCount) == 0
              && BoundFits(domain.imageInfo.virtBase, domain.virtAllocEnd, domain.totalPages) ==>
                r.Ok?
      ensures r.Err? ==> r.error.MemorySetupFailed?
    {
      hide CountMapping, PagesBounded, EndBounded, AreaFits, AreaLimit, RoundUp4M, RegionsOk, CoveredBy, Distinct,
           Frames, Owned, FirstTryFits, CountAccepted, Spaced, BoundFits, TriedEnds;
      FirstTryOpen(table, domain.imageInfo.virtBase, domain.pfnAllocEnd, domain.totalPages);
      ghost var table0 := table;
      ghost var first := domain.imageInfo.virtBase;
      ghost var bound := domain.imageInfo.virtBase + |domain.phys.p2m| * 4096 + 4096;
      var pages := EXTRA_PAGES;
      FirstTryBounded(first, domain.virtAllocEnd);
      ghost var last: nat := 0;
      ghost var fits := FirstTryFits(table, first, domain.pfnAllocEnd, domain.totalPages);
      tries := [];
      ghost var cmps := table.mappings[..table.mappingsCount];
      FewSpaced(tries);
      NoneTried(cmps, first, domain.virtAllocEnd, domain.pfnAllocEnd);
      while true
        invariant pages >= EXTRA_PAGES
        invariant tries == [] ==> table == table0 && pages == EXTRA_PAGES
        invariant |tries| > 0 ==> !fits
        invariant Spaced(tries) && TriedEnds(cmps, first, domain.virtAllocEnd, domain.pfnAllocEnd, tries)
        invariant |tries| > 0 ==>
                    pages == EXTRA_PAGES
                             + CountMapping(cmps, first, tries[|tries| - 1], domain.pfnAllocEnd).area.pgtables
        invariant |tries| > 0 ==>
                    && tries[|tries| - 1] == RoundUp4M(domain.virtAllocEnd + last * 4096)
                    && domain.virtAllocEnd + pages * 4096 > tries[|tries| - 1] + 1
        invariant table0.mappingsCount == 0 ==> PagesBounded(first, domain.virtAllocEnd, pages)
        invariant table.mappingsCount == table0.mappingsCount
        invariant forall i :: 0 <= i < MAX_MAPPINGS && i != table0.mappingsCount ==>
                    table.mappings[i] == table0.mappings[i]
        decreases bound - (domain.virtAllocEnd + pages * 4096)
        modifies this`table
      {
        var tryVirtEnd := RoundUp4M(domain.virtAllocEnd + pages * 4096);
        RoundedUp(domain.virtAllocEnd + pages * 4096);
        if |tries| > 0 {
          RetryRaisesEnd(domain.virtAllocEnd, last, pages);
        }
        SpacedMore(tries, tryVirtEnd);
        TriedMore(cmps, first, domain.virtAllocEnd, domain.pfnAllocEnd, tries, pages);
        tries := tries + [tryVirtEnd];
        last := pages;
        if table.mappingsCount == 0 {
          TriesBounded(first, domain.virtAllocEnd, pages, domain.pfnAllocEnd);
          WithinAccepted(table, first, domain.virtAllocEnd, tryVirtEnd, domain.totalPages);
        }
        assert table.mappings[..table.mappingsCount] == table0.mappings[..table0.mappingsCount];
        AcceptedSize(table, domain.imageInfo.virtBase, tryVirtEnd, |domain.phys.p2m|);
        var m :- CountPageTables(domain, domain.imageInfo.virtBase, tryVirtEnd, 0);
        pages := table.mappings[m].area.pgtables + EXTRA_PAGES;
        if domain.virtAllocEnd + pages * 4096 <= tryVirtEnd + 1 {
          assert table.mappings == table0.mappings[m := table.mappings[m]];
          return Ok(tryVirtEnd + 1), tries;
        }
      }
    }

    method AllocPageTables(domain: BootDomain) returns (r: Result<DomainSegment>)
      requires domain.Valid() && table.mappingsCount <= MAX_MAPPINGS
      modifies this`table, domain`virtPgtabEnd, domain`virtAllocEnd, domain`pfnAllocEnd
      modifies domain.phys`pages, domain.phys`leaked, domain.phys.call`mem, domain.phys.call`hostMap
      modifies domain.phys.call`failures
      ensures LeaksOnly(r, old(domain.phys.leaked), domain.phys.leaked)
      ensures Faulted(r, old(domain.phys.call.failures), domain.phys.call.failures)
      ensures domain.Valid() && domain.pfnAllocEnd >= old(domain.pfnAllocEnd)
      ensures r.Ok? ==>
                var m, seg, end, first := old(table.mappingsCount), r.value, domain.virtPgtabEnd,
                    domain.imageInfo.virtBase;
                && m < MAX_MAPPINGS && end > first && end % 0x40_0000 == 0
                && (end - 1 - first) / 4096 < domain.totalPages
                && table == PageTable(m + 1, old(table.mappings)[m :=
                     CountMapping(old(table.mappings)[..m], first, (end - 1) as nat, seg.pfn)])
                && seg.pages == table.mappings[m].area.pgtables
                && domain.virtAllocEnd + EXTRA_PAGES * 4096 <= end
                && domain.pfnAllocEnd == seg.pfn + seg.pages && seg.vstart == first + seg.pfn * 4096
                && domain.phys.pages == old(domain.phys.pages) + [PhysicalPage(seg.pfn, seg.addr, seg.pages)]
      ensures r.Ok? ==> Fresh(old(domain.phys.call.mem), domain.phys.call.mem, domain.phys.p2m, r.value,
                              old(domain.pfnAllocEnd))
      ensures r.Ok? && old(table.mappingsCount) == 0 ==>
                && EndBounded(domain.imageInfo.virtBase, old(domain.virtAllocEnd), domain.virtPgtabEnd)
                && table.mappings[0].levels[3].pfn == r.value.pfn
      // the size chosen always fits: only the size check or the host mapping can fail
      ensures r.Err? && old(table.mappingsCount) == 0 ==>
                DomainTooSmall(r.error) || MappingError(r.error)
      ensures old(FirstTryFits(table, domain.imageInfo.virtBase, domain.pfnAllocEnd, domain.totalPages)) ==>
                r.Ok? || MappingError(r.error)
      ensures old(table.mappingsCount) == 0
              && BoundFits(domain.imageInfo.virtBase, old(domain.virtAllocEnd), domain.totalPages) ==>
                r.Ok? || MappingError(r.error)
    {
      hide CountMapping, FirstTryFits, BoundFits, EndBounded, RoundUp4M, RegionsOk, CoveredBy, AllZero, Distinct,
           Frames, Owned, KeptOutside, DomainTooSmall, PhysicalPages.Valid;
      ghost var fits := FirstTryFits(table, domain.imageInfo.virtBase, domain.pfnAllocEnd, domain.totalPages);
      if fits {
        FirstTryRoom(table, domain.imageInfo.virtBase, domain.pfnAllocEnd, domain.totalPages);
      }
      var end, _ :- ChooseEnd(domain);
      var m := table.mappingsCount;
      if m == 0 {
        RootCounted(domain.imageInfo.virtBase, end - 1, domain.pfnAllocEnd);
        CountStacked([], domain.imageInfo.virtBase, end - 1, domain.pfnAllocEnd);
        assert old(table.mappings)[..0] == [];
      }
      table := table.(mappingsCount := table.mappingsCount + 1);
      domain.virtPgtabEnd := end;
      r := domain.AllocSegment(0, table.mappings[m].area.pgtables * 4096);
    }

    /** Map the p2m list at its fixed address, its tables right behind it. */
    method AllocP2mSegment(domain: BootDomain) returns (r: Result<DomainSegment>)
      requires domain.Valid() && table.mappingsCount <= MAX_MAPPINGS && domain.totalPages > 0
      modifies this`table, domain`virtAllocEnd, domain`pfnAllocEnd
      modifies domain.phys`pages, domain.phys`leaked, domain.phys.call`mem, domain.phys.call`hostMap
      modifies domain.phys.call`failures
      ensures LeaksOnly(r, old(domain.phys.leaked), domain.phys.leaked)
      ensures Faulted(r, old(domain.phys.call.failures), domain.phys.call.failures)
      ensures domain.Valid() && domain.pfnAllocEnd >= old(domain.pfnAllocEnd)
      ensures r.Ok? ==>
                var m, seg, n, from := old(table.mappingsCount), r.value, PagesFor(8 * domain.totalPages),
                    domain.imageInfo.virtP2mBase;
                && m < MAX_MAPPINGS && n > 0
                && CountAccepted(old(table), from, from + n * 4096 - 1, seg.pfn, domain.totalPages)
                && table == PageTable(m + 1, old(table.mappings)[m :=
                     Shift(CountMapping(old(table.mappings)[..m], from, from + n * 4096 - 1, seg.pfn), seg.pfn, n)])
                && seg.pages == n + table.mappings[m].area.pgtables
                && domain.pfnAllocEnd == seg.pfn + seg.pages
                && domain.phys.pages == old(domain.phys.pages) + [PhysicalPage(seg.pfn, seg.addr, seg.pages)]
      ensures r.Ok? ==> Fresh(old(domain.phys.call.mem), domain.phys.call.mem, domain.phys.p2m, r.value,
                              old(domain.pfnAllocEnd))
      ensures var n, from := PagesFor(8 * domain.totalPages), domain.imageInfo.virtP2mBase;
              n > 0 && CountAccepted(old(table), from, from + n * 4096 - 1, old(domain.pfnAllocEnd), domain.totalPages)
              && old(domain.pfnAllocEnd) + n
                 + CountMapping(old(table.mappings)[..old(table.mappingsCount)], from, from + n * 4096 - 1,
                                old(domain.pfnAllocEnd)).area.pgtables <= domain.totalPages ==>
                r.Ok? || MappingError(r.error)
      // alone, the list has the root table right behind it
      ensures r.Ok? && old(table.mappingsCount) == 0 ==>
                table.mappings[0].levels[3].pfn == r.value.pfn + PagesFor(8 * domain.totalPages) < domain.pfnAllocEnd
    {
      hide CountMapping, TableCount, TablesAbove, Span, P2mBytes, PagesFor;
      P2mPages(domain.totalPages);
      var size := P2mBytes(|domain.phys.p2m|);
      var from := domain.imageInfo.virtP2mBase;
      var to := from + size - 1;
      var m :- CountPageTables(domain, from, to, domain.pfnAllocEnd);
      if m == 0 {
        assert old(table.mappings)[..0] == [];
        RootCounted(from, to, domain.pfnAllocEnd);
        CountStacked([], from, to, domain.pfnAllocEnd);
      }
      var mapping := Shift(table.mappings[m], domain.pfnAllocEnd, size / 4096);
      table := PageTable(m + 1, table.mappings[m := mapping]);
      WholePages(PagesFor(8 * domain.totalPages) + mapping.area.pgtables);
      r := domain.AllocSegment(0, size + mapping.area.pgtables * 4096);
    }

    /** The special pages are taken in this order, the tables and the p2m list are mapped in the host and
        clear, and the page-table plan is the one of `PlannedTables`. */
    ghost predicate Arranged(domain: BootDomain)
      reads this, domain, domain.phys, domain.phys.call`mem, domain.phys.call`physmap, domain.phys.call`hostMap
    {
      && startInfoSegment.Some? && xenstoreSegment.Some? && pageTableSegment.Some?
      && bootStackSegment.Some? && p2mSegment.Some?
      && var si, xs, pt, bs, ps := startInfoSegment.value, xenstoreSegment.value, pageTableSegment.value,
                                   bootStackSegment.value, p2mSegment.value;
      var mem, p2m := domain.phys.call.mem, domain.phys.p2m;
      && PlannedTables(table, domain.imageInfo, domain.virtPgtabEnd, pt.pfn, domain.totalPages)
      && pt.pages == table.mappings[0].area.pgtables
      && ps.pages == PagesFor(8 * domain.totalPages) + table.mappings[1].area.pgtables
      && xs.pfn == si.pfn + 1 && xs.pfn + 1 < |p2m|
      && domain.storeMfn == p2m[xs.pfn] && domain.consoleMfn == p2m[xs.pfn + 1]
      && xs.pfn + 1 < pt.pfn && pt.pfn + pt.pages == bs.pfn && bs.pfn < ps.pfn
      && ps.pfn == (domain.virtPgtabEnd - domain.imageInfo.virtBase) / 4096
      && domain.pfnAllocEnd == ps.pfn + ps.pages
      && ps.vstart == domain.imageInfo.virtP2mBase
      && pt.vstart == domain.imageInfo.virtBase + pt.pfn * 4096
      && PhysicalPage(pt.pfn, pt.addr, pt.pages) in domain.phys.pages
      && PhysicalPage(ps.pfn, ps.addr, ps.pages) in domain.phys.pages
      && AllZero(mem, p2m, pt.pfn, pt.pfn + pt.pages) && AllZero(mem, p2m, ps.pfn, ps.pfn + ps.pages)
    }

    /** Start info, xenstore and console pages, in this order. */
    method AllocSharedPages(domain: BootDomain) returns (r: Result<()>)
      requires domain.Valid()
      modifies this`startInfoSegment, this`xenstoreSegment
      modifies domain`virtAllocEnd, domain`pfnAllocEnd, domain`storeMfn, domain`consoleMfn, domain`consoleEvtchn
      modifies domain.phys.call`calls, domain.phys.call`failures
      ensures domain.Valid()
      ensures r.Ok? ==>
                && domain.phys.call.calls == old(domain.phys.call.calls) + [AllocUnbound(domain.consoleEvtchn)]
                && domain.consoleEvtchn < 0x1_0000_0000
      ensures r.Err? && old(domain.pfnAllocEnd) + 3 <= domain.totalPages ==> r.error == HypercallFailed
      ensures r.Ok? ==>
                && startInfoSegment.Some? && xenstoreSegment.Some?
                && startInfoSegment.value.pfn == old(domain.pfnAllocEnd)
                && xenstoreSegment.value.pfn == old(domain.pfnAllocEnd) + 1
                && domain.pfnAllocEnd == old(domain.pfnAllocEnd) + 3
                && domain.storeMfn == domain.phys.p2m[old(domain.pfnAllocEnd) + 1]
                && domain.consoleMfn == domain.phys.p2m[old(domain.pfnAllocEnd) + 2]
      ensures Faulted(r, old(domain.phys.call.failures), domain.phys.call.failures)
    {
      hide RegionsOk, CoveredBy, Distinct, Frames, Owned, PhysicalPages.Valid;
      var startInfo :- domain.AllocPage();
      startInfoSegment := Some(startInfo);
      var xenstore :- domain.AllocPage();
      xenstoreSegment := Some(xenstore);
      domain.storeMfn := domain.phys.p2m[xenstore.pfn];
      var evtchn :- domain.phys.call.AllocPort();
      var page :- domain.AllocPage();
      domain.consoleEvtchn := evtchn;
      domain.consoleMfn := domain.phys.p2m[page.pfn];
      return Ok(());
    }

    /** The tables, the boot stack and padding up to the end of the mapped area. */
    method AllocTablesAndStack(domain: BootDomain) returns (r: Result<()>)
      requires domain.Valid() && table.mappingsCount <= MAX_MAPPINGS
      modifies this`table, this`pageTableSegment, this`bootStackSegment
      modifies domain`virtPgtabEnd, domain`virtAllocEnd, domain`pfnAllocEnd
      modifies domain.phys`pages, domain.phys`leaked, domain.phys.call`mem, domain.phys.call`hostMap
      modifies domain.phys.call`failures
      ensures LeaksOnly(r, old(domain.phys.leaked), domain.phys.leaked)
      ensures Faulted(r, old(domain.phys.call.failures), domain.phys.call.failures)
      ensures domain.Valid()
      ensures r.Ok? ==> table.mappingsCount == old(table.mappingsCount) + 1 <= MAX_MAPPINGS
      ensures r.Ok? ==>
                && pageTableSegment.Some? && old(domain.pfnAllocEnd) == pageTableSegment.value.pfn < domain.totalPages
                && old(domain.pfnAllocEnd) < domain.pfnAllocEnd
                && table.mappings[0].levels[3].pfn
                   == if old(table.mappingsCount) == 0 then pageTableSegment.value.pfn
                      else old(table.mappings[0].levels[3].pfn)
      // neither the stack nor the padding can fail: the area was chosen with room for both
      ensures r.Err? && old(table.mappingsCount) == 0 && domain.imageInfo.virtBase % 4096 == 0 ==>
                DomainTooSmall(r.error) || MappingError(r.error)
      ensures r.Err? && domain.imageInfo.virtBase % 4096 == 0
              && old(FirstTryFits(table, domain.imageInfo.virtBase, domain.pfnAllocEnd, domain.totalPages)) ==>
                MappingError(r.error)
      ensures r.Err? && old(table.mappingsCount) == 0 && domain.imageInfo.virtBase % 4096 == 0
              && BoundFits(domain.imageInfo.virtBase, old(domain.virtAllocEnd), domain.totalPages) ==>
                MappingError(r.error)
      ensures r.Ok? && old(table.mappingsCount) == 0 && domain.imageInfo.virtBase % 4096 == 0 ==>
                && TablesPlaced(domain) && domain.virtPgtabEnd > domain.imageInfo.virtBase
                && EndBounded(domain.imageInfo.virtBase, old(domain.virtAllocEnd), domain.virtPgtabEnd)
                && old(domain.phys.pages) <= domain.phys.pages
                && Fresh(old(domain.phys.call.mem), domain.phys.call.mem, domain.phys.p2m, pageTableSegment.value,
                         old(domain.pfnAllocEnd))
                && KeptOutside(old(domain.phys.call.mem), domain.phys.call.mem, domain.phys.p2m,
                               old(domain.pfnAllocEnd), domain.pfnAllocEnd)
    {
      hide CountMapping, RegionsOk, CoveredBy, KeptOutside, AllZero, Distinct, Frames, Owned, FirstTryFits, EndBounded,
           BoundFits, DomainTooSmall, PhysicalPages.Valid;
      assert table.mappings[..0] == [];
      var tables :- AllocPageTables(domain);
      pageTableSegment := Some(tables);
      var _ :- AllocStack(domain);
      KeptWider(old(domain.phys.call.mem), domain.phys.call.mem, domain.phys.p2m, tables.pfn,
                tables.pfn + tables.pages, tables.pfn, domain.pfnAllocEnd);
      return Ok(());
    }

    /** The boot stack, and padding up to the end of the mapped area. If that area was chosen with room for them,
        neither can fail. */
    method AllocStack(domain: BootDomain) returns (r: Result<()>)
      requires domain.Valid()
      modifies this`bootStackSegment, domain`virtAllocEnd, domain`pfnAllocEnd
      ensures domain.Valid()
      ensures r.Err? ==> r.error.MemorySetupFailed?
      ensures r.Ok? ==>
                && bootStackSegment.Some? && bootStackSegment.value.pfn == old(domain.pfnAllocEnd) < domain.pfnAllocEnd
      ensures var first, end := domain.imageInfo.virtBase, domain.virtPgtabEnd;
              first % 4096 == 0 && end % 0x40_0000 == 0 && first < end && (end - 1 - first) / 4096 < domain.totalPages
              && old(domain.virtAllocEnd) + EXTRA_PAGES * 4096 <= end ==>
                && r.Ok? && domain.pfnAllocEnd == (end - first) / 4096
                && old(domain.pfnAllocEnd) + EXTRA_PAGES <= domain.pfnAllocEnd
    {
      hide RegionsOk, CoveredBy, Distinct, Frames, Owned, PhysicalPages.Valid;
      ghost var first, end := domain.imageInfo.virtBase, domain.virtPgtabEnd;
      if first % 4096 == 0 && end % 0x40_0000 == 0 && first < end && (end - 1 - first) / 4096 < domain.totalPages
         && domain.virtAllocEnd + EXTRA_PAGES * 4096 <= end {
        PaddingFits(first, domain.pfnAllocEnd, end, domain.totalPages);
      }
      var stack :- domain.AllocPage();
      bootStackSegment := Some(stack);
      if domain.virtPgtabEnd > 0 {
        var _ :- domain.AllocPaddingPages(domain.virtPgtabEnd);
      }
      return Ok(());
    }

    /** The first mapping is placed and its segments taken; the next free pfn is the first one past its area. */
    ghost predicate TablesPlaced(domain: BootDomain)
      reads this, domain, domain.phys, domain.phys.call`mem, domain.phys.call`physmap, domain.phys.call`hostMap
    {
      PlacedWith(domain, table, domain.phys.call.mem, domain.phys.pages, domain.pfnAllocEnd)
    }

    ghost predicate PlacedWith(domain: BootDomain, t: PageTable, mem: Memory, pages: seq<PhysicalPage>, pfnEnd: nat)
      reads this`pageTableSegment, this`bootStackSegment, domain`virtPgtabEnd, domain.phys`p2m
    {
      && pageTableSegment.Some? && bootStackSegment.Some?
      && var pt, bs, end, first := pageTableSegment.value, bootStackSegment.value, domain.virtPgtabEnd,
                                   domain.imageInfo.virtBase;
      && end > first && end % 0x40_0000 == 0
      && t.mappingsCount == 1 && t.mappings[0] == CountMapping([], first, (end - 1) as nat, pt.pfn)
      && pt.pages == t.mappings[0].area.pgtables && pt.vstart == first + pt.pfn * 4096
      && bs.pfn == pt.pfn + pt.pages && bs.pfn + EXTRA_PAGES <= pfnEnd
      && pfnEnd == (end - first) / 4096
      && PhysicalPage(pt.pfn, pt.addr, pt.pages) in pages
      && AllZero(mem, domain.phys.p2m, pt.pfn, pt.pfn + pt.pages)
    }

    predicate SharedPlaced(domain: BootDomain)
      reads this, domain, domain.phys
    {
      && startInfoSegment.Some? && xenstoreSegment.Some? && pageTableSegment.Some?
      && var xs := xenstoreSegment.value.pfn;
      && xs == startInfoSegment.value.pfn + 1 && xs + 1 < pageTableSegment.value.pfn
      && xs + 1 < |domain.phys.p2m| && domain.storeMfn == domain.phys.p2m[xs]
      && domain.consoleMfn == domain.phys.p2m[xs + 1]
    }

    /** The first mapping is placed, and the list fits behind it. */
    ghost predicate LateReady(domain: BootDomain)
      reads this, domain, domain.phys, domain.phys.call`mem, domain.phys.call`physmap, domain.phys.call`hostMap
    {
      && TablesPlaced(domain) && domain.imageInfo.virtBase % 4096 == 0 && domain.imageInfo.virtP2mBase % 4096 == 0
      && LateListFits(domain.imageInfo, domain.virtPgtabEnd, domain.totalPages)
    }

    lemma LateReadyAccepted(domain: BootDomain)
      requires LateReady(domain) && domain.totalPages > 0
      ensures table.mappingsCount == 1
      ensures var n, base := PagesFor(8 * domain.totalPages), domain.pfnAllocEnd;
              var from := domain.imageInfo.virtP2mBase;
              && n > 0 && CountAccepted(table, from, from + n * 4096 - 1, base, domain.totalPages)
              && base + n + CountMapping(table.mappings[..1], from, from + n * 4096 - 1, base).area.pgtables
                 <= domain.totalPages
    {
      hide CountMapping, LateListFits, CountAccepted, AllZero, PagesFor;
      assert table.mappings[..1] == [table.mappings[0]];
      LateAccepted(table, domain.imageInfo, domain.virtPgtabEnd, pageTableSegment.value.pfn, domain.totalPages);
    }

    /** The p2m segment placed after everything else. */
    method AllocLateP2m(domain: BootDomain) returns (r: Result<()>)
      requires domain.Valid() && table.mappingsCount <= MAX_MAPPINGS && domain.totalPages > 0
      modifies this`table, this`p2mSegment, domain`virtAllocEnd, domain`pfnAllocEnd
      modifies domain.phys`pages, domain.phys`leaked, domain.phys.call`mem, domain.phys.call`hostMap
      modifies domain.phys.call`failures
      ensures LeaksOnly(r, old(domain.phys.leaked), domain.phys.leaked)
      ensures Faulted(r, old(domain.phys.call.failures), domain.phys.call.failures)
      ensures domain.Valid()
      ensures r.Ok? ==> p2mSegment.Some? && domain.pfnAllocEnd == p2mSegment.value.pfn + p2mSegment.value.pages
      ensures r.Ok? && old(table.mappingsCount) > 0 ==> table.mappings[0] == old(table.mappings[0])
      ensures r.Ok? && old(TablesPlaced(domain) && SharedPlaced(domain)) ==>
                && Arranged(domain)
                && Fresh(old(domain.phys.call.mem), domain.phys.call.mem, domain.phys.p2m, p2mSegment.value,
                         old(domain.pfnAllocEnd))
                && old(domain.phys.pages) <= domain.phys.pages
      ensures r.Err? && old(LateReady(domain)) ==> MappingError(r.error)
    {
      hide CountMapping, Shift, RegionsOk, CoveredBy, Distinct, Frames, Owned, CountAccepted, PagesFor, LateReady,
           PlacedWith, Arranged, KeptOutside;
      if LateReady(domain) {
        LateReadyAccepted(domain);
      }
      ghost var placed := TablesPlaced(domain) && SharedPlaced(domain);
      if placed {
        OnePlaced(domain);
      }
      var segment :- AllocP2mSegment(domain);
      p2mSegment := Some(segment.(vstart := domain.imageInfo.virtP2mBase));
      if placed {
        LateArranged(domain, old(table), old(domain.phys.call.mem), old(domain.phys.pages), segment);
      } else {
        assert old(table.mappingsCount) > 0 ==> table.mappings[0] == old(table.mappings[0]);
      }
      return Ok(());
    }

    lemma OnePlaced(domain: BootDomain)
      requires TablesPlaced(domain)
      ensures table.mappingsCount == 1 && domain.pfnAllocEnd == (domain.virtPgtabEnd - domain.imageInfo.virtBase) / 4096
    {
      hide CountMapping, AllZero;
    }

    /** With the late segment everything is arranged. */
    lemma LateArranged(domain: BootDomain, t: PageTable, mem: Memory, pages: seq<PhysicalPage>, seg: DomainSegment)
      requires domain.Valid() && SharedPlaced(domain) && PlacedWith(domain, t, mem, pages, seg.pfn)
      requires p2mSegment == Some(seg.(vstart := domain.imageInfo.virtP2mBase))
      requires Fresh(mem, domain.phys.call.mem, domain.phys.p2m, seg, seg.pfn)
      requires var n, from := PagesFor(8 * domain.totalPages), domain.imageInfo.virtP2mBase;
               && n > 0 && CountAccepted(t, from, from + n * 4096 - 1, seg.pfn, domain.totalPages)
               && table == PageTable(2, t.mappings[1 :=
                    Shift(CountMapping(t.mappings[..1], from, from + n * 4096 - 1, seg.pfn), seg.pfn, n)])
               && seg.pages == n + table.mappings[1].area.pgtables
      requires domain.pfnAllocEnd == seg.pfn + seg.pages
      requires domain.phys.pages == pages + [PhysicalPage(seg.pfn, seg.addr, seg.pages)]
      ensures Arranged(domain)
    {
      hide CountMapping, Shift, RegionsOk, CoveredBy, Distinct, Frames, Owned, CountAccepted, PagesFor, PlannedTables,
           AllZero, KeptOutside;
      var pt := pageTableSegment.value;
      LatePlanned(t, table, domain.imageInfo, domain.virtPgtabEnd, pt.pfn, domain.totalPages);
      ZeroKept(mem, domain.phys.call.mem, domain.phys.p2m, pt.pfn, pt.pfn + pt.pages, seg.pfn, seg.pfn + seg.pages);
    }

    /** The p2m list, if it comes first, and the shared pages. */
    method AllocFirstSegments(domain: BootDomain) returns (r: Result<()>)
      requires domain.Valid() && domain.totalPages > 0
      requires table.mappingsCount == 0 && p2mSegment == None
      modifies this`table, this`p2mSegment, this`startInfoSegment, this`xenstoreSegment
      modifies domain`virtAllocEnd, domain`pfnAllocEnd, domain`storeMfn, domain`consoleMfn, domain`consoleEvtchn
      modifies domain.phys`pages, domain.phys`leaked, domain.phys.call`mem, domain.phys.call`hostMap
      modifies domain.phys.call`failures
      modifies domain.phys.call`calls, domain.phys.call`failures
      ensures LeaksOnly(r, old(domain.phys.leaked), domain.phys.leaked)
      ensures Faulted(r, old(domain.phys.call.failures), domain.phys.call.failures)
      ensures domain.Valid()
      ensures r.Ok? ==>
                && domain.phys.call.calls == old(domain.phys.call.calls) + [AllocUnbound(domain.consoleEvtchn)]
                && domain.consoleEvtchn < 0x1_0000_0000
      ensures r.Err? && P2mFirst(domain.imageInfo)
              && ListFirstFits(old(table), domain.imageInfo, old(domain.pfnAllocEnd), domain.totalPages) ==>
                HostError(r.error)
      ensures r.Err? && !P2mFirst(domain.imageInfo) && old(domain.pfnAllocEnd) + 3 <= domain.totalPages ==>
                HostError(r.error)
      ensures r.Ok? ==>
                && startInfoSegment.Some? && xenstoreSegment.Some?
                && xenstoreSegment.value.pfn == startInfoSegment.value.pfn + 1
                && domain.pfnAllocEnd == xenstoreSegment.value.pfn + 2
                && domain.storeMfn == domain.phys.p2m[xenstoreSegment.value.pfn]
                && domain.consoleMfn == domain.phys.p2m[xenstoreSegment.value.pfn + 1]
      ensures r.Ok? && !P2mFirst(domain.imageInfo) ==>
                && table == old(table) && p2mSegment == None && startInfoSegment.value.pfn == old(domain.pfnAllocEnd)
                && domain.phys.pages == old(domain.phys.pages) && domain.phys.call.mem == old(domain.phys.call.mem)
      ensures r.Ok? && P2mFirst(domain.imageInfo) ==>
                && table.mappingsCount == 1 && p2mSegment.Some? && table.mappings[0].levels[3].pfn < domain.pfnAllocEnd
                && (ListFirstFits(old(table), domain.imageInfo, old(domain.pfnAllocEnd), domain.totalPages) ==>
                      FirstTryFits(table, domain.imageInfo.virtBase, domain.pfnAllocEnd, domain.totalPages))
    {
      hide CountMapping, Shift, RegionsOk, CoveredBy, AllZero, Owned, Distinct, Frames, CountAccepted, FirstTryFits,
           PagesFor, ListFirstFits, KeptOutside;
      if P2mFirst(domain.imageInfo) {
        if ListFirstFits(table, domain.imageInfo, domain.pfnAllocEnd, domain.totalPages) {
          ListFirstSegment(table, domain.imageInfo, domain.pfnAllocEnd, domain.totalPages);
        }
        assert table.mappings[..0] == [];
        var segment :- AllocP2mSegment(domain);
        p2mSegment := Some(segment);
      }
      var _ :- AllocSharedPages(domain);
      return Ok(());
    }

    /** There are tables, and a root. */
    predicate TablesTaken(domain: BootDomain)
      reads this, domain, domain.phys
    {
      && pageTableSegment.Some? && pageTableSegment.value.pfn < |domain.phys.p2m|
      && table.mappings[0].levels[3].pfn < |domain.phys.p2m|
    }

    /** The page taken for the root is the first one of the table segment, whose frame becomes cr3. */
    predicate RootLeads()
      requires pageTableSegment.Some?
      reads this
    {
      table.mappings[0].levels[3].pfn == pageTableSegment.value.pfn
    }

    method AllocMagicPages(domain: BootDomain) returns (r: Result<()>)
      requires domain.Valid() && domain.totalPages > 0
      requires table.mappingsCount == 0 && p2mSegment == None
      modifies this, domain`virtPgtabEnd, domain`virtAllocEnd, domain`pfnAllocEnd, domain`storeMfn, domain`consoleMfn
      modifies domain`consoleEvtchn, domain.phys.call`calls, domain.phys.call`failures
      modifies domain.phys`pages, domain.phys`leaked, domain.phys.call`mem, domain.phys.call`hostMap
      modifies domain.phys.call`failures
      ensures LeaksOnly(r, old(domain.phys.leaked), domain.phys.leaked)
      ensures Faulted(r, old(domain.phys.call.failures), domain.phys.call.failures)
      ensures domain.Valid()
      ensures r.Ok? ==>
                && domain.phys.call.calls == old(domain.phys.call.calls) + [AllocUnbound(domain.consoleEvtchn)]
                && domain.consoleEvtchn < 0x1_0000_0000
      ensures r.Err? && P2mFirst(domain.imageInfo) && domain.imageInfo.virtBase % 4096 == 0
              && ListFirstFits(old(table), domain.imageInfo, old(domain.pfnAllocEnd), domain.totalPages) ==>
                HostError(r.error)
      ensures r.Err? && domain.imageInfo.virtBase % 4096 == 0
              && ListLastFits(domain.imageInfo, old(domain.pfnAllocEnd), domain.totalPages) ==>
                HostError(r.error)
      ensures r.Ok? ==>
                && TablesTaken(domain)
                && (RootLeads() <==>
                      var info := domain.imageInfo; info.virtP2mBase < info.virtBase && info.virtP2mBase % 4096 == 0)
      ensures r.Ok? && !P2mFirst(domain.imageInfo) && domain.imageInfo.virtBase % 4096 == 0 ==>
                && Arranged(domain)
                && startInfoSegment.value.pfn == old(domain.pfnAllocEnd)
                && EndBounded(domain.imageInfo.virtBase, old(domain.virtAllocEnd) + 3 * 4096, domain.virtPgtabEnd)
                && KeptOutside(old(domain.phys.call.mem), domain.phys.call.mem, domain.phys.p2m,
                               old(domain.pfnAllocEnd), domain.pfnAllocEnd)
                && old(domain.phys.pages) <= domain.phys.pages
    {
      hide CountMapping, Shift, RegionsOk, CoveredBy, KeptOutside, Arranged, EndBounded, AllZero, Owned, Distinct,
           Frames, CountAccepted, ListFirstFits, FirstTryFits, TablesPlaced, SharedPlaced, BoundFits, LateListFits,
           ListLastFits;
      if ListLastFits(domain.imageInfo, domain.pfnAllocEnd, domain.totalPages) {
        ListLastParts(domain.imageInfo, domain.pfnAllocEnd, domain.totalPages);
      }
      var _ :- AllocUpToStack(domain);
      if p2mSegment.None? {
        if domain.imageInfo.virtBase % 4096 == 0
           && ListLastFits(domain.imageInfo, old(domain.pfnAllocEnd), domain.totalPages) {
          ListLastLate(domain.imageInfo, old(domain.pfnAllocEnd), domain.totalPages, domain.virtPgtabEnd);
        }
        ghost var before, taken := domain.phys.call.mem, domain.pfnAllocEnd;
        var _ :- AllocLateP2m(domain);
        if domain.imageInfo.virtBase % 4096 == 0 {
          var ps := p2mSegment.value;
          KeptTwice(old(domain.phys.call.mem), before, domain.phys.call.mem, domain.phys.p2m,
                    old(domain.pfnAllocEnd), taken, ps.pfn, ps.pfn + ps.pages,
                    old(domain.pfnAllocEnd), domain.pfnAllocEnd);
        }
      }
      return Ok(());
    }

    lemma ValidParts(domain: BootDomain)
      requires domain.Valid()
      ensures |domain.phys.p2m| == domain.totalPages && domain.pfnAllocEnd <= domain.totalPages
      ensures domain.virtAllocEnd == domain.imageInfo.virtBase + domain.pfnAllocEnd * 4096
    {
      hide RegionsOk, CoveredBy, Distinct, Frames, Owned;
    }

    /** Everything before a p2m list that comes last. */
    method AllocUpToStack(domain: BootDomain) returns (r: Result<()>)
      requires domain.Valid() && domain.totalPages > 0
      requires table.mappingsCount == 0 && p2mSegment == None
      modifies this, domain`virtPgtabEnd, domain`virtAllocEnd, domain`pfnAllocEnd, domain`storeMfn, domain`consoleMfn
      modifies domain`consoleEvtchn, domain.phys.call`calls, domain.phys.call`failures
      modifies domain.phys`pages, domain.phys`leaked, domain.phys.call`mem, domain.phys.call`hostMap
      modifies domain.phys.call`failures
      ensures LeaksOnly(r, old(domain.phys.leaked), domain.phys.leaked)
      ensures Faulted(r, old(domain.phys.call.failures), domain.phys.call.failures)
      ensures domain.Valid()
      ensures r.Ok? ==>
                && domain.phys.call.calls == old(domain.phys.call.calls) + [AllocUnbound(domain.consoleEvtchn)]
                && domain.consoleEvtchn < 0x1_0000_0000
      ensures r.Err? && P2mFirst(domain.imageInfo) && domain.imageInfo.virtBase % 4096 == 0
              && ListFirstFits(old(table), domain.imageInfo, old(domain.pfnAllocEnd), domain.totalPages) ==>
                HostError(r.error)
      ensures r.Err? && !P2mFirst(domain.imageInfo) && domain.imageInfo.virtBase % 4096 == 0
              && old(domain.pfnAllocEnd) + 3 <= domain.totalPages
              && BoundFits(domain.imageInfo.virtBase, old(domain.virtAllocEnd) + 3 * 4096, domain.totalPages) ==>
                HostError(r.error)
      ensures r.Ok? ==>
                && TablesTaken(domain) && (RootLeads() <==> !P2mFirst(domain.imageInfo))
                && (p2mSegment.Some? <==> P2mFirst(domain.imageInfo)) && 0 < table.mappingsCount <= MAX_MAPPINGS
      ensures r.Ok? && !P2mFirst(domain.imageInfo) && domain.imageInfo.virtBase % 4096 == 0 ==>
                && TablesPlaced(domain) && SharedPlaced(domain) && domain.virtPgtabEnd > domain.imageInfo.virtBase
                && startInfoSegment.value.pfn == old(domain.pfnAllocEnd) <= domain.pfnAllocEnd
                && EndBounded(domain.imageInfo.virtBase, old(domain.virtAllocEnd) + 3 * 4096, domain.virtPgtabEnd)
                && KeptOutside(old(domain.phys.call.mem), domain.phys.call.mem, domain.phys.p2m,
                               old(domain.pfnAllocEnd), domain.pfnAllocEnd)
                && old(domain.phys.pages) <= domain.phys.pages
    {
      hide CountMapping, Shift, RegionsOk, CoveredBy, KeptOutside, EndBounded, AllZero, Owned, Distinct, Frames,
           CountAccepted, ListFirstFits, FirstTryFits, TablesPlaced, PlacedWith, Fresh, BoundFits, DomainTooSmall,
           PhysicalPages.Valid;
      ValidParts(domain);
      hide BootDomain.Valid;
      var _ :- AllocFirstSegments(domain);
      ValidParts(domain);
      ghost var before, taken := domain.phys.call.mem, domain.pfnAllocEnd;
      var _ :- AllocTablesAndStack(domain);
      if !P2mFirst(domain.imageInfo) && domain.imageInfo.virtBase % 4096 == 0 {
        KeptWider(before, domain.phys.call.mem, domain.phys.p2m, taken, domain.pfnAllocEnd,
                  old(domain.pfnAllocEnd), domain.pfnAllocEnd);
      }
      return Ok(());
    }

    /** Both runs of tables lie in mapped segments. */
    ghost predicate TablesMapped(domain: BootDomain)
      reads this, domain, domain.phys, domain.phys.call`mem, domain.phys.call`physmap, domain.phys.call`hostMap
    {
      && Layout(table, domain.totalPages)
      && pageTableSegment.Some? && p2mSegment.Some?
      && var pt, ps := pageTableSegment.value, p2mSegment.value;
      && PhysicalPage(pt.pfn, pt.addr, pt.pages) in domain.phys.pages
      && PhysicalPage(ps.pfn, ps.addr, ps.pages) in domain.phys.pages
      && pt.pfn == table.mappings[0].levels[3].pfn && pt.pages == table.mappings[0].area.pgtables
      && ps.pfn == table.mappings[1].area.pfn
      && ps.pfn + ps.pages == table.mappings[1].levels[3].pfn + table.mappings[1].area.pgtables
      && domain.pfnAllocEnd == ps.pfn + ps.pages
      && domain.totalPages <= 512 * (table.mappings[1].levels[3].pfn - ps.pfn)
    }

    ghost predicate LevelIn(domain: BootDomain, k: nat, m: nat, addr: nat)
      requires 1 <= k <= 4 && m < 2
      reads this, domain, domain.phys, domain.phys.call`mem, domain.phys.call`physmap, domain.phys.call`hostMap
    {
      var lv := Lev(table.mappings[m], k);
      lv.pfn + lv.pgtables <= domain.totalPages
      && Backed(domain.phys.call.hostMap, domain.phys.p2m, addr, lv.pfn, lv.pgtables)
    }

    /** Fill the slots of the level-(l + 1) tables of mapping m1 that refer to level l of mapping m2. */
    method FillRun(domain: BootDomain, l: nat, m1: nat, m2: nat, ptr: nat)
      requires domain.Valid() && Layout(table, domain.totalPages) && l < 4 && m1 < 2 && m2 < 2
      requires LevelIn(domain, l + 1, m1, ptr)
      modifies domain.phys.call`mem
      ensures domain.Valid()
      ensures var lv, child := Lev(table.mappings[m1], l + 1), Lev(table.mappings[m2], l);
              var mem, p2m := domain.phys.call.mem, domain.phys.p2m;
              && KeptOutside(old(domain.phys.call.mem), mem, p2m, lv.pfn, lv.pfn + lv.pgtables)
              && forall w :: 0 <= w < 512 * lv.pgtables ==>
                   WordAt(mem, p2m, lv.pfn, w)
                   == if HasSlot(lv, child, l, w) then SlotEntry(table, p2m, lv, child, l, w)
                      else WordAt(old(domain.phys.call.mem), p2m, lv.pfn, w)
    {
      hide Layout, Span, WordAt, RegionsOk, CoveredBy, HasSlot, SlotEntry, Tabled, Whole, KeptOutside, Distinct,
           Frames, Owned, Backed, RunStart, RunEnd, RunPfn, RunIs;
      KeptSelf(domain.phys.call.mem, domain.phys.p2m, table.mappings[m1].levels[l].pfn,
               table.mappings[m1].levels[l].pfn + table.mappings[m1].levels[l].pgtables);
      var map1, map2 := table.mappings[m1], table.mappings[m2];
      var from, to := map1.levels[l].from, map1.levels[l].to;
      var lvl := if l > 0 then map2.levels[l - 1] else map2.area;
      LevelPlace(table, domain.totalPages, m1, l + 1);
      ChildRange(table, domain.totalPages, m2, l, map1.levels[l]);
      if l > 0 && lvl.pgtables == 0 {
        return;
      }
      RunPlan(map1.levels[l], lvl, l);
      if lvl.from >= to || lvl.to <= from {
        return;
      }
      var pS := RunStart(map1.levels[l], lvl, l);
      var pE := RunEnd(map1.levels[l], lvl, l);
      var pfn := RunPfn(map1.levels[l], lvl, l);
      assert RunIs(Lev(map1, l + 1), Lev(map2, l), l, pS, pE, pfn);
      RunNats(Lev(map1, l + 1), Lev(map2, l), l, pS, pE, pfn);
      WriteEntries(domain, l, m1, m2, ptr, pS, pE, pfn);
      RunSlots(Lev(map1, l + 1), Lev(map2, l), l, pS, pE, pfn);
    }

    /** The innermost loop: slots pS..pE refer to the pfns from `first` on. */
    method WriteEntries(domain: BootDomain, l: nat, m1: nat, ghost m2: nat, ptr: nat, pS: nat, pE: nat, first: nat)
      requires domain.Valid() && Layout(table, domain.totalPages) && l < 4 && m1 < 2 && m2 < 2
      requires LevelIn(domain, l + 1, m1, ptr)
      requires RunIs(Lev(table.mappings[m1], l + 1), Lev(table.mappings[m2], l), l, pS, pE, first)
      modifies domain.phys.call`mem
      ensures domain.Valid()
      ensures var lv, child := Lev(table.mappings[m1], l + 1), Lev(table.mappings[m2], l);
              var mem, p2m := domain.phys.call.mem, domain.phys.p2m;
              && KeptOutside(old(domain.phys.call.mem), mem, p2m, lv.pfn, lv.pfn + lv.pgtables)
              && forall w :: 0 <= w < 512 * lv.pgtables ==>
                   WordAt(mem, p2m, lv.pfn, w)
                   == if pS <= w <= pE then SlotEntry(table, p2m, lv, child, l, w)
                      else WordAt(old(domain.phys.call.mem), p2m, lv.pfn, w)
    {
      hide Layout, Span, WordAt, RegionsOk, CoveredBy, KeptOutside, Has;
      ghost var lv, child, p2m := Lev(table.mappings[m1], l + 1), Lev(table.mappings[m2], l), domain.phys.p2m;
      ghost var mem0 := domain.phys.call.mem;
      KeptSelf(mem0, p2m, lv.pfn, lv.pfn + lv.pgtables);
      var p, pfn := pS, first;
      while p < pE + 1
        invariant pS <= p <= pE + 1 && pfn == first + (p - pS)
        invariant domain.Valid()
        invariant KeptOutside(mem0, domain.phys.call.mem, p2m, lv.pfn, lv.pfn + lv.pgtables)
        invariant forall w :: 0 <= w < 512 * lv.pgtables ==>
                    WordAt(domain.phys.call.mem, p2m, lv.pfn, w)
                    == if pS <= w < p then SlotEntry(table, p2m, lv, child, l, w) else WordAt(mem0, p2m, lv.pfn, w)
        modifies domain.phys.call`mem
      {
        assert HasSlot(lv, child, l, p);
        LayoutStacked(table, domain.totalPages, m1);
        ChildPlace(table, domain.totalPages, m2, l, 512 * First(lv, l + 1) + p);
        var prot := GetPgProt(l, pfn);
        var pfnPaddr := domain.phys.p2m[pfn] * 4096;
        ghost var mem1 := domain.phys.call.mem;
        domain.StoreInSlice(ptr, lv.pfn, lv.pgtables, p, pfnPaddr + prot);
        KeptTwice(mem0, mem1, domain.phys.call.mem, p2m, lv.pfn, lv.pfn + lv.pgtables,
                  lv.pfn, lv.pfn + lv.pgtables, lv.pfn, lv.pfn + lv.pgtables);
        pfn := pfn + 1;
        p := p + 1;
      }
    }

    /** Where the tables of level l + 1 of mapping m1 are mapped in the host. */
    method LevelPointer(domain: BootDomain, l: nat, m1: nat) returns (r: Result<nat>)
      requires domain.Valid() && TablesMapped(domain) && l < 4 && m1 < 2
      modifies domain.phys`pages, domain.phys`leaked, domain.phys.call`hostMap, domain.phys.call`failures
      ensures domain.Valid() && domain.phys.leaked == old(domain.phys.leaked)
      ensures domain.phys.pages == old(domain.phys.pages) && domain.phys.call.hostMap == old(domain.phys.call.hostMap)
      ensures r.Ok? <==> Lev(table.mappings[m1], l + 1).pfn < domain.pfnAllocEnd
      ensures r.Ok? ==> LevelIn(domain, l + 1, m1, r.value)
      ensures domain.phys.call.failures == old(domain.phys.call.failures)
      ensures r.Err? ==> r.error.MemorySetupFailed?
    {
      hide RegionsOk, CoveredBy, Lookup, Distinct, Frames, Owned, Layout, Backed;
      var level := table.mappings[m1].levels[l];
      SegmentOfLevel(domain, l + 1, m1);
      domain.phys.Found(level.pfn, 0);
      var ptr :- domain.phys.PfnToPtr(level.pfn, 0);
      LevelBacked(domain, l + 1, m1, ptr);
      return Ok(ptr);
    }

    /** Fill the tables of level l + 1 of mapping m1. */
    method FillLevel(domain: BootDomain, l: nat, m1: nat) returns (r: Result<()>)
      requires domain.Valid() && TablesMapped(domain) && l < 4 && m1 < 2
      requires LevelState(domain.phys.call.mem, domain.phys.p2m, table, l + 1, m1, false)
      modifies domain.phys`pages, domain.phys`leaked, domain.phys.call`hostMap, domain.phys.call`mem
      modifies domain.phys.call`failures
      ensures domain.phys.leaked == old(domain.phys.leaked)
      ensures domain.Valid() && TablesMapped(domain)
      ensures domain.phys.pages == old(domain.phys.pages) && domain.phys.call.hostMap == old(domain.phys.call.hostMap)
      ensures r.Ok? <==> Lev(table.mappings[m1], l + 1).pfn < domain.pfnAllocEnd
      ensures r.Ok? ==> LevelState(domain.phys.call.mem, domain.phys.p2m, table, l + 1, m1, true)
      ensures var lv := Lev(table.mappings[m1], l + 1);
              KeptOutside(old(domain.phys.call.mem), domain.phys.call.mem, domain.phys.p2m, lv.pfn,
                          lv.pfn + lv.pgtables)
      ensures domain.phys.call.failures == old(domain.phys.call.failures)
      ensures r.Err? ==> r.error.MemorySetupFailed?
    {
      hide RegionsOk, CoveredBy, Entry, WordAt, HasSlot, SlotEntry, KeptOutside, Distinct, Frames, Owned, Layout,
           Backed;
      ghost var p2m, mem0, lv := domain.phys.p2m, domain.phys.call.mem, Lev(table.mappings[m1], l + 1);
      KeptSelf(mem0, p2m, lv.pfn, lv.pfn + lv.pgtables);
      LayoutStacked(table, domain.totalPages, m1);
      var ptr :- LevelPointer(domain, l, m1);
      var m2 := 0;
      while m2 < table.mappingsCount
        invariant 0 <= m2 <= table.mappingsCount == 2
        invariant domain.Valid()
        invariant KeptOutside(mem0, domain.phys.call.mem, p2m, lv.pfn, lv.pfn + lv.pgtables)
        invariant forall w :: 0 <= w < 512 * lv.pgtables ==>
                    WordAt(domain.phys.call.mem, p2m, lv.pfn, w) == SlotUpTo(table, p2m, lv, l, w, m2)
        modifies domain.phys.call`mem
      {
        ghost var mem1 := domain.phys.call.mem;
        FillRun(domain, l, m1, m2, ptr);
        KeptTwice(mem0, mem1, domain.phys.call.mem, p2m, lv.pfn, lv.pfn + lv.pgtables,
                  lv.pfn, lv.pfn + lv.pgtables, lv.pfn, lv.pfn + lv.pgtables);
        OwnersApart(table, domain.totalPages, lv, l);
        m2 := m2 + 1;
      }
      forall w | 0 <= w < 512 * lv.pgtables
        ensures WordAt(domain.phys.call.mem, p2m, lv.pfn, w) == Entry(table, p2m, l, 512 * First(lv, l + 1) + w)
      {
        SlotComplete(table, p2m, lv, l, w);
      }
      return Ok(());
    }

    ghost function SegmentOf(m: nat): DomainSegment
      reads this
      requires pageTableSegment.Some? && p2mSegment.Some?
    {
      if m == 0 then pageTableSegment.value else p2mSegment.value
    }

    /** The tables of a level lie in the segment of their mapping; past its end there is no region. */
    lemma SegmentOfLevel(domain: BootDomain, k: nat, m: nat)
      requires domain.Valid() && TablesMapped(domain) && 1 <= k <= 4 && m < 2
      ensures table.mappingsCount == 2
      ensures var lv, seg := Lev(table.mappings[m], k), SegmentOf(m);
              && seg.pfn <= lv.pfn && lv.pfn + lv.pgtables <= seg.pfn + seg.pages <= domain.pfnAllocEnd
              && (lv.pfn < domain.pfnAllocEnd ==>
                    exists j :: 0 <= j < |domain.phys.pages| && Inside(domain.phys.pages[j], lv.pfn, 1)
                                && domain.phys.pages[j] == PhysicalPage(seg.pfn, seg.addr, seg.pages))
              && (lv.pfn >= domain.pfnAllocEnd ==>
                    forall j :: 0 <= j < |domain.phys.pages| ==> !Overlaps(domain.phys.pages[j], lv.pfn, 1))
    {
      hide RegionsOk, CoveredBy, Distinct, Frames, Owned;
      LevelPlace(table, domain.totalPages, m, k);
      LevelPlace(table, domain.totalPages, 0, k);
      FirstHasLeafTables(table, domain.totalPages);
      LayoutStacked(table, domain.totalPages, m);
    }

    lemma LevelBacked(domain: BootDomain, k: nat, m: nat, ptr: nat)
      requires domain.Valid() && TablesMapped(domain) && 1 <= k <= 4 && m < 2
      requires forall j :: 0 <= j < |domain.phys.pages|
                           && Inside(domain.phys.pages[j], Lev(table.mappings[m], k).pfn, 1) ==>
                 var lv, page := Lev(table.mappings[m], k), domain.phys.pages[j];
                 Backed(domain.phys.call.hostMap, domain.phys.p2m, ptr, lv.pfn, page.pfn + page.count - lv.pfn)
      requires Lev(table.mappings[m], k).pfn < domain.pfnAllocEnd
      ensures LevelIn(domain, k, m, ptr)
    {
      hide RegionsOk, CoveredBy, Distinct, Frames, Owned, Layout;
      SegmentOfLevel(domain, k, m);
    }

    /** `copy(p2m_guest, &p2m)`: the list of frames goes to the start of the p2m segment. */
    method CopyP2m(domain: BootDomain)
      requires domain.Valid() && TablesMapped(domain)
      modifies domain.phys.call`mem
      ensures domain.Valid() && TablesMapped(domain)
      ensures P2mStored(domain.phys.call.mem, domain.phys.p2m, p2mSegment.value.pfn)
      ensures KeptOutside(old(domain.phys.call.mem), domain.phys.call.mem, domain.phys.p2m,
                          p2mSegment.value.pfn, table.mappings[1].levels[3].pfn)
    {
      hide RegionsOk, CoveredBy, KeptOutside, Distinct, Owned, Layout, WordAt, Backed;
      ghost var pfn, n := p2mSegment.value.pfn, table.mappings[1].levels[3].pfn - p2mSegment.value.pfn;
      ghost var mem0, p2m := domain.phys.call.mem, domain.phys.p2m;
      var addr := p2mSegment.value.addr;
      P2mBacked(domain);
      KeptSelf(mem0, p2m, pfn, pfn + n);
      var i := 0;
      while i < |domain.phys.p2m|
        invariant 0 <= i <= |p2m|
        invariant domain.Valid()
        invariant KeptOutside(mem0, domain.phys.call.mem, p2m, pfn, pfn + n)
        invariant forall j :: 0 <= j < i ==> WordAt(domain.phys.call.mem, p2m, pfn, j) == p2m[j]
        modifies domain.phys.call`mem
      {
        ghost var mem1 := domain.phys.call.mem;
        domain.StoreInSlice(addr, pfn, n, i, domain.phys.p2m[i]);
        KeptTwice(mem0, mem1, domain.phys.call.mem, p2m, pfn, pfn + n, pfn, pfn + n, pfn, pfn + n);
        i := i + 1;
      }
    }

    lemma P2mBacked(domain: BootDomain)
      requires domain.Valid() && TablesMapped(domain)
      ensures var pfn, n := p2mSegment.value.pfn, table.mappings[1].levels[3].pfn - p2mSegment.value.pfn;
              && n >= 0 && pfn + n <= domain.totalPages && |domain.phys.p2m| <= 512 * n
              && Backed(domain.phys.call.hostMap, domain.phys.p2m, p2mSegment.value.addr, pfn, n)
    {
      hide Distinct, Owned, Frames, Layout;
      LevelPlace(table, domain.totalPages, 1, 4);
      var ps := p2mSegment.value;
      var j :| 0 <= j < |domain.phys.pages| && domain.phys.pages[j] == PhysicalPage(ps.pfn, ps.addr, ps.pages);
      assert RegionOk(domain.phys.Tracked(), domain.phys.p2m, domain.phys.pages[j]);
      hide RegionsOk, CoveredBy;
      BackedMore(domain.phys.Tracked(), domain.phys.call.hostMap, domain.phys.p2m, ps.addr, ps.pfn, ps.pages);
    }

    /** Copy the p2m list and fill every table. Fails exactly when the second mapping has no table of its own
        at the lowest level, that is when every 2 MiB region of the p2m list is already served by the first. */
    method SetupPageTables(domain: BootDomain) returns (r: Result<()>)
      requires domain.Valid() && TablesMapped(domain)
      requires AllZero(domain.phys.call.mem, domain.phys.p2m, pageTableSegment.value.pfn,
                       pageTableSegment.value.pfn + pageTableSegment.value.pages)
      requires AllZero(domain.phys.call.mem, domain.phys.p2m, p2mSegment.value.pfn,
                       p2mSegment.value.pfn + p2mSegment.value.pages)
      modifies domain.phys`pages, domain.phys`leaked, domain.phys.call`hostMap, domain.phys.call`mem
      modifies domain.phys.call`failures
      ensures domain.phys.leaked == old(domain.phys.leaked)
      ensures domain.Valid() && TablesMapped(domain) && domain.phys.pages == old(domain.phys.pages)
      ensures r.Ok? <==> table.mappings[1].levels[0].pgtables > 0
      ensures r.Ok? ==> Filled(domain.phys.call.mem, domain.phys.p2m, table)
                        && P2mStored(domain.phys.call.mem, domain.phys.p2m, p2mSegment.value.pfn)
      ensures KeptOutside(old(domain.phys.call.mem), domain.phys.call.mem, domain.phys.p2m,
                          pageTableSegment.value.pfn, domain.pfnAllocEnd)
      ensures domain.phys.call.failures == old(domain.phys.call.failures)
      ensures r.Err? ==> r.error.MemorySetupFailed?
    {
      hide RegionsOk, CoveredBy, KeptOutside, Distinct, Owned, Frames, Layout, AllZero, Progress, LevelState,
           P2mStored, Filled;
      ghost var p2m, mem0, pages := domain.phys.p2m, domain.phys.call.mem, domain.totalPages;
      ghost var start, end := pageTableSegment.value.pfn, domain.pfnAllocEnd;
      CopyP2m(domain);
      TablesStillClear(domain, mem0);
      var l := 4;
      while l > 0
        invariant 0 <= l <= 4
        invariant domain.Valid() && TablesMapped(domain) && domain.phys.pages == old(domain.phys.pages)
        invariant P2mStored(domain.phys.call.mem, p2m, p2mSegment.value.pfn)
        invariant KeptOutside(mem0, domain.phys.call.mem, p2m, start, end)
        invariant if l > 0 then Progress(domain.phys.call.mem, p2m, table, l - 1, 0)
                  else Progress(domain.phys.call.mem, p2m, table, 0, 2) && table.mappings[1].levels[0].pgtables > 0
        invariant domain.phys.leaked == old(domain.phys.leaked)
        invariant domain.phys.call.failures == old(domain.phys.call.failures)
        modifies domain.phys`pages, domain.phys`leaked, domain.phys.call`hostMap, domain.phys.call`mem
        modifies domain.phys.call`failures
      {
        l := l - 1;
        var m1 := 0;
        while m1 < table.mappingsCount
          invariant 0 <= m1 <= table.mappingsCount == 2
          invariant domain.Valid() && TablesMapped(domain) && domain.phys.pages == old(domain.phys.pages)
          invariant P2mStored(domain.phys.call.mem, p2m, p2mSegment.value.pfn)
          invariant KeptOutside(mem0, domain.phys.call.mem, p2m, start, end)
          invariant Progress(domain.phys.call.mem, p2m, table, l, m1)
          invariant m1 == 2 && l == 0 ==> table.mappings[1].levels[0].pgtables > 0
          invariant domain.phys.leaked == old(domain.phys.leaked)
          invariant domain.phys.call.failures == old(domain.phys.call.failures)
          modifies domain.phys`pages, domain.phys`leaked, domain.phys.call`hostMap, domain.phys.call`mem
          modifies domain.phys.call`failures
        {
          ghost var mem1 := domain.phys.call.mem;
          CurrentLevel(mem1, p2m, table, l, m1);
          SegmentOfLevel(domain, l + 1, m1);
          LevelPlace(table, pages, m1, l + 1);
          FirstHasLeafTables(table, pages);
          var filled := FillLevel(domain, l, m1);
          FillKept(domain, l, m1, mem0, mem1);
          var _ :- filled;
          ProgressStep(mem1, domain.phys.call.mem, p2m, table, l, m1);
          m1 := m1 + 1;
        }
        if l > 0 {
          ProgressDown(domain.phys.call.mem, p2m, table, l);
        }
      }
      AllDone(domain.phys.call.mem, p2m, table);
      return Ok(());
    }

    lemma TablesStillClear(domain: BootDomain, mem0: Memory)
      requires domain.Valid() && TablesMapped(domain)
      requires AllZero(mem0, domain.phys.p2m, pageTableSegment.value.pfn,
                       pageTableSegment.value.pfn + pageTableSegment.value.pages)
      requires AllZero(mem0, domain.phys.p2m, p2mSegment.value.pfn, p2mSegment.value.pfn + p2mSegment.value.pages)
      requires KeptOutside(mem0, domain.phys.call.mem, domain.phys.p2m, p2mSegment.value.pfn,
                           table.mappings[1].levels[3].pfn)
      ensures Progress(domain.phys.call.mem, domain.phys.p2m, table, 3, 0)
      ensures KeptOutside(mem0, domain.phys.call.mem, domain.phys.p2m, pageTableSegment.value.pfn, domain.pfnAllocEnd)
      ensures table.mappingsCount == 2
    {
      hide RegionsOk, CoveredBy, KeptOutside, Distinct, Owned, Frames, Layout, Progress;
      var mem, p2m, t := domain.phys.call.mem, domain.phys.p2m, table;
      var start, split := p2mSegment.value.pfn, t.mappings[1].levels[3].pfn;
      LevelPlace(t, domain.totalPages, 0, 4);
      LevelPlace(t, domain.totalPages, 1, 4);
      SegmentOfLevel(domain, 4, 0);
      P2mBacked(domain);
      SegmentsOrdered(t, domain.totalPages);
      ZeroKept(mem0, mem, p2m, t.mappings[0].levels[3].pfn, t.mappings[0].levels[3].pfn + t.mappings[0].area.pgtables,
               start, split);
      ZeroKept(mem0, mem, p2m, split, split + t.mappings[1].area.pgtables, start, split);
      ProgressStart(mem, p2m, t);
      KeptWider(mem0, mem, p2m, start, split, pageTableSegment.value.pfn, domain.pfnAllocEnd);
    }

    lemma FillKept(domain: BootDomain, l: nat, m1: nat, mem0: Memory, mem1: Memory)
      requires domain.Valid() && TablesMapped(domain) && l < 4 && m1 < 2
      requires KeptOutside(mem0, mem1, domain.phys.p2m, pageTableSegment.value.pfn, domain.pfnAllocEnd)
      requires P2mStored(mem1, domain.phys.p2m, p2mSegment.value.pfn)
      requires var lv := Lev(table.mappings[m1], l + 1);
               KeptOutside(mem1, domain.phys.call.mem, domain.phys.p2m, lv.pfn, lv.pfn + lv.pgtables)
      ensures KeptOutside(mem0, domain.phys.call.mem, domain.phys.p2m, pageTableSegment.value.pfn, domain.pfnAllocEnd)
      ensures P2mStored(domain.phys.call.mem, domain.phys.p2m, p2mSegment.value.pfn)
    {
      hide RegionsOk, CoveredBy, KeptOutside, Distinct, Owned, Frames, Layout, WordAt;
      var mem, p2m, lv := domain.phys.call.mem, domain.phys.p2m, Lev(table.mappings[m1], l + 1);
      var start, end := pageTableSegment.value.pfn, domain.pfnAllocEnd;
      LevelPlace(table, domain.totalPages, m1, l + 1);
      SegmentOfLevel(domain, l + 1, m1);
      P2mBacked(domain);
      SegmentsOrdered(table, domain.totalPages);
      KeptTwice(mem0, mem1, mem, p2m, start, end, lv.pfn, lv.pfn + lv.pgtables, start, end);
      FlatKept(mem1, mem, p2m, lv.pfn, lv.pfn + lv.pgtables, p2mSegment.value.pfn,
               table.mappings[1].levels[3].pfn - p2mSegment.value.pfn);
    }

    method SetupStartInfo(domain: BootDomain, sharedInfoFrame: nat) returns (r: Result<()>)
      requires domain.Valid() && TablesMapped(domain) && startInfoSegment.Some? && xenstoreSegment.Some?
      requires startInfoSegment.value.pfn < domain.pfnAllocEnd && xenstoreSegment.value.pfn < domain.totalPages
      requires |domain.cmdline| <= CMDLINE_SIZE
      modifies domain.phys`pages, domain.phys`leaked, domain.phys.call`hostMap, domain.phys.call`mem
      modifies domain.phys.call`failures
      ensures LeaksOnly(r, old(domain.phys.leaked), domain.phys.leaked)
      ensures Faulted(r, old(domain.phys.call.failures), domain.phys.call.failures)
      ensures domain.Valid() && TablesMapped(domain)
      ensures var pfn := startInfoSegment.value.pfn;
              KeptOutside(old(domain.phys.call.mem), domain.phys.call.mem, domain.phys.p2m, pfn, pfn + 1)
      ensures r.Ok? ==>
                StartInfoAt(domain.phys.call.mem, domain.phys.p2m, startInfoSegment.value.pfn,
                            StartInfoOf(domain, sharedInfoFrame))
      ensures r.Err? ==> MappingError(r.error)
    {
      hide RegionsOk, CoveredBy, KeptOutside, Owned, Distinct, Frames, Backed, Layout, WordAt, ByteAt, FieldsStored,
           TextStored, FieldOf, StartInfoAt;
      ghost var mem0 := domain.phys.call.mem;
      ghost var s := StartInfoOf(domain, sharedInfoFrame);
      var pfn := startInfoSegment.value.pfn;
      KeptSelf(mem0, domain.phys.p2m, pfn, pfn + 1);
      var ptr :- MapStartInfo(domain, pfn);
      NothingStored(domain.phys.call.mem, domain.phys.p2m, pfn, s);
      assert Written(domain, ptr, mem0, s, 0, {}, 0);
      hide Written;
      StoreStartInfo(domain, ptr, mem0, s, sharedInfoFrame);
      return Ok(());
    }

    /** Magic, fields and command line, in this order. */
    method StoreStartInfo(domain: BootDomain, ptr: nat, ghost mem0: Memory, ghost s: StartInfo, sharedInfoFrame: nat)
      requires xenstoreSegment.Some? && pageTableSegment.Some? && p2mSegment.Some?
      requires xenstoreSegment.value.pfn < |domain.phys.p2m| && s == StartInfoOf(domain, sharedInfoFrame)
      requires |domain.cmdline| <= CMDLINE_SIZE && Written(domain, ptr, mem0, s, 0, {}, 0)
      modifies domain.phys.call`mem
      ensures domain.Valid() && StartInfoMapped(domain, ptr, mem0)
      ensures StartInfoAt(domain.phys.call.mem, domain.phys.p2m, startInfoSegment.value.pfn, s)
    {
      hide Written, StartInfoMapped, StartInfoAt;
      StoreMagic(domain, ptr, mem0, s);
      StoreTableFields(domain, ptr, mem0, s, sharedInfoFrame);
      StoreOtherFields(domain, ptr, mem0, s);
      StoreCmdline(domain, ptr, mem0, s);
    }

    /** `ptr` maps the start-info page, the only one changed; so far it holds n characters of the magic, the
        fields in `done`, and m characters of the command line. */
    ghost predicate Written(domain: BootDomain, ptr: nat, mem0: Memory, s: StartInfo, n: nat, done: set<nat>, m: nat)
      requires n <= |GUEST_MAGIC| && m <= |s.cmdline|
      reads this, domain, domain.phys, domain.phys.call`mem, domain.phys.call`physmap, domain.phys.call`hostMap
    {
      && StartInfoMapped(domain, ptr, mem0)
      && var mem, p2m, pfn := domain.phys.call.mem, domain.phys.p2m, startInfoSegment.value.pfn;
      && TextStored(mem, p2m, pfn, 0, 32, GUEST_MAGIC, n)
      && FieldsStored(mem, p2m, pfn, s, done)
      && TextStored(mem, p2m, pfn, CMDLINE_AT, CMDLINE_SIZE, s.cmdline, m)
    }

    method StoreMagic(domain: BootDomain, ptr: nat, ghost mem0: Memory, ghost s: StartInfo)
      requires Written(domain, ptr, mem0, s, 0, {}, 0)
      modifies domain.phys.call`mem
      ensures Written(domain, ptr, mem0, s, |GUEST_MAGIC|, {}, 0)
    {
      hide RegionsOk, CoveredBy, KeptOutside, Owned, Distinct, Frames, Backed, WordAt, ByteAt, FieldsStored,
           TextStored;
      ghost var pfn, p2m := startInfoSegment.value.pfn, domain.phys.p2m;
      for i := 0 to |GUEST_MAGIC|
        invariant Written(domain, ptr, mem0, s, i, {}, 0)
      {
        ghost var before := domain.phys.call.mem;
        StoreChar(domain, ptr, mem0, i, GUEST_MAGIC[i] as int % 256);
        TextGrows(before, domain.phys.call.mem, p2m, pfn, 0, 32, GUEST_MAGIC, i);
        FieldsKept(before, domain.phys.call.mem, p2m, pfn, s, {});
        TextKept(before, domain.phys.call.mem, p2m, pfn, CMDLINE_AT, CMDLINE_SIZE, s.cmdline, 0);
      }
      ghost var before := domain.phys.call.mem;
      StoreChar(domain, ptr, mem0, |GUEST_MAGIC|, 0);
      TextEnds(before, domain.phys.call.mem, p2m, pfn, 0, 32, GUEST_MAGIC, |GUEST_MAGIC|, |GUEST_MAGIC|);
      FieldsKept(before, domain.phys.call.mem, p2m, pfn, s, {});
      TextKept(before, domain.phys.call.mem, p2m, pfn, CMDLINE_AT, CMDLINE_SIZE, s.cmdline, 0);
    }

    /** The command line, at most as long as its field; the last byte of the field is always 0. */
    method StoreCmdline(domain: BootDomain, ptr: nat, ghost mem0: Memory, ghost s: StartInfo)
      requires s.cmdline == domain.cmdline && |domain.cmdline| <= CMDLINE_SIZE
      requires domain.initrdSegment.None? ==> s.modStart == 0 && s.modLen == 0
      requires Written(domain, ptr, mem0, s, |GUEST_MAGIC|, AllFields(domain.initrdSegment.Some?), 0)
      modifies domain.phys.call`mem
      ensures domain.Valid() && StartInfoMapped(domain, ptr, mem0)
      ensures StartInfoAt(domain.phys.call.mem, domain.phys.p2m, startInfoSegment.value.pfn, s)
    {
      hide RegionsOk, CoveredBy, KeptOutside, Owned, Distinct, Frames, Backed, WordAt, ByteAt, FieldOf, FieldsStored,
           TextStored, AllFields;
      ghost var pfn, p2m, done := startInfoSegment.value.pfn, domain.phys.p2m, AllFields(domain.initrdSegment.Some?);
      for i := 0 to |domain.cmdline|
        invariant Written(domain, ptr, mem0, s, |GUEST_MAGIC|, done, i)
      {
        ghost var before := domain.phys.call.mem;
        StoreChar(domain, ptr, mem0, CMDLINE_AT + i, domain.cmdline[i] as int % 256);
        TextGrows(before, domain.phys.call.mem, p2m, pfn, CMDLINE_AT, CMDLINE_SIZE, s.cmdline, i);
        FieldsKept(before, domain.phys.call.mem, p2m, pfn, s, done);
        TextKept(before, domain.phys.call.mem, p2m, pfn, 0, 32, GUEST_MAGIC, |GUEST_MAGIC|);
      }
      ghost var before := domain.phys.call.mem;
      StoreChar(domain, ptr, mem0, CMDLINE_AT + CMDLINE_SIZE - 1, 0);
      TextEnds(before, domain.phys.call.mem, p2m, pfn, CMDLINE_AT, CMDLINE_SIZE, s.cmdline, |s.cmdline|,
               CMDLINE_SIZE - 1);
      FieldsKept(before, domain.phys.call.mem, p2m, pfn, s, done);
      TextKept(before, domain.phys.call.mem, p2m, pfn, 0, 32, GUEST_MAGIC, |GUEST_MAGIC|);
      AllStored(domain.phys.call.mem, p2m, pfn, s, domain.initrdSegment.Some?);
    }

    /** One byte of the page. */
    method StoreChar(domain: BootDomain, ptr: nat, ghost mem0: Memory, at: nat, b: Byte)
      requires StartInfoMapped(domain, ptr, mem0) && at < 4096
      modifies domain.phys.call`mem
      ensures domain.Valid() && StartInfoMapped(domain, ptr, mem0)
      ensures var pfn, p2m, before, after := startInfoSegment.value.pfn, domain.phys.p2m, old(domain.phys.call.mem),
                                             domain.phys.call.mem;
              && (forall k :: 0 <= k < 4096 ==>
                    ByteAt(after, p2m, pfn, k) == if k == at then b else ByteAt(before, p2m, pfn, k))
              && (forall w :: 0 <= w < 512 && w != at / 8 ==> WordAt(after, p2m, pfn, w) == WordAt(before, p2m, pfn, w))
    {
      hide RegionsOk, CoveredBy, KeptOutside, Owned, Distinct, Frames, WordAt, ByteAt, Backed;
      ghost var pfn := startInfoSegment.value.pfn;
      domain.StoreByteInSlice(ptr, pfn, 1, at, b);
      KeptTwice(mem0, old(domain.phys.call.mem), domain.phys.call.mem, domain.phys.p2m, pfn, pfn + 1, pfn, pfn + 1,
                pfn, pfn + 1);
    }

    /** The fields about memory and tables. */
    method StoreTableFields(domain: BootDomain, ptr: nat, ghost mem0: Memory, ghost s: StartInfo, sharedInfoFrame: nat)
      requires pageTableSegment.Some? && p2mSegment.Some?
      requires s.nrPages == domain.totalPages && s.sharedInfo == sharedInfoFrame * 4096
      requires s.ptBase == pageTableSegment.value.vstart && s.nrPtFrames == table.mappings[0].area.pgtables
      requires s.mfnList == p2mSegment.value.vstart && s.firstP2mPfn == p2mSegment.value.pfn
      requires s.nrP2mFrames == p2mSegment.value.pages
      requires Written(domain, ptr, mem0, s, |GUEST_MAGIC|, {}, 0)
      modifies domain.phys.call`mem
      ensures Written(domain, ptr, mem0, s, |GUEST_MAGIC|, TABLE_FIELDS, 0)
    {
      hide Written, FieldOf;
      FieldValues(s);
      ghost var done := {};
      done := StoreField(domain, ptr, mem0, s, done, NR_PAGES, domain.totalPages);
      done := StoreField(domain, ptr, mem0, s, done, SHARED_INFO, sharedInfoFrame * 4096);
      done := StoreField(domain, ptr, mem0, s, done, PT_BASE, pageTableSegment.value.vstart);
      done := StoreField(domain, ptr, mem0, s, done, NR_PT_FRAMES, table.mappings[0].area.pgtables);
      done := StoreField(domain, ptr, mem0, s, done, MFN_LIST, p2mSegment.value.vstart);
      done := StoreField(domain, ptr, mem0, s, done, FIRST_P2M_PFN, p2mSegment.value.pfn);
      done := StoreField(domain, ptr, mem0, s, done, NR_P2M_FRAMES, p2mSegment.value.pages);
      assert done == TABLE_FIELDS;
    }

    /** The flags, the store and console pages with their event channels, and the ramdisk if there is one. */
    method StoreOtherFields(domain: BootDomain, ptr: nat, ghost mem0: Memory, ghost s: StartInfo)
      requires xenstoreSegment.Some? && xenstoreSegment.value.pfn < |domain.phys.p2m|
      requires s.storeMfn == domain.phys.p2m[xenstoreSegment.value.pfn] && s.storeEvtchn == domain.storeEvtchn
      requires s.consoleMfn == domain.consoleMfn && s.consoleEvtchn == domain.consoleEvtchn
      requires domain.initrdSegment.Some? ==>
                 s.modStart == domain.initrdSegment.value.vstart && s.modLen == domain.initrdSegment.value.size
      requires Written(domain, ptr, mem0, s, |GUEST_MAGIC|, TABLE_FIELDS, 0)
      modifies domain.phys.call`mem
      ensures Written(domain, ptr, mem0, s, |GUEST_MAGIC|, AllFields(domain.initrdSegment.Some?), 0)
    {
      hide Written, FieldOf;
      FieldValues(s);
      ghost var done := TABLE_FIELDS;
      done := StoreField(domain, ptr, mem0, s, done, FLAGS, 0);
      done := StoreField(domain, ptr, mem0, s, done, STORE_EVTCHN, domain.storeEvtchn);
      done := StoreField(domain, ptr, mem0, s, done, STORE_MFN, domain.phys.p2m[xenstoreSegment.value.pfn]);
      done := StoreField(domain, ptr, mem0, s, done, CONSOLE_MFN, domain.consoleMfn);
      done := StoreField(domain, ptr, mem0, s, done, CONSOLE_EVTCHN, domain.consoleEvtchn);
      if domain.initrdSegment.Some? {
        done := StoreField(domain, ptr, mem0, s, done, MOD_START, domain.initrdSegment.value.vstart);
        done := StoreField(domain, ptr, mem0, s, done, MOD_LEN, domain.initrdSegment.value.size);
      }
      assert done == AllFields(domain.initrdSegment.Some?);
    }

    /** `ptr` maps the start-info page, the only one changed so far. */
    ghost predicate StartInfoMapped(domain: BootDomain, ptr: nat, mem0: Memory)
      reads this, domain, domain.phys, domain.phys.call`mem, domain.phys.call`physmap, domain.phys.call`hostMap
    {
      && domain.Valid() && startInfoSegment.Some?
      && var pfn := startInfoSegment.value.pfn;
      && pfn < domain.totalPages
      && Backed(domain.phys.call.hostMap, domain.phys.p2m, ptr, pfn, 1)
      && KeptOutside(mem0, domain.phys.call.mem, domain.phys.p2m, pfn, pfn + 1)
    }

    /** What the start info is to say about the arranged segments; the module fields are 0 without a ramdisk. */
    ghost function StartInfoOf(domain: BootDomain, sharedInfoFrame: nat): StartInfo
      requires xenstoreSegment.Some? && pageTableSegment.Some? && p2mSegment.Some?
      requires xenstoreSegment.value.pfn < |domain.phys.p2m|
      reads this, domain, domain.phys`p2m
    {
      var pt, ps, initrd := pageTableSegment.value, p2mSegment.value, domain.initrdSegment;
      StartInfo(domain.totalPages, sharedInfoFrame * 4096, domain.phys.p2m[xenstoreSegment.value.pfn],
                domain.storeEvtchn, domain.consoleMfn, domain.consoleEvtchn, pt.vstart, table.mappings[0].area.pgtables,
                ps.vstart, if initrd.Some? then initrd.value.vstart else 0,
                if initrd.Some? then initrd.value.size else 0, ps.pfn, ps.pages, domain.cmdline)
    }

    /** Map and clear the start-info page. */
    method MapStartInfo(domain: BootDomain, pfn: nat) returns (r: Result<nat>)
      requires domain.Valid() && TablesMapped(domain) && pfn < domain.pfnAllocEnd
      modifies domain.phys`pages, domain.phys`leaked, domain.phys.call`hostMap, domain.phys.call`mem
      modifies domain.phys.call`failures
      ensures LeaksOnly(r, old(domain.phys.leaked), domain.phys.leaked)
      ensures Faulted(r, old(domain.phys.call.failures), domain.phys.call.failures)
      ensures domain.Valid() && TablesMapped(domain)
      ensures KeptOutside(old(domain.phys.call.mem), domain.phys.call.mem, domain.phys.p2m, pfn, pfn + 1)
      ensures r.Ok? ==>
                && Backed(domain.phys.call.hostMap, domain.phys.p2m, r.value, pfn, 1)
                && (forall w :: 0 <= w < 512 ==> WordAt(domain.phys.call.mem, domain.phys.p2m, pfn, w) == 0)
                && (forall k :: 0 <= k < 4096 ==> ByteAt(domain.phys.call.mem, domain.phys.p2m, pfn, k) == 0)
      ensures r.Err? ==> MappingError(r.error)
    {
      hide RegionsOk, CoveredBy, Lookup, KeptOutside, Distinct, Frames, Layout;
      KeptSelf(domain.phys.call.mem, domain.phys.p2m, pfn, pfn + 1);
      ghost var pages0 := domain.phys.pages;
      assert forall j :: 0 <= j < |pages0| && Overlaps(pages0[j], pfn, 1) ==> Inside(pages0[j], pfn, 1);
      domain.phys.Found(pfn, 1);
      var ptr :- domain.phys.PfnToPtr(pfn, 1);
      assert pages0 <= domain.phys.pages;
      hide Backed, Owned;
      domain.ClearPages(ptr, pfn, 1);
      FlatZero(domain.phys.call.mem, domain.phys.p2m, pfn, 1);
      ZeroBytes(domain.phys.call.mem, domain.phys.p2m, pfn, 1);
      return Ok(ptr);
    }

    /** One field: its word is set and nothing else on the page changes. */
    method StoreField(domain: BootDomain, ptr: nat, ghost mem0: Memory, ghost s: StartInfo, ghost done: set<nat>,
                      w: nat, v: nat)
      returns (ghost done': set<nat>)
      requires Written(domain, ptr, mem0, s, |GUEST_MAGIC|, done, 0)
      requires FieldWord(w) && v == FieldOf(s, w)
      modifies domain.phys.call`mem
      ensures done' == done + {w}
      ensures Written(domain, ptr, mem0, s, |GUEST_MAGIC|, done', 0)
    {
      hide RegionsOk, CoveredBy, KeptOutside, Owned, Distinct, Frames, WordAt, ByteAt, Backed, FieldOf, FieldsStored,
           TextStored;
      ghost var pfn, p2m, before := startInfoSegment.value.pfn, domain.phys.p2m, domain.phys.call.mem;
      domain.StoreInSlice(ptr, pfn, 1, w, v % U64);
      KeptTwice(mem0, before, domain.phys.call.mem, p2m, pfn, pfn + 1, pfn, pfn + 1, pfn, pfn + 1);
      FieldAdded(before, domain.phys.call.mem, p2m, pfn, s, done, w);
      TextKept(before, domain.phys.call.mem, p2m, pfn, 0, 32, GUEST_MAGIC, |GUEST_MAGIC|);
      TextKept(before, domain.phys.call.mem, p2m, pfn, CMDLINE_AT, CMDLINE_SIZE, s.cmdline, 0);
      done' := done + {w};
    }

    /** Let the hypervisor fill the page the image names, if it names one. */
    method SetupHypercallPage(domain: BootDomain) returns (r: Result<()>)
      requires domain.Valid()
      requires var info := domain.imageInfo;
               info.virtHypercall != U64 - 1 ==>
                 info.virtBase <= info.virtHypercall && (info.virtHypercall - info.virtBase) / 4096 < domain.totalPages
      modifies domain.phys.call`mem, domain.phys.call`calls, domain.phys.call`failures
      ensures domain.Valid()
      // the hypervisor has filled the page that holds the named address, if one is named
      ensures r.Ok? ==>
                var info := domain.imageInfo;
                domain.phys.call.calls == old(domain.phys.call.calls)
                                          + if info.virtHypercall == U64 - 1 then []
                                            else [InitHypercalls(
                                                    domain.phys.p2m[(info.virtHypercall - info.virtBase) / 4096])]
      ensures domain.imageInfo.virtHypercall == U64 - 1 ==> domain.phys.call.mem == old(domain.phys.call.mem)
      ensures domain.imageInfo.virtHypercall != U64 - 1 ==>
                var pfn := (domain.imageInfo.virtHypercall - domain.imageInfo.virtBase) / 4096;
                KeptOutside(old(domain.phys.call.mem), domain.phys.call.mem, domain.phys.p2m, pfn, pfn + 1)
      ensures r.Err? ==> r.error == HypercallFailed
      ensures Faulted(r, old(domain.phys.call.failures), domain.phys.call.failures)
    {
      hide RegionsOk, CoveredBy;
      if domain.imageInfo.virtHypercall == U64 - 1 {
        return Ok(());
      }
      var pfn := (domain.imageInfo.virtHypercall - domain.imageInfo.virtBase) / 4096;
      var mfn := domain.phys.p2m[pfn];
      var ok := domain.phys.call.HypercallInit(mfn);
      if !ok {
        return Err(HypercallFailed);
      }
      return Ok(());
    }

    /** Drop the host mappings of both table segments. */
    method UnmapTables(domain: BootDomain) returns (r: Result<()>)
      requires domain.Valid() && TablesMapped(domain)
      modifies domain.phys`pages, domain.phys.call`hostMap, domain.phys.call`failures
      ensures domain.phys.Valid()
      ensures r.Err? ==> r.error == UnmapFailed
      ensures r.Ok? ==>
                var pt, ps := pageTableSegment.value, p2mSegment.value;
                forall i :: 0 <= i < |domain.phys.pages| ==>
                  !Overlaps(domain.phys.pages[i], pt.pfn, pt.pages) && !Overlaps(domain.phys.pages[i], ps.pfn, ps.pages)
      ensures Faulted(r, old(domain.phys.call.failures), domain.phys.call.failures)
    {
      hide RegionsOk, CoveredBy, Owned, Distinct, Frames, Layout, Overlaps;
      var pt, ps := pageTableSegment.value, p2mSegment.value;
      SegmentsPositive(domain);
      ghost var pages0 := domain.phys.pages;
      ghost var j0 := RegionIndex(pages0, PhysicalPage(pt.pfn, pt.addr, pt.pages));
      StartsOnce(pages0, domain.phys.Tracked(), domain.phys.p2m, j0);
      var _ :- domain.phys.Unmap(pt.pfn);
      ghost var pages1 := domain.phys.pages;
      SecondStays(pages0, pages1, pt, ps);
      ghost var j1 := RegionIndex(pages1, PhysicalPage(ps.pfn, ps.addr, ps.pages));
      StartsOnce(pages1, domain.phys.Tracked(), domain.phys.p2m, j1);
      r := domain.phys.Unmap(ps.pfn);
    }

    /** Unmap both table segments from the host and pin the root table. */
    method Bootlate(domain: BootDomain) returns (r: Result<()>)
      requires domain.Valid() && TablesMapped(domain) && domain.phys.leaked == {}
      modifies domain.phys`pages, domain.phys.call`hostMap, domain.phys.call`calls, domain.phys.call`failures
      ensures domain.phys.Valid()
      ensures r.Err? ==> r.error == UnmapFailed || r.error == HypercallFailed
      ensures r.Err? ==> domain.phys.call.calls == old(domain.phys.call.calls)
      ensures r.Ok? ==>
                var pt, ps := pageTableSegment.value, p2mSegment.value;
                && pt.pfn < |domain.phys.p2m|
                && domain.phys.call.calls == old(domain.phys.call.calls) + [PinRoot(domain.phys.p2m[pt.pfn])]
                && Unmapped(domain.phys.call.hostMap, domain.phys.p2m, pt.pfn, pt.pfn + pt.pages)
                && Unmapped(domain.phys.call.hostMap, domain.phys.p2m, ps.pfn, ps.pfn + ps.pages)
      ensures Faulted(r, old(domain.phys.call.failures), domain.phys.call.failures)
    {
      hide RegionsOk, CoveredBy, Owned, Distinct, Frames, Layout, Unmapped, Overlaps;
      var pt, ps := pageTableSegment.value, p2mSegment.value;
      SegmentOfLevel(domain, 4, 0);
      SegmentsPositive(domain);
      var pgMfn := domain.phys.p2m[pt.pfn];
      var _ :- UnmapTables(domain);
      assert domain.phys.Tracked() == domain.phys.call.hostMap;
      NoRegionNoMapping(domain.phys.pages, domain.phys.call.hostMap, domain.phys.p2m, pt.pfn, pt.pages);
      NoRegionNoMapping(domain.phys.pages, domain.phys.call.hostMap, domain.phys.p2m, ps.pfn, ps.pages);
      r := domain.phys.call.Control(PinRoot(pgMfn));
    }

    lemma SegmentsPositive(domain: BootDomain)
      requires domain.Valid() && TablesMapped(domain)
      ensures pageTableSegment.value.pages > 0 && p2mSegment.value.pages > 0
      ensures pageTableSegment.value.pfn + pageTableSegment.value.pages <= p2mSegment.value.pfn
    {
      hide RegionsOk, CoveredBy, Owned, Distinct, Frames, Layout;
      SegmentsOrdered(table, domain.totalPages);
      FirstHasLeafTables(table, domain.totalPages);
      LevelPlace(table, domain.totalPages, 0, 1);
    }

    /** Map the page the hypervisor shares with the domain, clear the shared information in it, and mask event
        delivery for all 32 virtual CPUs. Nothing else in memory changes. */
    method SetupSharedInfo(domain: BootDomain, frame: nat) returns (r: Result<()>)
      requires domain.phys.Covered()
      modifies domain.phys`pages, domain.phys`leaked, domain.phys.call`hostMap, domain.phys.call`mem
      modifies domain.phys.call`failures
      ensures domain.phys.Covered() && LeaksOnly(r, old(domain.phys.leaked), domain.phys.leaked)
      ensures domain.phys.call.mem.Keys == old(domain.phys.call.mem).Keys
      ensures forall f :: f in domain.phys.call.mem && f != frame ==>
                domain.phys.call.mem[f] == old(domain.phys.call.mem)[f]
      ensures r.Ok? ==> EventsMasked(domain.phys.call.mem, frame)
      // one page is mapped, and listed for unmapping
      ensures r.Ok? ==>
                var n := |old(domain.phys.pages)|;
                && |domain.phys.pages| == n + 1 && domain.phys.pages[..n] == old(domain.phys.pages)
                && domain.phys.pages[n].pfn == frame && domain.phys.pages[n].count == 1
      ensures r.Ok? ==> forall k :: SHARED_INFO_SIZE <= k < 4096 ==>
                domain.phys.call.mem[frame][k] == old(domain.phys.call.mem)[frame][k]
      ensures r.Err? ==> MappingError(r.error)
      ensures Faulted(r, old(domain.phys.call.failures), domain.phys.call.failures)
    {
      hide CoveredBy;
      var call := domain.phys.call;
      var ptr :- domain.phys.MapForeignPages(frame, 1);
      assert ptr / 4096 in call.hostMap && call.hostMap[ptr / 4096] == frame;
      call.ClearBytes(ptr, SHARED_INFO_SIZE);
      ghost var cleared := call.mem[frame];
      for i := 0 to 32
        invariant domain.phys.Covered() && call.mem.Keys == old(call.mem).Keys
        invariant forall f :: f in call.mem && f != frame ==> call.mem[f] == old(call.mem)[f]
        invariant forall k :: 0 <= k < 4096 ==>
                    call.mem[frame][k] == if k < i * 64 && k % 64 == 1 then 1 else cleared[k]
        modifies domain.phys.call`mem
      {
        MaskByte(ptr, i);
        call.StoreByte(ptr + 64 * i + 1, 1);
      }
      return Ok(());
    }

    /** Grant references 0 and 1 give the host's domain access to the console and store pages. */
    method GnttabSeed(domain: BootDomain) returns (r: Result<()>)
      requires xenstoreSegment.Some? && xenstoreSegment.value.pfn < |domain.phys.p2m|
      modifies domain.phys.call`grants, domain.phys.call`calls, domain.phys.call`failures
      ensures var grants, grants' := old(domain.phys.call.grants), domain.phys.call.grants;
              var seeded := grants[0 := GrantOf(domain.consoleMfn)]
                                  [1 := GrantOf(domain.phys.p2m[xenstoreSegment.value.pfn])];
              if r.Ok? then grants' == seeded else grants' == grants || grants' == seeded
      ensures r.Ok? ==> domain.phys.call.calls == old(domain.phys.call.calls) + [MapGrantTable]
      ensures r.Err? ==> r.error in {MmapFailed, HypercallFailed, UnmapFailed}
      ensures Faulted(r, old(domain.phys.call.failures), domain.phys.call.failures)
    {
      var xenstoreGfn := domain.phys.p2m[xenstoreSegment.value.pfn];
      var addr := domain.phys.call.Mmap(1);
      if addr.None? {
        return Err(MmapFailed);
      }
      var _ :- domain.phys.call.Control(MapGrantTable);  // no memory of the domain
      domain.phys.call.StoreGrant(0, GrantOf(domain.consoleMfn));
      domain.phys.call.StoreGrant(1, GrantOf(xenstoreGfn));
      r := domain.phys.call.UnmapGrants();
    }

    /** The registers the guest starts with. */
    method Vcpu(domain: BootDomain) returns (r: Result<VcpuContext>)
      requires startInfoSegment.Some? && bootStackSegment.Some? && pageTableSegment.Some?
      requires pageTableSegment.value.pfn < |domain.phys.p2m|
      modifies domain.phys.call`calls, domain.phys.call`failures
      ensures r.Ok? ==>
                && r.value == VcpuContext(domain.imageInfo.virtEntry,
                                          domain.imageInfo.virtBase + (bootStackSegment.value.pfn + 1) * 4096,
                                          domain.imageInfo.virtBase + startInfoSegment.value.pfn * 4096,
                                          domain.phys.p2m[pageTableSegment.value.pfn] * 4096)
                && domain.phys.call.calls == old(domain.phys.call.calls) + [SetContext(r.value)]
      ensures r.Err? ==> r.error == HypercallFailed
      ensures Faulted(r, old(domain.phys.call.failures), domain.phys.call.failures)
    {
      var pgMfn := domain.phys.p2m[pageTableSegment.value.pfn];
      var vcpu := VcpuContext(domain.imageInfo.virtEntry,
                              domain.imageInfo.virtBase + (bootStackSegment.value.pfn + 1) * 4096,
                              domain.imageInfo.virtBase + startInfoSegment.value.pfn * 4096, pgMfn * 4096);
      var _ :- domain.phys.call.Control(SetContext(vcpu));
      return Ok(vcpu);
    }
  }

  const FRAME_BITS_END: nat := 0x1_0000_0000  // a grant entry has 32 bits for its frame

  /** The entry for a frame of the guest: `frame as u32`. */
  function GrantOf(frame: nat): GrantEntry {
    GrantEntry(1, 0, frame % FRAME_BITS_END)
  }

  /** The entry gives the host access to the frame with the number the guest was told, exactly if the number fits
      into 32 bits. */
  ghost predicate GrantSeeded(grants: map<nat, GrantEntry>, ref: nat, told: Option<nat>) {
    && ref in grants && told.Some? && grants[ref].flags == 1 && grants[ref].domid == 0
    && grants[ref].frame == told.value % 0x1_0000_0000
    && (grants[ref].frame == told.value <==> told.value < 0x1_0000_0000)
  }

  lemma GrantNames(grants: map<nat, GrantEntry>, ref: nat, frame: nat)
    requires ref in grants && grants[ref] == GrantOf(frame)
    ensures GrantSeeded(grants, ref, Some(frame))
  {
    ModBounds(frame, FRAME_BITS_END);
  }

  /** A domain of two pages, with frames the hypervisor can give: the grant for its second page names the first. */
  lemma GrantOfAnotherPage() returns (p2m: seq<nat>)
    ensures |p2m| == 2 && Distinct(p2m) && Frames(p2m)
    ensures GrantOf(p2m[1]).frame == p2m[0]
  {
    p2m := [0, FRAME_BITS_END];
  }

  const TABLE_FIELDS: set<nat> := {NR_PAGES, SHARED_INFO, PT_BASE, NR_PT_FRAMES, MFN_LIST, FIRST_P2M_PFN, NR_P2M_FRAMES}

  /** The fields that are set; the module fields stay 0 without a ramdisk. */
  function AllFields(ramdisk: bool): set<nat> {
    TABLE_FIELDS + {FLAGS, STORE_EVTCHN, STORE_MFN, CONSOLE_MFN, CONSOLE_EVTCHN}
    + if ramdisk then {MOD_START, MOD_LEN} else {}
  }

  lemma NothingStored(mem: Memory, p2m: seq<nat>, pfn: nat, s: StartInfo)
    requires forall w :: 0 <= w < 512 ==> WordAt(mem, p2m, pfn, w) == 0
    requires forall k :: 0 <= k < 4096 ==> ByteAt(mem, p2m, pfn, k) == 0
    ensures FieldsStored(mem, p2m, pfn, s, {})
    ensures TextStored(mem, p2m, pfn, 0, 32, GUEST_MAGIC, 0)
    ensures TextStored(mem, p2m, pfn, CMDLINE_AT, CMDLINE_SIZE, s.cmdline, 0)
  {
    hide WordAt, ByteAt;
  }

  /** One more character. */
  lemma TextGrows(before: Memory, after: Memory, p2m: seq<nat>, pfn: nat, at: nat, size: nat, text: string, n: nat)
    requires n < |text| && n < size && at + size <= 4096 && TextStored(before, p2m, pfn, at, size, text, n)
    requires forall k :: 0 <= k < 4096 ==>
               ByteAt(after, p2m, pfn, k) == if k == at + n then text[n] as int % 256 else ByteAt(before, p2m, pfn, k)
    ensures TextStored(after, p2m, pfn, at, size, text, n + 1)
  {
    hide ByteAt;
    var m := n + 1;
    forall k: nat | k < size
      ensures CharStored(after, p2m, pfn, at, text, m, k)
    {
      assert CharStored(before, p2m, pfn, at, text, n, k);
    }
  }

  /** A zero at place e cuts the text off there, if it is that long. */
  lemma TextEnds(before: Memory, after: Memory, p2m: seq<nat>, pfn: nat, at: nat, size: nat, text: string, n: nat,
                 e: nat)
    requires n <= |text| && n <= e + 1 <= size && at + size <= 4096 && TextStored(before, p2m, pfn, at, size, text, n)
    requires forall k :: 0 <= k < 4096 ==>
               ByteAt(after, p2m, pfn, k) == if k == at + e then 0 else ByteAt(before, p2m, pfn, k)
    ensures TextStored(after, p2m, pfn, at, size, text, if n <= e then n else e)
  {
    hide ByteAt;
    var m := if n <= e then n else e;
    forall k: nat | k < size
      ensures CharStored(after, p2m, pfn, at, text, m, k)
    {
      assert CharStored(before, p2m, pfn, at, text, n, k);
    }
    assert TextStored(after, p2m, pfn, at, size, text, m);
  }

  lemma TextKept(before: Memory, after: Memory, p2m: seq<nat>, pfn: nat, at: nat, size: nat, text: string, n: nat)
    requires n <= |text| && at + size <= 4096 && TextStored(before, p2m, pfn, at, size, text, n)
    requires forall k :: at <= k < at + size ==> ByteAt(after, p2m, pfn, k) == ByteAt(before, p2m, pfn, k)
    ensures TextStored(after, p2m, pfn, at, size, text, n)
  {
    hide ByteAt;
    forall k: nat | k < size
      ensures CharStored(after, p2m, pfn, at, text, n, k)
    {
      assert CharStored(before, p2m, pfn, at, text, n, k);
    }
  }

  lemma FieldsKept(before: Memory, after: Memory, p2m: seq<nat>, pfn: nat, s: StartInfo, done: set<nat>)
    requires FieldsStored(before, p2m, pfn, s, done)
    requires forall w: nat :: FieldWord(w) ==> WordAt(after, p2m, pfn, w) == WordAt(before, p2m, pfn, w)
    ensures FieldsStored(after, p2m, pfn, s, done)
  {
    hide WordAt, FieldOf;
  }

  lemma FieldAdded(before: Memory, after: Memory, p2m: seq<nat>, pfn: nat, s: StartInfo, done: set<nat>, w: nat)
    requires FieldsStored(before, p2m, pfn, s, done) && FieldWord(w)
    requires forall x :: 0 <= x < 512 ==>
               WordAt(after, p2m, pfn, x) == if x == w then FieldOf(s, w) % U64 else WordAt(before, p2m, pfn, x)
    ensures FieldsStored(after, p2m, pfn, s, done + {w})
  {
    hide WordAt, FieldOf;
  }

  lemma AllStored(mem: Memory, p2m: seq<nat>, pfn: nat, s: StartInfo, ramdisk: bool)
    requires FieldsStored(mem, p2m, pfn, s, AllFields(ramdisk)) && (!ramdisk ==> s.modStart == 0 && s.modLen == 0)
    ensures forall w: nat :: FieldWord(w) ==> WordAt(mem, p2m, pfn, w) == FieldOf(s, w) % U64
  {
    hide WordAt;
    forall w: nat | FieldWord(w)
      ensures WordAt(mem, p2m, pfn, w) == FieldOf(s, w) % U64
    {
      if w !in AllFields(ramdisk) {
        assert FieldOf(s, w) == 0;
      }
    }
  }

  lemma RegionIndex(pages: seq<PhysicalPage>, r: PhysicalPage) returns (j: nat)
    requires r in pages
    ensures j < |pages| && pages[j] == r
  {
    j :| 0 <= j < |pages| && pages[j] == r;
  }

  /** Only one region starts at a given pfn. */
  lemma StartsOnce(pages: seq<PhysicalPage>, hostMap: map<nat, nat>, p2m: seq<nat>, j: nat)
    requires RegionsOk(pages, hostMap, p2m) && j < |pages|
    ensures forall i :: 0 <= i < |pages| && pages[i].pfn == pages[j].pfn ==> i == j
  {
    forall i | 0 <= i < |pages| && pages[i].pfn == pages[j].pfn
      ensures i == j
    {
      assert RegionOk(hostMap, p2m, pages[i]) && RegionOk(hostMap, p2m, pages[j]);
      assert Overlaps(pages[i], pages[j].pfn, pages[j].count);
    }
  }

  /** Removing the region of the first tables leaves the region of the p2m segment. */
  lemma SecondStays(before: seq<PhysicalPage>, after: seq<PhysicalPage>, pt: DomainSegment, ps: DomainSegment)
    requires pt.pfn != ps.pfn && PhysicalPage(ps.pfn, ps.addr, ps.pages) in before
    requires exists j :: 0 <= j < |before| && before[j].pfn == pt.pfn && after == before[..j] + before[j + 1..]
    ensures PhysicalPage(ps.pfn, ps.addr, ps.pages) in after
  {
    var j :| 0 <= j < |before| && before[j].pfn == pt.pfn && after == before[..j] + before[j + 1..];
    var i :| 0 <= i < |before| && before[i] == PhysicalPage(ps.pfn, ps.addr, ps.pages);
    assert after[if i < j then i else i - 1] == before[i];
  }

  /** The first tables come before the p2m list, the list before the second tables. */
  lemma SegmentsOrdered(t: PageTable, pages: nat)
    requires Layout(t, pages)
    ensures t.mappings[0].levels[3].pfn + t.mappings[0].area.pgtables <= t.mappings[1].area.pfn
    ensures t.mappings[1].area.pfn < t.mappings[1].levels[3].pfn
  {
    hide Owns, OwnsRest;
    AreaPages(t.mappings[1].area);
  }

  lemma CurrentLevel(mem: Memory, p2m: seq<nat>, t: PageTable, l: nat, m1: nat)
    requires l < 4 && m1 < 2 && Progress(mem, p2m, t, l, m1)
    ensures LevelState(mem, p2m, t, l + 1, m1, false)
  {
    assert LevelState(mem, p2m, t, l + 1, m1, DoneBefore(l, m1, l + 1, m1));
  }

  lemma AllDone(mem: Memory, p2m: seq<nat>, t: PageTable)
    requires Layout(t, |p2m|) && Owned(mem, p2m) && Progress(mem, p2m, t, 0, 2)
    ensures Filled(mem, p2m, t)
  {
    hide Layout, Owned, LevelState, Filled;
    forall k, m | 1 <= k <= 4 && 0 <= m < 2
      ensures LevelState(mem, p2m, t, k, m, true)
    {
      assert LevelState(mem, p2m, t, k, m, DoneBefore(0, 2, k, m));
    }
    AllLevelsFilled(mem, p2m, t);
  }

  lemma OwnersApart(t: PageTable, pages: nat, lv: PageTableMappingLevel, l: nat)
    requires Layout(t, pages) && l < 4
    ensures forall w :: HasSlot(lv, Lev(t.mappings[0], l), l, w) ==> !HasSlot(lv, Lev(t.mappings[1], l), l, w)
  {
    forall w | HasSlot(lv, Lev(t.mappings[0], l), l, w)
      ensures !HasSlot(lv, Lev(t.mappings[1], l), l, w)
    {
      OneOwner(t, pages, l, 512 * First(lv, l + 1) + w);
    }
  }

  /** A child range is a run of whole regions, unless it is empty and has no slot anywhere. */
  lemma ChildRange(t: PageTable, pages: nat, m: nat, l: nat, lv: PageTableMappingLevel)
    requires Layout(t, pages) && m < 2 && l < 4
    ensures var child := Lev(t.mappings[m], l);
            && (l > 0 && child.pgtables == 0 ==> forall w :: 0 <= w ==> !HasSlot(lv, child, l, w))
            && (!(l > 0 && child.pgtables == 0) ==> Whole(child, l) && child.from < child.to)
  {
    if l > 0 {
      BothTabled(t, pages, l);
      var child := Lev(t.mappings[m], l);
      if child.from < child.to {
        DivOrder(child.from, child.to, Span(l));
      }
    }
  }

  /** Both mappings as the builder leaves them: areas, tables and their pfns. */
  ghost predicate PlannedTables(t: PageTable, info: BootImageInfo, end: nat, tables: nat, p2mSize: nat) {
    var base, n := (end - info.virtBase) / 4096, PagesFor(8 * p2mSize);
    && t.mappingsCount == 2
    && end > info.virtBase && end % 0x40_0000 == 0 && n > 0
    && t.mappings[0] == CountMapping([], info.virtBase, (end - 1) as nat, tables)
    && t.mappings[1] == Shift(CountMapping([t.mappings[0]], info.virtP2mBase, info.virtP2mBase + n * 4096 - 1, base),
                              base, n)
    && !(info.virtP2mBase < t.mappings[0].area.to && info.virtP2mBase + n * 4096 - 1 > t.mappings[0].area.from)
    && tables + t.mappings[0].area.pgtables < base
    && base + n + t.mappings[1].area.pgtables <= p2mSize
  }

  /** Neither the mapped area nor the p2m list crosses a 2^48 boundary. */
  predicate NoCrossing(info: BootImageInfo, end: nat, p2mSize: nat)
    requires end > 0
  {
    && info.virtBase / VIRT_LIMIT == (end - 1) / VIRT_LIMIT
    && info.virtP2mBase / VIRT_LIMIT == (info.virtP2mBase + PagesFor(8 * p2mSize) * 4096 - 1) / VIRT_LIMIT
  }

  /** The low 48 bits of the addresses of the list and of the area are different ones. */
  predicate ListApart(info: BootImageInfo, end: nat, p2mSize: nat)
    requires end > 0
  {
    || (end - 1) % VIRT_LIMIT < info.virtP2mBase % VIRT_LIMIT
    || (info.virtP2mBase + PagesFor(8 * p2mSize) * 4096 - 1) % VIRT_LIMIT < info.virtBase % VIRT_LIMIT
  }

  /** Nothing in the address choice is out of the ordinary: nothing crosses a 2^48 boundary, and list and area
      do not meet. The builder checks the latter itself if the list is below 2^48. */
  predicate OrdinaryAddresses(info: BootImageInfo, end: nat, p2mSize: nat)
    requires end > 0
  {
    NoCrossing(info, end, p2mSize) && (info.virtP2mBase >= VIRT_LIMIT ==> ListApart(info, end, p2mSize))
  }

  /** The p2m list is placed before the other special pages instead of after them. */
  predicate P2mFirst(info: BootImageInfo) {
    info.virtP2mBase >= info.virtBase || info.virtP2mBase % 4096 != 0
  }

  /** Where nothing crosses a boundary, the arranged plan is a layout if and only if list and area are apart. */
  lemma LayoutExact(t: PageTable, info: BootImageInfo, end: nat, tables: nat, p2mSize: nat)
    requires PlannedTables(t, info, end, tables, p2mSize) && NoCrossing(info, end, p2mSize)
    requires !P2mFirst(info) && info.virtBase % 4096 == 0
    ensures Layout(t, p2mSize) <==> ListApart(info, end, p2mSize)
  {
    hide CountMapping, Shift, Layout, PagesFor, ListApart;
    DisjointAreas(t, info, end, tables, p2mSize);
    PageAlignedEnd(end);
    hide Disjoint;
    PlanIsLayout(info.virtBase, end, tables, info.virtP2mBase, PagesFor(8 * p2mSize), p2mSize, t.mappings[0],
                 t.mappings[1]);
    BothMappings(t);
  }

  lemma DisjointAreas(t: PageTable, info: BootImageInfo, end: nat, tables: nat, p2mSize: nat)
    requires PlannedTables(t, info, end, tables, p2mSize)
    ensures Disjoint(t.mappings[0].area, t.mappings[1].area) <==> ListApart(info, end, p2mSize)
  {
    PlannedAreas(t, info, end, tables, p2mSize);
    hide PlannedTables, PagesFor;
  }

  lemma PlannedIsLayout(t: PageTable, info: BootImageInfo, end: nat, tables: nat, p2mSize: nat)
    requires PlannedTables(t, info, end, tables, p2mSize) && OrdinaryAddresses(info, end, p2mSize)
    requires !P2mFirst(info) && info.virtBase % 4096 == 0
    ensures Layout(t, p2mSize) && t.mappings[0].levels[3].pfn == tables
  {
    hide CountMapping, Shift, Layout, PagesFor, NoCrossing, ListApart;
    LayoutExact(t, info, end, tables, p2mSize);
    CountStacked([], info.virtBase, end - 1, tables);
    if info.virtP2mBase < VIRT_LIMIT {
      AcceptedApart(t, info, end, tables, p2mSize);
    }
  }

  /** For a list below 2^48 the builder's own test is enough. */
  lemma AcceptedApart(t: PageTable, info: BootImageInfo, end: nat, tables: nat, p2mSize: nat)
    requires PlannedTables(t, info, end, tables, p2mSize) && NoCrossing(info, end, p2mSize)
    requires !P2mFirst(info) && info.virtBase % 4096 == 0 && info.virtP2mBase < VIRT_LIMIT
    ensures ListApart(info, end, p2mSize)
  {
    hide CountMapping, Shift, PagesFor;
    PlannedAreas(t, info, end, tables, p2mSize);
    PageAlignedEnd(end);
    FirstMapping(info.virtBase, end, tables);
    TestIsEnough(t.mappings[0].area, info.virtP2mBase, PagesFor(8 * p2mSize));
  }

  lemma TestIsEnough(a: PageTableMappingLevel, from: nat, n: nat)
    requires AreaOk(a) && from < VIRT_LIMIT && from % 4096 == 0 && n > 0
    requires from / VIRT_LIMIT == (from + n * 4096 - 1) / VIRT_LIMIT
    requires !(from < a.to && from + n * 4096 - 1 > a.from)
    ensures from % VIRT_LIMIT == from && (from + n * 4096 - 1) % VIRT_LIMIT == from + n * 4096 - 1
    ensures a.to < from || from + n * 4096 - 1 < a.from
  {
    var to := from + n * 4096 - 1;
    DivUnique(from, 0, VIRT_LIMIT);
    ModBounds(to, VIRT_LIMIT);
    var b := PageTableMappingLevel(from, to, 0, 0);
    AreaAligned(b, n);
    AreasApart(a, b);
  }

  /** Areas of the planned mappings, as addresses. */
  lemma PlannedAreas(t: PageTable, info: BootImageInfo, end: nat, tables: nat, p2mSize: nat)
    requires PlannedTables(t, info, end, tables, p2mSize)
    ensures var a, b, n := t.mappings[0].area, t.mappings[1].area, PagesFor(8 * p2mSize);
            && a.from == info.virtBase % VIRT_LIMIT && a.to == (end - 1) % VIRT_LIMIT && a.pfn == 0
            && b.from == info.virtP2mBase % VIRT_LIMIT && b.to == (info.virtP2mBase + n * 4096 - 1) % VIRT_LIMIT
            && b.pfn == (end - info.virtBase) / 4096
  {
    hide CountMapping, PagesFor;
    var n := PagesFor(8 * p2mSize);
    CountedArea([], info.virtBase, end - 1, tables);
    CountedArea([t.mappings[0]], info.virtP2mBase, info.virtP2mBase + n * 4096 - 1, (end - info.virtBase) / 4096);
  }

  lemma PageAlignedEnd(end: nat)
    ensures end % 0x40_0000 == 0 ==> end % 4096 == 0
  {
    if end % 0x40_0000 == 0 {
      var e := end / 0x40_0000;
      assert end == 4096 * (1024 * e);
    }
  }

  lemma BothMappings(t: PageTable)
    ensures t.mappingsCount == 2 ==> t == PageTable(2, [t.mappings[0], t.mappings[1]])
  {
    assert t.mappings == [t.mappings[0], t.mappings[1]];
  }

  /** A segment of cleared pages from pfn `start` on; no page outside it has changed. */
  ghost predicate Fresh(before: Memory, after: Memory, p2m: seq<nat>, seg: DomainSegment, start: nat) {
    && seg.pfn == start && seg.pages > 0
    && AllZero(after, p2m, seg.pfn, seg.pfn + seg.pages)
    && KeptOutside(before, after, p2m, seg.pfn, seg.pfn + seg.pages)
  }

  lemma FreshParts(before: Memory, after: Memory, p2m: seq<nat>, seg: DomainSegment, start: nat)
    requires Fresh(before, after, p2m, seg, start)
    ensures seg.pfn == start && seg.pages > 0 && AllZero(after, p2m, seg.pfn, seg.pfn + seg.pages)
    ensures KeptOutside(before, after, p2m, seg.pfn, seg.pfn + seg.pages)
  {
  }

  lemma P2mPages(p2mSize: nat)
    ensures P2mBytes(p2mSize) == PagesFor(8 * p2mSize) * 4096
    ensures p2mSize > 0 ==> PagesFor(8 * p2mSize) > 0
  {
  }

  lemma WholePages(n: nat)
    ensures PagesFor(n * 4096) == n
  {
  }

  lemma RootCounted(from: nat, to: nat, base: nat)
    ensures CountMapping([], from, to, base).area.pgtables >= 1
  {
    var f, t := from % VIRT_LIMIT, to % VIRT_LIMIT;
    RootRange();
    assert TablesAbove([], f, t, 2) >= 1;
    assert TablesAbove([], f, t, 1) >= 1;
    assert TablesAbove([], f, t, 0) >= 1;
  }

  lemma RootRange()
    ensures RangeTables((0, VIRT_LIMIT - 1), Span(4)) == 1
  {
    SpanValues();
    RangeTablesExact(0, 0, Span(4));
  }

  lemma CountedPieces(cmps: seq<PageTableMapping>, from: nat, to: nat, base: nat, m: PageTableMapping)
    requires var f, t := from % VIRT_LIMIT, to % VIRT_LIMIT;
             && m.area == PageTableMappingLevel(f, t, 0, TablesAbove(cmps, f, t, 0) + TableCount(cmps, f, t, 0))
             && forall j :: 0 <= j < 4 ==> m.levels[j] == CountLevel(cmps, f, t, base, j)
    ensures m == CountMapping(cmps, from, to, base)
  {
    hide CountLevel, TablesAbove, TableCount;
    assert m.levels == CountMapping(cmps, from, to, base).levels;
  }
}
