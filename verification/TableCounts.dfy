/** How many tables a layout uses, and when the second mapping gets none of its own. */
module TableCounts {
  import opened Arithmetic
  import opened BootDomains
  import opened Filling
  import opened Layouts
  import opened PageTables
  import opened X86Pv

  /** The numbers lo, ..., lo + n - 1. */
  function Numbers(lo: int, n: nat): (r: set<int>)
    ensures |r| == n && forall i :: i in r <==> lo <= i < lo + n
  {
    if n == 0 then {} else Numbers(lo, n - 1) + {lo + n - 1}
  }

  /** Regions of size Span(k) that contain an address of the area. */
  function TouchedRegions(area: PageTableMappingLevel, k: nat): (r: set<int>)
    requires area.from <= area.to
    ensures forall i: nat :: i in r <==> Touched(area, k, i)
    ensures forall i :: i in r ==> i >= 0
  {
    DivOrder(area.from, area.to, Span(k));
    DivNat(area.from, Span(k));
    Numbers(area.from / Span(k), area.to / Span(k) - area.from / Span(k) + 1)
  }

  function TableRegions(lv: PageTableMappingLevel, k: nat): (r: set<int>)
    requires Tabled(lv, k)
    ensures |r| == lv.pgtables && forall i: nat :: i in r <==> Has(lv, k, i)
    ensures forall i :: i in r ==> i >= 0
  {
    DivNat(lv.from, Span(k));
    DivOrder(lv.from, if lv.from < lv.to then lv.to else lv.from, Span(k));
    Numbers(lv.from / Span(k), lv.pgtables)
  }

  /** At every level there are exactly as many tables as regions that either area touches: no table is
      missing, shared regions have one table, and none is superfluous. */
  lemma TablesAreRegions(t: PageTable, pages: nat, k: nat)
    requires Layout(t, pages) && 1 <= k <= 4
    ensures |TouchedRegions(t.mappings[0].area, k) + TouchedRegions(t.mappings[1].area, k)|
         == Lev(t.mappings[0], k).pgtables + Lev(t.mappings[1], k).pgtables
  {
    hide Layout, Touched, Has, Tabled, Span, TouchedRegions, TableRegions, PfnOf;
    BothTabled(t, pages, k);
    LayoutDisjoint(t, pages);
    var a, b := TableRegions(Lev(t.mappings[0], k), k), TableRegions(Lev(t.mappings[1], k), k);
    var a', b' := TouchedRegions(t.mappings[0].area, k), TouchedRegions(t.mappings[1].area, k);
    forall i: nat
      ensures Once(a, b, a', b', i)
    {
      LevelsPartition(t, pages, k, i);
      PfnSomewhere(t, k, i);
    }
    SameSize(a, b, a', b');
  }

  lemma PfnSomewhere(t: PageTable, k: nat, i: nat)
    requires k <= 4
    ensures PfnOf(t, k, i).Some? <==> Has(Lev(t.mappings[0], k), k, i) || Has(Lev(t.mappings[1], k), k, i)
  {
    hide Has;
  }

  /** A number is in exactly one of the first two sets if it is in either of the others, and else in neither. */
  predicate Once(a: set<int>, b: set<int>, a': set<int>, b': set<int>, i: nat) {
    (i in a || i in b <==> i in a' || i in b') && !(i in a && i in b)
  }

  /** Sets of numbers that cover the same, the first two without overlap. */
  lemma SameSize(a: set<int>, b: set<int>, a': set<int>, b': set<int>)
    requires (forall i :: i in a ==> i >= 0) && (forall i :: i in b ==> i >= 0)
    requires (forall i :: i in a' ==> i >= 0) && (forall i :: i in b' ==> i >= 0)
    requires forall i: nat :: Once(a, b, a', b', i)
    ensures |a' + b'| == |a| + |b|
  {
    forall i: int
      ensures i in a + b <==> i in a' + b'
      ensures !(i in a && i in b)
    {
      if i >= 0 {
        assert Once(a, b, a', b', i);
      }
    }
    assert a + b == a' + b';
    assert a !! b;
  }

  /** Every 2 MiB region of the second area also contains an address of the first. */
  predicate SharesAllRegions(a: PageTableMappingLevel, b: PageTableMappingLevel) {
    a.from / 0x20_0000 <= b.from / 0x20_0000 && b.to / 0x20_0000 <= a.to / 0x20_0000
  }

  /** The second mapping has no lowest-level table exactly when its 2 MiB regions are all shared; this is
      when filling the tables fails. */
  lemma LeafTablesShared(t: PageTable, pages: nat)
    requires Layout(t, pages)
    ensures t.mappings[1].levels[0].pgtables == 0 <==> SharesAllRegions(t.mappings[0].area, t.mappings[1].area)
  {
    var a, b := t.mappings[0].area, t.mappings[1].area;
    var lv := t.mappings[1].levels[0];
    SpanValues();
    BothTabled(t, pages, 1);
    DivOrder(b.from, b.to, Span(1));
    DivNat(b.from, Span(1));
    LevelsPartition(t, pages, 1, b.from / Span(1));
    LevelsPartition(t, pages, 1, b.to / Span(1));
    if lv.pgtables > 0 {
      DivNat(lv.from, Span(1));
      DivOrder(lv.from, lv.to, Span(1));
      LevelsPartition(t, pages, 1, lv.from / Span(1));
      assert Has(lv, 1, lv.from / Span(1));
      assert Owns(t.mappings[0], 1) && OwnsRest(t.mappings[1], t.mappings[0], 1);
    } else {
      assert Owns(t.mappings[0], 1) && OwnsRest(t.mappings[1], t.mappings[0], 1);
    }
  }

  /** An area inside a single 2 MiB region touches one region of every size. */
  lemma OneRegion(area: PageTableMappingLevel, k: nat)
    requires area.from <= area.to && area.from / 0x20_0000 == area.to / 0x20_0000 && 1 <= k <= 4
    ensures area.from / Span(k) == area.to / Span(k)
    ensures forall i: nat :: Touched(area, k, i) <==> i == area.from / Span(k)
  {
    SameRegion(area.from, area.to, k);
    DivNat(area.from, Span(k));
  }

  /** Two addresses in one 2 MiB region are in one region of every size. */
  lemma SameRegion(x: nat, y: nat, k: nat)
    requires x / 0x20_0000 == y / 0x20_0000 && 1 <= k <= 4
    ensures x / Span(k) == y / Span(k)
  {
    SpanValues();
    var n := if k == 1 then 1 else if k == 2 then 0x200 else if k == 3 then 0x4_0000 else 0x800_0000;
    assert Span(k) == 0x20_0000 * n;
    DivDiv(x, 0x20_0000, n);
    DivDiv(y, 0x20_0000, n);
  }

  lemma OneTable(m: PageTableMapping, k: nat)
    requires m.area.from < m.area.to && m.area.from / 0x20_0000 == m.area.to / 0x20_0000 && 1 <= k <= 4 && Owns(m, k)
    ensures Lev(m, k).pgtables == 1
  {
    OneRegion(m.area, k);
    OwnedEnds(Lev(m, k), m.area, k);
  }

  /** Areas that share their only region at level k share its table. */
  lemma NoTable(m: PageTableMapping, first: PageTableMapping, k: nat)
    requires first.area.from < first.area.to && first.area.from / 0x20_0000 == first.area.to / 0x20_0000
    requires m.area.from < m.area.to && m.area.from / 0x20_0000 == m.area.to / 0x20_0000
    requires 1 <= k <= 4 && Owns(first, k) && OwnsRest(m, first, k)
    requires m.area.from / Span(k) == first.area.from / Span(k)
    ensures Lev(m, k).pgtables == 0
  {
    OneRegion(first.area, k);
    OneRegion(m.area, k);
    StartsSomewhere(Lev(m, k), k);
  }

  /** Areas in different regions at level k have a table each. */
  lemma OwnTable(m: PageTableMapping, first: PageTableMapping, k: nat)
    requires first.area.from < first.area.to && first.area.from / 0x20_0000 == first.area.to / 0x20_0000
    requires m.area.from < m.area.to && m.area.from / 0x20_0000 == m.area.to / 0x20_0000
    requires 1 <= k <= 4 && Owns(first, k) && OwnsRest(m, first, k)
    requires m.area.from / Span(k) != first.area.from / Span(k)
    ensures Lev(m, k).pgtables == 1
  {
    OneRegion(first.area, k);
    OneRegion(m.area, k);
    DivNat(m.area.from, Span(k));
    assert Has(Lev(m, k), k, m.area.from / Span(k));
    OwnedEnds(Lev(m, k), m.area, k);
  }

  /** The p2m list and the mapped area begin in the same 2 MiB region. */
  predicate StartTogether(info: BootImageInfo) {
    info.virtBase % VIRT_LIMIT / 0x20_0000 == info.virtP2mBase % VIRT_LIMIT / 0x20_0000
  }

  /** The condition in terms of the image alone, whatever end the builder chooses: the p2m list gets no
      lowest-level table of its own, and filling fails, exactly when list and area begin in one 2 MiB region. */
  lemma NoLeafTable(t: PageTable, info: BootImageInfo, end: nat, tables: nat, p2mSize: nat)
    requires PlannedTables(t, info, end, tables, p2mSize) && OrdinaryAddresses(info, end, p2mSize)
    requires !P2mFirst(info) && info.virtBase % 4096 == 0
    ensures t.mappings[1].levels[0].pgtables == 0 <==> StartTogether(info)
  {
    hide CountMapping, Shift, Layout, Owns, OwnsRest, PagesFor, PlannedTables;
    var a, b := t.mappings[0].area, t.mappings[1].area;
    PlannedIsLayout(t, info, end, tables, p2mSize);
    LeafTablesShared(t, p2mSize);
    PlannedAreas(t, info, end, tables, p2mSize);
    LayoutDisjoint(t, p2mSize);
    AreaEnd(t, info, end, tables, p2mSize);
    RegionsShared(a, b);
  }

  lemma LayoutDisjoint(t: PageTable, pages: nat)
    requires Layout(t, pages)
    ensures Disjoint(t.mappings[0].area, t.mappings[1].area)
    ensures t.mappings[0].area.from < t.mappings[0].area.to && t.mappings[1].area.from < t.mappings[1].area.to
  {
    hide Owns, OwnsRest, Stacked;
    assert AreaOk(t.mappings[0].area) && AreaOk(t.mappings[1].area);
  }

  /** The first area ends with a 2 MiB region. */
  lemma AreaEnd(t: PageTable, info: BootImageInfo, end: nat, tables: nat, p2mSize: nat)
    requires PlannedTables(t, info, end, tables, p2mSize)
    ensures (t.mappings[0].area.to + 1) % 0x20_0000 == 0
  {
    hide CountMapping, Shift;
    PlannedAreas(t, info, end, tables, p2mSize);
    WholeBlockEnd(end);
  }

  lemma WholeBlockEnd(end: nat)
    requires end > 0 && end % 0x40_0000 == 0
    ensures ((end - 1) % VIRT_LIMIT + 1) % 0x20_0000 == 0
  {
    var q, r := (end - 1) / VIRT_LIMIT, (end - 1) % VIRT_LIMIT;
    var e := end / 0x40_0000;
    ModBounds(end - 1, VIRT_LIMIT);
    assert end == 0x40_0000 * e;
    HalfBlocks(e, q, r);
  }

  lemma HalfBlocks(e: int, q: int, r: int)
    requires 0x40_0000 * e - 1 == q * VIRT_LIMIT + r
    ensures (r + 1) % 0x20_0000 == 0
  {
    var n := 2 * e - q * 0x800_0000;
    assert r + 1 == 0x20_0000 * n;
    RowColumn(n, 0, 0x20_0000);
  }

  /** For areas apart of which the first ends with a region, sharing every region means to begin in the same. */
  lemma RegionsShared(a: PageTableMappingLevel, b: PageTableMappingLevel)
    requires a.from < a.to && b.from < b.to && Disjoint(a, b) && (a.to + 1) % 0x20_0000 == 0
    ensures SharesAllRegions(a, b) <==> a.from / 0x20_0000 == b.from / 0x20_0000
  {
    var s, e := 0x20_0000, (a.to + 1) / 0x20_0000;
    assert a.to + 1 == e * s;
    DivUnique(a.to, e - 1, s);
    DivOrder(a.from, a.to, s);
    DivOrder(b.from, b.to, s);
    if a.to < b.from {
      DivUnique(e * s, e, s);
      DivOrder(e * s, b.from, s);
    } else {
      DivOrder(b.to, a.from, s);
    }
  }

  const CLOSE_IMAGE := BootImageInfo(0, 0x20_2000, 0x20_2000, 0x20_3000, 0xffff_ffff_ffff_ffff, 0x20_0000,
                                     0x20_2000)

  /** An image whose p2m list ends where its mapped area begins, inside one 2 MiB region: with 1024 pages, of
      which ten are taken before the tables, the builder accepts the plan at its first try, and then cannot fill
      the tables. */
  lemma CloseImageHasNoLeafTable() returns (t: PageTable)
    ensures PlannedTables(t, CLOSE_IMAGE, 0x40_0000, 10, 1024)
    ensures OrdinaryAddresses(CLOSE_IMAGE, 0x40_0000, 1024) && !P2mFirst(CLOSE_IMAGE)
    // the first end that is tried is this one, and it leaves room for the four tables
    ensures RoundUp4M(CLOSE_IMAGE.virtBase + 10 * 4096 + EXTRA_PAGES * 4096) + 1 == 0x40_0000
    ensures t.mappings[0].area.pgtables == 4
    ensures CLOSE_IMAGE.virtBase + 10 * 4096 + (t.mappings[0].area.pgtables + EXTRA_PAGES) * 4096 <= 0x40_0000
    ensures t.mappings[1].levels[0].pgtables == 0
  {
    hide CountMapping, Shift, Owns, OwnsRest;
    var first := CountMapping([], 0x20_2000, 0x3f_ffff, 10);
    FirstMapping(0x20_2000, 0x40_0000, 10);
    CountedArea([], 0x20_2000, 0x3f_ffff, 10);
    FourTables(0x20_2000, 0x40_0000, 10);
    var second := Shift(CountMapping([first], 0x20_0000, 0x20_1fff, 510), 510, 2);
    SecondMapping(first, 0x20_0000, 2, 510);
    CloseSecond(first);
    forall k | 1 <= k <= 4
      ensures Lev(second, k).pgtables == 0
    {
      SameRegion(second.area.from, first.area.from, k);
      NoTable(second, first, k);
    }
    assert Lev(second, 1).pgtables == 0 && Lev(second, 2).pgtables == 0;
    assert Lev(second, 3).pgtables == 0 && Lev(second, 4).pgtables == 0;
    t := PageTable(2, [first, second]);
  }

  lemma CloseSecond(first: PageTableMapping)
    ensures var m := Shift(CountMapping([first], 0x20_0000, 0x20_1fff, 510), 510, 2);
            m.area.from == 0x20_0000 && m.area.to == 0x20_1fff
  {
    CountedArea([first], 0x20_0000, 0x20_1fff, 510);
    hide CountMapping;
  }

  /** An image whose p2m list comes first, behind the region of its mapped area. */
  const LIST_FIRST_IMAGE := BootImageInfo(0, 0x20_2000, 0x20_2000, 0x20_3000, 0xffff_ffff_ffff_ffff, 0x40_0000,
                                          0x20_2000)

  /** With 1024 pages, one of them taken for the kernel, everything follows: the list at pfn 1, its four tables with
      the root at pfn 3, three shared pages, and at pfn 10 the one table that the area needs besides. */
  lemma ListFirstPlan(t: PageTable)
    requires t.mappingsCount == 0
    ensures P2mFirst(LIST_FIRST_IMAGE) && ListFirstFits(t, LIST_FIRST_IMAGE, 1, 1024)
    ensures Shift(CountMapping([], 0x40_0000, 0x40_1fff, 1), 1, 2).levels[3].pfn == 3
  {
    hide CountMapping, Shift, Owns, OwnsRest;
    var list := CountMapping([], 0x40_0000, 0x40_1fff, 1);
    FirstMapping(0x40_0000, 0x40_2000, 1);
    CountedArea([], 0x40_0000, 0x40_1fff, 1);
    FourTables(0x40_0000, 0x40_2000, 1);
    ShiftedLevel(list, 1, 2, 4);
    var shifted := Shift(list, 1, 2);
    forall k | 1 <= k <= 4
      ensures Owns(shifted, k)
    {
      OwnsShifted(list, 1, 2, k);
    }
    RestOfListFirst(shifted);
    assert t.mappings[0 := shifted][..1] == [shifted];
  }

  lemma OwnsShifted(m: PageTableMapping, pfn: nat, n: nat, k: nat)
    requires 1 <= k <= 4 && Owns(m, k)
    ensures Owns(Shift(m, pfn, n), k)
  {
    ShiftedLevel(m, pfn, n, k);
    hide Shift;
    forall i: nat
      ensures Has(Lev(Shift(m, pfn, n), k), k, i) <==> Touched(Shift(m, pfn, n).area, k, i)
    {
      assert Has(Lev(m, k), k, i) <==> Touched(m.area, k, i);
    }
  }

  /** The area before such a list needs only its lowest table. */
  lemma RestOfListFirst(list: PageTableMapping)
    requires list.area.from == 0x40_0000 && list.area.to == 0x40_1fff
    requires forall k :: 1 <= k <= 4 ==> Owns(list, k)
    ensures CountMapping([list], 0x20_2000, 0x3f_ffff, 10).area.pgtables == 1
  {
    hide CountMapping, Shift, Owns, OwnsRest;
    var m := CountMapping([list], 0x20_2000, 0x3f_ffff, 10);
    AreaAligned(list.area, 2);
    CountedArea([list], 0x20_2000, 0x3f_ffff, 10);
    CountStacked([list], 0x20_2000, 0x3f_ffff, 10);
    forall k | 1 <= k <= 4
      ensures Lev(m, k).pgtables == if k == 1 then 1 else 0
    {
      CountSecond(list, 0x20_2000, 0x3f_ffff, 10, 0, 0, k);
      ShiftedLevel(m, 0, 0, k);
      SpanValues();
      if k == 1 {
        OwnTable(Shift(m, 0, 0), list, k);
      } else {
        DivUnique(0x20_2000, 0, Span(k));
        DivUnique(0x40_0000, 0, Span(k));
        NoTable(Shift(m, 0, 0), list, k);
      }
    }
    assert Lev(m, 1).pgtables == 1 && Lev(m, 2).pgtables == 0 && Lev(m, 3).pgtables == 0 && Lev(m, 4).pgtables == 0;
  }

  /** Addresses that lie, masked, in the only 2 MiB region of the first area need no table of their own. */
  lemma NothingOfItsOwn(from: nat, to: nat, base: nat, from': nat, to': nat, base': nat)
    requires var f, t, f', t' := from % VIRT_LIMIT, to % VIRT_LIMIT, from' % VIRT_LIMIT, to' % VIRT_LIMIT;
             && f < t && f' < t' && f / 0x20_0000 == t / 0x20_0000
             && f / 0x20_0000 == f' / 0x20_0000 && f / 0x20_0000 == t' / 0x20_0000
    ensures CountMapping([CountMapping([], from, to, base)], from', to', base').area.pgtables == 0
  {
    var f, t, f', t' := from % VIRT_LIMIT, to % VIRT_LIMIT, from' % VIRT_LIMIT, to' % VIRT_LIMIT;
    var first := CountMapping([], from, to, base);
    forall l: nat | l < 4
      ensures TableCount([first], f', t', l) == 0
    {
      NoneAtLevel(from, to, base, f', t', l);
    }
    assert TableCount([first], f', t', 0) == 0 && TableCount([first], f', t', 1) == 0;
    assert TableCount([first], f', t', 2) == 0 && TableCount([first], f', t', 3) == 0;
    hide TableCount;
    assert TablesAbove([first], f', t', 3) == 0;
    assert TablesAbove([first], f', t', 2) == 0;
    assert TablesAbove([first], f', t', 1) == 0;
  }

  lemma NoneAtLevel(from: nat, to: nat, base: nat, f': nat, t': nat, l: nat)
    requires var f, t := from % VIRT_LIMIT, to % VIRT_LIMIT;
             && f < t && f' < t' && f / 0x20_0000 == t / 0x20_0000
             && f / 0x20_0000 == f' / 0x20_0000 && f / 0x20_0000 == t' / 0x20_0000
    requires l < 4
    ensures TableCount([CountMapping([], from, to, base)], f', t', l) == 0
  {
    var f, t := from % VIRT_LIMIT, to % VIRT_LIMIT;
    var first := CountMapping([], from, to, base);
    if l < 3 {
      SameRegion(f, f', l + 1);
      SameRegion(t, t', l + 1);
      FirstRange(f, t, l + 1);
      MappingLevel([], from, to, base, l);
      hide CountMapping, Span;
      RoundedRange(f, t, Span(l + 1));
      RoundedRange(f', t', Span(l + 1));
    }
  }

  /** An image whose list, at the top of the address space, runs by one page into its mapped area. */
  const OVERLAP_IMAGE := BootImageInfo(0, 0xffff_ffff_8020_2000, 0xffff_ffff_8020_2000, 0xffff_ffff_8020_3000,
                                       0xffff_ffff_ffff_ffff, 0xffff_ffff_8020_1000, 0xffff_ffff_8020_2000)

  /** With 1024 pages, ten of them taken before the tables, the builder accepts this plan at its first try. */
  lemma OverlapUnnoticed() returns (t: PageTable)
    ensures PlannedTables(t, OVERLAP_IMAGE, 0xffff_ffff_8040_0000, 10, 1024)
    ensures NoCrossing(OVERLAP_IMAGE, 0xffff_ffff_8040_0000, 1024) && !P2mFirst(OVERLAP_IMAGE)
    ensures RoundUp4M(OVERLAP_IMAGE.virtBase + 10 * 4096 + EXTRA_PAGES * 4096) + 1 == 0xffff_ffff_8040_0000
    ensures OVERLAP_IMAGE.virtBase + 10 * 4096 + (t.mappings[0].area.pgtables + EXTRA_PAGES) * 4096
         <= 0xffff_ffff_8040_0000
    ensures !Layout(t, 1024)
    // the last page of the list is the first one of the area
    ensures t.mappings[0].area.from == 0xffff_8020_2000 == t.mappings[1].area.to - 4095
  {
    hide CountMapping, Shift, Layout, RoundUp4M, ListApart, NoCrossing;
    var first := CountMapping([], 0xffff_ffff_8020_2000, 0xffff_ffff_803f_ffff, 10);
    FourTables(0xffff_ffff_8020_2000, 0xffff_ffff_8040_0000, 10);
    CountedArea([], 0xffff_ffff_8020_2000, 0xffff_ffff_803f_ffff, 10);
    var counted := CountMapping([first], 0xffff_ffff_8020_1000, 0xffff_ffff_8020_2fff, 510);
    NothingOfItsOwn(0xffff_ffff_8020_2000, 0xffff_ffff_803f_ffff, 10, 0xffff_ffff_8020_1000, 0xffff_ffff_8020_2fff,
                    510);
    CountedArea([first], 0xffff_ffff_8020_1000, 0xffff_ffff_8020_2fff, 510);
    ShiftedLevel(counted, 510, 2, 1);
    t := PageTable(2, [first, Shift(counted, 510, 2)]);
    OverlapAddresses();
    LayoutExact(t, OVERLAP_IMAGE, 0xffff_ffff_8040_0000, 10, 1024);
  }

  lemma OverlapAddresses()
    ensures NoCrossing(OVERLAP_IMAGE, 0xffff_ffff_8040_0000, 1024)
    ensures !ListApart(OVERLAP_IMAGE, 0xffff_ffff_8040_0000, 1024)
    ensures RoundUp4M(OVERLAP_IMAGE.virtBase + 10 * 4096 + EXTRA_PAGES * 4096) + 1 == 0xffff_ffff_8040_0000
  {
  }

  /** The first mapping of an area inside one 2 MiB region has a table at each level. */
  lemma FourTables(virtBase: nat, pgtabEnd: nat, tables: nat)
    requires virtBase % 4096 == 0 && pgtabEnd % 4096 == 0 && virtBase < pgtabEnd
    requires virtBase / VIRT_LIMIT == (pgtabEnd - 1) / VIRT_LIMIT
    requires virtBase % VIRT_LIMIT / 0x20_0000 == (pgtabEnd - 1) % VIRT_LIMIT / 0x20_0000
    ensures CountMapping([], virtBase, pgtabEnd - 1, tables).area.pgtables == 4
  {
    hide CountMapping, Owns;
    var m := CountMapping([], virtBase, pgtabEnd - 1, tables);
    FirstMapping(virtBase, pgtabEnd, tables);
    CountedArea([], virtBase, pgtabEnd - 1, tables);
    forall k | 1 <= k <= 4
      ensures Lev(m, k).pgtables == 1
    {
      OneTable(m, k);
    }
    assert Lev(m, 1).pgtables == 1 && Lev(m, 2).pgtables == 1 && Lev(m, 3).pgtables == 1 && Lev(m, 4).pgtables == 1;
  }
}
