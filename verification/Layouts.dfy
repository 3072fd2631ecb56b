/** The finished plan of both mappings: where every page and every table lives, and that no two share a pfn. */
module Layouts {
  import opened Arithmetic
  import opened PageTables
  import opened Results

  /** What the boot builder has arranged in a domain of `pages` pages when it starts filling the tables. */
  ghost predicate Layout(t: PageTable, pages: nat) {
    var a, b := t.mappings[0], t.mappings[1];
    && t.mappingsCount == 2
    && AreaOk(a.area) && AreaOk(b.area) && Disjoint(a.area, b.area)
    && (forall k :: 1 <= k <= 4 ==> Owns(a, k) && OwnsRest(b, a, k))
    && Stacked(a) && Stacked(b)
    && a.area.pfn == 0
    && a.levels[3].pfn + a.area.pgtables <= Regions(a.area, 0)
    && b.area.pfn == Regions(a.area, 0)
    && b.levels[3].pfn == b.area.pfn + Regions(b.area, 0)
    && b.levels[3].pfn + b.area.pgtables <= pages
  }

  /** The pfn of the page (k = 0) or table (k > 0) for region i of size Span(k). */
  function PfnOf(t: PageTable, k: nat, i: nat): Option<nat>
    requires k <= 4
  {
    var a, b := Lev(t.mappings[0], k), Lev(t.mappings[1], k);
    if Has(a, k, i) then Some(PfnIn(a, k, i))
    else if Has(b, k, i) then Some(PfnIn(b, k, i))
    else None
  }

  predicate Mapped(t: PageTable, va: nat) {
    || t.mappings[0].area.from <= va <= t.mappings[0].area.to
    || t.mappings[1].area.from <= va <= t.mappings[1].area.to
  }

  /** The pfn the plan gives to a mapped address: the page at the same offset from the start of its area. */
  function Target(t: PageTable, va: nat): nat
    requires Mapped(t, va)
  {
    var a, b := t.mappings[0].area, t.mappings[1].area;
    if a.from <= va <= a.to then a.pfn + (va - a.from) / 4096 else b.pfn + (va - b.from) / 4096
  }

  ghost predicate IsTable(t: PageTable, pfn: nat) {
    exists k, i :: 1 <= k <= 4 && i >= 0 && PfnOf(t, k, i) == Some(pfn)
  }

  /** The builder's own test for "this pfn holds a page table". */
  predicate InTableInterval(m: PageTableMapping, pfn: nat) {
    m.levels[3].pfn <= pfn < m.levels[3].pfn + m.area.pgtables
  }

  // ----- both mappings as counted form a layout -----

  lemma CountStacked(cmps: seq<PageTableMapping>, from: nat, to: nat, base: nat)
    ensures var m := CountMapping(cmps, from, to, base); Stacked(m) && m.levels[3].pfn == base
  {
    var f, t := from % VIRT_LIMIT, to % VIRT_LIMIT;
    assert TablesAbove(cmps, f, t, 3) == 0;
    assert TablesAbove(cmps, f, t, 2) == TableCount(cmps, f, t, 3);
    assert TablesAbove(cmps, f, t, 1) == TableCount(cmps, f, t, 2) + TablesAbove(cmps, f, t, 2);
    assert TablesAbove(cmps, f, t, 0) == TableCount(cmps, f, t, 1) + TablesAbove(cmps, f, t, 1);
  }

  lemma PageAligned(from: nat, to: nat)
    requires from < to && from % 4096 == 0 && (to + 1) % 4096 == 0
    ensures from == from / 4096 * 4096 && to == to / 4096 * 4096 + 4095
    ensures to / 4096 - from / 4096 + 1 == (to + 1 - from) / 4096
  {
    var a, b := from / 4096, (to + 1) / 4096;
    assert from == 4096 * a && to + 1 == 4096 * b;
    DivUnique(to, b - 1, 4096);
    DivUnique(to + 1 - from, b - a, 4096);
  }

  lemma SameTop(from: nat, to: nat)
    requires from < to && from / VIRT_LIMIT == to / VIRT_LIMIT && from % 4096 == 0 && (to + 1) % 4096 == 0
    ensures from % VIRT_LIMIT < to % VIRT_LIMIT
    ensures to % VIRT_LIMIT - from % VIRT_LIMIT == to - from
    ensures (from % VIRT_LIMIT) % 4096 == 0 && (to % VIRT_LIMIT + 1) % 4096 == 0
  {
    var q := from / VIRT_LIMIT;
    var low, high := from % VIRT_LIMIT, to % VIRT_LIMIT;
    assert from == q * VIRT_LIMIT + low && to == q * VIRT_LIMIT + high;
    DropMultiple(from, q, low);
    DropMultiple(to + 1, q, high + 1);
  }

  lemma DropMultiple(x: nat, q: nat, r: nat)
    requires x == q * VIRT_LIMIT + r && x % 4096 == 0
    ensures r % 4096 == 0
  {
    var y := x / 4096;
    assert r == 4096 * (y - q * 0x10_0000_0000);
  }

  ghost predicate FirstOk(m: PageTableMapping, tables: nat, pages: nat) {
    && AreaOk(m.area) && Stacked(m)
    && m.area.pfn == 0 && m.levels[3].pfn == tables && Regions(m.area, 0) == pages
    && forall k :: 1 <= k <= 4 ==> Owns(m, k)
  }

  ghost predicate SecondOk(m: PageTableMapping, first: PageTableMapping, base: nat, pages: nat) {
    && AreaOk(m.area) && Disjoint(first.area, m.area) && Stacked(m)
    && m.area.pfn == base && m.levels[3].pfn == base + pages && Regions(m.area, 0) == pages
    && forall k :: 1 <= k <= 4 ==> OwnsRest(m, first, k)
  }

  /** The first mapping, for an area that stays below one 2^48 boundary. */
  lemma FirstMapping(virtBase: nat, pgtabEnd: nat, tables: nat)
    requires virtBase % 4096 == 0 && pgtabEnd % 4096 == 0 && virtBase < pgtabEnd
    requires virtBase / VIRT_LIMIT == (pgtabEnd - 1) / VIRT_LIMIT
    ensures FirstOk(CountMapping([], virtBase, pgtabEnd - 1, tables), tables, (pgtabEnd - virtBase) / 4096)
  {
    hide CountMapping;
    var m := CountMapping([], virtBase, pgtabEnd - 1, tables);
    SameTop(virtBase, pgtabEnd - 1);
    CountedArea([], virtBase, pgtabEnd - 1, tables);
    AreaAligned(m.area, (pgtabEnd - virtBase) / 4096);
    CountStacked([], virtBase, pgtabEnd - 1, tables);
    forall k | 1 <= k <= 4
      ensures Owns(m, k)
    {
      CountFirst(virtBase, pgtabEnd - 1, tables, k);
    }
  }

  lemma AreaAligned(area: PageTableMappingLevel, pages: nat)
    requires area.from < area.to < VIRT_LIMIT && area.from % 4096 == 0 && (area.to + 1) % 4096 == 0
    requires area.to + 1 - area.from == pages * 4096
    ensures AreaOk(area) && Regions(area, 0) == pages
  {
    PageAligned(area.from, area.to);
  }

  /** The second mapping, for a range that crosses no 2^48 boundary and whose low 48 bits miss the first area. */
  lemma SecondMapping(first: PageTableMapping, from: nat, n: nat, base: nat)
    requires AreaOk(first.area) && forall k :: 1 <= k <= 4 ==> Owns(first, k)
    requires from % 4096 == 0 && n > 0 && from / VIRT_LIMIT == (from + n * 4096 - 1) / VIRT_LIMIT
    requires (from + n * 4096 - 1) % VIRT_LIMIT < first.area.from || first.area.to < from % VIRT_LIMIT
    ensures SecondOk(Shift(CountMapping([first], from, from + n * 4096 - 1, base), base, n), first, base, n)
  {
    hide CountMapping, Shift, Owns, SecondOk, AreaOk;
    var to := from + n * 4096 - 1;
    LastByte(from, n);
    SameTop(from, to);
    CountMasked([first], from, to, base);
    LowSecondMapping(first, from % VIRT_LIMIT, to % VIRT_LIMIT, n, base);
  }

  lemma LastByte(from: nat, n: nat)
    requires from % 4096 == 0 && n > 0
    ensures from < from + n * 4096 - 1 && (from + n * 4096 - 1 + 1) % 4096 == 0
  {
    RowColumn(from / 4096 + n, 0, 4096);
  }

  lemma LowSecondMapping(first: PageTableMapping, from: nat, to: nat, n: nat, base: nat)
    requires AreaOk(first.area) && forall k :: 1 <= k <= 4 ==> Owns(first, k)
    requires from % 4096 == 0 && (to + 1) % 4096 == 0 && from < to < VIRT_LIMIT && to + 1 - from == n * 4096
    requires to < first.area.from || first.area.to < from
    ensures SecondOk(Shift(CountMapping([first], from, to, base), base, n), first, base, n)
  {
    hide CountMapping;
    var m := Shift(CountMapping([first], from, to, base), base, n);
    CountedArea([first], from, to, base);
    assert m.area.from == from && m.area.to == to;
    AreaAligned(m.area, n);
    CountStacked([first], from, to, base);
    forall k | 1 <= k <= 4
      ensures OwnsRest(m, first, k)
    {
      CountSecond(first, from, to, base, base, n, k);
    }
  }

  /** Only the low 48 bits of an address matter. */
  lemma CountMasked(cmps: seq<PageTableMapping>, from: nat, to: nat, base: nat)
    ensures CountMapping(cmps, from, to, base) == CountMapping(cmps, from % VIRT_LIMIT, to % VIRT_LIMIT, base)
  {
    assert from % VIRT_LIMIT % VIRT_LIMIT == from % VIRT_LIMIT && to % VIRT_LIMIT % VIRT_LIMIT == to % VIRT_LIMIT;
  }

  /** The builder's overlap test, on page-aligned areas, is exact. */
  lemma AreasApart(a: PageTableMappingLevel, b: PageTableMappingLevel)
    requires AreaOk(a) && AreaOk(b)
    ensures !(b.from < a.to && b.to > a.from) <==> Disjoint(a, b)
  {
    assert a.from % 4096 == 0 && b.from % 4096 == 0;
  }

  /** The areas and tables the builder chooses form a layout if and only if the two areas, reduced to 48 bits as
      they are, do not overlap. */
  lemma PlanIsLayout(virtBase: nat, pgtabEnd: nat, tables: nat, p2mBase: nat, n: nat, pages: nat,
                     first: PageTableMapping, second: PageTableMapping)
    requires virtBase % 4096 == 0 && pgtabEnd % 4096 == 0 && virtBase < pgtabEnd
    requires virtBase / VIRT_LIMIT == (pgtabEnd - 1) / VIRT_LIMIT
    requires p2mBase % 4096 == 0 && n > 0 && p2mBase / VIRT_LIMIT == (p2mBase + n * 4096 - 1) / VIRT_LIMIT
    requires first == CountMapping([], virtBase, pgtabEnd - 1, tables)
    requires var base := (pgtabEnd - virtBase) / 4096;
             && second == Shift(CountMapping([first], p2mBase, p2mBase + n * 4096 - 1, base), base, n)
             && tables + first.area.pgtables <= base
             && base + n + second.area.pgtables <= pages
    ensures Layout(PageTable(2, [first, second]), pages) <==> Disjoint(first.area, second.area)
  {
    hide CountMapping, Shift;
    FirstMapping(virtBase, pgtabEnd, tables);
    var base, to := (pgtabEnd - virtBase) / 4096, p2mBase + n * 4096 - 1;
    ShiftedLevel(CountMapping([first], p2mBase, to, base), base, n, 1);
    CountedArea([first], p2mBase, to, base);
    if Disjoint(first.area, second.area) {
      SecondMapping(first, p2mBase, n, base);
    }
  }

  // ----- what a layout promises -----

  lemma StartsSomewhere(lv: PageTableMappingLevel, k: nat)
    ensures lv.from < lv.to ==> lv.from / Span(k) >= 0 && Has(lv, k, lv.from / Span(k))
  {
    DivNat(lv.from, Span(k));
    if lv.from < lv.to {
      DivOrder(lv.from, lv.to, Span(k));
    }
  }

  /** The union of the levels owned by both mappings is every region either area touches; nothing is owned twice. */
  lemma LevelsPartition(t: PageTable, pages: nat, k: nat, i: nat)
    requires Layout(t, pages) && 1 <= k <= 4
    ensures PfnOf(t, k, i).Some? <==> Touched(t.mappings[0].area, k, i) || Touched(t.mappings[1].area, k, i)
    ensures !(Has(Lev(t.mappings[0], k), k, i) && Has(Lev(t.mappings[1], k), k, i))
  {
    assert Owns(t.mappings[0], k) && OwnsRest(t.mappings[1], t.mappings[0], k);
  }

  /** Every table above a mapped address exists. */
  lemma MappedIsCovered(t: PageTable, pages: nat, va: nat, k: nat)
    requires Layout(t, pages) && Mapped(t, va) && k <= 4
    ensures va / Span(k) >= 0 && PfnOf(t, k, va / Span(k)).Some?
  {
    var s := Span(k);
    DivNat(va, s);
    var a := if t.mappings[0].area.from <= va <= t.mappings[0].area.to then t.mappings[0].area else t.mappings[1].area;
    DivOrder(a.from, va, s);
    DivOrder(va, a.to, s);
    assert Touched(a, k, va / s);
    if k > 0 {
      LevelsPartition(t, pages, k, va / s);
    }
  }

  /** A page is reached exactly for the mapped addresses, and it is the page the plan intends. */
  lemma PageOfAddress(t: PageTable, pages: nat, va: nat)
    requires Layout(t, pages)
    ensures PfnOf(t, 0, va / 4096) == if Mapped(t, va) then Some(Target(t, va)) else None
  {
    PageOfArea(t.mappings[0].area, va);
    PageOfArea(t.mappings[1].area, va);
  }

  lemma PageOfArea(area: PageTableMappingLevel, va: nat)
    requires AreaOk(area)
    ensures Has(area, 0, va / 4096) <==> area.from <= va <= area.to
    ensures Has(area, 0, va / 4096) ==> PfnIn(area, 0, va / 4096) == area.pfn + (va - area.from) / 4096
  {
    assert area.from % 4096 == 0;
  }

  /** Tables of a mapping fill its table interval and nothing else. */
  lemma TablesFillInterval(m: PageTableMapping, k: nat, i: nat)
    requires 1 <= k <= 4 && Stacked(m)
    requires Tabled(Lev(m, k), k) && Has(Lev(m, k), k, i)
    ensures Lev(m, k).pfn <= PfnIn(Lev(m, k), k, i) < Lev(m, k).pfn + Lev(m, k).pgtables
    ensures InTableInterval(m, PfnIn(Lev(m, k), k, i))
  {
  }

  /** The level whose tables occupy a pfn of the table interval, and the region that table translates. */
  function TableLevel(m: PageTableMapping, pfn: nat): (k: nat)
    ensures 1 <= k <= 4
  {
    if pfn < m.levels[2].pfn then 4 else if pfn < m.levels[1].pfn then 3 else if pfn < m.levels[0].pfn then 2 else 1
  }

  lemma IntervalIsTable(m: PageTableMapping, pfn: nat) returns (k: nat, i: nat)
    requires Stacked(m) && InTableInterval(m, pfn)
    requires Tabled(Lev(m, 1), 1) && Tabled(Lev(m, 2), 2) && Tabled(Lev(m, 3), 3) && Tabled(Lev(m, 4), 4)
    ensures 1 <= k <= 4 && Has(Lev(m, k), k, i) && PfnIn(Lev(m, k), k, i) == pfn
  {
    k := TableLevel(m, pfn);
    var lv := Lev(m, k);
    assert Tabled(lv, k);
    assert lv.pfn <= pfn < lv.pfn + lv.pgtables;
    DivNat(lv.from, Span(k));
    i := lv.from / Span(k) + (pfn - lv.pfn);
  }

  /** The builder's read-only test marks exactly the pfns that hold page tables. */
  lemma TableIntervalsExact(t: PageTable, pages: nat, pfn: nat)
    requires Layout(t, pages)
    ensures IsTable(t, pfn) <==> InTableInterval(t.mappings[0], pfn) || InTableInterval(t.mappings[1], pfn)
  {
    forall k | 1 <= k <= 4
      ensures Tabled(Lev(t.mappings[0], k), k) && Tabled(Lev(t.mappings[1], k), k)
    {
      assert Owns(t.mappings[0], k) && OwnsRest(t.mappings[1], t.mappings[0], k);
    }
    forall k, i | 1 <= k <= 4 && i >= 0 && PfnOf(t, k, i) == Some(pfn)
      ensures InTableInterval(t.mappings[0], pfn) || InTableInterval(t.mappings[1], pfn)
    {
      if Has(Lev(t.mappings[0], k), k, i) {
        TablesFillInterval(t.mappings[0], k, i);
      } else {
        TablesFillInterval(t.mappings[1], k, i);
      }
    }
    if InTableInterval(t.mappings[0], pfn) {
      var k, i := IntervalIsTable(t.mappings[0], pfn);
      assert PfnOf(t, k, i) == Some(pfn);
    } else if InTableInterval(t.mappings[1], pfn) {
      var k, i := IntervalIsTable(t.mappings[1], pfn);
      LevelsPartition(t, pages, k, i);
      assert PfnOf(t, k, i) == Some(pfn);
    }
  }

  /** Distinct tables have distinct pfns inside the domain, and distinct mapped pages have distinct pfns. */
  lemma PfnsDistinct(t: PageTable, pages: nat, k: nat, i: nat, k': nat, i': nat)
    requires Layout(t, pages) && k <= 4 && k' <= 4
    requires PfnOf(t, k, i).Some? && PfnOf(t, k', i').Some?
    requires (k == 0) == (k' == 0)
    ensures PfnOf(t, k, i).value < pages
    ensures PfnOf(t, k, i) == PfnOf(t, k', i') <==> k == k' && i == i'
  {
    var m := if Has(Lev(t.mappings[0], k), k, i) then 0 else 1;
    var m' := if Has(Lev(t.mappings[0], k'), k', i') then 0 else 1;
    PfnPlace(t, pages, m, k, i);
    PfnPlace(t, pages, m', k', i');
    if k > 0 && m == m' && k != k' {
      LevelsApart(t.mappings[m], k, k');
    }
  }

  /** Tables of two levels of one mapping are in disjoint pfn ranges. */
  lemma LevelsApart(m: PageTableMapping, k: nat, k': nat)
    requires Stacked(m) && 1 <= k <= 4 && 1 <= k' <= 4 && k != k'
    ensures var a, b := Lev(m, k), Lev(m, k');
            a.pfn + a.pgtables <= b.pfn || b.pfn + b.pgtables <= a.pfn
  {
  }

  lemma PfnPlace(t: PageTable, pages: nat, m: nat, k: nat, i: nat)
    requires Layout(t, pages) && m < 2 && k <= 4 && Has(Lev(t.mappings[m], k), k, i)
    ensures var lv := Lev(t.mappings[m], k);
            var pfn := PfnIn(lv, k, i);
            var first := Regions(t.mappings[0].area, 0);
            && (m == 0 ==> pfn < first)
            && (m == 1 ==> first <= pfn < pages)
            && (k == 0 && m == 1 ==> pfn < t.mappings[1].levels[3].pfn)
            && (k > 0 ==> lv.pfn <= pfn < lv.pfn + lv.pgtables)
            && first <= pages
  {
    if k > 0 {
      assert Owns(t.mappings[0], k) && OwnsRest(t.mappings[1], t.mappings[0], k);
      TablesFillInterval(t.mappings[m], k, i);
    }
  }
}
