/** What filling the tables of one level from one mapping writes, in terms of flat word indexes. */
module Filling {
  import opened Arithmetic
  import opened BootDomains
  import opened Layouts
  import opened PageTables
  import opened Pages
  import opened Paging
  import opened Results

  /** First region number of a range at level k. */
  function First(lv: PageTableMappingLevel, k: nat): (f: nat) {
    DivNat(lv.from, Span(k));
    lv.from / Span(k)
  }

  /** The entry that refers to region e of a range of level l. */
  function EntryIn(t: PageTable, p2m: seq<nat>, lv: PageTableMappingLevel, l: nat, e: nat): nat
    requires Has(lv, l, e)
  {
    var pfn := PfnIn(lv, l, e);
    if pfn < |p2m| then p2m[pfn] * 4096 + Prot(t, l, pfn) else 0
  }

  /** Flat slot w of the tables `lv` of level l + 1 translates a region of the range `child` of level l. */
  predicate HasSlot(lv: PageTableMappingLevel, child: PageTableMappingLevel, l: nat, w: nat) {
    Has(child, l, 512 * First(lv, l + 1) + w)
  }

  function SlotEntry(t: PageTable, p2m: seq<nat>, lv: PageTableMappingLevel, child: PageTableMappingLevel, l: nat,
                     w: nat): nat
    requires HasSlot(lv, child, l, w)
  {
    EntryIn(t, p2m, child, l, 512 * First(lv, l + 1) + w)
  }

  /** The entry due in flat slot w when only the mappings below m2 have been entered. */
  function SlotUpTo(t: PageTable, p2m: seq<nat>, lv: PageTableMappingLevel, l: nat, w: nat, m2: nat): nat
    requires l < 4
  {
    if m2 > 0 && HasSlot(lv, Lev(t.mappings[0], l), l, w) then SlotEntry(t, p2m, lv, Lev(t.mappings[0], l), l, w)
    else if m2 > 1 && HasSlot(lv, Lev(t.mappings[1], l), l, w) then SlotEntry(t, p2m, lv, Lev(t.mappings[1], l), l, w)
    else 0
  }

  lemma SlotComplete(t: PageTable, p2m: seq<nat>, lv: PageTableMappingLevel, l: nat, w: nat)
    requires l < 4
    ensures SlotUpTo(t, p2m, lv, l, w, 2) == Entry(t, p2m, l, 512 * First(lv, l + 1) + w)
  {
  }

  /** No region is owned by both mappings. */
  lemma OneOwner(t: PageTable, pages: nat, l: nat, e: nat)
    requires Layout(t, pages) && l < 4
    ensures !(Has(Lev(t.mappings[0], l), l, e) && Has(Lev(t.mappings[1], l), l, e))
  {
    if l > 0 {
      LevelsPartition(t, pages, l, e);
    } else {
      var a, b := t.mappings[0].area, t.mappings[1].area;
      assert AreaOk(a) && AreaOk(b) && Disjoint(a, b);
      PageOfArea(a, e * 4096);
      PageOfArea(b, e * 4096);
    }
  }

  /** The tables of mapping m at level k hold their entries, or are still clear. */
  ghost predicate LevelState(mem: Memory, p2m: seq<nat>, t: PageTable, k: nat, m: nat, done: bool)
    requires 1 <= k <= 4 && m < 2
  {
    var lv := Lev(t.mappings[m], k);
    forall w :: 0 <= w < 512 * lv.pgtables ==>
      WordAt(mem, p2m, lv.pfn, w) == if done then Entry(t, p2m, k - 1, 512 * First(lv, k) + w) else 0
  }

  /** How the builder's comparisons of inclusive bounds read in numbers of regions of size s:
      tables with slots a..b - 1 against children c..d - 1. */
  lemma RunOrder(a: nat, b: nat, c: nat, d: nat, s: nat)
    requires 1 < s
    ensures c * s >= b * s - 1 <==> c >= b
    ensures d * s - 1 <= a * s <==> d <= a
    ensures a * s >= c * s <==> a >= c
    ensures b * s - 1 <= d * s - 1 <==> b <= d
  {
    if c < b {
      MulStep(c, b, s);
    } else {
      MulOrder(b, c, s);
    }
    if a < d {
      MulStep(a, d, s);
    } else {
      MulOrder(d, a, s);
    }
    MulOrder(c, a, s);
    MulOrder(b, d, s);
  }

  lemma RunQuotient(x: nat, y: nat, s: nat)
    requires 1 < s && x <= y
    ensures (y * s - x * s) / s == y - x
    ensures x < y ==> (y * s - 1 - x * s) / s == y - 1 - x
  {
    assert y * s - x * s == (y - x) * s;
    DivUnique((y - x) * s, y - x, s);
    if x < y {
      assert (y - x) * s - 1 == (y - 1 - x) * s + s - 1;
      DivUnique((y - x) * s - 1, y - 1 - x, s);
    }
  }

  /** What the bounds the builder computes for one run mean: the slots pS..pE are exactly those that
      translate a region of the child range, and the first of them refers to pfn `pfn`. */
  ghost predicate RunIs(lv: PageTableMappingLevel, child: PageTableMappingLevel, l: nat, pS: int, pE: int, pfn: int) {
    && 0 <= pS <= pE < 512 * lv.pgtables
    && (forall w :: 0 <= w < 512 * lv.pgtables ==> (HasSlot(lv, child, l, w) <==> pS <= w <= pE))
    && pfn == child.pfn + 512 * First(lv, l + 1) + pS - First(child, l)
  }

  lemma RunNats(lv: PageTableMappingLevel, child: PageTableMappingLevel, l: nat, pS: int, pE: int, pfn: int)
    requires RunIs(lv, child, l, pS, pE, pfn)
    ensures pS >= 0 && pE >= 0 && pfn >= 0
  {
    assert HasSlot(lv, child, l, pS);
  }

  lemma RunSlots(lv: PageTableMappingLevel, child: PageTableMappingLevel, l: nat, pS: int, pE: int, pfn: int)
    requires RunIs(lv, child, l, pS, pE, pfn)
    ensures forall w :: 0 <= w < 512 * lv.pgtables ==> (HasSlot(lv, child, l, w) <==> pS <= w <= pE)
  {
  }

  function RunStart(lv: PageTableMappingLevel, child: PageTableMappingLevel, l: nat): int {
    ((if lv.from >= child.from then lv.from else child.from) - lv.from) / Span(l)
  }

  function RunEnd(lv: PageTableMappingLevel, child: PageTableMappingLevel, l: nat): int {
    ((if lv.to <= child.to then lv.to else child.to) - lv.from) / Span(l)
  }

  function RunPfn(lv: PageTableMappingLevel, child: PageTableMappingLevel, l: nat): int {
    ((if lv.from >= child.from then lv.from else child.from) - child.from) / Span(l) + child.pfn
  }

  lemma RunPlan(lv: PageTableMappingLevel, child: PageTableMappingLevel, l: nat)
    requires Tabled(lv, l + 1) && Whole(child, l) && child.from < child.to
    ensures if child.from >= lv.to || child.to <= lv.from then
              forall w :: 0 <= w < 512 * lv.pgtables ==> !HasSlot(lv, child, l, w)
            else
              RunIs(lv, child, l, RunStart(lv, child, l), RunEnd(lv, child, l), RunPfn(lv, child, l))
  {
    if lv.from < lv.to {
      hide Span, Whole, Has, HasSlot, RunIs;
      var a, b := TableSlots(lv, l);
      var c, d := ChildRegions(child, l);
      RunNumbers(lv, child, l, a, b, c, d);
      SlotsInRun(lv, child, l, a, b, c, d);
    }
  }

  lemma RunNumbers(lv: PageTableMappingLevel, child: PageTableMappingLevel, l: nat, a: nat, b: nat, c: nat, d: nat)
    requires lv.from == a * Span(l) && lv.to == b * Span(l) - 1 && a < b
    requires child.from == c * Span(l) && child.to == d * Span(l) - 1 && c < d
    ensures child.from >= lv.to || child.to <= lv.from <==> c >= b || d <= a
    ensures c < b && a < d ==>
              && RunStart(lv, child, l) == (if a >= c then a else c) - a
              && RunEnd(lv, child, l) == (if b <= d then b - 1 else d - 1) - a
              && RunPfn(lv, child, l) == (if a >= c then a else c) - c + child.pfn
  {
    hide Span;
    RunInRegions(a, b, c, d, Span(l));
  }

  /** The slots of a run of tables, in numbers of regions of the level below. */
  lemma TableSlots(lv: PageTableMappingLevel, l: nat) returns (a: nat, b: nat)
    requires Tabled(lv, l + 1) && lv.from < lv.to
    ensures lv.from == a * Span(l) && lv.to == b * Span(l) - 1
    ensures a == 512 * First(lv, l + 1) && b == a + 512 * lv.pgtables && a < b
  {
    var s, s' := Span(l), Span(l + 1);
    var tf, tt := lv.from / s', lv.to / s';
    DivNat(lv.from, s');
    DivNat(lv.to, s');
    DivOrder(lv.from, lv.to, s');
    a, b := 512 * tf, 512 * tt + 512;
    assert tf * (512 * s) == a * s && tt * (512 * s) + 512 * s == b * s;
  }

  lemma ChildRegions(child: PageTableMappingLevel, l: nat) returns (c: nat, d: nat)
    requires Whole(child, l) && child.from < child.to
    ensures child.from == c * Span(l) && child.to == d * Span(l) - 1 && c < d
    ensures c == First(child, l) && forall e: nat :: Has(child, l, e) <==> c <= e < d
  {
    var s := Span(l);
    DivNat(child.from, s);
    DivNat(child.to, s);
    DivOrder(child.from, child.to, s);
    c, d := child.from / s, child.to / s + 1;
    assert (child.to / s) * s + s == d * s;
  }

  lemma SlotsInRun(lv: PageTableMappingLevel, child: PageTableMappingLevel, l: nat, a: nat, b: nat, c: nat, d: nat)
    requires a == 512 * First(lv, l + 1) && b == a + 512 * lv.pgtables && a < b && c < d
    requires c == First(child, l) && forall e: nat :: Has(child, l, e) <==> c <= e < d
    ensures forall w :: 0 <= w < 512 * lv.pgtables ==> (HasSlot(lv, child, l, w) <==> c <= a + w < d)
    ensures c < b && a < d ==>
              RunIs(lv, child, l, (if a >= c then a else c) - a, (if b <= d then b - 1 else d - 1) - a,
                    (if a >= c then a else c) - c + child.pfn)
  {
    hide Has;
  }

  lemma RunInRegions(a: nat, b: nat, c: nat, d: nat, s: nat)
    requires 1 < s && a < b && c < d
    ensures var lo := if a * s >= c * s then a * s else c * s;
            var hi := if b * s - 1 <= d * s - 1 then b * s - 1 else d * s - 1;
            && (c * s >= b * s - 1 || d * s - 1 <= a * s <==> c >= b || d <= a)
            && (c < b && a < d ==>
                  var first, last := if a >= c then a else c, if b <= d then b - 1 else d - 1;
                  && (lo - a * s) / s == first - a && (hi - a * s) / s == last - a && (lo - c * s) / s == first - c)
  {
    RunOrder(a, b, c, d, s);
    if c < b && a < d {
      var first, end := if a >= c then a else c, if b <= d then b else d;
      RunQuotient(a, first, s);
      RunQuotient(c, first, s);
      RunQuotient(a, end, s);
    }
  }

  lemma BothTabled(t: PageTable, pages: nat, k: nat)
    requires Layout(t, pages) && 1 <= k <= 4
    ensures Tabled(Lev(t.mappings[0], k), k) && Tabled(Lev(t.mappings[1], k), k)
  {
    assert Owns(t.mappings[0], k) && OwnsRest(t.mappings[1], t.mappings[0], k);
  }

  /** Positions of the tables of a level inside the domain. */
  lemma LevelPlace(t: PageTable, pages: nat, m: nat, k: nat)
    requires Layout(t, pages) && m < 2 && 1 <= k <= 4
    ensures var mp := t.mappings[m];
            var lv := Lev(mp, k);
            && Tabled(lv, k)
            && mp.levels[3].pfn <= lv.pfn && lv.pfn + lv.pgtables <= mp.levels[3].pfn + mp.area.pgtables <= pages
            && lv.pfn <= mp.levels[0].pfn
            && mp.levels[0].pfn + mp.levels[0].pgtables == mp.levels[3].pfn + mp.area.pgtables
    ensures t.mappings[0].levels[3].pfn + t.mappings[0].area.pgtables <= t.mappings[1].levels[3].pfn
  {
    hide Owns, OwnsRest, Tabled, AreaOk, Disjoint, Span;
    BothTabled(t, pages, k);
    AreaPages(t.mappings[0].area);
    AreaPages(t.mappings[1].area);
    hide Regions;
    StackPlace(t.mappings[m], k);
  }

  lemma StackPlace(m: PageTableMapping, k: nat)
    requires Stacked(m) && 1 <= k <= 4
    ensures var lv := Lev(m, k);
            && m.levels[3].pfn <= lv.pfn <= m.levels[0].pfn
            && lv.pfn + lv.pgtables <= m.levels[3].pfn + m.area.pgtables
  {
  }

  /** The first mapping always has tables of the lowest level. */
  lemma FirstHasLeafTables(t: PageTable, pages: nat)
    requires Layout(t, pages)
    ensures t.mappings[0].levels[0].pgtables > 0
  {
    hide Stacked, OwnsRest, Disjoint, Regions;
    var a := t.mappings[0];
    assert Owns(a, 1) && AreaOk(a.area);
    hide Layout;
    DivNat(a.area.from, Span(1));
    OwnedEnds(a.levels[0], a.area, 1);
    DivOrder(a.levels[0].from, a.levels[0].to, Span(1));
    hide Span;
  }

  lemma AreaPages(area: PageTableMappingLevel)
    requires AreaOk(area)
    ensures Regions(area, 0) > 0
  {
    DivOrder(area.from, area.to, 4096);
  }

  lemma ChildPlace(t: PageTable, pages: nat, m: nat, l: nat, e: nat)
    requires Layout(t, pages) && m < 2 && l < 4 && Has(Lev(t.mappings[m], l), l, e)
    ensures PfnIn(Lev(t.mappings[m], l), l, e) < pages
  {
    PfnPlace(t, pages, m, l, e);
  }

  /** Tables of different levels or mappings share no pfn. */
  lemma LevelsDisjoint(t: PageTable, pages: nat, k: nat, m: nat, k': nat, m': nat)
    requires Layout(t, pages) && m < 2 && m' < 2 && 1 <= k <= 4 && 1 <= k' <= 4
    requires k != k' || m != m'
    ensures var a, b := Lev(t.mappings[m], k), Lev(t.mappings[m'], k');
            a.pfn + a.pgtables <= b.pfn || b.pfn + b.pgtables <= a.pfn
  {
    hide Layout;
    LevelPlace(t, pages, m, k);
    LevelPlace(t, pages, m', k');
    if m == m' {
      LayoutStacked(t, pages, m);
      LevelsApart(t.mappings[m], k, k');
    }
  }

  lemma LayoutStacked(t: PageTable, pages: nat, m: nat)
    requires Layout(t, pages) && m < 2
    ensures Stacked(t.mappings[m]) && t.mappingsCount == MAX_MAPPINGS
  {
  }

  /** The state of a level does not depend on memory outside its tables. */
  lemma StateKept(mem: Memory, mem': Memory, p2m: seq<nat>, t: PageTable, k: nat, m: nat, done: bool, lo: nat, hi: nat)
    requires 1 <= k <= 4 && m < 2 && LevelState(mem, p2m, t, k, m, done)
    requires KeptOutside(mem, mem', p2m, lo, hi)
    requires var lv := Lev(t.mappings[m], k); lv.pfn + lv.pgtables <= lo || hi <= lv.pfn
    ensures LevelState(mem', p2m, t, k, m, done)
  {
    var lv := Lev(t.mappings[m], k);
    FlatKept(mem, mem', p2m, lo, hi, lv.pfn, lv.pgtables);
    hide Entry, WordAt, KeptOutside;
  }

  lemma StateCleared(mem: Memory, p2m: seq<nat>, t: PageTable, k: nat, m: nat, lo: nat, hi: nat)
    requires 1 <= k <= 4 && m < 2 && AllZero(mem, p2m, lo, hi)
    requires var lv := Lev(t.mappings[m], k); lo <= lv.pfn && lv.pfn + lv.pgtables <= hi
    ensures LevelState(mem, p2m, t, k, m, false)
  {
    FlatZero(mem, p2m, Lev(t.mappings[m], k).pfn, Lev(t.mappings[m], k).pgtables);
  }

  /** How far the fill loop has come: every level above l + 1, and level l + 1 of the mappings before m1. */
  predicate DoneBefore(l: nat, m1: nat, k: nat, m: nat) {
    k > l + 1 || (k == l + 1 && m < m1)
  }

  ghost predicate Progress(mem: Memory, p2m: seq<nat>, t: PageTable, l: nat, m1: nat) {
    forall k, m :: 1 <= k <= 4 && 0 <= m < 2 ==> LevelState(mem, p2m, t, k, m, DoneBefore(l, m1, k, m))
  }

  /** Filling one more level of one mapping. */
  lemma ProgressStep(mem: Memory, mem': Memory, p2m: seq<nat>, t: PageTable, l: nat, m1: nat)
    requires Layout(t, |p2m|) && l < 4 && m1 < 2 && Progress(mem, p2m, t, l, m1)
    requires LevelState(mem', p2m, t, l + 1, m1, true)
    requires var lv := Lev(t.mappings[m1], l + 1); KeptOutside(mem, mem', p2m, lv.pfn, lv.pfn + lv.pgtables)
    ensures Progress(mem', p2m, t, l, m1 + 1)
  {
    hide LevelState, KeptOutside, Layout;
    var lv := Lev(t.mappings[m1], l + 1);
    var next := m1 + 1;
    forall k, m | 1 <= k <= 4 && 0 <= m < 2
      ensures LevelState(mem', p2m, t, k, m, DoneBefore(l, next, k, m))
    {
      if k != l + 1 || m != m1 {
        assert LevelState(mem, p2m, t, k, m, DoneBefore(l, m1, k, m));
        LevelsDisjoint(t, |p2m|, k, m, l + 1, m1);
        StateKept(mem, mem', p2m, t, k, m, DoneBefore(l, m1, k, m), lv.pfn, lv.pfn + lv.pgtables);
      }
    }
  }

  /** The next lower level starts where the finished one ends. */
  lemma ProgressDown(mem: Memory, p2m: seq<nat>, t: PageTable, l: nat)
    requires 1 <= l < 4 && Progress(mem, p2m, t, l, 2)
    ensures Progress(mem, p2m, t, l - 1, 0)
  {
    hide LevelState;
    var below := l - 1;
    forall k, m | 1 <= k <= 4 && 0 <= m < 2
      ensures LevelState(mem, p2m, t, k, m, DoneBefore(below, 0, k, m))
    {
      assert DoneBefore(below, 0, k, m) == DoneBefore(l, 2, k, m);
    }
  }

  /** Clear tables are the starting point. */
  lemma ProgressStart(mem: Memory, p2m: seq<nat>, t: PageTable)
    requires Layout(t, |p2m|)
    requires AllZero(mem, p2m, t.mappings[0].levels[3].pfn, t.mappings[0].levels[3].pfn + t.mappings[0].area.pgtables)
    requires AllZero(mem, p2m, t.mappings[1].levels[3].pfn, t.mappings[1].levels[3].pfn + t.mappings[1].area.pgtables)
    ensures Progress(mem, p2m, t, 3, 0)
  {
    hide LevelState, Layout, AllZero;
    forall k, m | 1 <= k <= 4 && 0 <= m < 2
      ensures LevelState(mem, p2m, t, k, m, DoneBefore(3, 0, k, m))
    {
      LevelPlace(t, |p2m|, m, k);
      StateCleared(mem, p2m, t, k, m, t.mappings[m].levels[3].pfn,
                   t.mappings[m].levels[3].pfn + t.mappings[m].area.pgtables);
    }
  }

  /** The list of frames is stored as words from the start of page `pfn`. */
  ghost predicate P2mStored(mem: Memory, p2m: seq<nat>, pfn: nat) {
    forall i :: 0 <= i < |p2m| ==> WordAt(mem, p2m, pfn, i) == p2m[i]
  }

  /** When every level of both mappings is done, every slot of every table is filled. */
  lemma AllLevelsFilled(mem: Memory, p2m: seq<nat>, t: PageTable)
    requires Layout(t, |p2m|) && Owned(mem, p2m)
    requires forall k, m :: 1 <= k <= 4 && 0 <= m < 2 ==> LevelState(mem, p2m, t, k, m, true)
    ensures Filled(mem, p2m, t)
  {
    forall k: nat, i: nat, s: nat | 1 <= k <= 4 && s < 512
      ensures SlotFilled(mem, p2m, t, k, i, s)
    {
      if PfnOf(t, k, i).Some? {
        var m := if Has(Lev(t.mappings[0], k), k, i) then 0 else 1;
        OneSlotFilled(mem, p2m, t, k, m, i, s);
      }
    }
  }

  lemma OneSlotFilled(mem: Memory, p2m: seq<nat>, t: PageTable, k: nat, m: nat, i: nat, s: nat)
    requires Layout(t, |p2m|) && Owned(mem, p2m) && m < 2 && 1 <= k <= 4 && s < 512
    requires LevelState(mem, p2m, t, k, m, true) && Has(Lev(t.mappings[m], k), k, i)
    requires PfnOf(t, k, i) == Some(PfnIn(Lev(t.mappings[m], k), k, i))
    ensures SlotFilled(mem, p2m, t, k, i, s)
  {
    hide Layout, Entry, PfnOf;
    var lv := Lev(t.mappings[m], k);
    LevelPlace(t, |p2m|, m, k);
    var j := i - First(lv, k);
    var w := 512 * j + s;
    RowColumn(j, s, 512);
    assert WordAt(mem, p2m, lv.pfn, w) == Entry(t, p2m, k - 1, 512 * First(lv, k) + w);
  }
}
