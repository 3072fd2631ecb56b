/** The page-table plan of a PV guest: which tables each mapping needs at each level, and where they are put. */
module PageTables {
  import opened Arithmetic
  import opened Results

  const VIRT_LIMIT: nat := 0x1_0000_0000_0000
  const MAX_MAPPINGS: nat := 2

  /** Bytes translated by one entry of a level-k table: 4 KiB, 2 MiB, 1 GiB, 512 GiB, 256 TiB. */
  function Span(k: nat): (s: nat)
    ensures s >= 4096
  {
    if k == 0 then 4096 else 512 * Span(k - 1)
  }

  lemma SpanValues()
    ensures Span(1) == 0x20_0000 && Span(2) == 0x4000_0000 && Span(3) == 0x80_0000_0000
    ensures Span(4) == VIRT_LIMIT
  {
    assert Span(1) == 0x20_0000;
    assert Span(2) == 0x4000_0000;
    assert Span(3) == 0x80_0000_0000;
  }

  /** An inclusive address range, the pfn of its first page (or table), and its number of tables. */
  datatype PageTableMappingLevel = PageTableMappingLevel(from: nat, to: nat, pfn: nat, pgtables: nat)

  const NO_LEVEL := PageTableMappingLevel(0, 0, 0, 0)

  type Levels = s: seq<PageTableMappingLevel> | |s| == 4 witness [NO_LEVEL, NO_LEVEL, NO_LEVEL, NO_LEVEL]

  datatype PageTableMapping = PageTableMapping(area: PageTableMappingLevel, levels: Levels)

  const NO_MAPPING := PageTableMapping(NO_LEVEL, [NO_LEVEL, NO_LEVEL, NO_LEVEL, NO_LEVEL])

  type Mappings = s: seq<PageTableMapping> | |s| == MAX_MAPPINGS witness [NO_MAPPING, NO_MAPPING]

  datatype PageTable = PageTable(mappingsCount: nat, mappings: Mappings)

  // ----- counting the tables of a mapping -----

  /** `x & !(s - 1)` for a power of two s. */
  function ClearLow(x: nat, s: nat): nat
    requires s > 0
  {
    x - x % s
  }

  /** `x | (s - 1)` for a power of two s. */
  function SetLow(x: nat, s: nat): nat
    requires s > 0
  {
    x - x % s + s - 1
  }

  /** Cut from [from, to] what the earlier mappings already own at table level l; (0, 0) when nothing is left. */
  function Trim(cmps: seq<PageTableMapping>, l: nat, from: nat, to: nat): (nat, nat)
    requires l < 4
  {
    if |cmps| == 0 then (from, to)
    else
      var cmp := cmps[0].levels[l];
      if cmp.from == cmp.to then Trim(cmps[1..], l, from, to)
      else if from >= cmp.from && to <= cmp.to then (0, 0)
      else
        var f := if cmp.from <= from <= cmp.to then cmp.to + 1 else from;
        var t := if cmp.from <= to <= cmp.to then cmp.from - 1 else to;
        Trim(cmps[1..], l, f, t)
  }

  function RangeTables(r: (nat, nat), s: nat): nat
    requires s > 0
  {
    if r.0 < r.1 then (r.1 - r.0) / s + 1 else 0
  }

  function CountedRange(cmps: seq<PageTableMapping>, from: nat, to: nat, l: nat): (nat, nat)
    requires l < 4
  {
    if l == 3 then (if |cmps| == 0 then (0, VIRT_LIMIT - 1) else (0, 0))
    else Trim(cmps, l, ClearLow(from, Span(l + 1)), SetLow(to, Span(l + 1)))
  }

  function TableCount(cmps: seq<PageTableMapping>, from: nat, to: nat, l: nat): nat
    requires l < 4
  {
    RangeTables(CountedRange(cmps, from, to, l), Span(l + 1))
  }

  /** Tables of the levels above l, which are placed before those of level l. */
  function TablesAbove(cmps: seq<PageTableMapping>, from: nat, to: nat, l: nat): nat
    requires l < 4
    decreases 4 - l
  {
    if l == 3 then 0 else TableCount(cmps, from, to, l + 1) + TablesAbove(cmps, from, to, l + 1)
  }

  function CountLevel(cmps: seq<PageTableMapping>, from: nat, to: nat, base: nat, l: nat): PageTableMappingLevel
    requires l < 4
  {
    var r := CountedRange(cmps, from, to, l);
    PageTableMappingLevel(r.0, r.1, base + TablesAbove(cmps, from, to, l), TableCount(cmps, from, to, l))
  }

  /** The mapping counted for the addresses [from, to], its tables starting at pfn `base`. */
  function CountMapping(cmps: seq<PageTableMapping>, from: nat, to: nat, base: nat): PageTableMapping {
    var f, t := from % VIRT_LIMIT, to % VIRT_LIMIT;
    var total := TablesAbove(cmps, f, t, 0) + TableCount(cmps, f, t, 0);
    PageTableMapping(
      PageTableMappingLevel(f, t, 0, total),
      [CountLevel(cmps, f, t, base, 0), CountLevel(cmps, f, t, base, 1),
       CountLevel(cmps, f, t, base, 2), CountLevel(cmps, f, t, base, 3)])
  }

  /** Place the area at `pfn` and its tables `n` pages later than counted. */
  function Shift(m: PageTableMapping, pfn: nat, n: nat): PageTableMapping {
    PageTableMapping(m.area.(pfn := pfn), seq(4, l requires 0 <= l < 4 => m.levels[l].(pfn := m.levels[l].pfn + n)))
  }

  // ----- regions: level k = 0 is the mapped area itself, level k > 0 the tables translating Span(k) bytes each -----

  function Lev(m: PageTableMapping, k: nat): PageTableMappingLevel
    requires k <= 4
  {
    if k == 0 then m.area else m.levels[k - 1]
  }

  /** Region number i of size Span(k) belongs to the range. */
  predicate Has(lv: PageTableMappingLevel, k: nat, i: nat) {
    lv.from < lv.to && lv.from / Span(k) <= i <= lv.to / Span(k)
  }

  /** Region number i of size Span(k) contains an address of the area. */
  predicate Touched(area: PageTableMappingLevel, k: nat, i: nat) {
    area.from / Span(k) <= i <= area.to / Span(k)
  }

  /** The pfn that holds region i of the range: its page, or the table that translates it. */
  function PfnIn(lv: PageTableMappingLevel, k: nat, i: nat): nat
    requires Has(lv, k, i)
  {
    lv.pfn + i - lv.from / Span(k)
  }

  /** The range is empty, or consists of whole regions. */
  predicate Whole(lv: PageTableMappingLevel, k: nat) {
    lv.from < lv.to ==>
      && lv.from == lv.from / Span(k) * Span(k)
      && lv.to == lv.to / Span(k) * Span(k) + Span(k) - 1
  }

  /** A level of tables: one table for each region of the range, or (0, 0) and no table. */
  predicate Tabled(lv: PageTableMappingLevel, k: nat) {
    && Whole(lv, k)
    && (lv.from < lv.to ==> lv.pgtables == lv.to / Span(k) - lv.from / Span(k) + 1)
    && (lv.from >= lv.to ==> lv.from == 0 && lv.to == 0 && lv.pgtables == 0)
  }

  predicate AreaOk(area: PageTableMappingLevel) {
    area.from < area.to < VIRT_LIMIT && Whole(area, 0)
  }

  predicate Disjoint(a: PageTableMappingLevel, b: PageTableMappingLevel) {
    a.to < b.from || b.to < a.from
  }

  /** Tables follow one another from the top level down; `area.pgtables` is their number. */
  predicate Stacked(m: PageTableMapping) {
    && m.levels[2].pfn == m.levels[3].pfn + m.levels[3].pgtables
    && m.levels[1].pfn == m.levels[2].pfn + m.levels[2].pgtables
    && m.levels[0].pfn == m.levels[1].pfn + m.levels[1].pgtables
    && m.levels[3].pfn + m.area.pgtables == m.levels[0].pfn + m.levels[0].pgtables
  }

  function Regions(area: PageTableMappingLevel, k: nat): int {
    area.to / Span(k) - area.from / Span(k) + 1
  }

  /** At level k the mapping owns exactly the regions its area touches. */
  ghost predicate Owns(m: PageTableMapping, k: nat)
    requires 1 <= k <= 4
  {
    Tabled(Lev(m, k), k) && forall i: nat :: Has(Lev(m, k), k, i) <==> Touched(m.area, k, i)
  }

  /** At level k the mapping owns exactly the regions its area touches and `first` does not own. */
  ghost predicate OwnsRest(m: PageTableMapping, first: PageTableMapping, k: nat)
    requires 1 <= k <= 4
  {
    && Tabled(Lev(m, k), k)
    && forall i: nat :: Has(Lev(m, k), k, i) <==> Touched(m.area, k, i) && !Has(Lev(first, k), k, i)
  }

  // ----- what counting guarantees -----

  lemma CountedArea(cmps: seq<PageTableMapping>, from: nat, to: nat, base: nat)
    ensures var area := CountMapping(cmps, from, to, base).area;
            area.from == from % VIRT_LIMIT && area.to == to % VIRT_LIMIT && area.pfn == 0
  {
  }

  lemma RoundedRange(from: nat, to: nat, s: nat)
    requires from <= to && 1 < s
    ensures var f, t := ClearLow(from, s), SetLow(to, s);
            f == from / s * s && t == to / s * s + s - 1 && f < t && f / s == from / s && t / s == to / s
  {
    DivOrder(from, to, s);
    MulOrder(from / s, to / s, s);
    DivUnique(from / s * s, from / s, s);
    DivUnique(to / s * s + s - 1, to / s, s);
  }

  /** A range of whole regions lo..hi has hi - lo + 1 tables. */
  lemma RangeTablesExact(lo: nat, hi: nat, s: nat)
    requires lo <= hi && 1 < s
    ensures RangeTables((lo * s, hi * s + s - 1), s) == hi - lo + 1
    ensures (lo * s) / s == lo && (hi * s + s - 1) / s == hi && lo * s < hi * s + s - 1
  {
    MulOrder(lo, hi, s);
    assert hi * s - lo * s == (hi - lo) * s;
    DivUnique(hi * s + s - 1 - lo * s, hi - lo, s);
    DivUnique(lo * s, lo, s);
    DivUnique(hi * s + s - 1, hi, s);
  }

  lemma MappingLevel(cmps: seq<PageTableMapping>, from: nat, to: nat, base: nat, l: nat)
    requires l < 4
    ensures CountMapping(cmps, from, to, base).levels[l]
         == CountLevel(cmps, from % VIRT_LIMIT, to % VIRT_LIMIT, base, l)
  {
  }

  /** The first mapping owns, at every level, exactly the regions its area touches. */
  lemma CountFirst(from: nat, to: nat, base: nat, k: nat)
    requires from % VIRT_LIMIT < to % VIRT_LIMIT && 1 <= k <= 4
    ensures Owns(CountMapping([], from, to, base), k)
  {
    FirstLevel(from % VIRT_LIMIT, to % VIRT_LIMIT, base, k);
    MappingLevel([], from, to, base, k - 1);
    CountedArea([], from, to, base);
    hide CountMapping, CountLevel;
  }

  lemma FirstLevel(f: nat, t: nat, base: nat, k: nat)
    requires f < t < VIRT_LIMIT && 1 <= k <= 4
    ensures var lv := CountLevel([], f, t, base, k - 1);
            Tabled(lv, k) && forall i: nat :: Has(lv, k, i) <==> f / Span(k) <= i <= t / Span(k)
  {
    FirstRange(f, t, k);
    DivNat(f, Span(k));
    DivOrder(f, t, Span(k));
    hide CountedRange, Span, RangeTables, Tabled, Has;
    RangeOfRegions(CountedRange([], f, t, k - 1), f / Span(k), t / Span(k), Span(k));
    LevelOfRange(CountLevel([], f, t, base, k - 1), k, CountedRange([], f, t, k - 1));
  }

  /** A level made from a range of whole regions has a table for each of them. */
  lemma LevelOfRange(lv: PageTableMappingLevel, k: nat, r: (nat, nat))
    requires lv.from == r.0 && lv.to == r.1 && lv.pgtables == RangeTables(r, Span(k)) && ExactRange(r, Span(k))
    ensures Tabled(lv, k) && forall i: nat :: Has(lv, k, i) <==> InRange(r, Span(k), i)
  {
    hide RangeTables, Span;
  }

  lemma FirstRange(f: nat, t: nat, k: nat)
    requires f < t < VIRT_LIMIT && 1 <= k <= 4
    ensures CountedRange([], f, t, k - 1) == (f / Span(k) * Span(k), t / Span(k) * Span(k) + Span(k) - 1)
  {
    hide ClearLow, SetLow, Span;
    if k < 4 {
      RoundedRange(f, t, Span(k));
    } else {
      assert Span(4) == VIRT_LIMIT by {
        SpanValues();
      }
      DivUnique(f, 0, VIRT_LIMIT);
      DivUnique(t, 0, VIRT_LIMIT);
    }
  }

  /** Level k of the second mapping keeps the regions from..to touches, less those the first mapping owns. */
  lemma SecondRange(first: PageTableMapping, from: nat, to: nat, k: nat)
    requires first.area.from < first.area.to && 1 <= k < 4 && Owns(first, k)
    requires from < to
    requires to < first.area.from || first.area.to < from
    ensures var r := CountedRange([first], from, to, k - 1);
            && ExactRange(r, Span(k))
            && forall i: nat ::
                 InRange(r, Span(k), i) <==> from / Span(k) <= i <= to / Span(k) && !Has(first.levels[k - 1], k, i)
  {
    var s, c, a := Span(k), first.levels[k - 1], first.area;
    OwnedEnds(c, a, k);
    var lo, hi, f, t := c.from / s, c.to / s, from / s, to / s;
    DivNat(a.from, s);
    DivNat(from, s);
    DivOrder(from, to, s);
    DivOrder(c.from, c.to, s);
    RoundedRange(from, to, s);
    TrimOne(first, k - 1, lo, hi, f, t, s, if to < a.from then to else a.to, if to < a.from then a.from else from);
    TrimmedExact(lo, hi, f, t, s);
  }

  /** The second mapping owns exactly the regions its area touches and the first one does not own. */
  lemma CountSecond(first: PageTableMapping, from: nat, to: nat, base: nat, pfn: nat, n: nat, k: nat)
    requires AreaOk(first.area) && 1 <= k <= 4 && Owns(first, k)
    requires from < to < VIRT_LIMIT
    requires to < first.area.from || first.area.to < from
    ensures OwnsRest(Shift(CountMapping([first], from, to, base), pfn, n), first, k)
  {
    hide CountMapping, CountLevel, Shift, Span, OwnsRest, Tabled;
    SecondLevel(first, from, to, base, k);
    MappingLevel([first], from, to, base, k - 1);
    CountedArea([first], from, to, base);
    ShiftedLevel(CountMapping([first], from, to, base), pfn, n, k);
    assert from % VIRT_LIMIT == from && to % VIRT_LIMIT == to;
    OwnsRestFrom(Shift(CountMapping([first], from, to, base), pfn, n), first, k,
                 CountLevel([first], from, to, base, k - 1), from, to);
  }

  lemma OwnsRestFrom(m: PageTableMapping, first: PageTableMapping, k: nat, lv: PageTableMappingLevel, from: nat,
                     to: nat)
    requires 1 <= k <= 4 && Tabled(lv, k)
    requires forall i: nat ::
               Has(lv, k, i) <==> from / Span(k) <= i <= to / Span(k) && !Has(first.levels[k - 1], k, i)
    requires Lev(m, k) == lv.(pfn := Lev(m, k).pfn) && m.area.from == from && m.area.to == to
    ensures OwnsRest(m, first, k)
  {
    hide Span;
    forall i: nat
      ensures Has(Lev(m, k), k, i) <==> Touched(m.area, k, i) && !Has(Lev(first, k), k, i)
    {
      assert Has(lv, k, i) == Has(Lev(m, k), k, i);
    }
  }

  lemma ShiftedLevel(m: PageTableMapping, pfn: nat, n: nat, k: nat)
    requires 1 <= k <= 4
    ensures Lev(Shift(m, pfn, n), k) == Lev(m, k).(pfn := Lev(m, k).pfn + n)
    ensures Shift(m, pfn, n).area == m.area.(pfn := pfn)
  {
  }

  lemma SecondLevel(first: PageTableMapping, from: nat, to: nat, base: nat, k: nat)
    requires AreaOk(first.area) && 1 <= k <= 4 && Owns(first, k)
    requires from < to < VIRT_LIMIT
    requires to < first.area.from || first.area.to < from
    ensures var lv := CountLevel([first], from, to, base, k - 1);
            && Tabled(lv, k)
            && forall i: nat ::
                 Has(lv, k, i) <==> from / Span(k) <= i <= to / Span(k) && !Has(first.levels[k - 1], k, i)
  {
    if k == 4 {
      SecondTop(first, from, to, base);
    } else {
      SecondRange(first, from, to, k);
      hide CountedRange, Span, RangeTables, Tabled, Has, InRange, ExactRange;
      LevelOfRange(CountLevel([first], from, to, base, k - 1), k, CountedRange([first], from, to, k - 1));
    }
  }

  /** There is one root, and the first mapping owns it. */
  lemma SecondTop(first: PageTableMapping, from: nat, to: nat, base: nat)
    requires AreaOk(first.area) && Owns(first, 4) && from < to < VIRT_LIMIT
    ensures var lv := CountLevel([first], from, to, base, 3);
            && Tabled(lv, 4)
            && forall i: nat :: Has(lv, 4, i) <==> from / Span(4) <= i <= to / Span(4) && !Has(first.levels[3], 4, i)
  {
    SpanValues();
    DivUnique(first.area.from, 0, Span(4));
    DivUnique(first.area.to, 0, Span(4));
    DivUnique(from, 0, Span(4));
    DivUnique(to, 0, Span(4));
    assert Touched(first.area, 4, 0);
    hide Span;
  }

  /** A range that owns exactly the touched regions begins and ends with the area's first and last. */
  lemma OwnedEnds(c: PageTableMappingLevel, a: PageTableMappingLevel, k: nat)
    requires a.from < a.to
    requires forall i: nat :: Has(c, k, i) <==> Touched(a, k, i)
    ensures c.from < c.to && c.from / Span(k) == a.from / Span(k) && c.to / Span(k) == a.to / Span(k)
  {
    var s := Span(k);
    DivOrder(a.from, a.to, s);
    DivNat(a.from, s);
    DivNat(c.from, s);
    assert Touched(a, k, a.from / s) && Touched(a, k, a.to / s);
    assert Has(c, k, a.from / s) && Has(c, k, a.to / s);
    DivOrder(c.from, c.to, s);
    assert Has(c, k, c.from / s) && Has(c, k, c.to / s);
    assert Touched(a, k, c.from / s) && Touched(a, k, c.to / s);
  }

  /** What trimming leaves of the regions f..t when lo..hi are owned, t <= lo or hi <= f. */
  function TrimmedRegions(lo: nat, hi: nat, f: nat, t: nat, s: nat): (nat, nat)
    requires lo <= hi && f <= t && (t <= lo || hi <= f) && s > 0
  {
    if lo <= f && t <= hi then (0, 0)
    else if f == hi then ((hi + 1) * s, t * s + s - 1)
    else if t == lo then (f * s, lo * s - 1)
    else (f * s, t * s + s - 1)
  }

  predicate InRange(r: (nat, nat), s: nat, i: nat)
    requires s > 0
  {
    r.0 < r.1 && r.0 / s <= i <= r.1 / s
  }

  lemma TrimOne(c: PageTableMapping, l: nat, lo: nat, hi: nat, f: nat, t: nat, s: nat, below: nat, above: nat)
    requires l < 4 && c.levels[l].from == lo * s && c.levels[l].to == hi * s + s - 1
    requires 1 < s && lo <= hi && f <= t
    requires below < above
    requires (below / s == t && above / s == lo) || (below / s == hi && above / s == f)
    ensures t <= lo || hi <= f
    ensures Trim([c], l, f * s, t * s + s - 1) == TrimmedRegions(lo, hi, f, t, s)
  {
    DivOrder(below, above, s);
    assert [c][1..] == [];
    EndsOrder(lo, f, s);
    EndsOrder(t, hi, s);
    EndsOrder(f, hi, s);
    EndsOrder(lo, t, s);
    EndsOrder(lo, hi, s);
    assert (hi + 1) * s == hi * s + s;
  }

  lemma EndsOrder(x: nat, y: nat, s: nat)
    requires 1 < s
    ensures x * s <= y * s + s - 1 <==> x <= y
    ensures x * s + s - 1 <= y * s + s - 1 <==> x <= y
    ensures x * s <= y * s <==> x <= y
  {
    MulOrder(x, y, s);
    MulOrder(y + 1, x, s);
    assert (y + 1) * s == y * s + s;
  }

  /** Which regions a range of whole regions consists of, and how many tables it has. */
  lemma RangeOfRegions(r: (nat, nat), lo: nat, hi: nat, s: nat)
    requires lo <= hi && 1 < s && r == (lo * s, hi * s + s - 1)
    ensures ExactRange(r, s)
    ensures forall i: nat :: InRange(r, s, i) <==> lo <= i <= hi
  {
    hide RangeTables;
    RangeTablesExact(lo, hi, s);
  }

  /** The range consists of whole regions with one table each, or is the pair (0, 0) without a table. */
  predicate ExactRange(r: (nat, nat), s: nat)
    requires s > 0
  {
    var n := RangeTables(r, s);
    && (r.0 < r.1 ==> r.0 == r.0 / s * s && r.1 == r.1 / s * s + s - 1 && n == r.1 / s - r.0 / s + 1)
    && (r.0 >= r.1 ==> r == (0, 0) && n == 0)
  }

  lemma TrimmedExact(lo: nat, hi: nat, f: nat, t: nat, s: nat)
    requires 1 < s && lo <= hi && f <= t && (t <= lo || hi <= f)
    ensures ExactRange(TrimmedRegions(lo, hi, f, t, s), s)
    ensures forall i: nat :: InRange(TrimmedRegions(lo, hi, f, t, s), s, i) <==> f <= i <= t && !(lo <= i <= hi)
  {
    if lo <= f && t <= hi {
      assert TrimmedRegions(lo, hi, f, t, s) == (0, 0);
    } else {
      var r := TrimmedRegions(lo, hi, f, t, s);
      hide ExactRange, InRange;
      if f == hi {
        RangeOfRegions(r, hi + 1, t, s);
      } else if t == lo {
        assert lo * s - 1 == (lo - 1) * s + s - 1;
        RangeOfRegions(r, f, lo - 1, s);
      } else {
        RangeOfRegions(r, f, t, s);
      }
    }
  }
}
