/** What the guest sees through the finished tables. */
module GuestView {
  import opened Arithmetic
  import opened BootDomains
  import opened Bytes
  import opened Filling
  import opened Layouts
  import opened PageTables
  import opened Pages
  import opened Paging
  import opened Results

  /** The byte a guest reads at a linear address under the root table in frame `cr3`. */
  function GuestByte(mem: Memory, cr3: nat, va: nat): Option<Byte> {
    match Translate(mem, cr3, va)
    case None => None
    case Some(x) => if x.frame in mem then Some(mem[x.frame][va % 4096]) else None
  }

  /** The 64-bit word a guest reads at an 8-byte aligned linear address. */
  function GuestWord(mem: Memory, cr3: nat, va: nat): Option<nat> {
    match Translate(mem, cr3, va)
    case None => None
    case Some(x) => if x.frame in mem then Some(ReadWord(mem[x.frame], va % 4096 / 8)) else None
  }

  /** Complete, correctly filled tables for a domain whose frames are all distinct. */
  ghost predicate Complete(mem: Memory, p2m: seq<nat>, t: PageTable) {
    Layout(t, |p2m|) && Frames(p2m) && Distinct(p2m) && Owned(mem, p2m) && Filled(mem, p2m, t)
  }

  function Root(t: PageTable, p2m: seq<nat>): nat {
    if t.mappings[0].levels[3].pfn < |p2m| then p2m[t.mappings[0].levels[3].pfn] else 0
  }

  /** Addresses keep their distance from the start of an area that crosses no 2^48 boundary. */
  lemma LowAddress(base: nat, end: nat, x: nat)
    requires base / VIRT_LIMIT == (end - 1) / VIRT_LIMIT && base + x < end
    ensures (base + x) % VIRT_LIMIT == base % VIRT_LIMIT + x
    ensures base % VIRT_LIMIT + (end - 1 - base) == (end - 1) % VIRT_LIMIT
  {
    var q := base / VIRT_LIMIT;
    assert base == q * VIRT_LIMIT + base % VIRT_LIMIT && end - 1 == q * VIRT_LIMIT + (end - 1) % VIRT_LIMIT;
    DivUnique(base + x, q, VIRT_LIMIT);
  }

  /** Page i of an area is the page at pfn area.pfn + i. */
  lemma AreaTarget(t: PageTable, pages: nat, m: nat, x: nat)
    requires Layout(t, pages) && m < 2 && t.mappings[m].area.from + x <= t.mappings[m].area.to
    ensures var area := t.mappings[m].area;
            && Mapped(t, area.from + x) && Target(t, area.from + x) == area.pfn + x / 4096 < pages
            && (area.from + x) % 4096 == x % 4096
  {
    var area := t.mappings[m].area;
    assert AreaOk(area) && Disjoint(t.mappings[0].area, t.mappings[1].area);
    hide Owns, OwnsRest, Stacked;
    PageOfArea(area, area.from + x);
    assert area.from % 4096 == 0;
    PfnPlace(t, pages, m, 0, (area.from + x) / 4096);
  }

  /** The walk for byte x of an area ends at the frame of its page. */
  lemma AreaFrame(mem: Memory, p2m: seq<nat>, t: PageTable, m: nat, x: nat, va: nat)
    requires Complete(mem, p2m, t) && m < 2 && t.mappings[m].area.from + x <= t.mappings[m].area.to
    requires va % VIRT_LIMIT == t.mappings[m].area.from + x
    ensures t.mappings[m].area.pfn + x / 4096 < |p2m|
    ensures var pfn := t.mappings[m].area.pfn + x / 4096;
            && Translate(mem, Root(t, p2m), va)
               == Some(Translation(p2m[pfn], !InTableInterval(t.mappings[0], pfn)
                                   && !InTableInterval(t.mappings[1], pfn), true))
            && va % 4096 == x % 4096 && p2m[pfn] in mem
  {
    hide Layout, Filled, Frames, Distinct, Translate;
    WalkIsExact(mem, p2m, t, va);
    AreaTarget(t, |p2m|, m, x);
    LowOffset(va);
  }

  lemma LowOffset(va: nat)
    ensures va % VIRT_LIMIT % 4096 == va % 4096
  {
    var q := va / VIRT_LIMIT;
    var r := va % VIRT_LIMIT;
    assert va == 4096 * (q * 0x10_0000_0000) + r;
  }

  /** Guest bytes and words of an area are the domain's bytes and words from the area's first page on. */
  lemma AreaContents(mem: Memory, p2m: seq<nat>, t: PageTable, m: nat, pfn: nat, k: nat, va: nat)
    requires Complete(mem, p2m, t) && m < 2
    requires pfn >= t.mappings[m].area.pfn
    requires var x := (pfn - t.mappings[m].area.pfn) * 4096 + k;
             && t.mappings[m].area.from + x <= t.mappings[m].area.to
             && va % VIRT_LIMIT == t.mappings[m].area.from + x
    ensures GuestByte(mem, Root(t, p2m), va) == Some(ByteAt(mem, p2m, pfn, k))
    ensures k % 8 == 0 ==> GuestWord(mem, Root(t, p2m), va) == Some(WordAt(mem, p2m, pfn, k / 8))
  {
    hide Complete, Translate, Root, ReadWord;
    var x := (pfn - t.mappings[m].area.pfn) * 4096 + k;
    AreaFrame(mem, p2m, t, m, x, va);
    assert x / 4096 == pfn - t.mappings[m].area.pfn + k / 4096 && x % 4096 == k % 4096;
    if k % 8 == 0 {
      WordInPage(k);
    }
  }

  lemma WordInPage(k: nat)
    requires k % 8 == 0
    ensures k / 8 / 512 == k / 4096 && k / 8 % 512 == k % 4096 / 8
  {
  }

  /** Filled tables stay filled when only pages before the first table change. */
  lemma FilledKept(mem: Memory, mem': Memory, p2m: seq<nat>, t: PageTable, lo: nat, hi: nat)
    requires Layout(t, |p2m|) && Filled(mem, p2m, t) && KeptOutside(mem, mem', p2m, lo, hi)
    requires hi <= t.mappings[0].levels[3].pfn
    ensures Filled(mem', p2m, t)
  {
    hide Layout, Filled, Entry, PfnOf;
    forall k: nat, i: nat, s: nat | 1 <= k <= 4 && s < 512
      ensures SlotFilled(mem', p2m, t, k, i, s)
    {
      FilledSlot(mem, p2m, t, k, i, s);
      if PfnOf(t, k, i).Some? {
        TablesFrom(t, |p2m|, k, i);
      }
    }
    SlotsFill(mem', p2m, t);
  }

  lemma FilledSlot(mem: Memory, p2m: seq<nat>, t: PageTable, k: nat, i: nat, s: nat)
    requires Filled(mem, p2m, t) && 1 <= k <= 4 && s < 512
    ensures SlotFilled(mem, p2m, t, k, i, s)
  {
  }

  lemma SlotsFill(mem: Memory, p2m: seq<nat>, t: PageTable)
    requires forall k: nat, i: nat, s: nat :: 1 <= k <= 4 && s < 512 ==> SlotFilled(mem, p2m, t, k, i, s)
    ensures Filled(mem, p2m, t)
  {
  }

  lemma TablesFrom(t: PageTable, pages: nat, k: nat, i: nat)
    requires Layout(t, pages) && 1 <= k <= 4 && PfnOf(t, k, i).Some?
    ensures PfnOf(t, k, i).value >= t.mappings[0].levels[3].pfn
  {
    hide Layout;
    var m := if Has(Lev(t.mappings[0], k), k, i) then 0 else 1;
    LevelPlace(t, pages, m, k);
    LayoutStacked(t, pages, m);
    TablesFillInterval(t.mappings[m], k, i);
  }
}
