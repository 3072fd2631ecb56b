/** An independent reader of page tables: the 4-level paging walk of the Intel SDM, Volume 3A, sections 4.5 and 4.6,
    and the theorem that it finds in the built tables exactly the planned address space. */
module Paging {
  import opened Arithmetic
  import opened Layouts
  import opened PageTables
  import opened Pages
  import opened Results

  const FRAME_LIMIT: nat := 0x100_0000_0000  // 40-bit frame numbers: 52-bit physical addresses

  /** The 4 KiB frame a linear address reaches, whether every level allows writes, and whether every table on the
      way to the entry that maps it allows user accesses. */
  datatype Translation = Translation(frame: nat, writable: bool, user: bool)

  /** The slot, in the table above it, of the level-k table or page that an address belongs to. */
  function Slot(va: nat, k: nat): (s: nat)
    ensures s < 512
  {
    DivNat(va, Span(k));
    va / Span(k) % 512
  }

  /** 4 KiB frames of a large page mapped at level 2 or 3. */
  function LargePage(k: nat): (pages: nat)
    ensures pages > 0
  {
    if k == 2 then 0x200 else 0x4_0000
  }

  /** The 4 KiB frame of an address in the large page of `pages` frames that `frame` lies in. */
  function LargeFrame(frame: nat, pages: nat, va: nat): nat
    requires pages > 0
  {
    ModBounds(frame, pages);
    ModBounds(va / 4096, pages);
    frame / pages * pages + va / 4096 % pages
  }

  /** Walk from a level-k table. Bit 0 is P, bit 1 R/W, bit 2 U/S, bit 7 PS (levels 2 and 3: 2 MiB and 1 GiB pages),
      bits 51:12 the frame. */
  function Walk(mem: Memory, table: nat, k: nat, va: nat, writable: bool, user: bool): Option<Translation>
    requires 1 <= k <= 4
    decreases k
  {
    if table !in mem then None
    else
      var e := ReadWord(mem[table], Slot(va, k - 1));
      var frame := e / 4096 % FRAME_LIMIT;
      var w := writable && e / 2 % 2 == 1;
      if e % 2 == 0 then None
      else if k == 1 then Some(Translation(frame, w, user))
      else if k < 4 && e / 128 % 2 == 1 then
        Some(Translation(LargeFrame(frame, LargePage(k), va), w, user))
      else Walk(mem, frame, k - 1, va, w, user && e / 4 % 2 == 1)
  }

  /** Translation of a linear address, of which bits 47:0 matter, under the root table in frame `cr3`. */
  function Translate(mem: Memory, cr3: nat, va: nat): Option<Translation> {
    Walk(mem, cr3, 4, va % VIRT_LIMIT, true, true)
  }

  // ----- the entries the builder writes -----

  const PAGE_PRESENT: nat := 0x001
  const PAGE_RW: nat := 0x002
  const PAGE_USER: nat := 0x004
  const PAGE_ACCESSED: nat := 0x020
  const PAGE_DIRTY: nat := 0x040

  /** Protection bits of an entry in a table of level l + 1 (l = 0 for pages) that refers to `pfn`. */
  function Prot(t: PageTable, l: nat, pfn: nat): nat {
    if l > 0 then PAGE_PRESENT + PAGE_RW + PAGE_ACCESSED + PAGE_DIRTY + PAGE_USER
    else if InTableInterval(t.mappings[0], pfn) || InTableInterval(t.mappings[1], pfn)
    then PAGE_PRESENT + PAGE_ACCESSED
    else PAGE_PRESENT + PAGE_RW + PAGE_ACCESSED
  }

  /** The intended entry for region e of level l: zero when nothing is planned there. */
  function Entry(t: PageTable, p2m: seq<nat>, l: nat, e: nat): nat
    requires l <= 4
  {
    match PfnOf(t, l, e)
    case None => 0
    case Some(pfn) => if pfn < |p2m| then p2m[pfn] * 4096 + Prot(t, l, pfn) else 0
  }

  /** All low twelve bits of an entry. Above the leaf: present, writable, user, accessed, dirty. A leaf: present,
      accessed, and writable unless its page holds a table; its user bit is left to the hypervisor. */
  lemma EntryBits(t: PageTable, p2m: seq<nat>, pages: nat, l: nat, e: nat)
    requires Layout(t, pages) && |p2m| == pages && l < 4 && PfnOf(t, l, e).Some?
    ensures var pfn, entry := PfnOf(t, l, e).value, Entry(t, p2m, l, e);
            && pfn < pages && entry / 4096 == p2m[pfn]
            && entry % 4096 == if l > 0 then 0x067 else if IsTable(t, pfn) then 0x021 else 0x023
  {
    hide Layout, PfnOf, InTableInterval, IsTable;
    var pfn := PfnOf(t, l, e).value;
    PfnsDistinct(t, pages, l, e, l, e);
    TableIntervalsExact(t, pages, pfn);
    DivUnique(Entry(t, p2m, l, e), p2m[pfn], 4096);
  }

  predicate Frames(p2m: seq<nat>) {
    forall i :: 0 <= i < |p2m| ==> p2m[i] < FRAME_LIMIT
  }

  /** No two pfns share a frame. */
  ghost predicate Distinct(p2m: seq<nat>) {
    forall i, j :: 0 <= i < j < |p2m| ==> p2m[i] != p2m[j]
  }

  ghost predicate SlotFilled(mem: Memory, p2m: seq<nat>, t: PageTable, k: nat, i: nat, s: nat)
    requires 1 <= k <= 4 && s < 512
  {
    PfnOf(t, k, i).Some? ==>
      var pfn := PfnOf(t, k, i).value;
      && pfn < |p2m| && p2m[pfn] in mem
      && ReadWord(mem[p2m[pfn]], s) == Entry(t, p2m, k - 1, 512 * i + s)
  }

  /** Every slot of every table holds the intended entry. */
  ghost predicate Filled(mem: Memory, p2m: seq<nat>, t: PageTable) {
    forall k: nat, i: nat, s: nat :: 1 <= k <= 4 && s < 512 ==> SlotFilled(mem, p2m, t, k, i, s)
  }

  /** What a reader of the tables should find at a 48-bit address. */
  function Planned(t: PageTable, p2m: seq<nat>, va: nat): Option<Translation> {
    if Mapped(t, va) && Target(t, va) < |p2m| then
      var pfn := Target(t, va);
      Some(Translation(p2m[pfn], !InTableInterval(t.mappings[0], pfn) && !InTableInterval(t.mappings[1], pfn), true))
    else None
  }

  lemma EntryDecodes(frame: nat, prot: nat)
    requires frame < FRAME_LIMIT && prot < 128
    ensures var e := frame * 4096 + prot;
            && e % 2 == prot % 2 && e / 2 % 2 == prot / 2 % 2 && e / 4 % 2 == prot / 4 % 2 && e / 128 % 2 == 0
            && e / 4096 % FRAME_LIMIT == frame
  {
    var e := frame * 4096 + prot;
    LowBit(e, frame * 2048, prot);
    DivUnique(e, frame * 2048 + prot / 2, 2);
    LowBit(e / 2, frame * 1024, prot / 2);
    DivUnique(e, frame * 1024 + prot / 4, 4);
    LowBit(e / 4, frame * 512, prot / 4);
    DivUnique(e, frame * 32, 128);
    LowBit(e / 128, frame * 16, 0);
    DivUnique(e, frame, 4096);
  }

  lemma LowBit(x: nat, q: nat, r: nat)
    requires x == 2 * q + r
    ensures x % 2 == r % 2
  {
  }

  /** Region numbers of one address at neighbouring levels. */
  lemma SlotOfAddress(va: nat, k: nat)
    requires 1 <= k <= 4
    ensures va / Span(k) >= 0 && va / Span(k - 1) == 512 * (va / Span(k)) + va / Span(k - 1) % 512
    ensures 0 <= va / Span(k - 1) % 512
  {
    DivDiv(va, Span(k - 1), 512);
    DivNat(va, Span(k));
  }

  /** A present entry that is no large page sends the walk to the frame it names. */
  lemma WalkStep(mem: Memory, table: nat, k: nat, va: nat, w: bool, u: bool, frame: nat, prot: nat)
    requires 1 <= k <= 4 && table in mem && frame < FRAME_LIMIT && prot < 128 && prot % 2 == 1
    requires 0 <= va / Span(k - 1) % 512 < 512
    requires ReadWord(mem[table], va / Span(k - 1) % 512) == frame * 4096 + prot
    ensures var w' := w && prot / 2 % 2 == 1;
            Walk(mem, table, k, va, w, u)
            == if k == 1 then Some(Translation(frame, w', u))
               else Walk(mem, frame, k - 1, va, w', u && prot / 4 % 2 == 1)
  {
    EntryDecodes(frame, prot);
  }

  lemma WalkStops(mem: Memory, table: nat, k: nat, va: nat, w: bool, u: bool)
    requires 1 <= k <= 4 && table in mem
    requires 0 <= va / Span(k - 1) % 512 < 512
    requires ReadWord(mem[table], va / Span(k - 1) % 512) == 0
    ensures Walk(mem, table, k, va, w, u) == None
  {
  }

  /** The plan for an address, read off the page and the protection of its leaf entry. */
  lemma LeafPlanned(t: PageTable, p2m: seq<nat>, va: nat, pfn: nat)
    requires Layout(t, |p2m|) && PfnOf(t, 0, va / 4096) == Some(pfn)
    ensures pfn < |p2m|
    ensures Planned(t, p2m, va) == Some(Translation(p2m[pfn], Prot(t, 0, pfn) / 2 % 2 == 1, true))
  {
    hide Layout, PfnOf, Mapped, Target;
    PageOfAddress(t, |p2m|, va);
    PfnsDistinct(t, |p2m|, 0, va / 4096, 0, va / 4096);
  }

  lemma UnplannedBelow(t: PageTable, p2m: seq<nat>, va: nat, k: nat)
    requires Layout(t, |p2m|) && k <= 4 && va / Span(k) >= 0 && PfnOf(t, k, va / Span(k)) == None
    ensures Planned(t, p2m, va) == None
  {
    hide Layout, PfnOf, Mapped, Target, Span;
    if Mapped(t, va) {
      MappedIsCovered(t, |p2m|, va, k);
    }
  }

  /** The slot an address selects in its level-k table holds the entry for its region one level down. */
  lemma EntryOnPath(mem: Memory, p2m: seq<nat>, t: PageTable, va: nat, k: nat)
    requires Filled(mem, p2m, t) && 1 <= k <= 4
    requires va / Span(k) >= 0 && PfnOf(t, k, va / Span(k)).Some?
    ensures va / Span(k - 1) >= 0 && 0 <= va / Span(k - 1) % 512 < 512
    ensures var pfn := PfnOf(t, k, va / Span(k)).value;
            && pfn < |p2m| && p2m[pfn] in mem
            && ReadWord(mem[p2m[pfn]], va / Span(k - 1) % 512) == Entry(t, p2m, k - 1, va / Span(k - 1))
  {
    hide PfnOf, Entry, Span;
    SlotOfAddress(va, k);
    assert SlotFilled(mem, p2m, t, k, va / Span(k), va / Span(k - 1) % 512);
  }

  /** From the table responsible for an address, the walk ends where the plan says. */
  lemma {:induction false} WalkDown(mem: Memory, p2m: seq<nat>, t: PageTable, va: nat, k: nat)
    requires Layout(t, |p2m|) && Frames(p2m) && Filled(mem, p2m, t)
    requires 1 <= k <= 4
    requires va / Span(k) >= 0 && PfnOf(t, k, va / Span(k)).Some?
    ensures PfnOf(t, k, va / Span(k)).value < |p2m|
    ensures Walk(mem, p2m[PfnOf(t, k, va / Span(k)).value], k, va, true, true) == Planned(t, p2m, va)
    decreases k
  {
    hide Layout, Filled, PfnOf, Planned, Walk, InTableInterval, Span, Entry, Prot, ReadWord;
    EntryOnPath(mem, p2m, t, va, k);
    EntryParts(t, p2m, k - 1, va / Span(k - 1));
    var e := va / Span(k - 1);
    var table := p2m[PfnOf(t, k, va / Span(k)).value];
    match PfnOf(t, k - 1, e) {
      case None =>
        UnplannedBelow(t, p2m, va, k - 1);
        WalkStops(mem, table, k, va, true, true);
      case Some(pfn) =>
        PfnsDistinct(t, |p2m|, k - 1, e, k - 1, e);
        WalkStep(mem, table, k, va, true, true, p2m[pfn], Prot(t, k - 1, pfn));
        if k == 1 {
          assert Span(0) == 4096 by {
            SpanZero();
          }
          LeafPlanned(t, p2m, va, pfn);
        } else {
          WalkDown(mem, p2m, t, va, k - 1);
        }
    }
  }

  /** Frame and protection of an entry. */
  lemma EntryParts(t: PageTable, p2m: seq<nat>, l: nat, e: nat)
    requires l < 4
    ensures match PfnOf(t, l, e)
            case None => Entry(t, p2m, l, e) == 0
            case Some(pfn) =>
              && (pfn < |p2m| ==> Entry(t, p2m, l, e) == p2m[pfn] * 4096 + Prot(t, l, pfn))
              && Prot(t, l, pfn) < 128 && Prot(t, l, pfn) % 2 == 1
              && (l > 0 ==> Prot(t, l, pfn) / 2 % 2 == 1 && Prot(t, l, pfn) / 4 % 2 == 1)
  {
    hide PfnOf, InTableInterval;
  }

  lemma SpanZero()
    ensures Span(0) == 4096
  {
  }

  /** The built tables translate every 48-bit address to exactly the planned frame, with exactly the planned
      write permission and through tables that allow user accesses, and translate no other address. */
  lemma WalkIsExact(mem: Memory, p2m: seq<nat>, t: PageTable, va: nat)
    requires Layout(t, |p2m|) && Frames(p2m) && Filled(mem, p2m, t)
    ensures t.mappings[0].levels[3].pfn < |p2m|
    ensures Translate(mem, p2m[t.mappings[0].levels[3].pfn], va) == Planned(t, p2m, va % VIRT_LIMIT)
  {
    SpanValues();
    var low := va % VIRT_LIMIT;
    DivUnique(low, 0, Span(4));
    RootPfn(t, |p2m|);
    WalkDown(mem, p2m, t, low, 4);
  }

  lemma RootPfn(t: PageTable, pages: nat)
    requires Layout(t, pages)
    ensures PfnOf(t, 4, 0) == Some(t.mappings[0].levels[3].pfn)
  {
    var a := t.mappings[0];
    assert Owns(a, 4) && AreaOk(a.area);
    SpanValues();
    DivUnique(a.area.from, 0, Span(4));
    DivUnique(a.area.to, 0, Span(4));
    OwnedEnds(a.levels[3], a.area, 4);
  }

  /** Two addresses in different pages that the walk resolves reach different frames. */
  lemma WalkIsInjective(mem: Memory, p2m: seq<nat>, t: PageTable, va: nat, vb: nat)
    requires Layout(t, |p2m|) && Frames(p2m) && Filled(mem, p2m, t)
    requires Distinct(p2m)
    requires va < VIRT_LIMIT && vb < VIRT_LIMIT && va / 4096 != vb / 4096
    ensures t.mappings[0].levels[3].pfn < |p2m|
    ensures var cr3 := p2m[t.mappings[0].levels[3].pfn];
            var x, y := Translate(mem, cr3, va), Translate(mem, cr3, vb);
            x.Some? && y.Some? ==> x.value.frame != y.value.frame
  {
    hide Layout, Mapped, Target, Filled, PfnOf, InTableInterval, Translate;
    WalkIsExact(mem, p2m, t, va);
    WalkIsExact(mem, p2m, t, vb);
    if Mapped(t, va) && Mapped(t, vb) {
      PageOfAddress(t, |p2m|, va);
      PageOfAddress(t, |p2m|, vb);
      PfnsDistinct(t, |p2m|, 0, va / 4096, 0, vb / 4096);
      assert Target(t, va) != Target(t, vb);
    }
  }

  /** A mapped page is read-only exactly when it holds one of the page tables. */
  lemma ReadOnlyIsTable(mem: Memory, p2m: seq<nat>, t: PageTable, va: nat)
    requires Layout(t, |p2m|) && Frames(p2m) && Filled(mem, p2m, t)
    requires va < VIRT_LIMIT && Mapped(t, va)
    ensures t.mappings[0].levels[3].pfn < |p2m|
    ensures var x := Translate(mem, p2m[t.mappings[0].levels[3].pfn], va);
            x.Some? && (x.value.writable <==> !IsTable(t, Target(t, va)))
  {
    hide Layout, Mapped, Target, Filled, PfnOf, InTableInterval, Translate, IsTable;
    WalkIsExact(mem, p2m, t, va);
    PageOfAddress(t, |p2m|, va);
    PfnsDistinct(t, |p2m|, 0, va / 4096, 0, va / 4096);
    TableIntervalsExact(t, |p2m|, Target(t, va));
  }
}
