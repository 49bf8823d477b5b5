/** How memory sections are registered in an address space's dispatch tables and
    found again (exec.c). The specification is a plain partial map from addresses
    to a memory region and an offset in it. */
module Dispatch {
  import opened Arith
  import opened PhysTree
  import opened PhysMap
  import opened TargetPage

  const ADDRESSES := 0x1_0000_0000_0000_0000
  const PAGES := 0x10_0000_0000_0000

  datatype Region = Unassigned | NotDirty | Rom | Watch | Device(id: int) | Subpage(index: nat)

  datatype Section = Section(mr: Region, offset: nat, size: nat, regionOffset: int)

  predicate Covers(s: Section, addr: nat) {
    s.offset <= addr < s.offset + s.size
  }

  /** The range check that ends a lookup: a section of 2^64 bytes does not fit the 64-bit comparison. */
  predicate Hit(s: Section, addr: nat) {
    s.size >= ADDRESSES || (s.offset <= addr && addr <= s.offset + s.size - 1)
  }

  datatype SubpageTable = SubpageTable(base: nat, subSection: seq<nat>)

  // ---- The tables and what a lookup finds in them ----

  datatype Tables = Tables(root: Entry, nodes: seq<Node>, sections: seq<Section>, subpages: seq<SubpageTable>)

  function LeafAt(d: Tables, page: nat): nat {
    Walk(d.nodes, d.root, L2_LEVELS, page)
  }

  function FindIndex(d: Tables, addr: nat): nat {
    var leaf := LeafAt(d, addr / PAGE_SIZE);
    if leaf < |d.sections| && Hit(d.sections[leaf], addr) then leaf else UNASSIGNED
  }

  /** The section index for an address, subpages resolved. */
  function LookupIndex(d: Tables, addr: nat): nat {
    var s := FindIndex(d, addr);
    if s < |d.sections| && d.sections[s].mr.Subpage? then
      var k := d.sections[s].mr.index;
      if k < |d.subpages| && |d.subpages[k].subSection| == PAGE_SIZE then d.subpages[k].subSection[addr % PAGE_SIZE]
      else UNASSIGNED
    else s
  }

  // ---- The specification ----

  datatype Target = Target(mr: Region, xlat: int)

  type View = imap<nat, Target>

  ghost function TargetIn(s: Section, addr: nat): Target {
    Target(s.mr, s.regionOffset + addr - s.offset)
  }

  ghost function Overlay(view: View, s: Section): View {
    imap a | a in view || Covers(s, a) :: if Covers(s, a) then TargetIn(s, a) else view[a]
  }

  ghost predicate Apart(view: View, s: Section) {
    forall a: nat :: Covers(s, a) ==> a !in view
  }

  /** A lookup of `addr` finds exactly what the view says. */
  ghost predicate AddrOk(d: Tables, view: View, addr: nat) {
    var s := LookupIndex(d, addr);
    if addr in view then
      && RESERVED_SECTIONS <= s < |d.sections|
      && Covers(d.sections[s], addr)
      && TargetIn(d.sections[s], addr) == view[addr]
    else s == UNASSIGNED
  }

  // ---- The invariant of the tables under construction ----

  /** A mapped page belongs to an aligned section that covers it, or to a subpage of its own. */
  ghost predicate PageOk(d: Tables, page: nat) {
    var s := LeafAt(d, page);
    s == UNASSIGNED ||
    (&& RESERVED_SECTIONS <= s < |d.sections|
     && (forall a :: page * PAGE_SIZE <= a < (page + 1) * PAGE_SIZE ==> Covers(d.sections[s], a))
     && match d.sections[s].mr
        case Device(_) => true
        case Subpage(k) => k < |d.subpages| && d.subpages[k].base == page * PAGE_SIZE
        case _ => false)
  }

  ghost predicate Occupied(view: View, page: nat) {
    exists a :: a in view && page * PAGE_SIZE <= a < (page + 1) * PAGE_SIZE
  }

  /** No address that a section covers is on an unmapped page. */
  ghost predicate SectionOk(d: Tables, s: nat)
    requires s < |d.sections|
  {
    && 0 < d.sections[s].size
    && d.sections[s].offset + d.sections[s].size <= ADDRESSES
    && forall a: nat :: Covers(d.sections[s], a) ==> LeafAt(d, a / PAGE_SIZE) != UNASSIGNED
  }

  ghost predicate ShapeOk(d: Tables) {
    && RESERVED_SECTIONS <= |d.sections|
    && d.sections[UNASSIGNED] == Section(Unassigned, 0, ADDRESSES, 0)
    && (forall k :: 0 <= k < |d.subpages| ==> |d.subpages[k].subSection| == PAGE_SIZE)
    && (forall s :: 0 <= s < |d.sections| && d.sections[s].mr.Subpage? ==> d.sections[s].mr.index < |d.subpages|)
  }

  ghost predicate Good(d: Tables, view: View) {
    && ShapeOk(d)
    && (forall s :: RESERVED_SECTIONS <= s < |d.sections| ==> SectionOk(d, s))
    && (forall p :: 0 <= p < PAGES ==> PageOk(d, p))
    && (forall a :: 0 <= a < ADDRESSES ==> AddrOk(d, view, a))
  }

  ghost predicate AllOccupied(d: Tables, view: View) {
    forall p :: 0 <= p < PAGES && LeafAt(d, p) != UNASSIGNED ==> Occupied(view, p)
  }

  /** Compaction changes no lookup: wherever it shows a leaf that was not there, the range check fails. */
  lemma CompactedLookup(d: Tables, d': Tables, view: View, addr: nat)
    requires Good(d, view) && addr < ADDRESSES
    requires d'.sections == d.sections && d'.subpages == d.subpages
    requires LeafAt(d', addr / PAGE_SIZE) == LeafAt(d, addr / PAGE_SIZE) || LeafAt(d, addr / PAGE_SIZE) == UNASSIGNED
    requires var s := LeafAt(d', addr / PAGE_SIZE); s == UNASSIGNED || RESERVED_SECTIONS <= s < |d.sections|
    ensures FindIndex(d', addr) == FindIndex(d, addr)
    ensures LookupIndex(d', addr) == LookupIndex(d, addr)
  {
    var s := LeafAt(d', addr / PAGE_SIZE);
    if s != LeafAt(d, addr / PAGE_SIZE) {
      assert SectionOk(d, s);
    }
  }

  // ---- Registering a section over whole pages ----

  /** `d'` is `d` with one more section, shown on the pages [from, to). */
  ghost predicate Mapped(d: Tables, d': Tables, s: Section, from: nat, to: nat) {
    && d'.sections == d.sections + [s]
    && forall p :: 0 <= p < PAGES ==> LeafAt(d', p) == if from <= p < to then |d.sections| else LeafAt(d, p)
  }

  ghost predicate OnPages(s: Section, from: nat, to: nat) {
    from < to <= PAGES && s.offset == from * PAGE_SIZE && s.size == (to - from) * PAGE_SIZE
  }

  lemma OnPagesCovers(s: Section, from: nat, to: nat, addr: nat)
    requires OnPages(s, from, to)
    ensures Covers(s, addr) <==> from <= addr / PAGE_SIZE < to
  {
  }

  lemma VacantPages(d: Tables, view: View, s: Section, from: nat, to: nat, page: nat)
    requires AllOccupied(d, view) && Apart(view, s) && OnPages(s, from, to) && from <= page < to
    ensures LeafAt(d, page) == UNASSIGNED
  {
    if LeafAt(d, page) != UNASSIGNED {
      assert Occupied(view, page);
      var a :| a in view && page * PAGE_SIZE <= a < (page + 1) * PAGE_SIZE;
      OnPagesCovers(s, from, to, a);
    }
  }

  lemma MappedSections(d: Tables, d': Tables, view: View, s: Section, from: nat, to: nat)
    requires Good(d, view) && Mapped(d, d', s, from, to) && OnPages(s, from, to)
    ensures forall i :: RESERVED_SECTIONS <= i < |d'.sections| ==> SectionOk(d', i)
  {
    forall i | RESERVED_SECTIONS <= i < |d'.sections|
      ensures SectionOk(d', i)
    {
      if i < |d.sections| {
        assert SectionOk(d, i);
      }
      forall a: nat | Covers(d'.sections[i], a)
        ensures LeafAt(d', a / PAGE_SIZE) != UNASSIGNED
      {
        OnPagesCovers(s, from, to, a);
        assert a / PAGE_SIZE < PAGES;
      }
    }
  }

  lemma MappedPages(d: Tables, d': Tables, view: View, s: Section, from: nat, to: nat)
    requires Good(d, view) && Mapped(d, d', s, from, to) && OnPages(s, from, to)
    requires d.subpages <= d'.subpages
    requires s.mr.Device? ||
             (s.mr.Subpage? && to == from + 1 && s.mr.index < |d'.subpages| && d'.subpages[s.mr.index].base == s.offset)
    ensures forall p :: 0 <= p < PAGES ==> PageOk(d', p)
  {
    forall p | 0 <= p < PAGES
      ensures PageOk(d', p)
    {
      assert PageOk(d, p);
    }
  }

  /** Whole pages of a device: lookups in it now find it, and no other lookup changes. */
  lemma MappedDevice(d: Tables, d': Tables, view: View, s: Section, from: nat, to: nat)
    requires Good(d, view) && Mapped(d, d', s, from, to) && OnPages(s, from, to)
    requires s.mr.Device? && d'.subpages == d.subpages
    ensures Good(d', Overlay(view, s))
  {
    hide SectionOk, PageOk, Walk;
    MappedSections(d, d', view, s, from, to);
    MappedPages(d, d', view, s, from, to);
    forall a | 0 <= a < ADDRESSES
      ensures AddrOk(d', Overlay(view, s), a)
    {
      assert AddrOk(d, view, a);
      PageLeaf(d, view, a / PAGE_SIZE);
      OnPagesCovers(s, from, to, a);
    }
  }

  lemma PageLeaf(d: Tables, view: View, page: nat)
    requires Good(d, view) && page < PAGES
    ensures LeafAt(d, page) < |d.sections|
  {
    assert PageOk(d, page);
  }

  /** A new subpage shows nothing yet. */
  lemma MappedContainer(d: Tables, d': Tables, view: View, s: Section, page: nat)
    requires Good(d, view) && Mapped(d, d', s, page, page + 1) && OnPages(s, page, page + 1)
    requires LeafAt(d, page) == UNASSIGNED
    requires s.mr == Subpage(|d.subpages|)
    requires d'.subpages == d.subpages + [SubpageTable(s.offset, seq(PAGE_SIZE, _ => UNASSIGNED))]
    ensures Good(d', view)
  {
    hide SectionOk, PageOk, Walk;
    MappedSections(d, d', view, s, page, page + 1);
    MappedPages(d, d', view, s, page, page + 1);
    forall a | 0 <= a < ADDRESSES
      ensures AddrOk(d', view, a)
    {
      assert AddrOk(d, view, a);
      PageLeaf(d, view, a / PAGE_SIZE);
      OnPagesCovers(s, page, page + 1, a);
    }
  }

  // ---- Registering a section inside one page ----

  ghost predicate InPage(s: Section, page: nat) {
    page < PAGES && page * PAGE_SIZE <= s.offset && 0 < s.size && s.offset + s.size <= (page + 1) * PAGE_SIZE
  }

  /** `d'` is `d` with one more section, entered in subpage `k` at its offsets in the page. */
  ghost predicate Filled(d: Tables, d': Tables, s: Section, k: nat) {
    && k < |d.subpages| == |d'.subpages|
    && d'.nodes == d.nodes && d'.root == d.root
    && d'.sections == d.sections + [s]
    && (forall j :: 0 <= j < |d.subpages| && j != k ==> d'.subpages[j] == d.subpages[j])
    && d'.subpages[k].base == d.subpages[k].base
    && |d'.subpages[k].subSection| == |d.subpages[k].subSection| == PAGE_SIZE
    && forall i :: 0 <= i < PAGE_SIZE ==>
         d'.subpages[k].subSection[i] ==
         if Covers(s, d.subpages[k].base + i) then |d.sections| else d.subpages[k].subSection[i]
  }

  lemma FilledPages(d: Tables, d': Tables, view: View, s: Section, k: nat)
    requires Good(d, view) && Filled(d, d', s, k)
    ensures forall p :: 0 <= p < PAGES ==> PageOk(d', p)
  {
    forall p | 0 <= p < PAGES
      ensures PageOk(d', p)
    {
      assert PageOk(d, p);
    }
  }

  lemma FilledSections(d: Tables, d': Tables, view: View, s: Section, k: nat, page: nat)
    requires Good(d, view) && Filled(d, d', s, k) && InPage(s, page) && LeafAt(d, page) != UNASSIGNED
    ensures forall i :: RESERVED_SECTIONS <= i < |d'.sections| ==> SectionOk(d', i)
  {
    forall i | RESERVED_SECTIONS <= i < |d'.sections|
      ensures SectionOk(d', i)
    {
      if i < |d.sections| {
        assert SectionOk(d, i);
      } else {
        forall a: nat | Covers(s, a)
          ensures a / PAGE_SIZE == page
        {
        }
      }
    }
  }

  /** On a mapped page the range check passes. */
  lemma PageHit(d: Tables, view: View, a: nat)
    requires Good(d, view) && a < ADDRESSES
    ensures FindIndex(d, a) == LeafAt(d, a / PAGE_SIZE) < |d.sections|
  {
    var page := a / PAGE_SIZE;
    assert PageOk(d, page);
    var leaf := LeafAt(d, page);
    if leaf != UNASSIGNED {
      assert Covers(d.sections[leaf], a);
    }
  }

  lemma FilledAddr(d: Tables, d': Tables, view: View, s: Section, k: nat, page: nat, a: nat)
    requires Good(d, view) && Filled(d, d', s, k) && InPage(s, page)
    requires LeafAt(d, page) < |d.sections| && d.sections[LeafAt(d, page)].mr == Subpage(k)
    requires a < ADDRESSES
    ensures AddrOk(d', Overlay(view, s), a)
  {
    assert AddrOk(d, view, a);
    PageHit(d, view, a);
    assert FindIndex(d', a) == FindIndex(d, a);
    var p := a / PAGE_SIZE;
    assert PageOk(d, p) && PageOk(d, page);
    if p == page {
      assert d.subpages[k].base + a % PAGE_SIZE == a;
    }
  }

  lemma FilledSubpage(d: Tables, d': Tables, view: View, s: Section, k: nat, page: nat)
    requires Good(d, view) && Filled(d, d', s, k) && InPage(s, page) && s.mr.Device?
    requires RESERVED_SECTIONS <= LeafAt(d, page) < |d.sections| && d.sections[LeafAt(d, page)].mr == Subpage(k)
    ensures Good(d', Overlay(view, s))
  {
    hide SectionOk, PageOk, AddrOk, Walk;
    FilledPages(d, d', view, s, k);
    FilledSections(d, d', view, s, k, page);
    forall a | 0 <= a < ADDRESSES
      ensures AddrOk(d', Overlay(view, s), a)
    {
      FilledAddr(d, d', view, s, k, page, a);
    }
  }

  /** A page with room for one more piece is unmapped or is a subpage, as registration asserts. */
  lemma RoomInPage(d: Tables, view: View, s: Section, page: nat)
    requires Good(d, view) && Apart(view, s) && InPage(s, page)
    ensures FindIndex(d, page * PAGE_SIZE) == LeafAt(d, page) < |d.sections|
    ensures var leaf := LeafAt(d, page);
            leaf == UNASSIGNED ||
            (leaf >= RESERVED_SECTIONS && d.sections[leaf].mr.Subpage? && d.sections[leaf].mr.index < |d.subpages| &&
             d.subpages[d.sections[leaf].mr.index].base == page * PAGE_SIZE)
  {
    assert PageOk(d, page);
    assert page * PAGE_SIZE / PAGE_SIZE == page;
    PageHit(d, view, page * PAGE_SIZE);
    assert Covers(s, s.offset) && s.offset / PAGE_SIZE == page;
    PageHit(d, view, s.offset);
    assert AddrOk(d, view, s.offset);
  }

  // ---- Every mapped page holds some assigned address ----

  ghost predicate OccupiedBut(d: Tables, view: View, page: nat) {
    forall p :: 0 <= p < PAGES && p != page && LeafAt(d, p) != UNASSIGNED ==> Occupied(view, p)
  }

  /** A page is mapped exactly if some address of it is assigned. */
  lemma OccupiedMapped(d: Tables, view: View, page: nat)
    requires Good(d, view) && AllOccupied(d, view) && page < PAGES
    ensures Occupied(view, page) <==> LeafAt(d, page) != UNASSIGNED
  {
    if Occupied(view, page) {
      var a :| a in view && page * PAGE_SIZE <= a < (page + 1) * PAGE_SIZE;
      assert a / PAGE_SIZE == page && a < ADDRESSES;
      assert AddrOk(d, view, a);
    }
  }

  lemma OccupiedGrows(view: View, s: Section, p: nat)
    requires Occupied(view, p)
    ensures Occupied(Overlay(view, s), p)
  {
    var a :| a in view && p * PAGE_SIZE <= a < (p + 1) * PAGE_SIZE;
    assert a in Overlay(view, s);
  }

  lemma OccupiedDevice(d: Tables, d': Tables, view: View, s: Section, from: nat, to: nat)
    requires AllOccupied(d, view) && Mapped(d, d', s, from, to) && OnPages(s, from, to)
    ensures AllOccupied(d', Overlay(view, s))
  {
    forall p | 0 <= p < PAGES && LeafAt(d', p) != UNASSIGNED
      ensures Occupied(Overlay(view, s), p)
    {
      if from <= p < to {
        assert Covers(s, p * PAGE_SIZE);
        assert p * PAGE_SIZE in Overlay(view, s);
      } else {
        OccupiedGrows(view, s, p);
      }
    }
  }

  lemma OccupiedFilled(d: Tables, d': Tables, view: View, s: Section, k: nat, page: nat)
    requires OccupiedBut(d, view, page) && Filled(d, d', s, k) && InPage(s, page)
    ensures AllOccupied(d', Overlay(view, s))
  {
    forall p | 0 <= p < PAGES && LeafAt(d', p) != UNASSIGNED
      ensures Occupied(Overlay(view, s), p)
    {
      if p == page {
        assert s.offset in Overlay(view, s);
      } else {
        OccupiedGrows(view, s, p);
      }
    }
  }

  // ---- Cutting a section into pieces ----

  /** The part of a section from its byte `n` on. */
  function From(s: Section, n: nat): Section
    requires n <= s.size
  {
    Section(s.mr, s.offset + n, s.size - n, s.regionOffset + n)
  }

  /** A section begins within a page. */
  predicate HeadRagged(s: Section) {
    s.size > 0 && s.offset % PAGE_SIZE != 0
  }

  /** It ends within a page, other than the one that it begins in the middle of. */
  predicate TailRagged(s: Section) {
    && s.size > 0 && (s.offset + s.size) % PAGE_SIZE != 0
    && !(HeadRagged(s) && s.offset / PAGE_SIZE == (s.offset + s.size) / PAGE_SIZE)
  }

  /** It has whole pages. */
  predicate HasPages(s: Section) {
    AlignUp(s.offset, PAGE_SIZE) + PAGE_SIZE <= s.offset + s.size
  }

  /** The pieces that a section is cut into: a ragged head, whole pages, and a ragged tail. */
  function Pieces(s: Section): nat {
    (if HeadRagged(s) then 1 else 0) + (if HasPages(s) then 1 else 0) + (if TailRagged(s) then 1 else 0)
  }

  /** A piece of a page takes a table entry, and another one for the subpage if the page has none yet. */
  ghost function RaggedCost(view: View, page: nat): nat {
    if Occupied(view, page) then 1 else 2
  }

  /** Table entries that a section takes. */
  ghost function Cost(view: View, s: Section): nat {
    (if HeadRagged(s) then RaggedCost(view, s.offset / PAGE_SIZE) else 0) + (if HasPages(s) then 1 else 0) +
    (if TailRagged(s) then RaggedCost(view, (s.offset + s.size) / PAGE_SIZE) else 0)
  }

  lemma OverlayNothing(view: View, s: Section)
    requires s.size == 0
    ensures Overlay(view, s) == view
  {
  }

  lemma AlignUpIs(addr: nat)
    ensures addr <= AlignUp(addr, PAGE_SIZE) < addr + PAGE_SIZE && AlignUp(addr, PAGE_SIZE) % PAGE_SIZE == 0
    ensures addr % PAGE_SIZE == 0 ==> AlignUp(addr, PAGE_SIZE) == addr
    ensures addr % PAGE_SIZE != 0 ==> AlignUp(addr, PAGE_SIZE) == (addr / PAGE_SIZE + 1) * PAGE_SIZE
  {
  }

  /** A section outside a page does not occupy it. */
  lemma OccupiedSame(view: View, s: Section, page: nat)
    requires s.offset + s.size <= page * PAGE_SIZE
    ensures Occupied(Overlay(view, s), page) == Occupied(view, page)
  {
    if Occupied(view, page) {
      OccupiedGrows(view, s, page);
    }
    if a :| a in Overlay(view, s) && page * PAGE_SIZE <= a < (page + 1) * PAGE_SIZE {
      assert a in view;
    }
  }

  lemma CostNothing(view: View, s: Section)
    requires s.size == 0
    ensures Cost(view, s) == 0
  {
    AlignUpIs(s.offset);
  }

  lemma NothingLeft(s: Section)
    requires s.size == 0
    ensures !HeadRagged(s) && !HasPages(s) && !TailRagged(s)
  {
    hide AlignUp;
    AlignUpIs(s.offset);
  }

  lemma OnlyHead(s: Section, k: nat)
    requires k * PAGE_SIZE < s.offset < s.offset + s.size <= (k + 1) * PAGE_SIZE
    ensures HeadRagged(s) && !HasPages(s) && !TailRagged(s)
  {
    hide AlignUp;
    assert s.offset / PAGE_SIZE == k && s.offset % PAGE_SIZE == s.offset - k * PAGE_SIZE;
    AlignUpIs(s.offset);
  }

  lemma AfterHead(s: Section, n: nat, k: nat)
    requires k * PAGE_SIZE < s.offset && s.offset + n == (k + 1) * PAGE_SIZE && 0 < n < s.size
    ensures HeadRagged(s) && !HeadRagged(From(s, n)) && HasPages(From(s, n)) == HasPages(s)
    ensures TailRagged(From(s, n)) == TailRagged(s)
    ensures s.offset + n <= (s.offset + s.size) / PAGE_SIZE * PAGE_SIZE
  {
    hide AlignUp;
    assert s.offset / PAGE_SIZE == k && s.offset % PAGE_SIZE == s.offset - k * PAGE_SIZE;
    AlignUpIs(s.offset);
    AlignUpIs(s.offset + n);
  }

  /** What follows a ragged head: the rest has the same whole pages and the same tail. */
  lemma RestOfHead(s: Section, n: nat)
    requires s.offset % PAGE_SIZE != 0 && s.size > 0 && n == Min(AlignUp(s.offset, PAGE_SIZE) - s.offset, s.size)
    ensures 0 < n <= s.size && (n < s.size ==> (s.offset + n) % PAGE_SIZE == 0)
    ensures HeadRagged(s) && !HeadRagged(From(s, n)) && HasPages(From(s, n)) == HasPages(s)
    ensures TailRagged(From(s, n)) == TailRagged(s)
    ensures TailRagged(s) ==> s.offset + n <= (s.offset + s.size) / PAGE_SIZE * PAGE_SIZE
  {
    hide AlignUp, HeadRagged, HasPages, TailRagged;
    AlignUpIs(s.offset);
    var k := s.offset / PAGE_SIZE;
    if n == s.size {
      OnlyHead(s, k);
      NothingLeft(From(s, n));
    } else {
      AfterHead(s, n, k);
    }
  }

  /** What follows whole pages: a tail, or nothing. */
  lemma RestOfPages(s: Section, n: nat)
    requires s.offset % PAGE_SIZE == 0 && s.size >= PAGE_SIZE && n == s.size - s.size % PAGE_SIZE
    ensures 0 < n <= s.size && n % PAGE_SIZE == 0 && (s.offset + n) % PAGE_SIZE == 0
    ensures !HeadRagged(s) && HasPages(s) && !HeadRagged(From(s, n)) && !HasPages(From(s, n))
    ensures TailRagged(From(s, n)) == TailRagged(s)
    ensures TailRagged(s) ==> s.offset + n <= (s.offset + s.size) / PAGE_SIZE * PAGE_SIZE
  {
    hide AlignUp, HeadRagged, HasPages, TailRagged;
    var k, m := s.offset / PAGE_SIZE, s.size / PAGE_SIZE;
    assert s.offset == k * PAGE_SIZE && n == m * PAGE_SIZE;
    AfterPages(s, n, k, m);
  }

  lemma AfterPages(s: Section, n: nat, k: nat, m: nat)
    requires s.offset == k * PAGE_SIZE && n == m * PAGE_SIZE <= s.size < n + PAGE_SIZE && m > 0
    ensures !HeadRagged(s) && HasPages(s) && !HeadRagged(From(s, n)) && !HasPages(From(s, n))
    ensures TailRagged(From(s, n)) == TailRagged(s)
    ensures s.offset + n <= (s.offset + s.size) / PAGE_SIZE * PAGE_SIZE
  {
    hide AlignUp;
    DivUnique(s.offset + s.size, PAGE_SIZE, k + m);
    AlignUpIs(s.offset);
    AlignUpIs(s.offset + n);
  }

  /** A section that begins with a page and does not reach its end has a tail only. */
  lemma OnlyTail(s: Section)
    requires s.offset % PAGE_SIZE == 0 && 0 < s.size < PAGE_SIZE
    ensures !HeadRagged(s) && !HasPages(s) && TailRagged(s) && (s.offset + s.size) / PAGE_SIZE == s.offset / PAGE_SIZE
  {
    AlignUpIs(s.offset);
    hide AlignUp;
  }

  lemma PieceInPage(s: Section, n: nat)
    requires 0 < n <= s.size && s.offset + s.size <= ADDRESSES && s.offset % PAGE_SIZE + n <= PAGE_SIZE
    ensures InPage(s.(size := n), s.offset / PAGE_SIZE)
  {
  }

  lemma CostHead(view: View, s: Section, n: nat)
    requires s.offset % PAGE_SIZE != 0 && s.size > 0 && s.offset + s.size <= ADDRESSES
    requires n == Min(AlignUp(s.offset, PAGE_SIZE) - s.offset, s.size)
    ensures Cost(view, s) == RaggedCost(view, s.offset / PAGE_SIZE) + Cost(Overlay(view, s.(size := n)), From(s, n))
    ensures 0 < n <= s.size && InPage(s.(size := n), s.offset / PAGE_SIZE)
    ensures n < s.size ==> (s.offset + n) % PAGE_SIZE == 0
  {
    hide Overlay, Occupied, HeadRagged, TailRagged, HasPages, InPage, AlignUp, RaggedCost;
    HeadInPage(s, n);
    RestOfHead(s, n);
    SamePageCost(view, s, n);
  }

  lemma SamePageCost(view: View, s: Section, n: nat)
    requires n <= s.size && (TailRagged(s) ==> s.offset + n <= (s.offset + s.size) / PAGE_SIZE * PAGE_SIZE)
    ensures TailRagged(s) ==>
              RaggedCost(Overlay(view, s.(size := n)), (s.offset + s.size) / PAGE_SIZE) ==
              RaggedCost(view, (s.offset + s.size) / PAGE_SIZE)
  {
    hide Overlay, Occupied, TailRagged;
    if TailRagged(s) {
      OccupiedSame(view, s.(size := n), (s.offset + s.size) / PAGE_SIZE);
    }
  }

  lemma HeadInPage(s: Section, n: nat)
    requires s.offset % PAGE_SIZE != 0 && s.size > 0 && s.offset + s.size <= ADDRESSES
    requires n == Min(AlignUp(s.offset, PAGE_SIZE) - s.offset, s.size)
    ensures 0 < n <= s.size && InPage(s.(size := n), s.offset / PAGE_SIZE)
  {
    hide AlignUp, InPage;
    AlignUpIs(s.offset);
    PieceInPage(s, n);
  }

  lemma CostAligned(view: View, s: Section, n: nat)
    requires s.offset % PAGE_SIZE == 0 && s.size > 0 && s.offset + s.size <= ADDRESSES
    requires n == if s.size < PAGE_SIZE then s.size else s.size - s.size % PAGE_SIZE
    ensures Cost(view, s) == (if s.size < PAGE_SIZE then RaggedCost(view, s.offset / PAGE_SIZE) else 1) +
                             Cost(Overlay(view, s.(size := n)), From(s, n))
    ensures s.size < PAGE_SIZE ==> InPage(s, s.offset / PAGE_SIZE)
    ensures 0 < n <= s.size
    ensures s.size >= PAGE_SIZE ==> n % PAGE_SIZE == 0 && (s.offset + n) % PAGE_SIZE == 0
  {
    hide Overlay, Occupied, HeadRagged, TailRagged, HasPages, InPage, AlignUp;
    if s.size < PAGE_SIZE {
      OnlyTail(s);
      PieceInPage(s, s.size);
      CostNothing(Overlay(view, s.(size := n)), From(s, n));
    } else {
      RestOfPages(s, n);
      SamePageCost(view, s, n);
    }
  }

  /** A piece that follows a prefix of the section extends the prefix. */
  lemma OverlayJoin(view: View, s: Section, n: nat, piece: Section)
    requires n + piece.size <= s.size && piece == From(s, n).(size := piece.size)
    requires Apart(view, s)
    ensures Overlay(Overlay(view, s.(size := n)), piece) == Overlay(view, s.(size := n + piece.size))
    ensures Apart(Overlay(view, s.(size := n)), piece)
  {
    var head, both := s.(size := n), s.(size := n + piece.size);
    var x, y := Overlay(Overlay(view, head), piece), Overlay(view, both);
    forall a: nat
      ensures a in x <==> a in y
      ensures a in x ==> x[a] == y[a]
    {
      assert Covers(both, a) <==> Covers(head, a) || Covers(piece, a);
      assert Covers(piece, a) ==> Covers(s, a);
    }
    assert x == y;
  }

  lemma ApartPiece(view: View, s: Section, n: nat)
    requires Apart(view, s) && n <= s.size
    ensures Apart(view, s.(size := n))
  {
  }

  // ---- The whole run ----

  ghost function ViewOf(list: seq<Section>): View {
    if list == [] then imap[] else Overlay(ViewOf(list[..|list| - 1]), list[|list| - 1])
  }

  ghost predicate Disjoint(list: seq<Section>) {
    forall i, j, a: nat :: 0 <= i < j < |list| && Covers(list[i], a) ==> !Covers(list[j], a)
  }

  /** With disjoint sections, every address belongs to the section that covers it and to no other. */
  lemma {:induction false} ViewOfDisjoint(list: seq<Section>, addr: nat)
    requires Disjoint(list)
    ensures addr in ViewOf(list) <==> exists i :: 0 <= i < |list| && Covers(list[i], addr)
    ensures forall i :: 0 <= i < |list| && Covers(list[i], addr) ==> ViewOf(list)[addr] == TargetIn(list[i], addr)
  {
    if list != [] {
      var n := |list| - 1;
      ViewOfDisjoint(list[..n], addr);
      assert forall i :: 0 <= i < n ==> list[..n][i] == list[i];
    }
  }

  lemma ApartFromEarlier(list: seq<Section>, i: nat)
    requires Disjoint(list) && i < |list|
    ensures Apart(ViewOf(list[..i]), list[i])
  {
    forall a: nat | Covers(list[i], a)
      ensures a !in ViewOf(list[..i])
    {
      ViewOfDisjoint(list[..i], a);
    }
  }

  // ---- How many table entries a list of sections takes ----

  function Only(b: bool, p: nat): set<nat> {
    if b then {p} else {}
  }

  /** The pages that a section covers in part. */
  function RaggedOf(s: Section): set<nat> {
    Only(HeadRagged(s), s.offset / PAGE_SIZE) + Only(TailRagged(s), (s.offset + s.size) / PAGE_SIZE)
  }

  function RaggedPages(list: seq<Section>): set<nat> {
    if list == [] then {} else RaggedPages(list[..|list| - 1]) + RaggedOf(list[|list| - 1])
  }

  function AllPieces(list: seq<Section>): nat {
    if list == [] then 0 else AllPieces(list[..|list| - 1]) + Pieces(list[|list| - 1])
  }

  /** One entry for each piece, and one for each page that is covered in part. */
  function TotalCost(list: seq<Section>): nat {
    AllPieces(list) + |RaggedPages(list)|
  }

  /** A section covers some of a page that it covers in part. */
  lemma RaggedSome(s: Section, p: nat) returns (a: nat)
    requires Section64(s) && p in RaggedOf(s)
    ensures Covers(s, a) && p * PAGE_SIZE <= a < (p + 1) * PAGE_SIZE
  {
    a := if HeadRagged(s) && p == s.offset / PAGE_SIZE then s.offset else s.offset + s.size - 1;
  }

  /** Of any other page it covers all or nothing. */
  lemma RaggedOrAll(s: Section, p: nat, a: nat, b: nat)
    requires Section64(s) && p !in RaggedOf(s) && Covers(s, a)
    requires p * PAGE_SIZE <= a < (p + 1) * PAGE_SIZE && p * PAGE_SIZE <= b < (p + 1) * PAGE_SIZE
    ensures Covers(s, b)
  {
  }

  lemma {:induction false} RaggedIn(list: seq<Section>, p: nat)
    ensures p in RaggedPages(list) <==> exists i :: 0 <= i < |list| && p in RaggedOf(list[i])
  {
    hide RaggedOf;
    if list != [] {
      var init := list[..|list| - 1];
      RaggedIn(init, p);
      assert forall i :: 0 <= i < |init| ==> list[i] == init[i];
    }
  }

  /** A page that a section covers in part is occupied by earlier ones exactly if one of them covers it in part. */
  lemma RaggedOccupied(list: seq<Section>, n: nat, p: nat)
    requires Disjoint(list) && forall i :: 0 <= i < |list| ==> Section64(list[i])
    requires n < |list| && p in RaggedOf(list[n])
    ensures Occupied(ViewOf(list[..n]), p) <==> p in RaggedPages(list[..n])
  {
    hide RaggedOf, Covers, RaggedPages, ViewOf;
    var init, s := list[..n], list[n];
    RaggedIn(init, p);
    var b := RaggedSome(s, p);
    if p in RaggedPages(init) {
      var i :| 0 <= i < |init| && p in RaggedOf(init[i]);
      var a := RaggedSome(init[i], p);
      ViewOfDisjoint(init, a);
    }
    if a :| a in ViewOf(init) && p * PAGE_SIZE <= a < (p + 1) * PAGE_SIZE {
      ViewOfDisjoint(init, a);
      var i :| 0 <= i < |init| && Covers(init[i], a);
      if p !in RaggedOf(init[i]) {
        RaggedOrAll(init[i], p, a, b);
      }
    }
  }

  lemma OnlyIn(b: bool, p: nat, q: nat)
    ensures q in Only(b, p) <==> b && q == p
  {
  }

  lemma CardOnly(pages: set<nat>, b: bool, p: nat)
    ensures |pages + Only(b, p)| == |pages| + if b && p !in pages then 1 else 0
  {
    if b && p in pages {
      assert pages + {p} == pages;
    } else if !b {
      assert pages + {} == pages;
    }
  }

  /** What each section takes adds up to the total. */
  lemma CostAdds(list: seq<Section>, n: nat)
    requires Disjoint(list) && (forall i :: 0 <= i < |list| ==> Section64(list[i])) && n < |list|
    ensures TotalCost(list[..n + 1]) == TotalCost(list[..n]) + Cost(ViewOf(list[..n]), list[n])
  {
    hide Occupied, HasPages, HeadRagged, TailRagged, RaggedOf, ViewOf, Covers;
    var init, s := list[..n], list[n];
    assert list[..n + 1][..n] == init && list[..n + 1][n] == s;
    RaggedCard(RaggedPages(init), s);
    if HeadRagged(s) {
      RaggedOccupied(list, n, s.offset / PAGE_SIZE);
    }
    if TailRagged(s) {
      RaggedOccupied(list, n, (s.offset + s.size) / PAGE_SIZE);
    }
  }

  lemma RaggedCard(pages: set<nat>, s: Section)
    ensures var head, tail := s.offset / PAGE_SIZE, (s.offset + s.size) / PAGE_SIZE;
            && (HeadRagged(s) ==> head in RaggedOf(s)) && (TailRagged(s) ==> tail in RaggedOf(s))
            && |pages + RaggedOf(s)| == |pages| + (if HeadRagged(s) && head !in pages then 1 else 0)
                                                + (if TailRagged(s) && tail !in pages then 1 else 0)
  {
    HeadBeforeTail(s);
    hide HeadRagged, TailRagged, Only;
    var head, tail := s.offset / PAGE_SIZE, (s.offset + s.size) / PAGE_SIZE;
    var h, t := Only(HeadRagged(s), head), Only(TailRagged(s), tail);
    OnlyIn(HeadRagged(s), head, head);
    OnlyIn(HeadRagged(s), head, tail);
    OnlyIn(TailRagged(s), tail, tail);
    CardOnly(pages, HeadRagged(s), head);
    CardOnly(pages + h, TailRagged(s), tail);
    assert pages + (h + t) == pages + h + t;
  }

  lemma HeadBeforeTail(s: Section)
    ensures HeadRagged(s) && TailRagged(s) ==> s.offset / PAGE_SIZE != (s.offset + s.size) / PAGE_SIZE
  {
  }

  lemma CostNone()
    ensures TotalCost([]) == 0
  {
  }

  lemma {:induction false} CostGrows(list: seq<Section>, n: nat)
    requires Disjoint(list) && (forall i :: 0 <= i < |list| ==> Section64(list[i])) && n <= |list|
    ensures TotalCost(list[..n]) <= TotalCost(list)
    decreases |list| - n
  {
    hide TotalCost, Cost;
    if n < |list| {
      CostAdds(list, n);
      CostGrows(list, n + 1);
    } else {
      assert list[..n] == list;
    }
  }

  class AddressSpaceDispatch {
    const physMap: PhysPageMap
    var sections: seq<Section>
    var subpages: seq<SubpageTable>
    ghost var view: View

    ghost function State(): Tables
      reads this, physMap
    {
      Tables(physMap.root, physMap.nodes, sections, subpages)
    }

    ghost predicate TreeValid()
      reads this, physMap
    {
      && physMap.leaves == |sections| <= PAGE_SIZE
      && TreeOk(physMap.nodes, physMap.labels, physMap.root, physMap.leaves)
      && |physMap.nodes| <= (2 * L2_LEVELS - 1) * |sections|
    }

    /** The tables between mem_begin and mem_commit. */
    ghost predicate Valid()
      reads this, physMap
    {
      TreeValid() && Good(State(), view) && AllOccupied(State(), view)
    }

    /** mem_begin */
    constructor ()
      ensures Valid() && fresh(physMap)
      ensures view == imap[] && |sections| == RESERVED_SECTIONS
    {
      physMap := new PhysPageMap();
      sections := [Section(Unassigned, 0, ADDRESSES, 0), Section(NotDirty, 0, ADDRESSES, 0),
                   Section(Rom, 0, ADDRESSES, 0), Section(Watch, 0, ADDRESSES, 0)];
      subpages := [];
      view := imap[];
      new;
      assert forall p: nat :: LeafAt(State(), p) == UNASSIGNED;
    }

    method SectionAdd(s: Section) returns (index: nat)
      requires TreeValid() && |sections| < PAGE_SIZE
      modifies this`sections, physMap`leaves
      ensures TreeValid()
      ensures index == |old(sections)| && sections == old(sections) + [s]
    {
      index := |sections|;
      sections := sections + [s];
      MoreLeaves(physMap.nodes, physMap.labels, physMap.root, physMap.leaves, |sections|);
      physMap.leaves := |sections|;
    }

    /** Adds a section and maps it on whole pages. */
    method MapPages(s: Section, from: nat, to: nat)
      requires TreeValid() && |sections| < PAGE_SIZE && |sections| >= RESERVED_SECTIONS
      requires from < to <= PAGES
      requires forall p :: from <= p < to ==> LeafAt(State(), p) == UNASSIGNED
      modifies this`sections, physMap
      ensures TreeValid()
      ensures Mapped(old(State()), State(), s, from, to)
    {
      hide TreeOk, Walk;
      var index := SectionAdd(s);
      SpanTop();
      forall p | from <= p < to
        ensures Walk(physMap.nodes, physMap.root, L2_LEVELS, p) == UNASSIGNED
      {
        assert LeafAt(old(State()), p) == UNASSIGNED;
      }
      physMap.PageSet(from, to - from, index);
    }

    method RegisterMultipage(s: Section)
      requires Valid() && |sections| < PAGE_SIZE
      requires s.mr.Device? && s.offset % PAGE_SIZE == 0 && s.size % PAGE_SIZE == 0
      requires 0 < s.size && s.offset + s.size <= ADDRESSES
      requires Apart(view, s)
      modifies this, physMap
      ensures Valid()
      ensures view == Overlay(old(view), s) && |sections| == |old(sections)| + 1
    {
      hide TreeOk, Walk;
      var from, to := s.offset / PAGE_SIZE, (s.offset + s.size) / PAGE_SIZE;
      ghost var d := State();
      forall p | from <= p < to
        ensures LeafAt(d, p) == UNASSIGNED
      {
        VacantPages(d, view, s, from, to, p);
      }
      MapPages(s, from, to);
      MappedDevice(d, State(), view, s, from, to);
      OccupiedDevice(d, State(), view, s, from, to);
      view := Overlay(view, s);
    }

    /** The subpage for a page that holds none yet, or the one that it has. */
    method EnsureSubpage(ghost s: Section, page: nat) returns (k: nat)
      requires Valid() && (Occupied(view, page) || |sections| < PAGE_SIZE)
      requires Apart(view, s) && InPage(s, page)
      modifies this`sections, this`subpages, physMap
      ensures TreeValid() && Good(State(), view) && OccupiedBut(State(), view, page)
      ensures |sections| == |old(sections)| + if Occupied(view, page) then 0 else 1
      ensures k < |subpages| && RESERVED_SECTIONS <= LeafAt(State(), page) < |sections|
      ensures sections[LeafAt(State(), page)].mr == Subpage(k) && subpages[k].base == page * PAGE_SIZE
    {
      hide NodesOk, EntryOk, Walk;
      ghost var d := State();
      RoomInPage(d, view, s, page);
      OccupiedMapped(d, view, page);
      var existing := PhysPageFind(page * PAGE_SIZE);
      if sections[existing].mr.Subpage? {
        k := sections[existing].mr.index;
      } else {
        k := |subpages|;
        var container := Section(Subpage(k), page * PAGE_SIZE, PAGE_SIZE, 0);
        subpages := subpages + [SubpageTable(page * PAGE_SIZE, seq(PAGE_SIZE, _ => UNASSIGNED))];
        MapPages(container, page, page + 1);
        MappedContainer(d, State(), view, container, page);
      }
    }

    /** Enters a section in a subpage. */
    method SubpageRegister(k: nat, start: nat, end: nat, section: nat)
      requires k < |subpages| && |subpages[k].subSection| == PAGE_SIZE && start <= end < PAGE_SIZE
      modifies this`subpages
      ensures |subpages| == |old(subpages)|
      ensures forall j :: 0 <= j < |subpages| && j != k ==> subpages[j] == old(subpages)[j]
      ensures subpages[k].base == old(subpages)[k].base && |subpages[k].subSection| == PAGE_SIZE
      ensures forall i :: 0 <= i < PAGE_SIZE ==>
                subpages[k].subSection[i] == if start <= i <= end then section else old(subpages)[k].subSection[i]
    {
      var idx := start;
      while idx <= end
        invariant start <= idx <= end + 1
        invariant |subpages| == |old(subpages)|
        invariant forall j :: 0 <= j < |subpages| && j != k ==> subpages[j] == old(subpages)[j]
        invariant subpages[k].base == old(subpages)[k].base && |subpages[k].subSection| == PAGE_SIZE
        invariant forall i :: 0 <= i < PAGE_SIZE ==>
                    subpages[k].subSection[i] == if start <= i < idx then section else old(subpages)[k].subSection[i]
      {
        subpages := subpages[k := subpages[k].(subSection := subpages[k].subSection[idx := section])];
        idx := idx + 1;
      }
    }

    method RegisterSubpage(s: Section)
      requires Valid() && |sections| + RaggedCost(view, s.offset / PAGE_SIZE) <= PAGE_SIZE
      requires s.mr.Device? && InPage(s, s.offset / PAGE_SIZE)
      requires Apart(view, s)
      modifies this, physMap
      ensures Valid()
      ensures view == Overlay(old(view), s)
      ensures |sections| == |old(sections)| + RaggedCost(old(view), s.offset / PAGE_SIZE)
    {
      hide TreeOk, Walk;
      var page := s.offset / PAGE_SIZE;
      var k := EnsureSubpage(s, page);
      ghost var d := State();
      var start := s.offset % PAGE_SIZE;
      var end := start + s.size - 1;
      var index := SectionAdd(s);
      SubpageRegister(k, start, end, index);
      FilledSubpage(d, State(), view, s, k, page);
      OccupiedFilled(d, State(), view, s, k, page);
      view := Overlay(view, s);
    }

    /** phys_page_find: the leaf of the page, if its section covers the address. */
    method PhysPageFind(addr: nat) returns (index: nat)
      requires NodesOk(physMap.nodes, physMap.labels, |sections|)
      requires EntryOk(physMap.labels, physMap.root, L2_LEVELS, 0, |sections|)
      requires physMap.leaves == |sections| && |sections| >= RESERVED_SECTIONS
      ensures index == FindIndex(State(), addr) < |sections|
    {
      hide NodesOk, EntryOk, Walk;
      var leaf := physMap.PageFind(addr / PAGE_SIZE);
      index := if Hit(sections[leaf], addr) then leaf else UNASSIGNED;
    }

    /** One round of mem_add's loop: the whole pages of what is left, or the tail. It begins a page, so a ragged
        piece of the size of a page never occurs here. */
    method RegisterAligned(remain: Section) returns (now: Section)
      requires Valid() && remain.mr.Device? && remain.offset % PAGE_SIZE == 0
      requires 0 < remain.size && remain.offset + remain.size <= ADDRESSES && Apart(view, remain)
      requires |sections| + Cost(view, remain) <= PAGE_SIZE
      modifies this, physMap
      ensures Valid() && 0 < now.size <= remain.size && now == remain.(size := now.size)
      ensures (remain.offset + now.size) % PAGE_SIZE == 0 || now.size == remain.size
      ensures view == Overlay(old(view), now)
      ensures |sections| + Cost(view, From(remain, now.size)) == |old(sections)| + Cost(old(view), remain)
    {
      hide TreeOk, Walk, Good, AllOccupied, Overlay, Apart, Cost, RaggedCost, AlignUp, InPage, Valid;
      now := remain;
      if remain.size >= PAGE_SIZE {
        now := now.(size := now.size - now.size % PAGE_SIZE);
      }
      CostAligned(view, remain, now.size);
      ApartPiece(view, remain, now.size);
      if remain.size < PAGE_SIZE {
        RegisterSubpage(now);
      } else {
        RegisterMultipage(now);
      }
    }

    /** mem_add: a head up to the first page boundary, the whole pages, and a tail. */
    method MemAdd(section: Section)
      requires Valid()
      requires section.mr.Device? && 0 < section.size && section.offset + section.size <= ADDRESSES
      requires Apart(view, section)
      requires |sections| + Cost(view, section) <= PAGE_SIZE
      modifies this, physMap
      ensures Valid()
      ensures view == Overlay(old(view), section)
      ensures |sections| == |old(sections)| + Cost(old(view), section)
    {
      hide TreeOk, Walk, Good, AllOccupied, Overlay, Apart, Cost, RaggedCost, AlignUp, InPage, Valid;
      var now, remain := section, section;
      ghost var done: nat := 0;
      OverlayNothing(view, section.(size := 0));
      if now.offset % PAGE_SIZE != 0 {
        AlignUpIs(now.offset);
        var left := AlignUp(now.offset, PAGE_SIZE) - now.offset;
        now := now.(size := Min(left, now.size));
        CostHead(view, section, now.size);
        OverlayJoin(view, section, 0, now);
        RegisterSubpage(now);
      } else {
        now := now.(size := 0);
      }
      while remain.size != now.size
        invariant Valid()
        invariant done + now.size <= section.size && remain == From(section, done)
        invariant view == Overlay(old(view), section.(size := done + now.size))
        invariant (remain.offset + now.size) % PAGE_SIZE == 0 || now.size == remain.size
        invariant |sections| + Cost(view, From(section, done + now.size)) == |old(sections)| + Cost(old(view), section)
        decreases remain.size - now.size
      {
        done := done + now.size;
        remain := Section(remain.mr, remain.offset + now.size, remain.size - now.size, remain.regionOffset + now.size);
        OverlayJoin(old(view), section, done, remain);
        now := RegisterAligned(remain);
        OverlayJoin(old(view), section, done, now);
      }
      CostNothing(view, From(section, done + now.size));
    }

    /** The tables once committed: every 64-bit address resolves as the view says. */
    ghost predicate Committed()
      reads this, physMap
    {
      && |sections| >= RESERVED_SECTIONS && physMap.leaves == |sections|
      && NodesOk(physMap.nodes, physMap.labels, |sections|)
      && EntryOk(physMap.labels, physMap.root, L2_LEVELS, 0, |sections|)
      && ShapeOk(State())
      && forall a :: 0 <= a < ADDRESSES ==> AddrOk(State(), view, a)
    }

    /** mem_commit: the tree is compacted, and no lookup changes. */
    method MemCommit()
      requires Valid()
      modifies physMap
      ensures Committed()
      ensures forall a :: 0 <= a < ADDRESSES ==> FindIndex(State(), a) == FindIndex(old(State()), a)
      ensures forall a :: 0 <= a < ADDRESSES ==> LookupIndex(State(), a) == LookupIndex(old(State()), a)
    {
      hide NodesOk, EntryOk, Walk, SectionOk, PageOk;
      ghost var d := State();
      physMap.CompactAll();
      SpanTop();
      forall a | 0 <= a < ADDRESSES
        ensures FindIndex(State(), a) == FindIndex(d, a) && LookupIndex(State(), a) == LookupIndex(d, a)
        ensures AddrOk(State(), view, a)
      {
        assert AddrOk(d, view, a);
        WalkLeaf(physMap.nodes, physMap.labels, physMap.root, L2_LEVELS, 0, |sections|, a / PAGE_SIZE);
        CompactedLookup(d, State(), view, a);
      }
    }

    /** address_space_translate_internal with subpages resolved: the section, the offset in its region, and how much
        of `plen` lies there. The length is measured from where the section begins, not from where its part of the
        region does, so it can pass the region's end. */
    method Translate(addr: nat, plen: nat, mrSize: Region -> int) returns (index: nat, xlat: int, len: int)
      requires Committed() && addr < ADDRESSES
      ensures index < |sections|
      ensures if addr in view then sections[index].mr == view[addr].mr && xlat == view[addr].xlat
              else index == UNASSIGNED && xlat == addr
      ensures len <= plen && len <= mrSize(sections[index].mr) - (addr - sections[index].offset)
      ensures len == plen || len == mrSize(sections[index].mr) - (addr - sections[index].offset)
      ensures sections[index].regionOffset >= 0 ==>
                (xlat + len <= mrSize(sections[index].mr) <==>
                 sections[index].regionOffset == 0 || xlat + plen <= mrSize(sections[index].mr))
    {
      hide NodesOk, EntryOk, Walk;
      assert AddrOk(State(), view, addr);
      index := PhysPageFind(addr);
      if sections[index].mr.Subpage? {
        index := subpages[sections[index].mr.index].subSection[addr % PAGE_SIZE];
      }
      var past := addr - sections[index].offset;
      xlat := past + sections[index].regionOffset;
      var diff := mrSize(sections[index].mr) - past;
      len := if diff < plen then diff else plen;
    }
  }

  ghost predicate Section64(s: Section) {
    s.mr.Device? && 0 < s.size && s.offset + s.size <= ADDRESSES
  }

  /** An address resolves to the section that contains it, at the same offset in the region, and to the
      unassigned section exactly if none contains it. */
  ghost predicate Resolves(d: Tables, list: seq<Section>, addr: nat) {
    var s := LookupIndex(d, addr);
    && s < |d.sections|
    && (forall i :: 0 <= i < |list| && Covers(list[i], addr) ==>
          && s != UNASSIGNED && Covers(d.sections[s], addr) && d.sections[s].mr == list[i].mr
          && d.sections[s].regionOffset + (addr - d.sections[s].offset) ==
             list[i].regionOffset + (addr - list[i].offset))
    && ((forall i :: 0 <= i < |list| ==> !Covers(list[i], addr)) ==> s == UNASSIGNED)
  }

  lemma AddrResolves(d: Tables, list: seq<Section>, addr: nat)
    requires Disjoint(list) && AddrOk(d, ViewOf(list), addr) && |d.sections| > 0
    ensures Resolves(d, list, addr)
  {
    ViewOfDisjoint(list, addr);
  }

  /** Between mem_begin and mem_commit, any disjoint sections. Afterwards every 64-bit address resolves to the
      section that contains it, at the same offset in the region, and to the unassigned section if none does. */
  method BuildDispatch(list: seq<Section>) returns (d: AddressSpaceDispatch)
    requires Disjoint(list) && forall i :: 0 <= i < |list| ==> Section64(list[i])
    requires RESERVED_SECTIONS + TotalCost(list) <= PAGE_SIZE
    ensures d.Committed() && d.view == ViewOf(list) && |d.sections| == RESERVED_SECTIONS + TotalCost(list)
    ensures forall a :: 0 <= a < ADDRESSES ==> Resolves(d.State(), list, a)
  {
    hide TreeOk, NodesOk, EntryOk, Walk, Good, AllOccupied, Overlay, Cost, TotalCost, LookupIndex;
    CostNone();
    assert list[..0] == [];
    d := new AddressSpaceDispatch();
    var i := 0;
    while i < |list|
      invariant 0 <= i <= |list| && d.Valid() && fresh(d) && fresh(d.physMap)
      invariant d.view == ViewOf(list[..i])
      invariant |d.sections| == RESERVED_SECTIONS + TotalCost(list[..i])
    {
      ApartFromEarlier(list, i);
      CostAdds(list, i);
      CostGrows(list, i + 1);
      d.MemAdd(list[i]);
      assert list[..i + 1][..i] == list[..i];
      i := i + 1;
    }
    assert list[..i] == list;
    d.MemCommit();
    forall a | 0 <= a < ADDRESSES
      ensures Resolves(d.State(), list, a)
    {
      AddrResolves(d.State(), list, a);
    }
  }

  /** An access to an address space that is built from these sections: it goes to the region of the section that the
      address is in, at the section's offset in the region plus the distance from the section's start, or else to the
      unassigned region. */
  method TranslateIn(list: seq<Section>, addr: nat, plen: nat, mrSize: Region -> int)
    returns (mr: Region, xlat: int, len: int)
    requires Disjoint(list) && forall i :: 0 <= i < |list| ==> Section64(list[i])
    requires RESERVED_SECTIONS + TotalCost(list) <= PAGE_SIZE && addr < ADDRESSES
    ensures forall i :: 0 <= i < |list| && list[i].offset <= addr < list[i].offset + list[i].size ==>
              mr == list[i].mr && xlat == list[i].regionOffset + (addr - list[i].offset)
    ensures (forall i :: 0 <= i < |list| ==> !(list[i].offset <= addr < list[i].offset + list[i].size)) ==>
              mr == Unassigned && xlat == addr
    ensures len <= plen
  {
    var d := BuildDispatch(list);
    ViewOfDisjoint(list, addr);
    var index;
    index, xlat, len := d.Translate(addr, plen, mrSize);
    mr := d.sections[index].mr;
  }
}
