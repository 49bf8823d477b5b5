/** The software TLB (cputlb.c). It holds entries for small pages only; the area covered by large pages is
    remembered as one merged region, and flushing any address in it flushes everything. */
module SoftTlb {

  type Word = bv64

  const PAGE_SIZE: Word := 0x1000
  const PAGE_MASK: Word := !0xfff
  const TLB_INVALID_MASK: Word := 0x8
  const ALL_ONES: Word := !0

  const NB_MMU_MODES := 4
  const CPU_TLB_SIZE := 256

  datatype Entry = Entry(addrRead: Word, addrWrite: Word, addrCode: Word)

  const EMPTY_ENTRY := Entry(ALL_ONES, ALL_ONES, ALL_ONES)

  function Index(addr: Word): (i: nat)
    ensures i < CPU_TLB_SIZE
  {
    ((addr >> 12) & 0xff) as nat
  }

  function PageOf(addr: Word): Word {
    addr & PAGE_MASK
  }

  /** The comparison that a memory access makes with a field of an entry. */
  predicate Hit(field: Word, addr: Word) {
    field & (PAGE_MASK | TLB_INVALID_MASK) == PageOf(addr)
  }

  predicate Translates(e: Entry, addr: Word) {
    Hit(e.addrRead, addr) || Hit(e.addrWrite, addr) || Hit(e.addrCode, addr)
  }

  // ---- Masks ----

  function Both(m: Word, n: Word): Word { m & n }

  function Wider(m: Word): Word { m << 1 }

  predicate Differ(a: Word, b: Word, m: Word) { (a ^ b) & m != 0 }

  predicate Agree(a: Word, b: Word, m: Word) { a & m == b & m }

  predicate Coarser(m: Word, n: Word) { m & n == m }

  /** A mask of the form 11..100..0 */
  predicate Prefix(m: Word) {
    (m << 1) & m == m << 1
  }

  predicate PowerOfTwo(size: Word) {
    size != 0 && size & (size - 1) == 0
  }

  function MaskOf(size: Word): Word {
    !(size - 1)
  }

  /** The page of the given size at `vaddr` contains `a`. */
  predicate InPage(a: Word, vaddr: Word, size: Word) {
    Agree(a, vaddr, MaskOf(size))
  }

  lemma MaskPrefix(size: Word)
    requires PowerOfTwo(size)
    ensures Prefix(MaskOf(size))
  {
  }

  lemma AndPrefix(m: Word, n: Word)
    requires Prefix(m) && Prefix(n)
    ensures Prefix(Both(m, n)) && Coarser(Both(m, n), m) && Coarser(Both(m, n), n)
  {
  }

  lemma ShiftPrefix(m: Word)
    requires Prefix(m)
    ensures Prefix(Wider(m)) && (m != 0 ==> Wider(m) < m)
  {
  }

  lemma ShiftCoarser(m: Word, n: Word)
    requires Prefix(m) && Coarser(m, n)
    ensures Coarser(Wider(m), n)
  {
  }

  lemma XorDistributes(a: Word, b: Word, m: Word)
    ensures (a ^ b) & m == (a & m) ^ (b & m)
  {
  }

  lemma XorEqual(x: Word, y: Word)
    ensures x ^ y == 0 <==> x == y
  {
  }

  lemma XorZero(a: Word, b: Word, m: Word)
    ensures (a ^ b) & m == 0 <==> a & m == b & m
  {
    XorDistributes(a, b, m);
    XorEqual(a & m, b & m);
  }

  lemma CoarserAgrees(a: Word, b: Word, coarse: Word, fine: Word)
    requires Coarser(coarse, fine) && Agree(a, b, fine)
    ensures Agree(a, b, coarse)
  {
  }

  lemma CoarserTrans(a: Word, b: Word, c: Word)
    requires Coarser(a, b) && Coarser(b, c)
    ensures Coarser(a, c)
  {
  }

  lemma BothTwice(a: Word, fine: Word, coarse: Word)
    requires Coarser(coarse, fine)
    ensures Both(Both(a, fine), coarse) == Both(a, coarse)
  {
  }

  lemma AgreeIs(a: Word, b: Word, m: Word)
    ensures Agree(a, b, m) <==> Both(a, m) == Both(b, m)
  {
  }

  lemma CoarserSelf(m: Word)
    ensures Coarser(m, m)
  {
  }

  lemma NoHitEmpty(addr: Word)
    ensures !Translates(EMPTY_ENTRY, addr)
  {
  }

  // ---- Large pages ----

  datatype Page = Page(vaddr: Word, size: Word)

  /** The merged region contains the whole page. */
  ghost predicate RegionCovers(flushAddr: Word, flushMask: Word, p: Page) {
    Coarser(flushMask, MaskOf(p.size)) && Both(p.vaddr, flushMask) == flushAddr
  }

  lemma InRegion(flushAddr: Word, flushMask: Word, p: Page, a: Word)
    requires RegionCovers(flushAddr, flushMask, p) && InPage(a, p.vaddr, p.size)
    ensures Both(a, flushMask) == flushAddr
  {
    hide Both, Coarser, Agree, MaskOf;
    CoarserAgrees(a, p.vaddr, flushMask, MaskOf(p.size));
    AgreeIs(a, p.vaddr, flushMask);
  }

  lemma StillCovered(flushAddr: Word, flushMask: Word, mask: Word, p: Page)
    requires RegionCovers(flushAddr, flushMask, p) && Coarser(mask, flushMask)
    ensures RegionCovers(Both(flushAddr, mask), mask, p)
  {
    hide Both, Coarser, MaskOf;
    CoarserTrans(mask, flushMask, MaskOf(p.size));
    BothTwice(p.vaddr, flushMask, mask);
  }

  lemma NowCovered(flushAddr: Word, mask: Word, vaddr: Word, size: Word)
    requires Coarser(mask, MaskOf(size)) && Agree(flushAddr, vaddr, mask)
    ensures RegionCovers(Both(flushAddr, mask), mask, Page(vaddr, size))
  {
    hide Both, Coarser, Agree, MaskOf;
    AgreeIs(flushAddr, vaddr, mask);
  }

  /** `m` is a prefix mask coarser than both. */
  ghost predicate Joint(m: Word, x: Word, y: Word) {
    Prefix(m) && Coarser(m, x) && Coarser(m, y)
  }

  lemma JointStart(flushMask: Word, size: Word)
    requires PowerOfTwo(size) && Prefix(flushMask)
    ensures Joint(Both(MaskOf(size), flushMask), flushMask, MaskOf(size))
  {
    hide Prefix, Coarser, Both, MaskOf, PowerOfTwo;
    MaskPrefix(size);
    AndPrefix(MaskOf(size), flushMask);
  }

  lemma JointNext(m: Word, x: Word, y: Word, a: Word, b: Word)
    requires Joint(m, x, y) && Differ(a, b, m)
    ensures Joint(Wider(m), x, y) && Wider(m) < m
  {
    hide Prefix, Coarser, Wider;
    assert m != 0 by { NonzeroMask(a ^ b, m); }
    ShiftPrefix(m);
    ShiftCoarser(m, x);
    ShiftCoarser(m, y);
  }

  lemma NonzeroMask(x: Word, m: Word)
    requires x & m != 0
    ensures m != 0
  {
  }

  /** Every mask that would do for both is coarser than `mask`. */
  ghost predicate Finest(mask: Word, x: Word, y: Word, a: Word, b: Word) {
    forall m: Word :: Joint(m, x, y) && Agree(a, b, m) ==> Coarser(m, mask)
  }

  lemma FinestStart(x: Word, y: Word, a: Word, b: Word)
    ensures Finest(Both(x, y), y, x, a, b)
  {
    hide Prefix, Coarser, Both, Agree;
    forall m: Word | Joint(m, y, x)
      ensures Coarser(m, Both(x, y))
    {
      CoarserBoth(m, x, y);
    }
  }

  lemma CoarserBoth(m: Word, x: Word, y: Word)
    requires Coarser(m, x) && Coarser(m, y)
    ensures Coarser(m, Both(x, y))
  {
  }

  lemma FinestNext(mask: Word, x: Word, y: Word, a: Word, b: Word)
    requires Joint(mask, x, y) && Differ(a, b, mask) && Finest(mask, x, y, a, b)
    ensures Finest(Wider(mask), x, y, a, b)
  {
    hide Prefix, Coarser, Agree, Differ, Wider;
    forall m: Word | Joint(m, x, y) && Agree(a, b, m)
      ensures Coarser(m, Wider(mask))
    {
      DifferOrAgree(a, b, mask);
      OneBitWider(m, mask);
    }
  }

  lemma DifferOrAgree(a: Word, b: Word, m: Word)
    ensures Differ(a, b, m) <==> !Agree(a, b, m)
  {
    XorZero(a, b, m);
  }

  lemma OneBitWider(m: Word, mask: Word)
    requires Prefix(m) && Prefix(mask) && Coarser(m, mask) && m != mask
    ensures Coarser(m, Wider(mask))
  {
  }

  /** The widening loop of tlb_add_large_page: it ends with the finest mask, coarser than both, under which the region
      and the new page agree. */
  method Widen(flushAddr: Word, flushMask: Word, vaddr: Word, size: Word) returns (mask: Word)
    requires PowerOfTwo(size) && Prefix(flushMask)
    ensures Joint(mask, flushMask, MaskOf(size)) && Agree(flushAddr, vaddr, mask)
    ensures Finest(mask, flushMask, MaskOf(size), flushAddr, vaddr)
  {
    hide Joint, Prefix, PowerOfTwo, MaskOf, Both, Wider, Differ, Agree, Finest;
    JointStart(flushMask, size);
    FinestStart(MaskOf(size), flushMask, flushAddr, vaddr);
    mask := Both(MaskOf(size), flushMask);
    while Differ(flushAddr, vaddr, mask)
      invariant Joint(mask, flushMask, MaskOf(size)) && Finest(mask, flushMask, MaskOf(size), flushAddr, vaddr)
      decreases mask
    {
      JointNext(mask, flushMask, MaskOf(size), flushAddr, vaddr);
      FinestNext(mask, flushMask, MaskOf(size), flushAddr, vaddr);
      mask := Wider(mask);
    }
    DifferOrAgree(flushAddr, vaddr, mask);
  }

  // ---- The TLB ----

  ghost predicate EntryOk(e: Entry, i: nat) {
    forall a: Word :: Translates(e, a) ==> Index(a) == i
  }

  lemma EmptyOk(i: nat)
    ensures EntryOk(EMPTY_ENTRY, i)
  {
    forall a: Word
      ensures !Translates(EMPTY_ENTRY, a)
    {
      NoHitEmpty(a);
    }
  }

  lemma AndOr(a: Word, b: Word, m: Word)
    ensures (a | b) & m == (a & m) | (b & m)
  {
  }

  lemma PageBitsOnly(vaddr: Word)
    requires vaddr & PAGE_MASK == vaddr
    ensures vaddr & (PAGE_MASK | TLB_INVALID_MASK) == vaddr
  {
  }

  lemma OrZero(a: Word)
    ensures a | 0 == a
  {
  }

  predicate PageAligned(vaddr: Word) { vaddr & PAGE_MASK == vaddr }

  predicate FlagsOnly(flags: Word) { flags & (PAGE_MASK | TLB_INVALID_MASK) == 0 }

  /** A field made from a page address and flags is hit by that page's addresses only. */
  lemma HitIsPage(vaddr: Word, flags: Word, a: Word)
    requires PageAligned(vaddr) && FlagsOnly(flags)
    ensures Hit(vaddr | flags, a) <==> a & PAGE_MASK == vaddr
  {
    AndOr(vaddr, flags, PAGE_MASK | TLB_INVALID_MASK);
    PageBitsOnly(vaddr);
    OrZero(vaddr);
  }

  lemma SamePageSameIndex(a: Word, b: Word)
    requires PageOf(a) == PageOf(b)
    ensures Index(a) == Index(b)
  {
    assert (a >> 12) & 0xff == (b >> 12) & 0xff;
  }

  /** Pages share an entry exactly if their numbers agree in the low eight bits. */
  lemma IndexShared(a: Word, b: Word)
    ensures Index(a) == Index(b) <==> ((a ^ b) >> 12) & 0xff == 0
  {
    hide Index;
    IndexAgrees(a, b);
    ShiftXor(a, b);
    LowBitsAgree(a >> 12, b >> 12);
  }

  lemma IndexAgrees(a: Word, b: Word)
    ensures Index(a) == Index(b) <==> (a >> 12) & 0xff == (b >> 12) & 0xff
  {
    NumberInjective((a >> 12) & 0xff, (b >> 12) & 0xff);
  }

  lemma NumberInjective(x: Word, y: Word)
    ensures x as nat == y as nat <==> x == y
  {
    NumberBack(x);
    NumberBack(y);
  }

  lemma NumberBack(x: Word)
    ensures (x as nat) as Word == x
  {
  }

  lemma ShiftXor(a: Word, b: Word)
    ensures (a ^ b) >> 12 == (a >> 12) ^ (b >> 12)
  {
  }

  lemma LowBitsAgree(x: Word, y: Word)
    ensures (x ^ y) & 0xff == 0 <==> x & 0xff == y & 0xff
  {
    XorZero(x, y, 0xff);
  }

  function Field(allowed: bool, vaddr: Word, flags: Word): Word {
    if allowed then vaddr | flags else ALL_ONES
  }

  /** An allowed access hits the page and no other; a forbidden one hits nothing. */
  lemma FieldHits(allowed: bool, vaddr: Word, flags: Word, a: Word)
    requires PageAligned(vaddr) && FlagsOnly(flags)
    ensures Hit(Field(allowed, vaddr, flags), a) <==> allowed && PageOf(a) == vaddr
  {
    if allowed {
      HitIsPage(vaddr, flags, a);
    } else {
      NoHitEmpty(a);
    }
  }

  lemma AlignedPage(vaddr: Word)
    requires PageAligned(vaddr)
    ensures PageOf(vaddr) == vaddr
  {
  }

  lemma FieldIndex(allowed: bool, vaddr: Word, flags: Word, a: Word)
    requires PageAligned(vaddr) && FlagsOnly(flags) && Hit(Field(allowed, vaddr, flags), a)
    ensures Index(a) == Index(vaddr)
  {
    hide Hit, Field, Index, FlagsOnly;
    FieldHits(allowed, vaddr, flags, a);
    AlignedPage(vaddr);
    SamePageSameIndex(a, vaddr);
  }

  /** A new entry translates its own page at most, and so belongs at its page's index. */
  lemma NewEntryOk(e: Entry, vaddr: Word, rf: Word, wf: Word, cf: Word, r: bool, w: bool, x: bool)
    requires PageAligned(vaddr) && FlagsOnly(rf) && FlagsOnly(wf) && FlagsOnly(cf)
    requires e == Entry(Field(r, vaddr, rf), Field(w, vaddr, wf), Field(x, vaddr, cf))
    ensures EntryOk(e, Index(vaddr))
  {
    hide Hit, Field, Index, PageAligned, FlagsOnly;
    forall a: Word | Translates(e, a)
      ensures Index(a) == Index(vaddr)
    {
      if Hit(e.addrRead, a) {
        FieldIndex(r, vaddr, rf, a);
      } else if Hit(e.addrWrite, a) {
        FieldIndex(w, vaddr, wf, a);
      } else {
        FieldIndex(x, vaddr, cf, a);
      }
    }
  }

  lemma NewEntryHits(e: Entry, vaddr: Word, rf: Word, wf: Word, cf: Word, r: bool, w: bool, x: bool)
    requires PageAligned(vaddr) && FlagsOnly(rf) && FlagsOnly(wf) && FlagsOnly(cf)
    requires e == Entry(Field(r, vaddr, rf), Field(w, vaddr, wf), Field(x, vaddr, cf))
    ensures e == Entry(if r then vaddr | rf else ALL_ONES, if w then vaddr | wf else ALL_ONES,
                       if x then vaddr | cf else ALL_ONES)
    ensures forall a: Word :: Hit(e.addrRead, a) <==> r && PageOf(a) == vaddr
    ensures forall a: Word :: Hit(e.addrWrite, a) <==> w && PageOf(a) == vaddr
    ensures forall a: Word :: Hit(e.addrCode, a) <==> x && PageOf(a) == vaddr
    ensures forall a: Word :: PageOf(a) == vaddr ==> Index(a) == Index(vaddr)
  {
    hide Hit, PageOf, Index, PageAligned, FlagsOnly;
    AlignedPage(vaddr);
    forall a: Word
      ensures Hit(e.addrRead, a) <==> r && PageOf(a) == vaddr
      ensures Hit(e.addrWrite, a) <==> w && PageOf(a) == vaddr
      ensures Hit(e.addrCode, a) <==> x && PageOf(a) == vaddr
      ensures PageOf(a) == vaddr ==> Index(a) == Index(vaddr)
    {
      FieldHits(r, vaddr, rf, a);
      FieldHits(w, vaddr, wf, a);
      FieldHits(x, vaddr, cf, a);
      if PageOf(a) == vaddr {
        SamePageSameIndex(a, vaddr);
      }
    }
  }

  ghost predicate Large(p: Page) { p.size != PAGE_SIZE }

  ghost predicate PageOk(p: Page) {
    PowerOfTwo(p.size) && p.size >= PAGE_SIZE && PageAligned(p.vaddr)
  }

  /** Either no large page has been seen since the last full flush, or the region covers every one of them. */
  ghost predicate RegionOk(flushAddr: Word, flushMask: Word, pages: seq<Page>) {
    if flushAddr == ALL_ONES then flushMask == 0 && forall i :: 0 <= i < |pages| ==> !Large(pages[i])
    else
      && Prefix(flushMask)
      && forall i :: 0 <= i < |pages| && Large(pages[i]) ==> RegionCovers(flushAddr, flushMask, pages[i])
  }

  lemma RegionAddress(vaddr: Word, mask: Word, size: Word)
    requires size != 0 && size != 1 && PowerOfTwo(size) && Coarser(mask, MaskOf(size))
    ensures Both(vaddr, mask) != ALL_ONES
  {
    assert MaskOf(size) & 1 == 0;
  }

  class CpuTlb {
    const table: array2<Entry>
    var flushAddr: Word
    var flushMask: Word
    ghost var pages: seq<Page>  // the pages set since the last full flush

    ghost predicate Shape()
      reads this
    {
      table.Length0 == NB_MMU_MODES && table.Length1 == CPU_TLB_SIZE
    }

    ghost predicate Valid()
      reads this, table
    {
      && Shape()
      && (forall m, i :: 0 <= m < NB_MMU_MODES && 0 <= i < CPU_TLB_SIZE ==> EntryOk(table[m, i], i))
      && (forall i :: 0 <= i < |pages| ==> PageOk(pages[i]))
      && RegionOk(flushAddr, flushMask, pages)
    }

    /** An empty table, as after a full flush. */
    constructor ()
      ensures Valid() && fresh(table) && pages == []
      ensures forall a: Word :: Gone(a)
    {
      hide EntryOk, Translates;
      table := new Entry[NB_MMU_MODES, CPU_TLB_SIZE]((_, _) => EMPTY_ENTRY);
      flushAddr, flushMask, pages := ALL_ONES, 0, [];
      new;
      forall i: nat
        ensures EntryOk(EMPTY_ENTRY, i)
      {
        EmptyOk(i);
      }
      forall a: Word
        ensures !Translates(EMPTY_ENTRY, a)
      {
        NoHitEmpty(a);
      }
    }

    /** No entry in any mode translates the page of `a`. */
    ghost predicate Gone(a: Word)
      requires Shape()
      reads this, table
    {
      forall m, i :: 0 <= m < NB_MMU_MODES && 0 <= i < CPU_TLB_SIZE ==> !Translates(table[m, i], a)
    }

    /** tlb_flush */
    method Flush()
      requires Shape()
      modifies this`flushAddr, this`flushMask, this`pages, table
      ensures Valid() && pages == []
      ensures forall m, i :: 0 <= m < NB_MMU_MODES && 0 <= i < CPU_TLB_SIZE ==> table[m, i] == EMPTY_ENTRY
    {
      forall m, i | 0 <= m < NB_MMU_MODES && 0 <= i < CPU_TLB_SIZE {
        table[m, i] := EMPTY_ENTRY;
      }
      forall i | 0 <= i < CPU_TLB_SIZE
        ensures EntryOk(EMPTY_ENTRY, i)
      {
        EmptyOk(i);
      }
      flushAddr, flushMask := ALL_ONES, 0;
      pages := [];
    }

    /** tlb_add_large_page */
    method AddLargePage(vaddr: Word, size: Word)
      requires RegionOk(flushAddr, flushMask, pages) && PageOk(Page(vaddr, size)) && size != PAGE_SIZE
      modifies this`flushAddr, this`flushMask
      ensures RegionOk(flushAddr, flushMask, pages + [Page(vaddr, size)])
      ensures old(flushAddr) == ALL_ONES ==> flushAddr == vaddr & !(size - 1) && flushMask == !(size - 1)
      ensures old(flushAddr) != ALL_ONES ==>
                && flushAddr == old(flushAddr) & flushMask && Agree(old(flushAddr), vaddr, flushMask)
                && Joint(flushMask, old(flushMask), !(size - 1))
                && Finest(flushMask, old(flushMask), !(size - 1), old(flushAddr), vaddr)
    {
      assert MaskOf(size) == !(size - 1) && Both(vaddr, MaskOf(size)) == vaddr & !(size - 1);
      hide Prefix, PowerOfTwo, MaskOf, RegionCovers, PageAligned, Large, Joint, Finest, Agree;
      var mask := MaskOf(size);
      if flushAddr == ALL_ONES {
        FirstRegion(vaddr, size, pages);
        flushAddr, flushMask := Both(vaddr, mask), mask;
        return;
      }
      mask := Widen(flushAddr, flushMask, vaddr, size);
      WidenedRegion(flushAddr, flushMask, mask, vaddr, size, pages);
      flushAddr, flushMask := Both(flushAddr, mask), mask;
    }

    /** tlb_set_page, as far as the address fields go: the page's entry in one mode, with flags by memory type. */
    method SetPage(vaddr: Word, size: Word, mode: nat, read: bool, write: bool, exec: bool,
                   readFlags: Word, writeFlags: Word, codeFlags: Word)
      requires Valid() && mode < NB_MMU_MODES && PageOk(Page(vaddr, size))
      requires FlagsOnly(readFlags) && FlagsOnly(writeFlags) && FlagsOnly(codeFlags)
      modifies this`flushAddr, this`flushMask, this`pages, table
      ensures Valid() && pages == old(pages) + [Page(vaddr, size)]
      ensures forall m, i :: 0 <= m < NB_MMU_MODES && 0 <= i < CPU_TLB_SIZE && (m != mode || i != Index(vaddr)) ==>
                table[m, i] == old(table[m, i])
      ensures table[mode, Index(vaddr)] ==
              Entry(if read then vaddr | readFlags else ALL_ONES, if write then vaddr | writeFlags else ALL_ONES,
                    if exec then vaddr | codeFlags else ALL_ONES)
      ensures forall a: Word :: Hit(table[mode, Index(vaddr)].addrRead, a) <==> read && PageOf(a) == vaddr
      ensures forall a: Word :: Hit(table[mode, Index(vaddr)].addrWrite, a) <==> write && PageOf(a) == vaddr
      ensures forall a: Word :: Hit(table[mode, Index(vaddr)].addrCode, a) <==> exec && PageOf(a) == vaddr
      ensures forall a: Word :: PageOf(a) == vaddr ==> Index(a) == Index(vaddr)
    {
      hide Index, Field, EntryOk, PowerOfTwo, PageAligned, FlagsOnly, Hit, PageOf;
      if size != PAGE_SIZE {
        AddLargePage(vaddr, size);
      } else {
        SmallPage(flushAddr, flushMask, pages, Page(vaddr, size));
      }
      pages := pages + [Page(vaddr, size)];
      var e := Entry(Field(read, vaddr, readFlags), Field(write, vaddr, writeFlags), Field(exec, vaddr, codeFlags));
      NewEntryOk(e, vaddr, readFlags, writeFlags, codeFlags, read, write, exec);
      NewEntryHits(e, vaddr, readFlags, writeFlags, codeFlags, read, write, exec);
      table[mode, Index(vaddr)] := e;
    }

    /** tlb_flush_entry */
    method FlushEntry(m: nat, i: nat, addr: Word)
      requires Shape() && m < NB_MMU_MODES && i < CPU_TLB_SIZE && PageAligned(addr)
      modifies table
      ensures table[m, i] == if Translates(old(table[m, i]), addr) then EMPTY_ENTRY else old(table[m, i])
      ensures forall m', i' :: 0 <= m' < NB_MMU_MODES && 0 <= i' < CPU_TLB_SIZE && (m' != m || i' != i) ==>
                table[m', i'] == old(table[m', i'])
    {
      if Translates(table[m, i], addr) {
        table[m, i] := EMPTY_ENTRY;
      }
    }

    /** tlb_flush_page: afterwards no entry translates the page of `addr`, and neither is there an entry for any
        page, large or small, that contains `addr` and was set since the last full flush. */
    method FlushPage(addr: Word)
      requires Valid()
      modifies this`flushAddr, this`flushMask, this`pages, table
      ensures Valid() && Gone(addr)
      ensures forall k :: 0 <= k < |old(pages)| && InPage(addr, old(pages)[k].vaddr, old(pages)[k].size) ==>
                Gone(old(pages)[k].vaddr)
      ensures (exists k :: 0 <= k < |old(pages)| && Large(old(pages)[k]) &&
                           InPage(addr, old(pages)[k].vaddr, old(pages)[k].size)) ==>
                forall m, i :: 0 <= m < NB_MMU_MODES && 0 <= i < CPU_TLB_SIZE ==> table[m, i] == EMPTY_ENTRY
      ensures old(addr & flushMask == flushAddr) ==>
                forall m, i :: 0 <= m < NB_MMU_MODES && 0 <= i < CPU_TLB_SIZE ==> table[m, i] == EMPTY_ENTRY
      ensures old(addr & flushMask != flushAddr) ==>
                && flushAddr == old(flushAddr) && flushMask == old(flushMask) && pages == old(pages)
                && forall m, i :: 0 <= m < NB_MMU_MODES && 0 <= i < CPU_TLB_SIZE ==>
                     table[m, i] == if Translates(old(table[m, i]), addr) then EMPTY_ENTRY else old(table[m, i])
    {
      RegionTest(addr, flushAddr, flushMask);
      hide Index, EntryOk, Translates, InPage, PowerOfTwo, Prefix, RegionOk, PageOk, Large, PageOf, InFlushRegion, Gone;
      ghost var before := pages;
      if InFlushRegion(addr, flushAddr, flushMask) {
        Flush();
        AllGone(addr);
        forall k | 0 <= k < |before|
          ensures Gone(before[k].vaddr)
        {
          AllGone(before[k].vaddr);
        }
        return;
      }
      var page := PageOf(addr);
      MaskedPage(addr);
      SamePageTranslates(addr, page);
      FlushPageEntries(page);
      FlushedPageGone(addr, page);
      forall k | 0 <= k < |before| && InPage(addr, before[k].vaddr, before[k].size)
        ensures !Large(before[k]) && Gone(before[k].vaddr)
      {
        NotInLarge(flushAddr, flushMask, before, k, addr);
        GoneSamePage(addr, before[k].vaddr);
      }
    }

    method FlushPageEntries(page: Word)
      requires Valid() && PageAligned(page)
      modifies table
      ensures Valid()
      ensures forall m :: 0 <= m < NB_MMU_MODES ==> !Translates(table[m, Index(page)], page)
      ensures forall m, i :: 0 <= m < NB_MMU_MODES && 0 <= i < CPU_TLB_SIZE ==>
                table[m, i] == if Translates(old(table[m, i]), page) then EMPTY_ENTRY else old(table[m, i])
    {
      OthersMiss(page);
      hide Index, EntryOk, Translates, PageAligned, RegionOk, PageOk;
      var i := Index(page);
      var m := 0;
      EmptyOk(i);
      NoHitEmpty(page);
      while m < NB_MMU_MODES
        invariant 0 <= m <= NB_MMU_MODES && Valid()
        invariant forall m' :: 0 <= m' < m ==> !Translates(table[m', i], page)
        invariant forall m', i' :: 0 <= m' < NB_MMU_MODES && 0 <= i' < CPU_TLB_SIZE ==>
                    table[m', i'] == if m' < m && Translates(old(table[m', i']), page) then EMPTY_ENTRY
                                     else old(table[m', i'])
      {
        FlushEntry(m, i, page);
        m := m + 1;
      }
    }

    lemma OthersMiss(page: Word)
      requires Valid()
      ensures forall m, i :: 0 <= m < NB_MMU_MODES && 0 <= i < CPU_TLB_SIZE && i != Index(page) ==>
                !Translates(table[m, i], page)
    {
      hide Index, Translates, RegionOk, PageOk;
      forall m, i | 0 <= m < NB_MMU_MODES && 0 <= i < CPU_TLB_SIZE && i != Index(page)
        ensures !Translates(table[m, i], page)
      {
        assert EntryOk(table[m, i], i);
      }
    }

    lemma AllGone(a: Word)
      requires Shape() && forall m, i :: 0 <= m < NB_MMU_MODES && 0 <= i < CPU_TLB_SIZE ==> table[m, i] == EMPTY_ENTRY
      ensures Gone(a)
    {
      NoHitEmpty(a);
    }

    lemma GoneSamePage(a: Word, b: Word)
      requires Shape() && Gone(a) && PageOf(a) == PageOf(b)
      ensures Gone(b)
    {
      hide Translates;
      forall m, i | 0 <= m < NB_MMU_MODES && 0 <= i < CPU_TLB_SIZE
        ensures !Translates(table[m, i], b)
      {
        TranslatesSamePage(table[m, i], a, b);
      }
    }

    /** Once the entries at its index are gone, none is left for a page. */
    lemma FlushedPageGone(addr: Word, page: Word)
      requires Valid() && PageOf(addr) == PageOf(page)
      requires forall m :: 0 <= m < NB_MMU_MODES ==> !Translates(table[m, Index(page)], page)
      ensures Gone(addr)
    {
      hide Translates, Index;
      SamePageSameIndex(addr, page);
      forall m, i | 0 <= m < NB_MMU_MODES && 0 <= i < CPU_TLB_SIZE
        ensures !Translates(table[m, i], addr)
      {
        TranslatesSamePage(table[m, i], addr, page);
        assert EntryOk(table[m, i], i);
      }
    }
  }

  lemma RegionTest(addr: Word, flushAddr: Word, flushMask: Word)
    ensures InFlushRegion(addr, flushAddr, flushMask) <==> addr & flushMask == flushAddr
  {
  }

  predicate InFlushRegion(addr: Word, flushAddr: Word, flushMask: Word) {
    Both(addr, flushMask) == flushAddr
  }

  lemma MaskedPage(addr: Word)
    ensures PageAligned(PageOf(addr)) && PageOf(addr) == PageOf(PageOf(addr))
  {
  }

  lemma TranslatesSamePage(e: Entry, a: Word, b: Word)
    requires PageOf(a) == PageOf(b)
    ensures Translates(e, a) == Translates(e, b)
  {
    hide PageOf;
  }

  lemma SamePageTranslates(a: Word, b: Word)
    requires PageOf(a) == PageOf(b)
    ensures forall e: Entry :: Translates(e, a) == Translates(e, b)
  {
    hide Translates, PageOf;
    forall e: Entry
      ensures Translates(e, a) == Translates(e, b)
    {
      TranslatesSamePage(e, a, b);
    }
  }

  /** Outside the merged region, a page that contains the address is a small one, at the same page. */
  lemma NotInLarge(flushAddr: Word, flushMask: Word, pages: seq<Page>, k: nat, addr: Word)
    requires RegionOk(flushAddr, flushMask, pages) && k < |pages| && !InFlushRegion(addr, flushAddr, flushMask)
    requires InPage(addr, pages[k].vaddr, pages[k].size)
    ensures !Large(pages[k]) && PageOf(addr) == PageOf(pages[k].vaddr)
  {
    hide Prefix;
    if Large(pages[k]) && flushAddr != ALL_ONES {
      InRegion(flushAddr, flushMask, pages[k], addr);
    }
    SmallMask();
  }

  lemma SmallMask()
    ensures MaskOf(PAGE_SIZE) == PAGE_MASK
  {
  }

  lemma FirstRegion(vaddr: Word, size: Word, pages: seq<Page>)
    requires PageOk(Page(vaddr, size)) && size != PAGE_SIZE && forall i :: 0 <= i < |pages| ==> !Large(pages[i])
    ensures RegionOk(Both(vaddr, MaskOf(size)), MaskOf(size), pages + [Page(vaddr, size)])
  {
    hide Prefix, PowerOfTwo, MaskOf, RegionCovers, PageAligned, Large, Both, Coarser;
    MaskPrefix(size);
    SelfCovered(vaddr, size);
    BigSize(size);
    RegionAddress(vaddr, MaskOf(size), size);
    OnlyCovered(Both(vaddr, MaskOf(size)), MaskOf(size), pages, Page(vaddr, size));
  }

  lemma OnlyCovered(flushAddr: Word, flushMask: Word, pages: seq<Page>, p: Page)
    requires flushAddr != ALL_ONES && Prefix(flushMask) && RegionCovers(flushAddr, flushMask, p)
    requires forall i :: 0 <= i < |pages| ==> !Large(pages[i])
    ensures RegionOk(flushAddr, flushMask, pages + [p])
  {
    hide Prefix, RegionCovers, Large;
    var all := pages + [p];
    forall i | 0 <= i < |all| && Large(all[i])
      ensures RegionCovers(flushAddr, flushMask, all[i])
    {
    }
  }

  lemma BigSize(size: Word)
    requires size >= PAGE_SIZE
    ensures size != 0 && size != 1
  {
  }

  lemma SmallPage(flushAddr: Word, flushMask: Word, pages: seq<Page>, p: Page)
    requires RegionOk(flushAddr, flushMask, pages) && !Large(p)
    ensures RegionOk(flushAddr, flushMask, pages + [p])
  {
    hide Prefix, RegionCovers;
  }

  lemma SelfCovered(vaddr: Word, size: Word)
    ensures RegionCovers(Both(vaddr, MaskOf(size)), MaskOf(size), Page(vaddr, size))
    ensures Coarser(MaskOf(size), MaskOf(size))
  {
    hide Both, Coarser, MaskOf;
    CoarserSelf(MaskOf(size));
  }

  lemma WidenedRegion(flushAddr: Word, flushMask: Word, mask: Word, vaddr: Word, size: Word, pages: seq<Page>)
    requires flushAddr != ALL_ONES && RegionOk(flushAddr, flushMask, pages)
    requires PageOk(Page(vaddr, size)) && size != PAGE_SIZE
    requires Joint(mask, flushMask, MaskOf(size)) && Agree(flushAddr, vaddr, mask)
    ensures RegionOk(Both(flushAddr, mask), mask, pages + [Page(vaddr, size)])
  {
    hide Prefix, PowerOfTwo, MaskOf, RegionCovers, Both, Coarser, Agree, PageAligned;
    var all := pages + [Page(vaddr, size)];
    forall i | 0 <= i < |all| && Large(all[i])
      ensures RegionCovers(Both(flushAddr, mask), mask, all[i])
    {
      if i < |pages| {
        StillCovered(flushAddr, flushMask, mask, pages[i]);
      } else {
        NowCovered(flushAddr, mask, vaddr, size);
      }
    }
    BigSize(size);
    AgreeIs(flushAddr, vaddr, mask);
    RegionAddress(vaddr, mask, size);
  }
}
