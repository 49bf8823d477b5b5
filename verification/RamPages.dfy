/** How one page of RAM is sent during migration (arch_init.c, page_cache.c): as zeroes, whole, as a difference to
    the cached copy of what the destination has, or not at all. */
module RamPages {
  import opened Options
  import opened TargetPage
  import opened Uleb128
  import opened Xbzrle

  type Page = p: seq<Octet> | |p| == PAGE_SIZE witness seq(PAGE_SIZE, _ => 0)

  function FillPage(ch: Octet): (r: Page)
    ensures forall i :: 0 <= i < PAGE_SIZE ==> r[i] == ch
  {
    seq(PAGE_SIZE, _ => ch)
  }

  function ZeroPage(): Page {
    FillPage(0)
  }

  // ---- The page cache: a slot for each remainder of the page number ----

  datatype CacheItem = Free | Item(addr: nat, data: Page)

  function CachePos(cache: seq<CacheItem>, addr: nat): nat
    requires cache != []
  {
    addr % |cache|
  }

  predicate IsCached(cache: seq<CacheItem>, addr: nat)
    requires cache != []
  {
    var item := cache[CachePos(cache, addr)];
    item.Item? && item.addr == addr
  }

  /** cache_insert, which takes over whatever the slot held */
  function CacheInsert(cache: seq<CacheItem>, addr: nat, data: Page): seq<CacheItem>
    requires cache != []
  {
    cache[CachePos(cache, addr) := Item(addr, data)]
  }

  ghost predicate CacheEmpty(cache: seq<CacheItem>) {
    forall i :: 0 <= i < |cache| ==> cache[i].Free?
  }

  // ---- What is sent of a page ----

  datatype Content = SendFill(ch: Octet) | SendPage(data: Page) | SendDelta(delta: seq<Octet>)

  /** A difference is sent only if it is not longer than the page. */
  predicate ContentOk(c: Content) {
    c.SendDelta? ==> |c.delta| <= PAGE_SIZE
  }

  /** What the destination makes of a page's content; a malformed difference fails. */
  function Received(dst: seq<Page>, addr: nat, c: Content): Option<seq<Page>>
    requires addr < |dst|
  {
    match c
    case SendFill(ch) => Some(dst[addr := FillPage(ch)])
    case SendPage(data) => Some(dst[addr := data])
    case SendDelta(delta) =>
      var page := Decoded(delta, 0, dst[addr], 0);
      if page.None? then None else Some(dst[addr := page.value])
  }

  // ---- Sending one page ----

  datatype Mode = Mode(bulk: bool, xbzrle: bool, lastStage: bool)

  datatype Saved = Saved(cache: seq<CacheItem>, content: Option<Content>)

  /** save_xbzrle_page and what follows it for a page that is not all zero. */
  function SavedXbzrle(cache: seq<CacheItem>, addr: nat, page: Page, lastStage: bool): Saved
    requires cache != []
  {
    if !IsCached(cache, addr) then
      Saved(if lastStage then cache else CacheInsert(cache, addr, page), Some(SendPage(page)))
    else
      var previous := cache[CachePos(cache, addr)].data;
      if previous == page then Saved(cache, None)
      else if Overflows(previous, page, PAGE_SIZE) then Saved(CacheInsert(cache, addr, page), Some(SendPage(page)))
      else
        Saved(if lastStage then cache else CacheInsert(cache, addr, page), Some(SendDelta(Encoded(previous, page, 0))))
  }

  function SavedPage(cache: seq<CacheItem>, addr: nat, page: Page, mode: Mode): Saved
    requires cache != []
  {
    if page == ZeroPage() then
      Saved(if mode.bulk || !mode.xbzrle then cache else CacheInsert(cache, addr, page), Some(SendFill(0)))
    else if !mode.bulk && mode.xbzrle then SavedXbzrle(cache, addr, page, mode.lastStage)
    else Saved(cache, Some(SendPage(page)))
  }

  /** The encoder does not give up on a page that has not changed. */
  lemma SamePageFits(page: Page)
    ensures !Overflows(page, page, PAGE_SIZE)
  {
    EncodedEmpty(page, page);
  }

  /** In which of the four ways a page is sent, and when the cache takes it over. */
  lemma SentAs(cache: seq<CacheItem>, addr: nat, page: Page, mode: Mode)
    requires cache != []
    ensures var saved, item := SavedPage(cache, addr, page, mode), cache[addr % |cache|];
            var zero := forall i :: 0 <= i < PAGE_SIZE ==> page[i] == 0;
            var compared := !zero && !mode.bulk && mode.xbzrle && item.Item? && item.addr == addr;
            && (saved.content == Some(SendFill(0)) <==> zero)
            && (saved.content == None <==> compared && item.data == page)
            && (compared && item.data != page && !Overflows(item.data, page, PAGE_SIZE) ==>
                  saved.content == Some(SendDelta(Encoded(item.data, page, 0))))
            && (!zero && (!compared || Overflows(item.data, page, PAGE_SIZE)) ==> saved.content == Some(SendPage(page)))
            && saved.cache ==
               if !mode.bulk && mode.xbzrle &&
                  (zero || (!compared && !mode.lastStage) ||
                   (compared && item.data != page && (Overflows(item.data, page, PAGE_SIZE) || !mode.lastStage)))
               then cache[addr % |cache| := Item(addr, page)] else cache
  {
    hide Encoded, Overflows, FillPage;
    ZeroPageIs(page);
    if IsCached(cache, addr) {
      SamePageFits(page);
    }
  }

  lemma ZeroPageIs(page: Page)
    ensures page == ZeroPage() <==> forall i :: 0 <= i < PAGE_SIZE ==> page[i] == 0
  {
  }

  // ---- Cache and destination agree ----

  /** A cached page is what the destination has. In the last stage the cache is no longer kept up to date, and
      that is promised of the pages still to be sent only. */
  ghost predicate ItemOk(cache: seq<CacheItem>, i: nat, dst: seq<Page>, bitmap: seq<bool>, lastStage: bool)
    requires i < |cache| && |dst| <= |bitmap|
  {
    cache[i].Item? ==>
      && cache[i].addr < |dst|
      && cache[i].addr % |cache| == i
      && (!lastStage || bitmap[cache[i].addr] ==> cache[i].data == dst[cache[i].addr])
  }

  ghost predicate CacheOk(cache: seq<CacheItem>, dst: seq<Page>, bitmap: seq<bool>, mode: Mode) {
    && cache != [] && |dst| <= |bitmap|
    && (mode.bulk || !mode.xbzrle ==> CacheEmpty(cache))
    && forall i :: 0 <= i < |cache| ==> ItemOk(cache, i, dst, bitmap, mode.lastStage)
  }

  lemma CacheOkFewer(cache: seq<CacheItem>, dst: seq<Page>, bitmap: seq<bool>, mode: Mode, p: nat)
    requires CacheOk(cache, dst, bitmap, mode) && p < |bitmap|
    ensures CacheOk(cache, dst, bitmap[p := false], mode)
  {
    var bitmap' := bitmap[p := false];
    forall i | 0 <= i < |cache|
      ensures ItemOk(cache, i, dst, bitmap', mode.lastStage)
    {
      assert ItemOk(cache, i, dst, bitmap, mode.lastStage);
    }
  }

  /** The bulk stage may end, and the last stage begin. */
  lemma CacheOkLater(cache: seq<CacheItem>, dst: seq<Page>, bitmap: seq<bool>, mode: Mode)
    requires CacheOk(cache, dst, bitmap, mode)
    ensures CacheOk(cache, dst, bitmap, mode.(bulk := false))
    ensures CacheOk(cache, dst, bitmap, mode.(lastStage := true))
    ensures mode.bulk ==> CacheEmpty(cache)
  {
    forall i | 0 <= i < |cache|
      ensures ItemOk(cache, i, dst, bitmap, true)
    {
      assert ItemOk(cache, i, dst, bitmap, mode.lastStage);
    }
  }

  lemma CacheNonempty(cache: seq<CacheItem>, dst: seq<Page>, bitmap: seq<bool>, mode: Mode)
    requires CacheOk(cache, dst, bitmap, mode)
    ensures cache != []
  {
  }

  /** The destination after a page that is to be sent, or that need not be. */
  ghost function After(dst: seq<Page>, addr: nat, c: Option<Content>): Option<seq<Page>>
    requires addr < |dst|
  {
    if c.None? then Some(dst) else Received(dst, addr, c.value)
  }

  lemma DeltaReceived(dst: seq<Page>, addr: nat, page: Page)
    requires addr < |dst|
    ensures Received(dst, addr, SendDelta(Encoded(dst[addr], page, 0))) == Some(dst[addr := page])
  {
    hide Encoded, Decoded;
    RoundTrip(dst[addr], page);
  }

  /** Whatever way a page is sent, the destination ends up with it. */
  lemma SentExact(cache: seq<CacheItem>, dst: seq<Page>, bitmap: seq<bool>, addr: nat, page: Page, mode: Mode)
    requires CacheOk(cache, dst, bitmap, mode) && addr < |dst| && bitmap[addr]
    ensures After(dst, addr, SavedPage(cache, addr, page, mode).content) == Some(dst[addr := page])
  {
    hide Encoded, Overflows, Decoded, FillPage;
    var i := CachePos(cache, addr);
    assert ItemOk(cache, i, dst, bitmap, mode.lastStage);
    if IsCached(cache, addr) {
      DeltaReceived(dst, addr, page);
      if page == dst[addr] {
        assert dst[addr := page] == dst;
      }
    }
  }

  /** Sending a page keeps cache and destination in agreement. */
  lemma SentCacheOk(cache: seq<CacheItem>, dst: seq<Page>, bitmap: seq<bool>, addr: nat, page: Page, mode: Mode)
    requires CacheOk(cache, dst, bitmap, mode) && addr < |dst| && bitmap[addr]
    ensures CacheOk(SavedPage(cache, addr, page, mode).cache, dst[addr := page], bitmap[addr := false], mode)
  {
    hide Encoded, Overflows, Decoded, FillPage;
    var cache' := SavedPage(cache, addr, page, mode).cache;
    var dst', bitmap' := dst[addr := page], bitmap[addr := false];
    forall i | 0 <= i < |cache'|
      ensures ItemOk(cache', i, dst', bitmap', mode.lastStage)
    {
      assert ItemOk(cache, i, dst, bitmap, mode.lastStage);
      assert ItemOk(cache, CachePos(cache, addr), dst, bitmap, mode.lastStage);
    }
  }
}
