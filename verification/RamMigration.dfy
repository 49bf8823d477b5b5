/** RAM migration (arch_init.c): the guest writes while pages are sent, the dirty log says which pages have to be
    sent again, and the last stage sends what is left. */
module RamMigration {
  import opened Arith
  import opened DirtyBitmap
  import opened Options
  import opened RamPages
  import opened TargetPage
  import opened Xbzrle

  /** A RAM block: `pages` pages from page number `base` on. */
  datatype Block = Block(base: nat, pages: nat)

  ghost predicate Apart(a: Block, b: Block) {
    a.base + a.pages <= b.base || b.base + b.pages <= a.base
  }

  ghost predicate BlocksOk(blocks: seq<Block>, n: nat) {
    && blocks != []
    && (forall k :: 0 <= k < |blocks| ==> blocks[k].pages > 0 && blocks[k].base + blocks[k].pages <= n)
    && forall j, k :: 0 <= j < k < |blocks| ==> Apart(blocks[j], blocks[k])
  }

  /** The page at an offset into a block. */
  function PageAt(b: Block, offset: nat): nat {
    b.base + offset
  }

  lemma PagesApart(blocks: seq<Block>, n: nat, j: nat, x: nat, k: nat, y: nat)
    requires BlocksOk(blocks, n) && j < |blocks| && k < |blocks| && x < blocks[j].pages && y < blocks[k].pages
    ensures PageAt(blocks[j], x) == PageAt(blocks[k], y) ==> j == k && x == y
  {
    assert j < k ==> Apart(blocks[j], blocks[k]);
    assert k < j ==> Apart(blocks[k], blocks[j]);
  }

  // ---- The stream ----

  datatype Record = Record(block: nat, offset: nat, content: Content)

  /** What the destination's memory is after the stream, if every record of it could be applied. */
  ghost function Replayed(blocks: seq<Block>, dst: seq<Page>, stream: seq<Record>): Option<seq<Page>> {
    if stream == [] then Some(dst)
    else
      var r := stream[|stream| - 1];
      var before := Replayed(blocks, dst, stream[..|stream| - 1]);
      if before.None? || !IsPage(blocks, r.block, r.offset) ||
         PageAt(blocks[r.block], r.offset) >= |before.value| then None
      else Received(before.value, PageAt(blocks[r.block], r.offset), r.content)
  }

  ghost predicate RecordOk(blocks: seq<Block>, r: Record) {
    IsPage(blocks, r.block, r.offset) && ContentOk(r.content)
  }

  ghost predicate StreamOk(blocks: seq<Block>, stream: seq<Record>) {
    forall r :: r in stream ==> RecordOk(blocks, r)
  }

  /** A stream replays record by record. */
  ghost predicate Delivers(blocks: seq<Block>, dst0: seq<Page>, stream: seq<Record>, dst: seq<Page>) {
    StreamOk(blocks, stream) && Replayed(blocks, dst0, stream) == Some(dst)
  }

  lemma ReplayedMore(blocks: seq<Block>, dst: seq<Page>, stream: seq<Record>, r: Record, before: seq<Page>)
    requires Delivers(blocks, dst, stream, before) && ContentOk(r.content)
    requires IsPage(blocks, r.block, r.offset) && PageAt(blocks[r.block], r.offset) < |before|
    ensures StreamOk(blocks, stream + [r])
    ensures Replayed(blocks, dst, stream + [r]) == Received(before, PageAt(blocks[r.block], r.offset), r.content)
  {
    assert (stream + [r])[..|stream + [r]| - 1] == stream;
  }

  // ---- What is kept ----

  /** A page in neither the log nor the bitmap is the same on both sides, apart from the pages in `but`, which are
      in neither. */
  ghost predicate Agree(src: seq<Page>, dst: seq<Page>, log: Bits, bitmap: Bits, but: set<nat>) {
    && |src| == |dst| <= |log| == |bitmap|
    && (forall p :: 0 <= p < |src| && p !in but && !log[p] && !bitmap[p] ==> dst[p] == src[p])
    && forall p :: p in but ==> p < |src| && !log[p] && !bitmap[p]
  }

  predicate IsPage(blocks: seq<Block>, k: nat, i: nat) {
    k < |blocks| && i < blocks[k].pages
  }

  predicate Dirty(blocks: seq<Block>, bitmap: Bits, k: nat, i: nat)
    requires k < |blocks|
  {
    PageAt(blocks[k], i) < |bitmap| && bitmap[PageAt(blocks[k], i)]
  }

  /** While the bulk stage lasts, no page after the cursor has been sent. */
  ghost predicate Ahead(blocks: seq<Block>, bitmap: Bits, lastSeen: Option<nat>, lastOffset: nat) {
    forall k: nat, i: nat ::
      IsPage(blocks, k, i) && AfterCursor(lastSeen, lastOffset, k, i) ==> Dirty(blocks, bitmap, k, i)
  }

  ghost predicate AfterCursor(lastSeen: Option<nat>, lastOffset: nat, k: nat, i: nat) {
    lastSeen.None? || k > lastSeen.value || (k == lastSeen.value && i > lastOffset)
  }

  /** Whether the scan has passed page i of block k. It starts at page `from` of block `b`, and `round` says that
      it has come to the end of the list and started over. */
  ghost predicate Passed(b: nat, from: nat, round: bool, block: nat, offset: nat, k: nat, i: nat) {
    if round then k > b || (k == b && i >= from) || k < block || (k == block && i < offset)
    else (b < k < block) || (b < k == block && i < offset) || (k == b && i >= from && (k < block || i < offset))
  }

  ghost predicate Clean(blocks: seq<Block>, bitmap: Bits, b: nat, from: nat, round: bool, block: nat, offset: nat) {
    forall k: nat, i: nat ::
      IsPage(blocks, k, i) && Passed(b, from, round, block, offset, k, i) ==> !Dirty(blocks, bitmap, k, i)
  }

  /** No page of any block is to be sent. */
  ghost predicate AllClean(blocks: seq<Block>, bitmap: Bits) {
    forall k: nat, i: nat :: IsPage(blocks, k, i) ==> !Dirty(blocks, bitmap, k, i)
  }

  /** The very last page of RAM. */
  function LastPage(blocks: seq<Block>): nat
    requires blocks != [] && blocks[|blocks| - 1].pages > 0
  {
    PageAt(blocks[|blocks| - 1], blocks[|blocks| - 1].pages - 1)
  }

  /** The cursor is at the very last page, which is not the first of its block. */
  predicate AtEnd(blocks: seq<Block>, lastSeen: Option<nat>, lastOffset: nat) {
    blocks != [] && lastSeen == Some(|blocks| - 1) && 0 < lastOffset == blocks[|blocks| - 1].pages - 1
  }

  /** The last page of RAM is the only one to be sent. */
  ghost predicate OnlyLast(blocks: seq<Block>, bitmap: Bits) {
    && blocks != [] && blocks[|blocks| - 1].pages > 0
    && Dirty(blocks, bitmap, |blocks| - 1, blocks[|blocks| - 1].pages - 1)
    && forall k: nat, i: nat :: IsPage(blocks, k, i) && Dirty(blocks, bitmap, k, i) ==>
         k == |blocks| - 1 && i == blocks[k].pages - 1
  }

  // ---- The scan for the next dirty page ----

  /** Where the pages begin that the first pass is to look at. */
  function From(bulk: bool, lastOffset: nat): nat {
    if bulk && lastOffset > 0 then lastOffset + 1 else lastOffset
  }

  /** Where the scan stands that has started at page `o` of block `b`, in the bulk stage or not. */
  ghost predicate Scan(blocks: seq<Block>, bitmap: Bits, b: nat, o: nat, bulk0: bool,
                       bulk: bool, round: bool, block: nat, offset: nat)
  {
    && b < |blocks| && block < |blocks|
    && Clean(blocks, bitmap, b, From(bulk0, o), round, block, offset)
    && (!round ==> block > b || (block == b && offset >= o))
    && (round ==> block < b || (block == b && (offset < o || offset == 0)))
    && (bulk ==> bulk0 && !round && ((block == b && offset == o) ||
                                     (block == b + 1 && offset == 0 && o + 1 >= blocks[b].pages)))
    && (bulk0 && !bulk ==> round && b == |blocks| - 1 && o + 1 >= blocks[b].pages)
  }

  /** The search from `offset` on gave `x`. */
  ghost predicate Found(blocks: seq<Block>, bitmap: Bits, block: nat, offset: nat, x: nat)
    requires block < |blocks|
  {
    && (x < blocks[block].pages ==> Dirty(blocks, bitmap, block, x))
    && forall i: nat :: offset <= i < x && i < blocks[block].pages ==> !Dirty(blocks, bitmap, block, i)
  }

  lemma ScanMoves(blocks: seq<Block>, bitmap: Bits, b: nat, o: nat, bulk0: bool,
                  bulk: bool, round: bool, block: nat, offset: nat, x: nat)
    requires Scan(blocks, bitmap, b, o, bulk0, bulk, round, block, offset) && x >= blocks[block].pages
    requires if bulk && offset > 0 then x == offset + 1 else Found(blocks, bitmap, block, offset, x)
    requires bulk ==> block == b && o + 1 >= blocks[b].pages
    requires round ==> block != b
    ensures block + 1 < |blocks| ==> Scan(blocks, bitmap, b, o, bulk0, bulk, round, block + 1, 0)
    ensures block + 1 == |blocks| ==> !round && Scan(blocks, bitmap, b, o, bulk0, false, true, 0, 0)
  {
  }

  lemma ScanSkips(blocks: seq<Block>, bitmap: Bits, b: nat, o: nat, bulk0: bool, round: bool, block: nat, offset: nat,
                  x: nat)
    requires Scan(blocks, bitmap, b, o, bulk0, false, round, block, offset) && x < blocks[block].pages
    requires Found(blocks, bitmap, block, offset, x) && offset <= x && PageAt(blocks[block], x) < |bitmap|
    requires round && block == b ==> x < o
    ensures Scan(blocks, bitmap[PageAt(blocks[block], x) := false], b, o, bulk0, false, round, block, x)
  {
    var bitmap' := bitmap[PageAt(blocks[block], x) := false];
    forall k: nat, i: nat | IsPage(blocks, k, i) && Passed(b, From(bulk0, o), round, block, x, k, i)
      ensures !Dirty(blocks, bitmap', k, i)
    {
      assert Passed(b, From(bulk0, o), round, block, offset, k, i) || (k == block && offset <= i < x);
      assert !Dirty(blocks, bitmap, k, i);
    }
  }

  /** When the scan has come around, the only page it can have overlooked is the one it has started at, and that
      only if it started in the bulk stage and at the very last page. */
  lemma ScanEnds(blocks: seq<Block>, bitmap: Bits, b: nat, o: nat, bulk0: bool, offset: nat, x: nat)
    requires Scan(blocks, bitmap, b, o, bulk0, false, true, b, offset) && BlocksOk(blocks, |bitmap|)
    requires Found(blocks, bitmap, b, offset, x) && o <= x
    ensures x >= blocks[b].pages ==> AllClean(blocks, bitmap) && !OnlyLast(blocks, bitmap)
    ensures x < blocks[b].pages ==>
              && bulk0 && o == x && AtEnd(blocks, Some(b), o) && OnlyLast(blocks, bitmap)
              && PageAt(blocks[b], x) == LastPage(blocks) < |bitmap|
  {
    var from := From(bulk0, o);
    forall k: nat, i: nat | IsPage(blocks, k, i) && Dirty(blocks, bitmap, k, i)
      ensures k == b && i == x == o && bulk0 && o > 0
    {
      assert !Passed(b, from, true, b, offset, k, i);
    }
    assert x < blocks[b].pages ==> IsPage(blocks, b, x);
    assert OnlyLast(blocks, bitmap) ==> IsPage(blocks, |blocks| - 1, blocks[|blocks| - 1].pages - 1);
  }

  /** The page that was overlooked is no longer to be sent. */
  lemma OnlyLastGone(blocks: seq<Block>, bitmap: Bits)
    requires BlocksOk(blocks, |bitmap|) && OnlyLast(blocks, bitmap)
    ensures AllClean(blocks, bitmap[LastPage(blocks) := false]) && !AllClean(blocks, bitmap)
  {
    assert IsPage(blocks, |blocks| - 1, blocks[|blocks| - 1].pages - 1);
    var bitmap' := bitmap[LastPage(blocks) := false];
    forall k: nat, i: nat | IsPage(blocks, k, i)
      ensures !Dirty(blocks, bitmap', k, i)
    {
      assert Dirty(blocks, bitmap', k, i) ==> Dirty(blocks, bitmap, k, i);
    }
  }

  /** A page that is found and not passed over is not the only dirty one at the end of RAM. */
  lemma FoundElsewhere(blocks: seq<Block>, bitmap: Bits, b: nat, o: nat, bulk0: bool,
                       bulk: bool, round: bool, block: nat, offset: nat, x: nat)
    requires Scan(blocks, bitmap, b, o, bulk0, bulk, round, block, offset)
    requires IsPage(blocks, block, x) && Dirty(blocks, bitmap, block, x)
    requires bulk && offset > 0 ==> x == offset + 1
    requires round && block == b ==> x < o
    ensures !(bulk0 && AtEnd(blocks, Some(b), o) && OnlyLast(blocks, bitmap))
  {
  }

  lemma ScanStarts(blocks: seq<Block>, bitmap: Bits, b: nat, o: nat, bulk: bool)
    requires b < |blocks|
    ensures Scan(blocks, bitmap, b, o, bulk, bulk, false, b, o)
  {
  }

  lemma ScanBounds(blocks: seq<Block>, bitmap: Bits, b: nat, o: nat, bulk0: bool,
                   bulk: bool, round: bool, block: nat, offset: nat)
    requires Scan(blocks, bitmap, b, o, bulk0, bulk, round, block, offset)
    ensures block < |blocks|
    ensures !round ==> block > b || (block == b && offset >= o)
    ensures bulk ==> bulk0 && !round && (offset > 0 ==> block == b && offset == o)
    ensures bulk0 && !bulk ==> b == |blocks| - 1 && o + 1 >= blocks[b].pages
    ensures round ==> !bulk
  {
  }

  /** While the bulk stage lasts, only the block that the scan starts in can be left without finding a page. */
  lemma BulkMoves(blocks: seq<Block>, bitmap: Bits, lastSeen: Option<nat>, b: nat, o: nat,
                  block: nat, offset: nat, x: nat)
    requires Scan(blocks, bitmap, b, o, true, true, false, block, offset) && Ahead(blocks, bitmap, lastSeen, o)
    requires BlocksOk(blocks, |bitmap|) && x >= blocks[block].pages
    requires if lastSeen.None? then b == 0 && o == 0 else lastSeen.value == b
    requires if offset > 0 then x == offset + 1 else Found(blocks, bitmap, block, offset, x)
    ensures lastSeen.Some? && block == b && o + 1 >= blocks[b].pages
  {
    AheadFirst(blocks, bitmap, lastSeen, o, block);
    if lastSeen == Some(b) && o == 0 < blocks[b].pages - 1 {
      AheadNext(blocks, bitmap, lastSeen, o, b);
    }
  }

  lemma AheadFirst(blocks: seq<Block>, bitmap: Bits, lastSeen: Option<nat>, lastOffset: nat, k: nat)
    requires Ahead(blocks, bitmap, lastSeen, lastOffset) && IsPage(blocks, k, 0)
    ensures lastSeen.None? || k > lastSeen.value ==> Dirty(blocks, bitmap, k, 0)
  {
    assert lastSeen.None? || k > lastSeen.value ==> AfterCursor(lastSeen, lastOffset, k, 0);
  }

  lemma AheadNext(blocks: seq<Block>, bitmap: Bits, lastSeen: Option<nat>, lastOffset: nat, b: nat)
    requires Ahead(blocks, bitmap, lastSeen, lastOffset) && lastSeen == Some(b) && IsPage(blocks, b, lastOffset + 1)
    ensures Dirty(blocks, bitmap, b, lastOffset + 1)
  {
    assert AfterCursor(lastSeen, lastOffset, b, lastOffset + 1);
  }

  datatype Place = Place(block: nat, offset: nat)

  /** The order of the bulk stage: page after page, except that a block's first page is sent again if it has become
      dirty by the time the search for the second one starts. After the last page the stage is over. */
  function NextBulk(blocks: seq<Block>, bitmap: Bits, lastSeen: Option<nat>, lastOffset: nat): Option<Place> {
    match lastSeen
    case None => Some(Place(0, 0))
    case Some(b) =>
      if b >= |blocks| then None
      else if lastOffset == 0 && Dirty(blocks, bitmap, b, 0) then Some(Place(b, 0))
      else if lastOffset + 1 < blocks[b].pages then Some(Place(b, lastOffset + 1))
      else if b + 1 < |blocks| then Some(Place(b + 1, 0))
      else None
  }

  lemma BulkInOrder(blocks: seq<Block>, bitmap: Bits, lastSeen: Option<nat>, b: nat, o: nat,
                    block: nat, offset: nat, x: nat)
    requires Scan(blocks, bitmap, b, o, true, true, false, block, offset) && Ahead(blocks, bitmap, lastSeen, o)
    requires BlocksOk(blocks, |bitmap|) && IsPage(blocks, block, x)
    requires if lastSeen.None? then b == 0 && o == 0 else lastSeen.value == b
    requires if offset > 0 then x == offset + 1 else Found(blocks, bitmap, block, offset, x)
    ensures NextBulk(blocks, bitmap, lastSeen, o) == Some(Place(block, x))
  {
    AheadFirst(blocks, bitmap, lastSeen, o, block);
    AheadFirst(blocks, bitmap, lastSeen, o, b);
    if lastSeen == Some(b) && o == 0 < blocks[b].pages - 1 {
      AheadNext(blocks, bitmap, lastSeen, o, b);
    }
    assert block == b + 1 && o == 0 ==> Passed(b, From(true, o), false, block, offset, b, 0);
    assert IsPage(blocks, b, 0);
  }

  /** A scan that has left the bulk stage has started at its last page. */
  lemma BulkIsOver(blocks: seq<Block>, bitmap: Bits, b: nat, o: nat, round: bool, block: nat, offset: nat)
    requires Scan(blocks, bitmap, b, o, true, false, round, block, offset) && BlocksOk(blocks, |bitmap|)
    ensures NextBulk(blocks, bitmap, Some(b), o) == None
  {
    assert IsPage(blocks, b, 0);
    assert o == 0 ==> Passed(b, From(true, o), true, block, offset, b, 0);
  }

  // ---- Pages that need not be sent ----

  /** The cached copy of the page is what the guest has. */
  predicate Unchanged(cache: seq<CacheItem>, xbzrle: bool, src: seq<Page>, p: nat) {
    && xbzrle && cache != [] && p < |src| && src[p] != ZeroPage()
    && IsCached(cache, p) && cache[CachePos(cache, p)].data == src[p]
  }

  lemma UnchangedIs(cache: seq<CacheItem>, src: seq<Page>, p: nat, mode: Mode)
    requires cache != [] && p < |src|
    ensures SavedPage(cache, p, src[p], mode).content.None? <==> !mode.bulk && Unchanged(cache, mode.xbzrle, src, p)
    ensures SavedPage(cache, p, src[p], mode).content.None? ==> SavedPage(cache, p, src[p], mode).cache == cache
  {
    hide ZeroPage, Overflows, Encoded;
  }

  /** Bits have been cleared of unchanged pages only. */
  ghost predicate OnlyUnchanged(blocks: seq<Block>, before: Bits, now: Bits,
                                cache: seq<CacheItem>, xbzrle: bool, src: seq<Page>)
  {
    forall k: nat, i: nat ::
      IsPage(blocks, k, i) && Dirty(blocks, before, k, i) && !Dirty(blocks, now, k, i) ==>
        Unchanged(cache, xbzrle, src, PageAt(blocks[k], i))
  }

  /** Page x of block k is the first one, in the order of the scan from page `o` of block `b` on, that is dirty and
      not unchanged. */
  ghost predicate FirstToSend(blocks: seq<Block>, bitmap: Bits, cache: seq<CacheItem>, xbzrle: bool, src: seq<Page>,
                              bulk: bool, b: nat, o: nat, k: nat, x: nat)
  {
    && IsPage(blocks, k, x) && Dirty(blocks, bitmap, k, x) && !Unchanged(cache, xbzrle, src, PageAt(blocks[k], x))
    && forall j: nat, i: nat ::
         IsPage(blocks, j, i) && Dirty(blocks, bitmap, j, i) &&
         Passed(b, From(bulk, o), k < b || (k == b && x < o), k, x, j, i) ==>
           Unchanged(cache, xbzrle, src, PageAt(blocks[j], i))
  }

  lemma FirstIs(blocks: seq<Block>, before: Bits, bitmap: Bits, cache: seq<CacheItem>, xbzrle: bool, src: seq<Page>,
                b: nat, o: nat, bulk0: bool, bulk: bool, round: bool, block: nat, offset: nat, x: nat)
    requires Scan(blocks, bitmap, b, o, bulk0, bulk, round, block, offset) && IsPage(blocks, block, x)
    requires if bulk && offset > 0 then x == offset + 1 else offset <= x && Found(blocks, bitmap, block, offset, x)
    requires round && block == b ==> x < o
    requires OnlyUnchanged(blocks, before, bitmap, cache, xbzrle, src) && Dirty(blocks, before, block, x)
    requires !Unchanged(cache, xbzrle, src, PageAt(blocks[block], x))
    ensures FirstToSend(blocks, before, cache, xbzrle, src, bulk0, b, o, block, x)
  {
    hide Unchanged;
    assert round == (block < b || (block == b && x < o));
    forall j: nat, i: nat | IsPage(blocks, j, i) && Dirty(blocks, before, j, i) &&
                            Passed(b, From(bulk0, o), round, block, x, j, i)
      ensures Unchanged(cache, xbzrle, src, PageAt(blocks[j], i))
    {
      assert Passed(b, From(bulk0, o), round, block, offset, j, i) || (j == block && offset <= i < x);
      assert !Dirty(blocks, bitmap, j, i);
    }
  }

  lemma UnchangedMore(blocks: seq<Block>, before: Bits, bitmap: Bits, cache: seq<CacheItem>, xbzrle: bool,
                      src: seq<Page>, k: nat, x: nat)
    requires OnlyUnchanged(blocks, before, bitmap, cache, xbzrle, src) && BlocksOk(blocks, |bitmap|)
    requires IsPage(blocks, k, x) && Unchanged(cache, xbzrle, src, PageAt(blocks[k], x))
    ensures OnlyUnchanged(blocks, before, bitmap[PageAt(blocks[k], x) := false], cache, xbzrle, src)
  {
    hide Unchanged;
    var bitmap' := bitmap[PageAt(blocks[k], x) := false];
    forall j: nat, i: nat | IsPage(blocks, j, i) && Dirty(blocks, before, j, i) && !Dirty(blocks, bitmap', j, i)
      ensures Unchanged(cache, xbzrle, src, PageAt(blocks[j], i))
    {
      assert Dirty(blocks, bitmap, j, i) ==> PageAt(blocks[j], i) == PageAt(blocks[k], x);
    }
  }

  lemma EmptyUnchanged(cache: seq<CacheItem>, xbzrle: bool, src: seq<Page>, p: nat)
    requires cache != []
    ensures CacheEmpty(cache) ==> !Unchanged(cache, xbzrle, src, p)
  {
  }

  lemma UnchangedStart(blocks: seq<Block>, bitmap: Bits, cache: seq<CacheItem>, xbzrle: bool, src: seq<Page>)
    ensures OnlyUnchanged(blocks, bitmap, bitmap, cache, xbzrle, src)
  {
  }

  lemma AheadAfter(blocks: seq<Block>, bitmap: Bits, lastSeen: Option<nat>, lastOffset: nat, block: nat, x: nat)
    requires BlocksOk(blocks, |bitmap|) && Ahead(blocks, bitmap, lastSeen, lastOffset) && IsPage(blocks, block, x)
    requires lastSeen.None? || block > lastSeen.value || (block == lastSeen.value && x >= lastOffset)
    ensures Ahead(blocks, bitmap[PageAt(blocks[block], x) := false], Some(block), x)
  {
    var bitmap' := bitmap[PageAt(blocks[block], x) := false];
    forall k: nat, i: nat | IsPage(blocks, k, i) && AfterCursor(Some(block), x, k, i)
      ensures Dirty(blocks, bitmap', k, i)
    {
      assert AfterCursor(lastSeen, lastOffset, k, i);
      PagesApart(blocks, |bitmap|, k, i, block, x);
    }
  }

  /** No bit is set, a bit is cleared only if the destination has the page, and the destination changes only in
      pages whose bit was set. */
  ghost predicate Cleared(before: Bits, now: Bits, src: seq<Page>, was: seq<Page>, dst: seq<Page>) {
    && |now| == |before| && |src| == |was| == |dst| <= |now|
    && (forall p :: 0 <= p < |now| && now[p] ==> before[p])
    && (forall p :: 0 <= p < |src| && before[p] && !now[p] ==> SamePage(src, dst, p))
    && forall p :: 0 <= p < |src| && !before[p] ==> dst[p] == was[p]
  }

  lemma ClearedStart(bitmap: Bits, src: seq<Page>, dst: seq<Page>)
    requires |src| == |dst| <= |bitmap|
    ensures Cleared(bitmap, bitmap, src, dst, dst)
  {
  }

  lemma ClearedSent(before: Bits, now: Bits, src: seq<Page>, was: seq<Page>, dst: seq<Page>, p: nat)
    requires Cleared(before, now, src, was, dst) && p < |src| && now[p]
    ensures Cleared(before, now[p := false], src, was, dst[p := src[p]])
  {
  }

  lemma DirtyBefore(blocks: seq<Block>, before: Bits, now: Bits, src: seq<Page>, was: seq<Page>, dst: seq<Page>,
                    k: nat, i: nat)
    requires Cleared(before, now, src, was, dst) && IsPage(blocks, k, i) && Dirty(blocks, now, k, i)
    ensures Dirty(blocks, before, k, i)
  {
  }

  // ---- Pages that agree ----

  lemma AgreeSent(src: seq<Page>, dst: seq<Page>, log: Bits, bitmap: Bits, but: set<nat>, p: nat)
    requires Agree(src, dst, log, bitmap, but) && p < |src| && bitmap[p]
    ensures Agree(src, dst[p := src[p]], log, bitmap[p := false], but)
  {
  }

  lemma AgreeLost(src: seq<Page>, dst: seq<Page>, log: Bits, bitmap: Bits, p: nat)
    requires Agree(src, dst, log, bitmap, {}) && p < |src|
    ensures Agree(src, dst, log, bitmap[p := false], if log[p] then {} else {p})
  {
  }

  /** A page that is neither sent nor to be sent does not change at the destination. */
  lemma StaleKept(src: seq<Page>, was: seq<Page>, log: Bits, bitmap: Bits, but: set<nat>, now: Bits, dst: seq<Page>,
                  p: nat)
    requires Agree(src, was, log, bitmap, but) && Cleared(bitmap, now, src, was, dst) && p in but
    ensures p < |src| == |was| == |dst| && dst[p] == was[p]
  {
  }

  lemma BlocksMore(blocks: seq<Block>, n: nat, m: nat)
    requires BlocksOk(blocks, n) && n <= m
    ensures BlocksOk(blocks, m) && blocks != []
    ensures forall k :: 0 <= k < |blocks| ==> blocks[k].pages > 0 && blocks[k].base + blocks[k].pages <= n
  {
  }

  /** The log has been moved into the bitmap in part: no page has left both, none has come in. */
  ghost predicate Synced(log: Bits, bitmap: Bits, log': Bits, bitmap': Bits) {
    && |log| == |bitmap| == |log'| == |bitmap'|
    && forall p :: 0 <= p < |log| ==>
         && (log'[p] || bitmap'[p]) == (log[p] || bitmap[p])
         && (log'[p] ==> log[p]) && (bitmap[p] ==> bitmap'[p])
  }

  lemma MovedSynced(l0: Bits, b0: Bits, l1: Bits, b1: Bits, l2: Bits, b2: Bits, lo: nat, hi: nat)
    requires Synced(l0, b0, l1, b1) && Moved(l1, b1, l2, b2, lo, hi)
    ensures Synced(l0, b0, l2, b2)
  {
  }

  /** The pages that a sync of the blocks reaches. */
  ghost predicate Reached(blocks: seq<Block>, p: nat) {
    exists k :: 0 <= k < |blocks| && blocks[k].base <= p < SyncedEnd(blocks[k].base, blocks[k].pages)
  }

  ghost function LogAfter(blocks: seq<Block>, log: Bits): (r: Bits)
    ensures |r| == |log|
  {
    seq(|log|, p requires 0 <= p < |log| => log[p] && !Reached(blocks, p))
  }

  ghost function BitmapAfter(blocks: seq<Block>, log: Bits, bitmap: Bits): (r: Bits)
    ensures |r| == |bitmap|
  {
    seq(|bitmap|, p requires 0 <= p < |bitmap| => bitmap[p] || (p < |log| && log[p] && Reached(blocks, p)))
  }

  /** One block more is synced. */
  lemma AfterMore(blocks: seq<Block>, k: nat, log: Bits, bitmap: Bits, log': Bits, bitmap': Bits)
    requires k < |blocks| && |log| == |bitmap|
    requires Moved(LogAfter(blocks[..k], log), BitmapAfter(blocks[..k], log, bitmap), log', bitmap',
                   blocks[k].base, SyncedEnd(blocks[k].base, blocks[k].pages))
    ensures log' == LogAfter(blocks[..k + 1], log) && bitmap' == BitmapAfter(blocks[..k + 1], log, bitmap)
  {
    var done, more := blocks[..k], blocks[..k + 1];
    forall p | 0 <= p < |log|
      ensures Reached(more, p) ==
              (Reached(done, p) || blocks[k].base <= p < SyncedEnd(blocks[k].base, blocks[k].pages))
    {
      ReachedMore(blocks, k, p);
    }
  }

  lemma AfterNone(log: Bits, bitmap: Bits)
    ensures LogAfter([], log) == log && BitmapAfter([], log, bitmap) == bitmap
  {
  }

  lemma ReachedMore(blocks: seq<Block>, k: nat, p: nat)
    requires k < |blocks|
    ensures Reached(blocks[..k + 1], p) ==
            (Reached(blocks[..k], p) || blocks[k].base <= p < SyncedEnd(blocks[k].base, blocks[k].pages))
  {
    hide SyncedEnd;
    var done, more := blocks[..k], blocks[..k + 1];
    assert forall j :: 0 <= j < k ==> done[j] == more[j];
    assert more[k] == blocks[k];
  }

  lemma SyncedKeeps(blocks: seq<Block>, src: seq<Page>, dst: seq<Page>, log: Bits, bitmap: Bits,
                    log': Bits, bitmap': Bits, but: set<nat>, lastSeen: Option<nat>, lastOffset: nat)
    requires Synced(log, bitmap, log', bitmap') && Agree(src, dst, log, bitmap, but)
    ensures Agree(src, dst, log', bitmap', but)
    ensures Ahead(blocks, bitmap, lastSeen, lastOffset) ==> Ahead(blocks, bitmap', lastSeen, lastOffset)
  {
    assert forall k: nat, i: nat ::
             IsPage(blocks, k, i) && Dirty(blocks, bitmap, k, i) ==> Dirty(blocks, bitmap', k, i);
  }

  lemma CacheOkAny(cache: seq<CacheItem>, dst: seq<Page>, bitmap: Bits, bitmap': Bits, mode: Mode)
    requires CacheOk(cache, dst, bitmap, mode) && !mode.lastStage && |bitmap'| == |bitmap|
    ensures CacheOk(cache, dst, bitmap', mode)
  {
    forall i | 0 <= i < |cache|
      ensures ItemOk(cache, i, dst, bitmap', false)
    {
      assert ItemOk(cache, i, dst, bitmap, false);
    }
  }

  /** Both sides have the same in every page of every block, apart from the pages in `but`. */
  ghost predicate Same(blocks: seq<Block>, src: seq<Page>, dst: seq<Page>, but: set<nat>) {
    forall k: nat, i: nat ::
      IsPage(blocks, k, i) ==> SamePage(src, dst, PageAt(blocks[k], i)) || PageAt(blocks[k], i) in but
  }

  ghost predicate SamePage(src: seq<Page>, dst: seq<Page>, p: nat) {
    p < |src| && p < |dst| && dst[p] == src[p]
  }

  /** A block's pages that are neither logged nor to be sent are the same on both sides. */
  lemma CleanSame(blocks: seq<Block>, src: seq<Page>, dst: seq<Page>, log: Bits, bitmap: Bits, but: set<nat>)
    requires BlocksOk(blocks, |src|) && Agree(src, dst, log, bitmap, but)
    requires AllClean(blocks, log) && AllClean(blocks, bitmap)
    ensures Same(blocks, src, dst, but)
  {
    forall k: nat, i: nat | IsPage(blocks, k, i)
      ensures SamePage(src, dst, PageAt(blocks[k], i)) || PageAt(blocks[k], i) in but
    {
      assert !Dirty(blocks, log, k, i) && !Dirty(blocks, bitmap, k, i);
    }
  }

  lemma SameButLast(blocks: seq<Block>, src: seq<Page>, dst: seq<Page>)
    requires BlocksOk(blocks, |src|) && Same(blocks, src, dst, {LastPage(blocks)})
    ensures Same(blocks, src, dst, {}) <==> SamePage(src, dst, LastPage(blocks))
  {
    assert IsPage(blocks, |blocks| - 1, blocks[|blocks| - 1].pages - 1);
  }

  lemma SameMore(blocks: seq<Block>, src: seq<Page>, dst: seq<Page>, but: set<nat>, but': set<nat>)
    requires Same(blocks, src, dst, but) && but <= but'
    ensures Same(blocks, src, dst, but')
  {
  }

  /** After a sync the last page is the only dirty one just if it was the only one logged or to be sent before. */
  lemma OnlyLastSynced(blocks: seq<Block>, log: Bits, bitmap: Bits, log': Bits, bitmap': Bits)
    requires Synced(log, bitmap, log', bitmap') && AllClean(blocks, log')
    ensures OnlyLast(blocks, bitmap') == OnlyLast(blocks, Or(log, bitmap))
  {
    var all := Or(log, bitmap);
    forall k: nat, i: nat | IsPage(blocks, k, i)
      ensures Dirty(blocks, bitmap', k, i) == Dirty(blocks, all, k, i)
    {
      assert !Dirty(blocks, log', k, i);
    }
    if blocks != [] && blocks[|blocks| - 1].pages > 0 {
      assert IsPage(blocks, |blocks| - 1, blocks[|blocks| - 1].pages - 1);
    }
  }

  lemma LastPageBound(blocks: seq<Block>, n: nat)
    requires BlocksOk(blocks, n)
    ensures LastPage(blocks) < n
  {
  }

  lemma CleanLast(blocks: seq<Block>, bitmap: Bits)
    requires BlocksOk(blocks, |bitmap|) && AllClean(blocks, bitmap)
    ensures !bitmap[LastPage(blocks)]
  {
    assert !Dirty(blocks, bitmap, |blocks| - 1, blocks[|blocks| - 1].pages - 1);
  }

  /** A page just sent is not overlooked. */
  lemma SentNotOnly(blocks: seq<Block>, bitmap: Bits, lastSeen: Option<nat>, lastOffset: nat)
    requires lastSeen.Some? && lastSeen.value < |blocks| && !Dirty(blocks, bitmap, lastSeen.value, lastOffset)
    ensures !(AtEnd(blocks, lastSeen, lastOffset) && OnlyLast(blocks, bitmap))
  {
  }

  // ---- What one call changes ----

  /** All of a migration's state that decides which pages are sent, and the two memories. */
  datatype Snap = Snap(src: seq<Page>, dst: seq<Page>, log: Bits, bitmap: Bits,
                       bulk: bool, lastSeen: Option<nat>, lastOffset: nat)

  /** The state in which a call of ram_save_block begins. */
  datatype Entry = Entry(snap: Snap, cache: seq<CacheItem>, stream: seq<Record>, stale: set<nat>)

  function StartBlock(lastSeen: Option<nat>): nat {
    if lastSeen.None? then 0 else lastSeen.value
  }

  /** The one state in which ram_save_block loses a page: the bulk stage has just sent the very last page, and
      that page is the only one that has become dirty again. */
  ghost predicate Overlooking(blocks: seq<Block>, s: Snap) {
    s.bulk && AtEnd(blocks, s.lastSeen, s.lastOffset) && OnlyLast(blocks, s.bitmap)
  }

  /** The same once the log has been synced. */
  ghost predicate OverlookingLogged(blocks: seq<Block>, s: Snap) {
    s.bulk && AtEnd(blocks, s.lastSeen, s.lastOffset) && |s.log| == |s.bitmap| && OnlyLast(blocks, Or(s.log, s.bitmap))
  }

  /** The next page of the bulk stage has been sent. */
  function BulkSent(blocks: seq<Block>, a: Snap): Snap {
    var next := NextBulk(blocks, a.bitmap, a.lastSeen, a.lastOffset);
    if next.None? || next.value.block >= |blocks| then a
    else
      var p := PageAt(blocks[next.value.block], next.value.offset);
      if p >= |a.src| || p >= |a.dst| || p >= |a.bitmap| then a
      else a.(dst := a.dst[p := a.src[p]], bitmap := a.bitmap[p := false],
              lastSeen := Some(next.value.block), lastOffset := next.value.offset)
  }

  /** What ram_save_block does: a page is sent and the cursor is at it, or there is none left. The destination gets
      only pages that were dirty, and a bit is cleared only if the destination has the page. The bulk stage sends its
      next page and does nothing else, and ends when there is no such page. In the overlooking state the last page's
      bit is cleared and nothing else happens. */
  ghost predicate Saves(blocks: seq<Block>, a: Snap, b: Snap, sent: bool) {
    && blocks != [] && b.src == a.src && b.log == a.log && |b.bitmap| == |a.bitmap|
    && (sent ==> b.lastSeen.Some? && IsPage(blocks, b.lastSeen.value, b.lastOffset) &&
                 !Dirty(blocks, b.bitmap, b.lastSeen.value, b.lastOffset) && Count(b.bitmap) < Count(a.bitmap))
    && (!sent ==> AllClean(blocks, b.bitmap) && !b.bulk && b.dst == a.dst)
    && b.bulk == (a.bulk && NextBulk(blocks, a.bitmap, a.lastSeen, a.lastOffset).Some?)
    && (b.bulk ==> sent && b == BulkSent(blocks, a))
    && if Overlooking(blocks, a) then !sent && b.bitmap == a.bitmap[LastPage(blocks) := false] && b.dst == a.dst
       else Cleared(a.bitmap, b.bitmap, a.src, a.dst, b.dst)
  }

  /** A page was sent: the next call does not overlook it, and stale pages have not changed. */
  lemma SavesOne(blocks: seq<Block>, a: Snap, b: Snap, stale: set<nat>)
    requires Saves(blocks, a, b, true) && Agree(a.src, a.dst, a.log, a.bitmap, stale)
    ensures b.log == a.log && b.src == a.src && |b.dst| == |a.dst| && Count(b.bitmap) < Count(a.bitmap)
    ensures !Overlooking(blocks, a) && !Overlooking(blocks, b)
    ensures forall p :: p in stale ==> p < |a.dst| && b.dst[p] == a.dst[p]
  {
    hide Agree, Cleared, NextBulk, Count;
    SentNotOnly(blocks, b.bitmap, b.lastSeen, b.lastOffset);
    ClearedLengths(a.bitmap, b.bitmap, a.src, a.dst, b.dst);
    forall p | p in stale
      ensures p < |a.dst| && b.dst[p] == a.dst[p]
    {
      StaleKept(a.src, a.dst, a.log, a.bitmap, stale, b.bitmap, b.dst, p);
    }
  }

  lemma ClearedLengths(before: Bits, now: Bits, src: seq<Page>, was: seq<Page>, dst: seq<Page>)
    requires Cleared(before, now, src, was, dst)
    ensures |dst| == |was| == |src|
  {
  }

  lemma SavesNone(blocks: seq<Block>, a: Snap, b: Snap)
    requires Saves(blocks, a, b, false)
    ensures b.log == a.log && b.src == a.src && b.dst == a.dst && AllClean(blocks, b.bitmap)
  {
  }

  // ---- Saving ----

  class RamSaver {
    const blocks: seq<Block>
    const xbzrle: bool
    const bits: MigrationBitmap
    var src: seq<Page>              // the guest's memory
    var cache: seq<CacheItem>
    var bulk: bool
    var lastSeen: Option<nat>
    var lastOffset: nat
    var stream: seq<Record>

    ghost const dst0: seq<Page>     // the destination's memory at the start,
    ghost var dst: seq<Page>        // and after the stream so far
    ghost var final: bool           // the last stage has begun
    ghost var stale: set<nat>       // pages that are neither sent nor to be sent

    ghost function Mode(): Mode
      reads this
    {
      RamPages.Mode(bulk, xbzrle, final)
    }

    /** What holds between any two steps, except that sent pages agree. */
    ghost predicate Shape()
      reads this, bits
    {
      && bits.Valid()
      && |src| == |dst| <= |bits.bitmap| && BlocksOk(blocks, |src|)
      && Delivers(blocks, dst0, stream, dst)
      && (lastSeen.None? ==> bulk && lastOffset == 0)
      && (lastSeen.Some? ==> lastSeen.value < |blocks| && lastOffset <= blocks[lastSeen.value].pages)
      && (bulk ==> Ahead(blocks, bits.bitmap, lastSeen, lastOffset))
    }

    ghost predicate Valid()
      reads this, bits
    {
      && Shape()
      && CacheOk(cache, dst, bits.bitmap, Mode())
      && Agree(src, dst, bits.log, bits.bitmap, stale)
      && (bulk ==> stale == {}) && stale <= {LastPage(blocks)}
    }

    /** ram_save_setup: everything is to be sent. */
    constructor (blocks: seq<Block>, xbzrle: bool, src: seq<Page>, log: Bits, cacheSize: nat, ghost dst0: seq<Page>)
      requires BlocksOk(blocks, |src|) && |dst0| == |src| && |log| == AlignUp(|src|, BITS_PER_LONG) && cacheSize > 0
      ensures Valid() && fresh(bits) && this.blocks == blocks && this.src == src && dst == dst0
      ensures bulk && lastSeen == None && lastOffset == 0 && stream == [] && !final && stale == {} && bits.log == log
    {
      this.blocks, this.xbzrle, this.src := blocks, xbzrle, src;
      bits := new MigrationBitmap(|src|, log);
      cache := seq(cacheSize, _ => Free);
      bulk, lastSeen, lastOffset, stream := true, None, 0, [];
      this.dst0, dst, final, stale := dst0, dst0, false, {};
    }

    /** migration_bitmap_find_and_reset_dirty. In the bulk stage it does not look at the bitmap unless the search
        begins at the block's first page. */
    method FindAndReset(block: nat, start: nat) returns (offset: nat)
      requires bits.Valid() && BlocksOk(blocks, |bits.bitmap|) && block < |blocks|
      requires bulk && 0 < start < blocks[block].pages - 1 ==> Dirty(blocks, bits.bitmap, block, start + 1)
      modifies bits
      ensures bits.Valid() && bits.log == old(bits.log)
      ensures offset < blocks[block].pages ==>
                && old(Dirty(blocks, bits.bitmap, block, offset)) && !Dirty(blocks, bits.bitmap, block, offset)
                && bits.bitmap == old(bits.bitmap)[PageAt(blocks[block], offset) := false]
      ensures offset >= blocks[block].pages ==> bits.bitmap == old(bits.bitmap)
      ensures offset < blocks[block].pages ==> start <= offset && Count(bits.bitmap) < old(Count(bits.bitmap))
      ensures if bulk && start > 0 then offset == start + 1
              else offset <= blocks[block].pages && Found(blocks, old(bits.bitmap), block, start, offset)
    {
      if bulk && start > 0 {
        offset := start + 1;
      } else {
        offset := start;
        while offset < blocks[block].pages && !bits.bitmap[PageAt(blocks[block], offset)]
          invariant start <= offset && (offset <= blocks[block].pages || offset == start)
          invariant forall i :: start <= i < offset && i < blocks[block].pages ==> !Dirty(blocks, bits.bitmap, block, i)
        {
          offset := offset + 1;
        }
        if offset > blocks[block].pages {
          offset := blocks[block].pages;
        }
      }
      if offset < blocks[block].pages {
        CountUpdate(bits.bitmap, PageAt(blocks[block], offset), false);
        bits.bitmap := bits.bitmap[PageAt(blocks[block], offset) := false];
        bits.dirtyPages := bits.dirtyPages - 1;
      }
    }

    /** save_xbzrle_page */
    method SaveXbzrlePage(addr: nat, page: Page, lastStage: bool) returns (content: Option<Content>)
      requires cache != []
      modifies this`cache
      ensures Saved(cache, content) == SavedXbzrle(old(cache), addr, page, lastStage)
      ensures content.Some? ==> ContentOk(content.value)
    {
      hide Encoded, Overflows;
      if !IsCached(cache, addr) {
        if !lastStage {
          cache := CacheInsert(cache, addr, page);
        }
        return Some(SendPage(page));
      }
      var previous := cache[CachePos(cache, addr)].data;
      SamePageFits(page);
      var r, buf := EncodeBuffer(previous, page, PAGE_SIZE);
      if r == 0 {
        return None;
      }
      if r == -1 {
        cache := CacheInsert(cache, addr, page);
        return Some(SendPage(page));
      }
      if !lastStage {
        cache := CacheInsert(cache, addr, page);
      }
      content := Some(SendDelta(buf));
    }

    /** What ram_save_block does with a page it has found: whichever way it goes, the destination has the page. */
    method SavePage(block: nat, offset: nat, lastStage: bool) returns (sent: bool)
      requires IsPage(blocks, block, offset) && BlocksOk(blocks, |src|) && |src| == |dst| <= |bits.bitmap|
      requires !Dirty(blocks, bits.bitmap, block, offset) && lastStage == final
      requires cache != [] && CacheOk(cache, dst, bits.bitmap[PageAt(blocks[block], offset) := true], Mode())
      requires Agree(src, dst, bits.log, bits.bitmap[PageAt(blocks[block], offset) := true], stale)
      requires Delivers(blocks, dst0, stream, dst)
      modifies this`cache, this`stream, this`dst
      ensures dst == old(dst)[PageAt(blocks[block], offset) := src[PageAt(blocks[block], offset)]]
      ensures CacheOk(cache, dst, bits.bitmap, Mode()) && |dst| == old(|dst|)
      ensures Agree(src, dst, bits.log, bits.bitmap, stale)
      ensures Delivers(blocks, dst0, stream, dst)
      ensures !sent ==> !bulk && !CacheEmpty(old(cache)) && dst == old(dst) && stream == old(stream)
      ensures var p := PageAt(blocks[block], offset);
              var saved := SavedPage(old(cache), p, src[p], Mode());
              && cache == saved.cache && sent == saved.content.Some?
              && (sent ==> stream == old(stream) + [Record(block, offset, saved.content.value)])
    {
      hide CacheOk, Agree, StreamOk, Replayed, FillPage;
      var addr := PageAt(blocks[block], offset);
      var page := src[addr];
      var content: Option<Content>;
      if page == ZeroPage() {
        content := Some(SendFill(0));
        if !bulk && xbzrle {
          cache := CacheInsert(cache, addr, page);
        }
      } else if !bulk && xbzrle {
        content := SaveXbzrlePage(addr, page, lastStage);
      } else {
        content := Some(SendPage(page));
      }
      assert Saved(cache, content) == SavedPage(old(cache), addr, page, Mode());
      SentExact(old(cache), dst, bits.bitmap[addr := true], addr, page, Mode());
      SentCacheOk(old(cache), dst, bits.bitmap[addr := true], addr, page, Mode());
      AgreeSent(src, dst, bits.log, bits.bitmap[addr := true], stale, addr);
      assert bits.bitmap[addr := true][addr := false] == bits.bitmap;
      sent := content.Some?;
      if sent {
        ReplayedMore(blocks, dst0, stream, Record(block, offset, content.value), dst);
        stream := stream + [Record(block, offset, content.value)];
      }
      dst := dst[addr := page];
    }

    ghost function Now(): Snap
      reads this, bits
    {
      Snap(src, dst, bits.log, bits.bitmap, bulk, lastSeen, lastOffset)
    }

    /** The scan that a call of ram_save_block began in state `e` stands at this place; `bm` is the bitmap. Nothing has
        been sent yet. */
    ghost predicate InScan(e: Entry, bm: Bits, round: bool, block: nat, offset: nat)
      reads this
    {
      && src == e.snap.src && dst == e.snap.dst && lastSeen == e.snap.lastSeen && lastOffset == e.snap.lastOffset
      && cache == e.cache && stream == e.stream && stale == e.stale
      && |src| == |dst| <= |bm| == |e.snap.bitmap| == |e.snap.log| && BlocksOk(blocks, |src|)
      && Scan(blocks, bm, StartBlock(lastSeen), lastOffset, e.snap.bulk, bulk, round, block, offset)
      && (lastSeen.None? ==> bulk && !round && lastOffset == 0)
      && (bulk ==> Ahead(blocks, bm, lastSeen, lastOffset))
      && Delivers(blocks, dst0, stream, dst) && CacheOk(cache, dst, bm, Mode())
      && Agree(src, dst, e.snap.log, bm, stale) && stale <= {LastPage(blocks)}
      && (e.snap.bulk ==> stale == {} && bm == e.snap.bitmap && CacheEmpty(cache))
      && Cleared(e.snap.bitmap, bm, src, dst, dst) && OnlyUnchanged(blocks, e.snap.bitmap, bm, cache, xbzrle, src)
    }

    /** The scan is over: a page was sent, or there is none left. */
    ghost predicate Scanned(e: Entry, sent: bool, block: nat, offset: nat)
      reads this, bits
    {
      && src == e.snap.src && bits.log == e.snap.log && |bits.bitmap| == |e.snap.bitmap|
      && Delivers(blocks, dst0, stream, dst) && CacheOk(cache, dst, bits.bitmap, Mode())
      && Agree(src, dst, bits.log, bits.bitmap, stale)
      && block < |blocks| && offset <= blocks[block].pages && |dst| == |src|
      && (if sent then SentFirst(e, block, offset)
          else AllClean(blocks, bits.bitmap) && !bulk && dst == e.snap.dst && stream == e.stream)
      && bulk == (e.snap.bulk && NextBulk(blocks, e.snap.bitmap, e.snap.lastSeen, e.snap.lastOffset).Some?)
      && (bulk ==> sent && SentNext(e, block, offset) && Ahead(blocks, bits.bitmap, Some(block), offset))
      && if Overlooking(blocks, e.snap)
         then !sent && LastPage(blocks) < |bits.bitmap| &&
              bits.bitmap == e.snap.bitmap[LastPage(blocks) := false] &&
              stale == (if bits.log[LastPage(blocks)] then {} else {LastPage(blocks)})
         else Cleared(e.snap.bitmap, bits.bitmap, src, e.snap.dst, dst) && stale == e.stale &&
              (!sent ==> OnlyUnchanged(blocks, e.snap.bitmap, bits.bitmap, e.cache, xbzrle, src))
    }

    /** The page that was sent is the first one to be sent. */
    ghost predicate SentFirst(e: Entry, block: nat, offset: nat)
      reads this, bits
    {
      && IsPage(blocks, block, offset) && !Dirty(blocks, bits.bitmap, block, offset)
      && (exists c :: stream == e.stream + [Record(block, offset, c)])
      && FirstToSend(blocks, e.snap.bitmap, e.cache, xbzrle, src, e.snap.bulk,
                     StartBlock(e.snap.lastSeen), e.snap.lastOffset, block, offset)
    }

    /** The bulk stage has sent its next page and done nothing else. */
    ghost predicate SentNext(e: Entry, block: nat, offset: nat)
      requires block < |blocks|
      reads this, bits
    {
      var p := PageAt(blocks[block], offset);
      && NextBulk(blocks, e.snap.bitmap, e.snap.lastSeen, e.snap.lastOffset) == Some(Place(block, offset))
      && p < |src| == |e.snap.dst| && p < |e.snap.bitmap|
      && bits.bitmap == e.snap.bitmap[p := false] && dst == e.snap.dst[p := src[p]]
    }

    /** A page that the scan has found: it would be the first to send, or it is unchanged and the scan goes on. */
    lemma FoundPlace(e: Entry, bm: Bits, round: bool, block: nat, start: nat, offset: nat)
      requires InScan(e, bm, round, block, start) && IsPage(blocks, block, offset)
      requires if bulk && start > 0 then offset == start + 1
               else start <= offset && Found(blocks, bm, block, start, offset)
      requires round && block == StartBlock(lastSeen) ==> offset < lastOffset
      requires Dirty(blocks, bm, block, offset)
      ensures var p, b, bulk0 := PageAt(blocks[block], offset), StartBlock(lastSeen), e.snap.bulk;
              && p < |bm| && !Overlooking(blocks, e.snap) && (bulk ==> bulk0)
              && (if bulk then
                    && Ahead(blocks, bm[p := false], Some(block), offset)
                    && NextBulk(blocks, bm, lastSeen, lastOffset) == Some(Place(block, offset))
                  else
                    && Scan(blocks, bm[p := false], b, lastOffset, bulk0, false, round, block, offset)
                    && (bulk0 ==> NextBulk(blocks, bm, lastSeen, lastOffset) == None))
              && (if Unchanged(cache, xbzrle, src, p)
                  then OnlyUnchanged(blocks, e.snap.bitmap, bm[p := false], cache, xbzrle, src)
                  else FirstToSend(blocks, e.snap.bitmap, cache, xbzrle, src, bulk0, b, lastOffset, block, offset))
    {
      hide Clean, Ahead, CacheOk, Agree, Delivers, OnlyLast, Found, CacheEmpty, NextBulk, Cleared, OnlyUnchanged,
           Unchanged, FirstToSend, Scan;
      ghost var p, b, bulk0 := PageAt(blocks[block], offset), StartBlock(lastSeen), e.snap.bulk;
      BlocksMore(blocks, |src|, |bm|);
      DirtyBefore(blocks, e.snap.bitmap, bm, src, dst, dst, block, offset);
      ScanBounds(blocks, bm, b, lastOffset, bulk0, bulk, round, block, start);
      FoundElsewhere(blocks, bm, b, lastOffset, bulk0, bulk, round, block, start, offset);
      if bulk {
        AheadAfter(blocks, bm, lastSeen, lastOffset, block, offset);
        BulkInOrder(blocks, bm, lastSeen, b, lastOffset, block, start, offset);
      } else {
        ScanSkips(blocks, bm, b, lastOffset, bulk0, round, block, start, offset);
        if bulk0 {
          BulkIsOver(blocks, bm, b, lastOffset, round, block, start);
        }
      }
      if Unchanged(cache, xbzrle, src, p) {
        UnchangedMore(blocks, e.snap.bitmap, bm, cache, xbzrle, src, block, offset);
      } else {
        FirstIs(blocks, e.snap.bitmap, bm, cache, xbzrle, src, b, lastOffset, bulk0, bulk, round, block, start, offset);
      }
    }

    /** The scan has found a page: it is sent and the scan over, or it need not be sent and the scan goes on. */
    method SaveFound(block: nat, offset: nat, lastStage: bool,
                     ghost e: Entry, ghost bm: Bits, ghost round: bool, ghost start: nat)
      returns (sent: bool)
      requires InScan(e, bm, round, block, start) && IsPage(blocks, block, offset) && lastStage == final
      requires if bulk && start > 0 then offset == start + 1
               else start <= offset && Found(blocks, bm, block, start, offset)
      requires round && block == StartBlock(lastSeen) ==> offset < lastOffset
      requires Dirty(blocks, bm, block, offset) && bits.bitmap == bm[PageAt(blocks[block], offset) := false]
      requires bits.log == e.snap.log
      modifies this`cache, this`stream, this`dst
      ensures if sent then Scanned(e, true, block, offset) else InScan(e, bits.bitmap, round, block, offset)
    {
      hide Clean, Ahead, CacheOk, Agree, Delivers, OnlyLast, Found, CacheEmpty, NextBulk, Cleared, OnlyUnchanged,
           Unchanged, FirstToSend, SavedPage, Scan, Overlooking;
      ghost var p := PageAt(blocks[block], offset);
      BlocksMore(blocks, |src|, |bm|);
      FoundPlace(e, bm, round, block, start, offset);
      ClearedSent(e.snap.bitmap, bm, src, dst, dst, p);
      assert bits.bitmap[p := true] == bm;
      CacheNonempty(cache, dst, bm, Mode());
      UnchangedIs(cache, src, p, Mode());
      EmptyUnchanged(cache, xbzrle, src, p);
      sent := SavePage(block, offset, lastStage);
    }

    /** The scan has come around: there is nothing left to be sent. If it has stopped at a page, that page is lost,
        unless the log has it too. */
    ghost method ScanOver(e: Entry, bm: Bits, block: nat, start: nat, offset: nat)
      requires InScan(e, bm, true, block, start) && lastSeen == Some(block) && block < |blocks|
      requires Found(blocks, bm, block, start, offset) && lastOffset <= offset <= blocks[block].pages
      requires bits.bitmap == if offset < blocks[block].pages && PageAt(blocks[block], offset) < |bm|
                              then bm[PageAt(blocks[block], offset) := false] else bm
      requires bits.log == e.snap.log
      modifies this`stale
      ensures Scanned(e, false, block, offset)
    {
      hide Scan, Clean, CacheOk, Agree, Delivers, AllClean, OnlyLast, Found, LastPage, PageAt, Cleared, OnlyUnchanged,
           NextBulk, Ahead, CacheEmpty;
      BlocksMore(blocks, |src|, |bm|);
      ScanBounds(blocks, bm, block, lastOffset, e.snap.bulk, bulk, true, block, start);
      ScanEnds(blocks, bm, block, lastOffset, e.snap.bulk, start, offset);
      if e.snap.bulk {
        BulkIsOver(blocks, bm, block, lastOffset, true, block, start);
      }
      if offset < blocks[block].pages {
        OnlyLastGone(blocks, bm);
        LastPageBound(blocks, |src|);
        AgreeLost(src, dst, bits.log, bm, LastPage(blocks));
        CacheOkFewer(cache, dst, bm, Mode(), LastPage(blocks));
        stale := if bits.log[LastPage(blocks)] then {} else {LastPage(blocks)};
      }
    }

    /** The block has no page to be sent: the scan goes on with the next one, or starts over, and then the bulk stage
        is over. */
    method MoveOn(block: nat, ghost e: Entry, ghost bm: Bits, ghost round: bool, ghost start: nat, ghost x: nat)
      returns (block': nat, wraps: bool)
      requires InScan(e, bm, round, block, start) && block < |blocks| && x >= blocks[block].pages
      requires if bulk && start > 0 then x == start + 1 else Found(blocks, bm, block, start, x)
      requires !(round && lastSeen == Some(block))
      modifies this`bulk
      ensures wraps ==> !round && block' == 0
      ensures !wraps ==> block' == block + 1 < |blocks|
      ensures InScan(e, bm, round || wraps, block', 0)
    {
      hide Scan, Clean, CacheOk, Agree, Delivers, Found, Cleared, OnlyUnchanged, Ahead, CacheEmpty;
      BlocksMore(blocks, |src|, |bm|);
      ghost var b := StartBlock(lastSeen);
      ScanBounds(blocks, bm, b, lastOffset, e.snap.bulk, bulk, round, block, start);
      if bulk {
        BulkMoves(blocks, bm, lastSeen, b, lastOffset, block, start, x);
      }
      ScanMoves(blocks, bm, b, lastOffset, e.snap.bulk, bulk, round, block, start, x);
      block' := block + 1;
      wraps := block' == |blocks|;
      if wraps {
        block' := 0;
        CacheOkLater(cache, dst, bm, Mode());
        bulk := false;
      }
    }

    /** The loop of ram_save_block: where it stops, and whether a page was sent. */
    method ScanBlocks(lastStage: bool, ghost e: Entry) returns (sent: bool, block: nat, offset: nat)
      requires Valid() && lastStage == final && e == Entry(Now(), cache, stream, stale)
      modifies this`cache, this`stream, this`dst, this`bulk, this`stale, bits
      ensures bits.Valid() && Scanned(e, sent, block, offset)
      ensures sent ==> Count(bits.bitmap) < Count(e.snap.bitmap)
    {
      ScanBegins(e);
      hide InScan, Scanned, Found, Dirty, Count, BlocksOk, RamSaver.Valid;
      sent := false;
      block := StartBlock(lastSeen);
      offset := lastOffset;
      var completeRound := false;
      while true
        invariant InScan(e, bits.bitmap, completeRound, block, offset) && bits.Valid() && !sent
        invariant bits.log == e.snap.log && Count(bits.bitmap) <= Count(e.snap.bitmap)
        invariant lastSeen == e.snap.lastSeen && lastOffset == e.snap.lastOffset
        decreases if completeRound then 0 else 1, |blocks| - block, Count(bits.bitmap)
      {
        ghost var bm := bits.bitmap;
        ghost var start: nat := offset;
        ScanNeeds(e, bm, completeRound, block, offset);
        offset := FindAndReset(block, offset);
        if completeRound && lastSeen == Some(block) && offset >= lastOffset {
          ScanOver(e, bm, block, start, offset);
          break;
        }
        if offset >= blocks[block].pages {
          var wraps;
          block, wraps := MoveOn(block, e, bm, completeRound, start, offset);
          offset := 0;
          completeRound := completeRound || wraps;
        } else {
          sent := SaveFound(block, offset, lastStage, e, bm, completeRound, start);
          if sent {
            break;
          }
        }
      }
    }

    lemma ScanBegins(e: Entry)
      requires Valid() && e == Entry(Now(), cache, stream, stale)
      ensures InScan(e, bits.bitmap, false, StartBlock(lastSeen), lastOffset)
    {
      hide Ahead, CacheOk, Agree, Delivers, Cleared, OnlyUnchanged, Scan, CacheEmpty;
      BlocksMore(blocks, |src|, |src|);
      AgreeLengths(src, dst, bits.log, bits.bitmap, stale);
      UnchangedStart(blocks, bits.bitmap, cache, xbzrle, src);
      ClearedStart(bits.bitmap, src, dst);
      CacheOkLater(cache, dst, bits.bitmap, Mode());
      ScanStarts(blocks, bits.bitmap, StartBlock(lastSeen), lastOffset, bulk);
    }

    /** What the search for the next bit relies on. */
    lemma ScanNeeds(e: Entry, bm: Bits, round: bool, block: nat, offset: nat)
      requires InScan(e, bm, round, block, offset)
      ensures BlocksOk(blocks, |bm|) && block < |blocks| && StartBlock(lastSeen) < |blocks|
      ensures round ==> !bulk && lastSeen.Some?
      ensures bulk && 0 < offset < blocks[block].pages - 1 ==> Dirty(blocks, bm, block, offset + 1)
      ensures lastOffset <= offset || round || block > StartBlock(lastSeen)
    {
      hide Ahead, CacheOk, Agree, Delivers, Cleared, OnlyUnchanged, Clean, CacheEmpty;
      BlocksMore(blocks, |src|, |bm|);
      if bulk && 0 < offset < blocks[block].pages - 1 {
        AheadNext(blocks, bm, lastSeen, lastOffset, StartBlock(lastSeen));
      }
    }

    /** ram_save_block: sends one page, and says so, or there is no page to be sent. */
    method RamSaveBlock(lastStage: bool) returns (sent: bool)
      requires Valid() && (final ==> lastStage)
      modifies this`cache, this`stream, this`dst, this`bulk, this`lastSeen, this`lastOffset, this`final, this`stale,
               bits
      ensures Valid() && final == lastStage && Saves(blocks, old(Now()), Now(), sent)
      ensures if sent then exists c :: stream == old(stream) + [Record(lastSeen.value, lastOffset, c)]
              else stream == old(stream)
      ensures sent ==> FirstToSend(blocks, old(bits.bitmap), old(cache), xbzrle, src, old(bulk),
                                   StartBlock(old(lastSeen)), old(lastOffset), lastSeen.value, lastOffset)
      ensures !sent && !old(Overlooking(blocks, Now())) ==>
                OnlyUnchanged(blocks, old(bits.bitmap), bits.bitmap, old(cache), xbzrle, src)
      ensures stale == if !old(Overlooking(blocks, Now())) then old(stale)
                       else if bits.log[LastPage(blocks)] then {} else {LastPage(blocks)}
    {
      hide Ahead, CacheOk, Agree, Delivers, AllClean, OnlyLast, Dirty, Count, NextBulk, Cleared, OnlyUnchanged,
           FirstToSend;
      CacheOkLater(cache, dst, bits.bitmap, Mode());
      final := lastStage;
      var block, offset;
      sent, block, offset := ScanBlocks(lastStage, Entry(Now(), cache, stream, stale));
      lastSeen, lastOffset := Some(block), offset;
    }

    /** The guest writes a page, which the dirty log records. */
    method GuestWrite(p: nat, data: Page)
      requires Valid() && !final && p < |src|
      modifies this`src, this`stale, bits`log
      ensures Valid() && src == old(src)[p := data] && bits.log == old(bits.log)[p := true] && stale == old(stale) - {p}
    {
      hide Ahead, CacheOk, Delivers, BlocksOk;
      src := src[p := data];
      bits.log := bits.log[p := true];
      stale := stale - {p};
    }

    /** migration_bitmap_sync: after it every page that was logged is to be sent. */
    method Sync()
      requires Valid() && !final
      modifies bits
      ensures Valid() && AllClean(blocks, bits.log)
      ensures Synced(old(bits.log), old(bits.bitmap), bits.log, bits.bitmap)
      ensures bits.log == LogAfter(blocks, old(bits.log))
      ensures bits.bitmap == BitmapAfter(blocks, old(bits.log), old(bits.bitmap))
    {
      hide Ahead, CacheOk, Agree, Delivers, Moved, LogAfter, BitmapAfter;
      AfterNone(old(bits.log), old(bits.bitmap));
      assert blocks[..0] == [];
      var k := 0;
      while k < |blocks|
        invariant 0 <= k <= |blocks| && bits.Valid() && |bits.bitmap| == old(|bits.bitmap|)
        invariant Synced(old(bits.log), old(bits.bitmap), bits.log, bits.bitmap)
        invariant AllClean(blocks[..k], bits.log)
        invariant bits.log == LogAfter(blocks[..k], old(bits.log))
        invariant bits.bitmap == BitmapAfter(blocks[..k], old(bits.log), old(bits.bitmap))
      {
        ghost var l, b := bits.log, bits.bitmap;
        bits.SyncRange(blocks[k].base, blocks[k].pages);
        MovedSynced(old(bits.log), old(bits.bitmap), l, b, bits.log, bits.bitmap,
                    blocks[k].base, SyncedEnd(blocks[k].base, blocks[k].pages));
        BlockSynced(blocks, k, l, b, bits.log, bits.bitmap);
        AfterMore(blocks, k, old(bits.log), old(bits.bitmap), bits.log, bits.bitmap);
        k := k + 1;
      }
      assert blocks[..k] == blocks;
      SyncedKeeps(blocks, src, dst, old(bits.log), old(bits.bitmap), bits.log, bits.bitmap, stale, lastSeen,
                  lastOffset);
      CacheOkAny(cache, dst, old(bits.bitmap), bits.bitmap, Mode());
    }

    /** The last page is lost: it is neither sent nor to be sent, or ram_save_complete will overlook it. */
    ghost predicate LosesLast()
      requires blocks != [] && blocks[|blocks| - 1].pages > 0
      reads this, bits
    {
      LastPage(blocks) in stale || OverlookingLogged(blocks, Now())
    }

    /** ram_save_complete: the guest has stopped, and all that is left is sent. Both sides end up the same, unless
        the last page of RAM is lost and differs. */
    method RamSaveComplete()
      requires Valid() && !final
      modifies this`cache, this`stream, this`dst, this`bulk, this`lastSeen, this`lastOffset, this`final, this`stale,
               bits
      ensures Valid() && final
      ensures stale == (if old(LosesLast()) then {LastPage(blocks)} else {}) && Same(blocks, src, dst, stale)
      ensures forall p :: p in stale ==> dst[p] == old(dst)[p]
      ensures Same(blocks, src, dst, {}) <==> !(old(LosesLast()) && src[LastPage(blocks)] != old(dst)[LastPage(blocks)])
    {
      hide Same, Ahead, CacheOk, Agree, Delivers, AllClean, OnlyLast, Dirty, Count, NextBulk, BlocksOk, Cleared, Saves;
      BlocksMore(blocks, |src|, |src|);
      Sync();
      OnlyLastSynced(blocks, old(bits.log), old(bits.bitmap), bits.log, bits.bitmap);
      ghost var loses := OverlookingLogged(blocks, old(Now()));
      while true
        invariant Valid() && AllClean(blocks, bits.log) && |dst| == |old(dst)|
        invariant loses ==> Overlooking(blocks, Now()) && dst == old(dst)
        invariant !loses ==> !Overlooking(blocks, Now()) && stale == old(stale)
        invariant forall p :: p in stale ==> dst[p] == old(dst)[p]
        decreases Count(bits.bitmap)
      {
        ghost var before, was := Now(), stale;
        var sent := RamSaveBlock(true);
        if !sent {
          SavesNone(blocks, before, Now());
          break;
        }
        SavesOne(blocks, before, Now(), was);
      }
      CleanSame(blocks, src, dst, bits.log, bits.bitmap, stale);
      BlocksMore(blocks, |src|, |bits.log|);
      CleanLast(blocks, bits.log);
      assert old(stale) == {} || old(stale) == {LastPage(blocks)};
      if stale == {LastPage(blocks)} {
        SameButLast(blocks, src, dst);
      }
    }
  }

  lemma BlockSynced(blocks: seq<Block>, k: nat, log: Bits, bitmap: Bits, log': Bits, bitmap': Bits)
    requires k < |blocks| && AllClean(blocks[..k], log)
    requires Moved(log, bitmap, log', bitmap', blocks[k].base, SyncedEnd(blocks[k].base, blocks[k].pages))
    ensures AllClean(blocks[..k + 1], log')
  {
    var done, more := blocks[..k], blocks[..k + 1];
    forall j: nat, i: nat | IsPage(more, j, i)
      ensures !Dirty(more, log', j, i)
    {
      assert j < k ==> IsPage(done, j, i) && !Dirty(done, log, j, i);
    }
  }

  // ---- Whole migrations ----

  /** What can happen while a migration runs. */
  datatype Step = Write(page: nat, data: Page) | SyncStep | SaveStep

  /** The guest's memory after the writes among the steps. */
  ghost function Written(src: seq<Page>, steps: seq<Step>): (r: seq<Page>)
    ensures |r| == |src|
  {
    if steps == [] then src
    else
      var before := Written(src, steps[..|steps| - 1]);
      var s := steps[|steps| - 1];
      if s.Write? && s.page < |before| then before[s.page := s.data] else before
  }

  predicate WritesLast(blocks: seq<Block>, step: Step)
    requires blocks != [] && blocks[|blocks| - 1].pages > 0
  {
    step.Write? && step.page == LastPage(blocks)
  }

  /** No step writes the last page. */
  ghost predicate LastUnwritten(blocks: seq<Block>, steps: seq<Step>)
    requires blocks != [] && blocks[|blocks| - 1].pages > 0
  {
    forall i :: 0 <= i < |steps| ==> !WritesLast(blocks, steps[i])
  }

  /** The two sides differ in the last page. */
  ghost predicate LastDiffers(blocks: seq<Block>, s: Snap)
    requires blocks != [] && blocks[|blocks| - 1].pages > 0
  {
    !SamePage(s.src, s.dst, LastPage(blocks))
  }

  function Wrote(s: Snap, p: nat, data: Page): Snap {
    if p < |s.src| && p < |s.log| then s.(src := s.src[p := data], log := s.log[p := true]) else s
  }

  ghost function AfterSync(blocks: seq<Block>, s: Snap): Snap {
    s.(log := LogAfter(blocks, s.log), bitmap := BitmapAfter(blocks, s.log, s.bitmap))
  }

  /** Whether a migration that goes on with these steps loses the last page. While the bulk stage lasts, each step
      has one outcome. The page is lost if a save overlooks it while it is not logged either, the two sides differ in
      it, and no later step writes it; or if the last stage overlooks it and the two sides differ. */
  ghost predicate Loses(blocks: seq<Block>, s: Snap, steps: seq<Step>)
    requires blocks != [] && blocks[|blocks| - 1].pages > 0
    decreases |steps|
  {
    if !s.bulk then false
    else if steps == [] then OverlookingLogged(blocks, s) && LastDiffers(blocks, s)
    else
      var rest := steps[1..];
      match steps[0]
      case Write(p, data) => Loses(blocks, Wrote(s, p, data), rest)
      case SyncStep => Loses(blocks, AfterSync(blocks, s), rest)
      case SaveStep =>
        if Overlooking(blocks, s) then Forgotten(blocks, s) && LastUnwritten(blocks, rest) && LastDiffers(blocks, s)
        else if NextBulk(blocks, s.bitmap, s.lastSeen, s.lastOffset).Some? then Loses(blocks, BulkSent(blocks, s), rest)
        else false
  }

  ghost predicate Forgotten(blocks: seq<Block>, s: Snap)
    requires blocks != [] && blocks[|blocks| - 1].pages > 0
  {
    LastPage(blocks) < |s.log| && !s.log[LastPage(blocks)]
  }

  /** What the state after some of the steps says about the end: it is the same after every step. */
  ghost predicate Doomed(blocks: seq<Block>, s: Snap, stale: set<nat>, steps: seq<Step>)
    requires blocks != [] && blocks[|blocks| - 1].pages > 0
  {
    if s.bulk then Loses(blocks, s, steps)
    else LastPage(blocks) in stale && LastUnwritten(blocks, steps) && LastDiffers(blocks, s)
  }

  lemma LosesStep(blocks: seq<Block>, s: Snap, step: Step, rest: seq<Step>)
    requires blocks != [] && blocks[|blocks| - 1].pages > 0 && s.bulk
    ensures Loses(blocks, s, [step] + rest) ==
            match step
            case Write(p, data) => Loses(blocks, Wrote(s, p, data), rest)
            case SyncStep => Loses(blocks, AfterSync(blocks, s), rest)
            case SaveStep =>
              if Overlooking(blocks, s) then
                Forgotten(blocks, s) && LastUnwritten(blocks, rest) && LastDiffers(blocks, s)
              else
                NextBulk(blocks, s.bitmap, s.lastSeen, s.lastOffset).Some? && Loses(blocks, BulkSent(blocks, s), rest)
  {
    assert ([step] + rest)[1..] == rest;
  }

  lemma UnwrittenStep(blocks: seq<Block>, step: Step, rest: seq<Step>)
    requires blocks != [] && blocks[|blocks| - 1].pages > 0
    ensures LastUnwritten(blocks, [step] + rest) <==> !WritesLast(blocks, step) && LastUnwritten(blocks, rest)
  {
    hide WritesLast;
    var steps := [step] + rest;
    assert steps[0] == step && forall i :: 0 <= i < |rest| ==> steps[i + 1] == rest[i];
  }

  /** Nothing has happened to the last page in between. */
  ghost predicate SameLast(blocks: seq<Block>, a: Snap, b: Snap)
    requires blocks != [] && blocks[|blocks| - 1].pages > 0
  {
    var p := LastPage(blocks);
    p < |a.src| && p < |b.src| && p < |a.dst| && p < |b.dst| && a.src[p] == b.src[p] && a.dst[p] == b.dst[p]
  }

  lemma SameLastDiffers(blocks: seq<Block>, a: Snap, b: Snap)
    requires blocks != [] && blocks[|blocks| - 1].pages > 0 && SameLast(blocks, a, b)
    ensures LastDiffers(blocks, a) == LastDiffers(blocks, b)
  {
  }

  /** A save and what becomes of the last page. */
  lemma SaveTracks(blocks: seq<Block>, a: Snap, b: Snap, sent: bool, stale: set<nat>)
    requires Saves(blocks, a, b, sent) && Agree(a.src, a.dst, a.log, a.bitmap, stale) && BlocksOk(blocks, |a.src|)
    requires stale <= {LastPage(blocks)} && (a.bulk ==> stale == {})
    ensures b.log == a.log && LastPage(blocks) < |a.src| == |a.dst| <= |a.log|
    ensures Overlooking(blocks, a) ==> !b.bulk && SameLast(blocks, a, b)
    ensures LastPage(blocks) in stale ==> SameLast(blocks, a, b)
    ensures b.bulk == (a.bulk && NextBulk(blocks, a.bitmap, a.lastSeen, a.lastOffset).Some?)
    ensures b.bulk ==> b == BulkSent(blocks, a)
  {
    hide NextBulk, Count, AllClean, OnlyLast, Dirty, BulkSent;
    LastPageBound(blocks, |a.src|);
  }

  /** One step of a migration does not change what the rest of it leads to. */
  method DoStep(saver: RamSaver, step: Step, ghost rest: seq<Step>)
    requires saver.Valid() && !saver.final
    modifies saver, saver.bits
    ensures saver.Valid() && !saver.final
    ensures Doomed(saver.blocks, saver.Now(), saver.stale, rest) ==
            old(Doomed(saver.blocks, saver.Now(), saver.stale, [step] + rest))
    ensures saver.src == if step.Write? && step.page < |old(saver.src)| then old(saver.src)[step.page := step.data]
                         else old(saver.src)
  {
    hide Ahead, CacheOk, Agree, Delivers, AllClean, OnlyLast, Dirty, Count, NextBulk, BlocksOk, Cleared, Synced,
         Saves, LastPage, Loses, LastUnwritten, LastDiffers, BulkSent, OnlyUnchanged, FirstToSend, LogAfter,
         BitmapAfter;
    BlocksMore(saver.blocks, |saver.src|, |saver.src|);
    LastPageBound(saver.blocks, |saver.src|);
    ghost var a, stale := saver.Now(), saver.stale;
    AgreeLengths(a.src, a.dst, a.log, a.bitmap, stale);
    UnwrittenStep(saver.blocks, step, rest);
    if a.bulk {
      LosesStep(saver.blocks, a, step, rest);
    }
    match step {
      case Write(p, data) =>
        if p < |saver.src| {
          saver.GuestWrite(p, data);
          if p != LastPage(saver.blocks) {
            SameLastDiffers(saver.blocks, a, saver.Now());
          }
        }
      case SyncStep =>
        saver.Sync();
        SameLastDiffers(saver.blocks, a, saver.Now());
      case SaveStep =>
        var sent := saver.RamSaveBlock(false);
        SaveTracks(saver.blocks, a, saver.Now(), sent, stale);
        if SameLast(saver.blocks, a, saver.Now()) {
          SameLastDiffers(saver.blocks, a, saver.Now());
        }
    }
  }

  lemma AgreeLengths(src: seq<Page>, dst: seq<Page>, log: Bits, bitmap: Bits, but: set<nat>)
    requires Agree(src, dst, log, bitmap, but)
    ensures |src| == |dst| <= |log| == |bitmap|
  {
  }

  /** Nothing is lost if the last block has one page only. */
  lemma {:induction false} OnePageSafe(blocks: seq<Block>, s: Snap, steps: seq<Step>)
    requires blocks != [] && blocks[|blocks| - 1].pages == 1
    ensures !Loses(blocks, s, steps)
    decreases |steps|
  {
    hide LastUnwritten, LastDiffers, OnlyLast, NextBulk, BulkSent, LogAfter, BitmapAfter;
    if s.bulk && steps != [] {
      var rest := steps[1..];
      match steps[0]
      case Write(p, data) => OnePageSafe(blocks, Wrote(s, p, data), rest);
      case SyncStep => OnePageSafe(blocks, AfterSync(blocks, s), rest);
      case SaveStep => OnePageSafe(blocks, BulkSent(blocks, s), rest);
    }
  }

  ghost predicate Writes(step: Step, p: nat) {
    step.Write? && step.page == p
  }

  /** A page of the guest's memory is what the last write to it has left, or what it was if there is none. */
  lemma {:induction false} WrittenIs(src: seq<Page>, steps: seq<Step>, p: nat) returns (last: int)
    requires p < |src|
    ensures -1 <= last < |steps| && forall j :: last < j < |steps| ==> !Writes(steps[j], p)
    ensures last >= 0 ==> Writes(steps[last], p) && Written(src, steps)[p] == steps[last].data
    ensures last < 0 ==> Written(src, steps)[p] == src[p]
  {
    if steps == [] {
      last := -1;
    } else {
      hide Written;
      var n := |steps| - 1;
      assert steps[..n + 1] == steps;
      WrittenNext(src, steps, n);
      if Writes(steps[n], p) {
        last := n;
      } else {
        last := WrittenIs(src, steps[..n], p);
      }
    }
  }

  lemma WrittenNone(src: seq<Page>, steps: seq<Step>)
    requires steps == []
    ensures Written(src, steps) == src
  {
  }

  lemma WrittenNext(src: seq<Page>, steps: seq<Step>, i: nat)
    requires i < |steps|
    ensures var before, s := Written(src, steps[..i]), steps[i];
            Written(src, steps[..i + 1]) == if s.Write? && s.page < |before| then before[s.page := s.data] else before
  {
    assert steps[..i + 1][..i] == steps[..i];
  }

  /** The steps of a migration before it completes. What is lost by the steps to come is lost at the end. */
  method DoSteps(saver: RamSaver, steps: seq<Step>)
    requires saver.Valid() && !saver.final
    modifies saver, saver.bits
    ensures saver.Valid() && !saver.final && saver.src == Written(old(saver.src), steps)
    ensures Doomed(saver.blocks, saver.Now(), saver.stale, []) ==
            old(Doomed(saver.blocks, saver.Now(), saver.stale, steps))
  {
    hide Same, Ahead, CacheOk, Agree, Delivers, AllClean, OnlyLast, Dirty, Count, BlocksOk, Cleared, LastPage,
         Doomed, Written;
    BlocksMore(saver.blocks, |saver.src|, |saver.src|);
    WrittenNone(saver.src, steps[..0]);
    assert steps[0..] == steps;
    var i := 0;
    while i < |steps|
      invariant 0 <= i <= |steps| && saver.Valid() && !saver.final
      invariant saver.src == Written(old(saver.src), steps[..i])
      invariant Doomed(saver.blocks, saver.Now(), saver.stale, steps[i..]) ==
                old(Doomed(saver.blocks, saver.Now(), saver.stale, steps))
    {
      assert steps[i..] == [steps[i]] + steps[i + 1..];
      DoStep(saver, steps[i], steps[i + 1..]);
      WrittenNext(old(saver.src), steps, i);
      i := i + 1;
    }
    assert steps[..i] == steps && steps[i..] == [];
  }

  /** Every migration: whatever the guest writes and whenever pages are sent, in the end the destination, which has
      nothing but the stream, has the guest's memory, if and only if the steps do not lose the last page. They never
      do outside the bulk stage, nor if the last block has one page only. */
  method Migrate(saver: RamSaver, steps: seq<Step>)
    requires saver.Valid() && !saver.final && saver.stale == {}
    modifies saver, saver.bits
    ensures saver.src == Written(old(saver.src), steps)
    ensures Delivers(saver.blocks, saver.dst0, saver.stream, saver.dst)
    ensures saver.Valid() && Same(saver.blocks, saver.src, saver.dst, {LastPage(saver.blocks)})
    ensures Same(saver.blocks, saver.src, saver.dst, {}) <==> !Loses(saver.blocks, old(saver.Now()), steps)
    ensures !old(saver.bulk) ==> Same(saver.blocks, saver.src, saver.dst, {})
    ensures saver.blocks[|saver.blocks| - 1].pages == 1 ==> Same(saver.blocks, saver.src, saver.dst, {})
  {
    hide Same, Ahead, CacheOk, Agree, Delivers, AllClean, OnlyLast, Dirty, Count, BlocksOk, Cleared, LastPage,
         LastUnwritten, BulkSent, NextBulk;
    BlocksMore(saver.blocks, |saver.src|, |saver.src|);
    if saver.blocks[|saver.blocks| - 1].pages == 1 {
      OnePageSafe(saver.blocks, saver.Now(), steps);
    }
    DoSteps(saver, steps);
    DoomedAtEnd(saver.blocks, saver.Now(), saver.stale);
    LastPageBound(saver.blocks, |saver.src|);
    saver.RamSaveComplete();
    SameMore(saver.blocks, saver.src, saver.dst, saver.stale, {LastPage(saver.blocks)});
  }

  lemma DoomedAtEnd(blocks: seq<Block>, s: Snap, stale: set<nat>)
    requires blocks != [] && blocks[|blocks| - 1].pages > 0 && (s.bulk ==> stale == {})
    ensures Doomed(blocks, s, stale, []) <==>
            (LastPage(blocks) in stale || OverlookingLogged(blocks, s)) && LastDiffers(blocks, s)
  {
  }

  /** One block of two zero pages, both sent by the bulk stage. */
  method BothSent() returns (saver: RamSaver)
    ensures fresh(saver) && fresh(saver.bits) && saver.Valid() && !saver.final && saver.stale == {}
    ensures saver.blocks == [Block(0, 2)] && saver.src == [ZeroPage(), ZeroPage()] && saver.dst[1] == ZeroPage()
    ensures saver.bulk && saver.lastSeen == Some(0) && saver.lastOffset == 1
    ensures saver.bits.log == Zero(BITS_PER_LONG) && !saver.bits.bitmap[0] && !saver.bits.bitmap[1]
  {
    hide Ahead, CacheOk, Delivers, AllClean, Count, FillPage;
    var memory := [ZeroPage(), ZeroPage()];
    saver := new RamSaver([Block(0, 2)], false, memory, Zero(BITS_PER_LONG), 1, memory);
    var sent := saver.RamSaveBlock(false);
    assert !Dirty(saver.blocks, saver.bits.bitmap, 0, 0);
    sent := saver.RamSaveBlock(false);
  }

  /** A migration that loses a page: after the bulk stage a write to the last page, and nothing else. The last stage
      finds the page, clears its bit and sends nothing. */
  method LostWrite(data: Page) returns (saver: RamSaver)
    requires data != ZeroPage()
    ensures fresh(saver) && saver.Valid() && saver.final
    ensures !Same(saver.blocks, saver.src, saver.dst, {}) && saver.src == [ZeroPage(), data]
  {
    hide Ahead, CacheOk, Delivers, AllClean, Count, FillPage, Agree, Cleared, NextBulk;
    saver := BothSent();
    saver.GuestWrite(1, data);
    assert OnlyLast(saver.blocks, Or(saver.bits.log, saver.bits.bitmap));
    saver.RamSaveComplete();
  }
}
