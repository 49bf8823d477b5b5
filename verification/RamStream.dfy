/** The bytes of a RAM migration stream (arch_init.c): what the sender writes for the list of blocks and for each
    page, and how the receiver takes it apart. A page's header names its block unless the previous page was of the
    same block. */
module RamStream {
  import Disks
  import opened Endian
  import opened Options
  import opened RamMigration
  import opened RamPages
  import opened TargetPage
  import opened Uleb128
  import opened Xbzrle

  const FLAG_COMPRESS := 0x02
  const FLAG_MEM_SIZE := 0x04
  const FLAG_PAGE := 0x08
  const FLAG_EOS := 0x10
  const FLAG_CONTINUE := 0x20
  const FLAG_XBZRLE := 0x40
  const FLAG_HOOK := 0x80

  const ENCODING_FLAG_XBZRLE := 1

  const WORD64 := 0x1_0000_0000_0000_0000

  type Wire = seq<Disks.Byte>

  function ToWire(s: seq<Octet>): (r: Wire)
    ensures |r| == |s|
  {
    seq(|s|, i requires 0 <= i < |s| => s[i] as nat)
  }

  function FromWire(w: Wire): (r: seq<Octet>)
    ensures |r| == |w|
  {
    seq(|w|, i requires 0 <= i < |w| => w[i] as Octet)
  }

  lemma BytesBack(s: seq<Octet>)
    ensures FromWire(ToWire(s)) == s
  {
    forall i | 0 <= i < |s|
      ensures FromWire(ToWire(s))[i] == s[i]
    {
      NumberBack(s[i]);
    }
  }

  // ---- Reading the wire ----

  function GetBe(wire: Wire, pos: nat, n: nat): Option<nat> {
    if pos + n > |wire| then None else Some(BeValue(wire[pos..pos + n]))
  }

  /** What stands at a position of the wire. */
  ghost predicate At(wire: Wire, pos: nat, part: Wire) {
    pos + |part| <= |wire| && wire[pos..pos + |part|] == part
  }

  lemma AtSplit(wire: Wire, pos: nat, a: Wire, b: Wire)
    requires At(wire, pos, a + b)
    ensures At(wire, pos, a) && At(wire, pos + |a|, b)
  {
    assert wire[pos..pos + |a|] == wire[pos..pos + |a + b|][..|a|];
    assert wire[pos + |a|..pos + |a| + |b|] == wire[pos..pos + |a + b|][|a|..];
  }

  lemma AtIs(wire: Wire, pos: nat, part: Wire)
    requires At(wire, pos, part)
    ensures pos + |part| <= |wire| && wire[pos..pos + |part|] == part
  {
  }

  lemma AtOne(wire: Wire, pos: nat, b: Disks.Byte)
    requires At(wire, pos, [b])
    ensures pos < |wire| && wire[pos] == b
  {
    assert wire[pos..pos + 1][0] == wire[pos];
  }

  lemma GetBack(wire: Wire, pos: nat, v: nat, n: nat)
    requires At(wire, pos, PutBe(v, n)) && v < Bound(n)
    ensures GetBe(wire, pos, n) == Some(v)
  {
    BeRoundTrip(v, n);
  }

  // ---- Headers ----

  predicate Has(flags: nat, flag: nat)
    requires flag > 0
  {
    flags / flag % 2 == 1
  }

  function KindOf(c: Content): nat {
    match c
    case SendFill(_) => FLAG_COMPRESS
    case SendPage(_) => FLAG_PAGE
    case SendDelta(_) => FLAG_XBZRLE
  }

  function Name(name: Wire): Wire
    requires |name| <= 255
  {
    [|name|] + name
  }

  /** A C string: what comes before the first zero byte. */
  function CString(id: Wire): Wire {
    if id == [] || id[0] == 0 then [] else [id[0]] + CString(id[1..])
  }

  /** The part before the first zero byte. */
  lemma {:induction false} CStringIs(id: Wire)
    ensures CString(id) <= id && 0 !in CString(id) && (CString(id) != id ==> id[|CString(id)|] == 0)
  {
    if id != [] && id[0] != 0 {
      CStringIs(id[1..]);
      assert id == [id[0]] + id[1..];
    }
  }

  ghost predicate NamesOk(names: seq<Wire>) {
    && (forall k :: 0 <= k < |names| ==> |names[k]| <= 255 && CString(names[k]) == names[k])
    && forall j, k :: 0 <= j < k < |names| ==> names[j] != names[k]
  }

  /** save_block_hdr; offset, continuation and kind have no bits in common. */
  function Header(names: seq<Wire>, lastSent: Option<nat>, r: Record): Wire
    requires r.block < |names| && |names[r.block]| <= 255
  {
    var cont := lastSent == Some(r.block);
    PutBe(r.offset * PAGE_SIZE + (if cont then FLAG_CONTINUE else 0) + KindOf(r.content), 8)
    + if cont then [] else Name(names[r.block])
  }

  function Payload(c: Content): Wire {
    match c
    case SendFill(ch) => ToWire([ch])
    case SendPage(data) => ToWire(data)
    case SendDelta(delta) => [ENCODING_FLAG_XBZRLE] + PutBe(|delta|, 2) + ToWire(delta)
  }

  function Bytes(names: seq<Wire>, lastSent: Option<nat>, r: Record): Wire
    requires r.block < |names| && |names[r.block]| <= 255
  {
    Header(names, lastSent, r) + Payload(r.content)
  }

  /** The records of a section, each written with the block of the one before as the last one sent. */
  function Records(names: seq<Wire>, lastSent: Option<nat>, rs: seq<Record>): Wire
    requires forall r :: r in rs ==> r.block < |names| && |names[r.block]| <= 255
    decreases |rs|
  {
    if rs == [] then [] else Bytes(names, lastSent, rs[0]) + Records(names, Some(rs[0].block), rs[1..])
  }

  function EndOfSection(): Wire {
    PutBe(FLAG_EOS, 8)
  }

  // ---- The receiver ----

  /** The first block of that name, from the k-th on. */
  function FindName(names: seq<Wire>, id: Wire, k: nat): (r: Option<nat>)
    ensures r.Some? ==> k <= r.value < |names| && names[r.value] == id
    ensures r.None? ==> forall j :: k <= j < |names| ==> names[j] != id
    decreases |names| - k
  {
    if k >= |names| then None else if names[k] == id then Some(k) else FindName(names, id, k + 1)
  }

  datatype NameAt = NoName | NameAt(id: Wire, pos: nat)

  /** A counted name, as a C string. */
  function GetName(wire: Wire, pos: nat): NameAt {
    if pos >= |wire| then NoName
    else
      var len := wire[pos];
      if pos + 1 + len > |wire| then NoName else NameAt(CString(wire[pos + 1..pos + 1 + len]), pos + 1 + len)
  }

  datatype Host = NoHost | Host(block: nat, pos: nat)

  /** host_from_stream_offset: the block that a header is about. */
  function HostOf(names: seq<Wire>, wire: Wire, pos: nat, flags: nat, block: Option<nat>): (r: Host)
    ensures r.Host? ==> r.pos >= pos
  {
    if Has(flags, FLAG_CONTINUE) then
      if block.None? then NoHost else Host(block.value, pos)
    else
      match GetName(wire, pos)
      case NoName => NoHost
      case NameAt(id, next) =>
        var k := FindName(names, id, 0);
        if k.None? then NoHost else Host(k.value, next)
  }

  datatype ContentAt = NoContent | ContentAt(content: Content, pos: nat)

  function GetContent(wire: Wire, pos: nat, flags: nat): (r: ContentAt)
    ensures r.ContentAt? ==> r.pos >= pos
  {
    if Has(flags, FLAG_COMPRESS) then
      if pos >= |wire| then NoContent else ContentAt(SendFill(FromWire(wire[pos..pos + 1])[0]), pos + 1)
    else if Has(flags, FLAG_PAGE) then
      if pos + PAGE_SIZE > |wire| then NoContent
      else ContentAt(SendPage(FromWire(wire[pos..pos + PAGE_SIZE])), pos + PAGE_SIZE)
    else
      var len := GetBe(wire, pos + 1, 2);
      if len.None? || wire[pos] != ENCODING_FLAG_XBZRLE || len.value > PAGE_SIZE ||
         pos + 3 + len.value > |wire| then NoContent
      else ContentAt(SendDelta(FromWire(wire[pos + 3..pos + 3 + len.value])), pos + 3 + len.value)
  }

  datatype Load = Failed | Loaded(dst: seq<Page>, block: Option<nat>, pos: nat)

  predicate IsPageKind(flags: nat) {
    Has(flags, FLAG_COMPRESS) || Has(flags, FLAG_PAGE) || Has(flags, FLAG_XBZRLE)
  }

  function LoadPage(names: seq<Wire>, blocks: seq<Block>, wire: Wire, pos: nat, offset: nat, flags: nat,
                    dst: seq<Page>, block: Option<nat>): (r: Load)
    ensures r.Loaded? ==> r.pos >= pos
  {
    match HostOf(names, wire, pos, flags, block)
    case NoHost => Failed
    case Host(k, next) =>
      match GetContent(wire, next, flags)
      case NoContent => Failed
      case ContentAt(c, end) =>
        if !IsPage(blocks, k, offset) || PageAt(blocks[k], offset) >= |dst| then Failed
        else
          var dst' := Received(dst, PageAt(blocks[k], offset), c);
          if dst'.None? then Failed else Loaded(dst'.value, Some(k), end)
  }

  /** The list of blocks: read until the lengths add up to the total. */
  function ReadBlocks(names: seq<Wire>, blocks: seq<Block>, wire: Wire, pos: nat, total: nat): (r: Option<nat>)
    requires |blocks| == |names|
    ensures r.Some? ==> r.value >= pos
    decreases |wire| - pos
  {
    if total == 0 then Some(pos)
    else
      match GetName(wire, pos)
      case NoName => None
      case NameAt(id, next) =>
        var length := GetBe(wire, next, 8);
        var k := FindName(names, id, 0);
        if length.None? || k.None? || length.value != blocks[k.value].pages * PAGE_SIZE then None
        else ReadBlocks(names, blocks, wire, next + 8, (total - length.value) % WORD64)
  }

  /** ram_load: one section, up to its end mark. */
  function LoadSection(names: seq<Wire>, blocks: seq<Block>, wire: Wire, pos: nat, dst: seq<Page>,
                       block: Option<nat>): Load
    requires |blocks| == |names|
    decreases |wire| - pos
  {
    var word := GetBe(wire, pos, 8);
    if word.None? then Failed
    else
      var offset, flags := word.value / PAGE_SIZE, word.value % PAGE_SIZE;
      var next := if Has(flags, FLAG_MEM_SIZE) then ReadBlocks(names, blocks, wire, pos + 8, offset * PAGE_SIZE)
                  else Some(pos + 8);
      if next.None? then Failed
      else
        var load := if IsPageKind(flags) then LoadPage(names, blocks, wire, next.value, offset, flags, dst, block)
                    else if Has(flags, FLAG_HOOK) then Failed
                    else Loaded(dst, block, next.value);
        if load.Failed? || Has(flags, FLAG_EOS) then load
        else LoadSection(names, blocks, wire, load.pos, load.dst, load.block)
  }

  // ---- What is written is read back ----

  lemma FlagsOf(offset: nat, cont: bool, kind: nat)
    requires kind in {FLAG_COMPRESS, FLAG_PAGE, FLAG_XBZRLE}
    ensures var word := offset * PAGE_SIZE + (if cont then FLAG_CONTINUE else 0) + kind;
            var flags := word % PAGE_SIZE;
            && word / PAGE_SIZE == offset && flags == (if cont then FLAG_CONTINUE else 0) + kind
            && Has(flags, FLAG_CONTINUE) == cont
            && (forall k :: k in {FLAG_COMPRESS, FLAG_PAGE, FLAG_XBZRLE} ==> Has(flags, k) == (k == kind))
            && !Has(flags, FLAG_MEM_SIZE) && !Has(flags, FLAG_HOOK) && !Has(flags, FLAG_EOS)
  {
  }

  lemma NameBack(wire: Wire, pos: nat, name: Wire)
    requires |name| <= 255 && CString(name) == name && At(wire, pos, Name(name))
    ensures GetName(wire, pos) == NameAt(name, pos + 1 + |name|)
  {
    hide *;
    NameParts(wire, pos, name);
    NameFrom(wire, pos, name);
  }

  lemma NameFrom(wire: Wire, pos: nat, name: Wire)
    requires pos + 1 + |name| <= |wire| && wire[pos] == |name| && wire[pos + 1..pos + 1 + |name|] == name
    requires CString(name) == name
    ensures GetName(wire, pos) == NameAt(name, pos + 1 + |name|)
  {
    hide CString;
  }

  lemma NameParts(wire: Wire, pos: nat, name: Wire)
    requires |name| <= 255 && At(wire, pos, Name(name))
    ensures pos + 1 + |name| <= |wire| && wire[pos] == |name| && wire[pos + 1..pos + 1 + |name|] == name
  {
    hide At;
    AtSplit(wire, pos, [|name|], name);
    AtOne(wire, pos, |name|);
    AtIs(wire, pos + 1, name);
  }

  lemma NamesShort(names: seq<Wire>)
    requires NamesOk(names)
    ensures forall k :: 0 <= k < |names| ==> |names[k]| <= 255 && CString(names[k]) == names[k]
  {
  }

  lemma FoundBack(names: seq<Wire>, k: nat)
    requires NamesOk(names) && k < |names|
    ensures FindName(names, names[k], 0) == Some(k)
  {
  }

  lemma HostBack(names: seq<Wire>, wire: Wire, pos: nat, lastSent: Option<nat>, r: Record, flags: nat,
                 block: Option<nat>)
    requires NamesOk(names) && r.block < |names| && (lastSent.Some? ==> block == lastSent)
    requires Has(flags, FLAG_CONTINUE) == (lastSent == Some(r.block))
    requires lastSent != Some(r.block) ==> At(wire, pos, Name(names[r.block]))
    ensures HostOf(names, wire, pos, flags, block)
         == Host(r.block, pos + if lastSent == Some(r.block) then 0 else |Name(names[r.block])|)
  {
    if lastSent != Some(r.block) {
      NameBack(wire, pos, names[r.block]);
      FoundBack(names, r.block);
    }
  }

  lemma ContentBack(wire: Wire, pos: nat, c: Content, flags: nat)
    requires At(wire, pos, Payload(c)) && ContentOk(c)
    requires forall k :: k in {FLAG_COMPRESS, FLAG_PAGE, FLAG_XBZRLE} ==> Has(flags, k) == (k == KindOf(c))
    ensures GetContent(wire, pos, flags) == ContentAt(c, pos + |Payload(c)|)
  {
    hide ToWire, FromWire, PutBe, BeValue, Bound, Has, GetContent, At;
    assert FLAG_COMPRESS in {FLAG_COMPRESS, FLAG_PAGE, FLAG_XBZRLE} &&
           FLAG_PAGE in {FLAG_COMPRESS, FLAG_PAGE, FLAG_XBZRLE};
    match c
    case SendFill(ch) =>
      FillBack(wire, pos, ch, flags);
    case SendPage(data) =>
      PageBack(wire, pos, data, flags);
    case SendDelta(delta) =>
      DeltaBack(wire, pos, delta, flags);
  }

  lemma FillBack(wire: Wire, pos: nat, ch: Octet, flags: nat)
    requires At(wire, pos, ToWire([ch])) && Has(flags, FLAG_COMPRESS)
    ensures GetContent(wire, pos, flags) == ContentAt(SendFill(ch), pos + |ToWire([ch])|)
  {
    hide ToWire, FromWire, Has;
    BytesBack([ch]);
  }

  lemma PageBack(wire: Wire, pos: nat, data: Page, flags: nat)
    requires At(wire, pos, ToWire(data)) && !Has(flags, FLAG_COMPRESS) && Has(flags, FLAG_PAGE)
    ensures GetContent(wire, pos, flags) == ContentAt(SendPage(data), pos + |ToWire(data)|)
  {
    hide ToWire, FromWire, Has;
    BytesBack(data);
  }

  lemma DeltaBack(wire: Wire, pos: nat, delta: seq<Octet>, flags: nat)
    requires ContentOk(SendDelta(delta)) && At(wire, pos, Payload(SendDelta(delta)))
    requires !Has(flags, FLAG_COMPRESS) && !Has(flags, FLAG_PAGE)
    ensures GetContent(wire, pos, flags) == ContentAt(SendDelta(delta), pos + |Payload(SendDelta(delta))|)
  {
    hide ToWire, FromWire, PutBe, GetBe, Bound, Has;
    var size := PutBe(|delta|, 2);
    AtSplit(wire, pos, [ENCODING_FLAG_XBZRLE] + size, ToWire(delta));
    AtSplit(wire, pos, [ENCODING_FLAG_XBZRLE], size);
    AtOne(wire, pos, ENCODING_FLAG_XBZRLE);
    Bounds();
    GetBack(wire, pos + 1, |delta|, 2);
    BytesBack(delta);
  }

  function TotalPages(blocks: seq<Block>): nat {
    if blocks == [] then 0 else blocks[0].pages + TotalPages(blocks[1..])
  }

  /** Blocks that can be told apart by name and whose lengths fit into the words of the stream. */
  ghost predicate WireOk(names: seq<Wire>, blocks: seq<Block>) {
    && |names| == |blocks| && NamesOk(names) && TotalPages(blocks) * PAGE_SIZE < WORD64
    && forall k :: 0 <= k < |blocks| ==> blocks[k].pages > 0
  }

  lemma {:induction false} PagesBound(blocks: seq<Block>, k: nat)
    requires k < |blocks|
    ensures blocks[k].pages <= TotalPages(blocks)
  {
    if k > 0 {
      PagesBound(blocks[1..], k - 1);
    }
  }

  lemma PageLoaded(names: seq<Wire>, blocks: seq<Block>, wire: Wire, pos: nat, word: nat, load: Load,
                   dst: seq<Page>, block: Option<nat>)
    requires |blocks| == |names| && GetBe(wire, pos, 8) == Some(word)
    requires var flags := word % PAGE_SIZE;
             && !Has(flags, FLAG_MEM_SIZE) && !Has(flags, FLAG_EOS) && IsPageKind(flags)
             && LoadPage(names, blocks, wire, pos + 8, word / PAGE_SIZE, flags, dst, block) == load
    requires load.Loaded?
    ensures LoadSection(names, blocks, wire, pos, dst, block)
         == LoadSection(names, blocks, wire, load.pos, load.dst, load.block)
  {
    hide GetBe, Has, LoadPage, IsPageKind;
  }

  /** A record is read as the block, the offset and the content that were written. */
  lemma RecordBack(names: seq<Wire>, blocks: seq<Block>, wire: Wire, pos: nat, lastSent: Option<nat>, r: Record,
                   dst: seq<Page>, block: Option<nat>)
    requires WireOk(names, blocks) && RecordOk(blocks, r) && PageAt(blocks[r.block], r.offset) < |dst|
    requires lastSent.Some? ==> block == lastSent
    requires At(wire, pos, Bytes(names, lastSent, r))
    requires Received(dst, PageAt(blocks[r.block], r.offset), r.content).Some?
    ensures LoadSection(names, blocks, wire, pos, dst, block)
         == LoadSection(names, blocks, wire, pos + |Bytes(names, lastSent, r)|,
                        Received(dst, PageAt(blocks[r.block], r.offset), r.content).value, Some(r.block))
  {
    hide LoadSection, GetContent, HostOf, GetBe, Has, Received, TotalPages, Payload, Name, PutBe, At, CString;
    var cont := lastSent == Some(r.block);
    var word := r.offset * PAGE_SIZE + (if cont then FLAG_CONTINUE else 0) + KindOf(r.content);
    var flags := word % PAGE_SIZE;
    PagesBound(blocks, r.block);
    FlagsOf(r.offset, cont, KindOf(r.content));
    AtSplit(wire, pos, Header(names, lastSent, r), Payload(r.content));
    var name := if cont then [] else Name(names[r.block]);
    AtSplit(wire, pos, PutBe(word, 8), name);
    Bounds();
    GetBack(wire, pos, word, 8);
    HostBack(names, wire, pos + 8, lastSent, r, flags, block);
    ContentBack(wire, pos + 8 + |name|, r.content, flags);
    var dst' := Received(dst, PageAt(blocks[r.block], r.offset), r.content).value;
    PageLoaded(names, blocks, wire, pos, word, Loaded(dst', Some(r.block), pos + |Bytes(names, lastSent, r)|), dst,
               block);
  }

  // ---- Sections ----

  function LastBlock(block: Option<nat>, rs: seq<Record>): Option<nat> {
    if rs == [] then block else Some(rs[|rs| - 1].block)
  }

  lemma {:induction false} ReplayedConcat(blocks: seq<Block>, dst: seq<Page>, a: seq<Record>, b: seq<Record>)
    requires Replayed(blocks, dst, a + b).Some?
    ensures Replayed(blocks, dst, a).Some?
    ensures Replayed(blocks, dst, a + b) == Replayed(blocks, Replayed(blocks, dst, a).value, b)
    decreases |b|
  {
    if b == [] {
      assert a + b == a;
    } else {
      assert (a + b)[..|a + b| - 1] == a + b[..|b| - 1];
      ReplayedConcat(blocks, dst, a, b[..|b| - 1]);
    }
  }

  lemma ReplayedOne(blocks: seq<Block>, dst: seq<Page>, r: Record)
    ensures Replayed(blocks, dst, [r]) ==
            if !IsPage(blocks, r.block, r.offset) || PageAt(blocks[r.block], r.offset) >= |dst| then None
            else Received(dst, PageAt(blocks[r.block], r.offset), r.content)
  {
    assert [r][..0] == [];
  }

  lemma EndLoaded(names: seq<Wire>, blocks: seq<Block>, wire: Wire, pos: nat, dst: seq<Page>, block: Option<nat>)
    requires |blocks| == |names| && At(wire, pos, EndOfSection())
    ensures LoadSection(names, blocks, wire, pos, dst, block) == Loaded(dst, block, pos + 8)
  {
    hide PutBe, BeValue, Bound;
    Bounds();
    GetBack(wire, pos, FLAG_EOS, 8);
  }

  /** A section is read as the records that were written, whatever block the previous section ended with. */
  lemma {:induction false} SectionBack(names: seq<Wire>, blocks: seq<Block>, wire: Wire, pos: nat,
                                       lastSent: Option<nat>, rs: seq<Record>, dst: seq<Page>, block: Option<nat>)
    requires WireOk(names, blocks) && StreamOk(blocks, rs) && (lastSent.Some? ==> block == lastSent)
    requires Replayed(blocks, dst, rs).Some?
    requires At(wire, pos, Records(names, lastSent, rs) + EndOfSection())
    ensures LoadSection(names, blocks, wire, pos, dst, block)
         == Loaded(Replayed(blocks, dst, rs).value, LastBlock(block, rs), pos + |Records(names, lastSent, rs)| + 8)
    decreases |rs|
  {
    hide LoadSection, Received, TotalPages, Bytes, At, CString, EndOfSection;
    if rs == [] {
      assert [] + EndOfSection() == EndOfSection();
      EndLoaded(names, blocks, wire, pos, dst, block);
    } else {
      var r, rest := rs[0], rs[1..];
      assert r in rs && forall x :: x in rest ==> x in rs;
      var bytes, more := Bytes(names, lastSent, r), Records(names, Some(r.block), rest);
      assert rs == [r] + rest;
      ReplayedConcat(blocks, dst, [r], rest);
      ReplayedOne(blocks, dst, r);
      assert bytes + more + EndOfSection() == bytes + (more + EndOfSection());
      AtSplit(wire, pos, bytes, more + EndOfSection());
      RecordBack(names, blocks, wire, pos, lastSent, r, dst, block);
      var dst' := Received(dst, PageAt(blocks[r.block], r.offset), r.content).value;
      SectionBack(names, blocks, wire, pos + |bytes|, Some(r.block), rest, dst', Some(r.block));
    }
  }

  /** What ram_save_setup writes about each block, from the k-th on. */
  function BlockList(names: seq<Wire>, blocks: seq<Block>, k: nat): Wire
    requires |names| == |blocks| && forall j :: 0 <= j < |names| ==> |names[j]| <= 255
    decreases |blocks| - k
  {
    if k >= |blocks| then []
    else Name(names[k]) + (PutBe(blocks[k].pages * PAGE_SIZE, 8) + BlockList(names, blocks, k + 1))
  }

  function Setup(names: seq<Wire>, blocks: seq<Block>): Wire
    requires |names| == |blocks| && forall j :: 0 <= j < |names| ==> |names[j]| <= 255
  {
    PutBe(TotalPages(blocks) * PAGE_SIZE + FLAG_MEM_SIZE, 8) + BlockList(names, blocks, 0) + EndOfSection()
  }

  lemma BlockRead(names: seq<Wire>, blocks: seq<Block>, wire: Wire, pos: nat, k: nat, next: nat, rest: nat)
    requires |blocks| == |names| && k < |blocks| && blocks[k].pages > 0
    requires GetName(wire, pos) == NameAt(names[k], next) && FindName(names, names[k], 0) == Some(k)
    requires GetBe(wire, next, 8) == Some(blocks[k].pages * PAGE_SIZE) && rest < WORD64
    ensures ReadBlocks(names, blocks, wire, pos, blocks[k].pages * PAGE_SIZE + rest)
         == ReadBlocks(names, blocks, wire, next + 8, rest)
  {
    hide GetName, GetBe, FindName;
  }

  /** The receiver's count of remaining bytes reaches zero at the last block and not before. */
  lemma {:induction false} BlocksBack(names: seq<Wire>, blocks: seq<Block>, k: nat, wire: Wire, pos: nat)
    requires WireOk(names, blocks) && k <= |blocks| && TotalPages(blocks[k..]) * PAGE_SIZE < WORD64
    requires At(wire, pos, BlockList(names, blocks, k))
    ensures ReadBlocks(names, blocks, wire, pos, TotalPages(blocks[k..]) * PAGE_SIZE)
         == Some(pos + |BlockList(names, blocks, k)|)
    decreases |blocks| - k
  {
    hide At, PutBe, GetName, GetBe, CString, FindName, NamesOk;
    if k < |blocks| {
      NamesShort(names);
      var pages := blocks[k].pages;
      assert blocks[k..][0] == blocks[k] && blocks[k..][1..] == blocks[k + 1..];
      var tail := BlockList(names, blocks, k + 1);
      AtSplit(wire, pos, Name(names[k]), PutBe(pages * PAGE_SIZE, 8) + tail);
      var next := pos + 1 + |names[k]|;
      AtSplit(wire, next, PutBe(pages * PAGE_SIZE, 8), tail);
      NameBack(wire, pos, names[k]);
      FoundBack(names, k);
      Bounds();
      GetBack(wire, next, pages * PAGE_SIZE, 8);
      BlockRead(names, blocks, wire, pos, k, next, TotalPages(blocks[k + 1..]) * PAGE_SIZE);
      BlocksBack(names, blocks, k + 1, wire, next + 8);
    }
  }

  lemma BlocksLoaded(names: seq<Wire>, blocks: seq<Block>, wire: Wire, pos: nat, total: nat, next: nat,
                     dst: seq<Page>, block: Option<nat>)
    requires |blocks| == |names| && GetBe(wire, pos, 8) == Some(total * PAGE_SIZE + FLAG_MEM_SIZE)
    requires ReadBlocks(names, blocks, wire, pos + 8, total * PAGE_SIZE) == Some(next)
    ensures LoadSection(names, blocks, wire, pos, dst, block) == LoadSection(names, blocks, wire, next, dst, block)
  {
    hide GetBe, ReadBlocks, LoadPage;
    assert (total * PAGE_SIZE + FLAG_MEM_SIZE) % PAGE_SIZE == FLAG_MEM_SIZE;
    assert (total * PAGE_SIZE + FLAG_MEM_SIZE) / PAGE_SIZE == total;
  }

  lemma SetupBack(names: seq<Wire>, blocks: seq<Block>, wire: Wire, pos: nat, dst: seq<Page>, block: Option<nat>)
    requires WireOk(names, blocks) && At(wire, pos, Setup(names, blocks))
    ensures LoadSection(names, blocks, wire, pos, dst, block) == Loaded(dst, block, pos + |Setup(names, blocks)|)
  {
    hide At, PutBe, GetBe, BlockList, ReadBlocks, TotalPages, LoadSection, CString;
    var word := TotalPages(blocks) * PAGE_SIZE + FLAG_MEM_SIZE;
    AtSplit(wire, pos, PutBe(word, 8) + BlockList(names, blocks, 0), EndOfSection());
    AtSplit(wire, pos, PutBe(word, 8), BlockList(names, blocks, 0));
    Bounds();
    GetBack(wire, pos, word, 8);
    assert blocks[0..] == blocks;
    BlocksBack(names, blocks, 0, wire, pos + 8);
    var next := pos + 8 + |BlockList(names, blocks, 0)|;
    BlocksLoaded(names, blocks, wire, pos, TotalPages(blocks), next, dst, block);
    EndLoaded(names, blocks, wire, next, dst, block);
  }

  // ---- The whole stream ----

  /** The records of all sections. */
  function Flat(ss: seq<seq<Record>>): seq<Record> {
    if ss == [] then [] else ss[0] + Flat(ss[1..])
  }

  function Sections(names: seq<Wire>, lastSent: Option<nat>, ss: seq<seq<Record>>): Wire
    requires forall r :: r in Flat(ss) ==> r.block < |names| && |names[r.block]| <= 255
    decreases |ss|
  {
    if ss == [] then []
    else
      assert forall r :: r in ss[0] || r in Flat(ss[1..]) ==> r in Flat(ss);
      (Records(names, lastSent, ss[0]) + EndOfSection()) + Sections(names, LastBlock(lastSent, ss[0]), ss[1..])
  }

  /** The sections are loaded one by one; the receiver keeps its block in between. */
  ghost function LoadAll(names: seq<Wire>, blocks: seq<Block>, wire: Wire, pos: nat,
                         dst: seq<Page>, block: Option<nat>, n: nat): Load
    requires |blocks| == |names|
    decreases n
  {
    if n == 0 then Loaded(dst, block, pos)
    else
      var load := LoadSection(names, blocks, wire, pos, dst, block);
      if load.Failed? then Failed else LoadAll(names, blocks, wire, load.pos, load.dst, load.block, n - 1)
  }

  lemma {:induction false} SectionsBack(names: seq<Wire>, blocks: seq<Block>, wire: Wire, pos: nat,
                                        lastSent: Option<nat>, ss: seq<seq<Record>>, dst: seq<Page>, block: Option<nat>)
    requires WireOk(names, blocks) && StreamOk(blocks, Flat(ss)) && (lastSent.Some? ==> block == lastSent)
    requires Replayed(blocks, dst, Flat(ss)).Some?
    requires At(wire, pos, Sections(names, lastSent, ss))
    ensures var load := LoadAll(names, blocks, wire, pos, dst, block, |ss|);
            load.Loaded? && load.dst == Replayed(blocks, dst, Flat(ss)).value &&
            load.pos == pos + |Sections(names, lastSent, ss)|
    decreases |ss|
  {
    hide LoadSection, Records, At, EndOfSection, WireOk, StreamOk, Replayed;
    if ss == [] {
      NoneReplayed(blocks, dst);
    } else {
      StreamParts(names, blocks, ss);
      var part := Records(names, lastSent, ss[0]) + EndOfSection();
      AtSplit(wire, pos, part, Sections(names, LastBlock(lastSent, ss[0]), ss[1..]));
      ReplayedConcat(blocks, dst, ss[0], Flat(ss[1..]));
      SectionBack(names, blocks, wire, pos, lastSent, ss[0], dst, block);
      EndLength();
      SectionsBack(names, blocks, wire, pos + |part|, LastBlock(lastSent, ss[0]), ss[1..],
                   Replayed(blocks, dst, ss[0]).value, LastBlock(block, ss[0]));
    }
  }

  lemma NoneReplayed(blocks: seq<Block>, dst: seq<Page>)
    ensures Replayed(blocks, dst, []) == Some(dst)
  {
  }

  lemma StreamParts(names: seq<Wire>, blocks: seq<Block>, ss: seq<seq<Record>>)
    requires ss != [] && WireOk(names, blocks) && StreamOk(blocks, Flat(ss))
    ensures StreamOk(blocks, ss[0]) && StreamOk(blocks, Flat(ss[1..]))
    ensures forall r :: r in ss[0] || r in Flat(ss[1..]) ==> r.block < |names| && |names[r.block]| <= 255
  {
    assert forall r :: r in ss[0] || r in Flat(ss[1..]) ==> r in Flat(ss);
  }

  lemma EndLength()
    ensures |EndOfSection()| == 8
  {
  }

  /** The setup section and these sections, loaded in a memory, leave it as `dst`, and nothing is left over. */
  ghost predicate Arrives(names: seq<Wire>, blocks: seq<Block>, ss: seq<seq<Record>>, dst0: seq<Page>, dst: seq<Page>) {
    && WireOk(names, blocks) && StreamOk(blocks, Flat(ss))
    && var wire := Setup(names, blocks) + Sections(names, None, ss);
       var load := LoadAll(names, blocks, wire, 0, dst0, None, 1 + |ss|);
       load.Loaded? && load.dst == dst && load.pos == |wire|
  }

  /** A stream, cut into sections anywhere, takes the destination to what its records say. */
  lemma StreamBack(names: seq<Wire>, blocks: seq<Block>, ss: seq<seq<Record>>, dst0: seq<Page>, dst: seq<Page>)
    requires WireOk(names, blocks) && Delivers(blocks, dst0, Flat(ss), dst)
    ensures Arrives(names, blocks, ss, dst0, dst)
  {
    hide LoadSection, Replayed, Setup, Sections, CString, TotalPages;
    var setup, rest := Setup(names, blocks), Sections(names, None, ss);
    var wire := setup + rest;
    assert wire[0..0 + |setup + rest|] == wire;
    AtSplit(wire, 0, setup, rest);
    SetupBack(names, blocks, wire, 0, dst0, None);
    SectionsBack(names, blocks, wire, |setup|, None, ss, dst0, None);
  }

  /** From the guest's writes to the receiver's memory: whatever the steps of a migration, and however its stream is
      cut into sections, a receiver that loads the bytes has the guest's memory, if and only if the steps do not lose
      the last page. */
  method MigrateOverWire(saver: RamSaver, names: seq<Wire>, steps: seq<Step>) returns (ghost received: seq<Page>)
    requires saver.Valid() && !saver.final && saver.stale == {} && WireOk(names, saver.blocks)
    modifies saver, saver.bits
    ensures saver.Valid() && saver.src == Written(old(saver.src), steps)
    ensures forall ss :: Flat(ss) == saver.stream ==> Arrives(names, saver.blocks, ss, saver.dst0, received)
    ensures Same(saver.blocks, saver.src, received, {LastPage(saver.blocks)})
    ensures Same(saver.blocks, saver.src, received, {}) <==> !Loses(saver.blocks, old(saver.Now()), steps)
    ensures !old(saver.bulk) || saver.blocks[|saver.blocks| - 1].pages == 1 ==>
              Same(saver.blocks, saver.src, received, {})
  {
    hide Same, Loses, Arrives, RamSaver.Valid, Delivers, WireOk;
    Migrate(saver, steps);
    received := saver.dst;
    forall ss | Flat(ss) == saver.stream
      ensures Arrives(names, saver.blocks, ss, saver.dst0, received)
    {
      StreamBack(names, saver.blocks, ss, saver.dst0, received);
    }
  }

  // ---- The receiver at work ----

  class RamReceiver {
    const names: seq<Wire>
    const blocks: seq<Block>
    const wire: Wire
    var pos: nat
    var block: Option<nat>      // outlives the calls of host_from_stream_offset
    var dst: seq<Page>

    constructor (names: seq<Wire>, blocks: seq<Block>, wire: Wire, dst: seq<Page>)
      requires |names| == |blocks|
      ensures this.names == names && this.blocks == blocks && this.wire == wire && this.dst == dst
      ensures pos == 0 && block == None
    {
      this.names, this.blocks, this.wire, this.dst := names, blocks, wire, dst;
      pos, block := 0, None;
    }

    /** qemu_get_be64 and its kin */
    method Get(n: nat) returns (v: Option<nat>)
      modifies this`pos
      ensures v == GetBe(wire, old(pos), n)
      ensures if v.Some? then pos == old(pos) + n <= |wire| else pos == old(pos)
    {
      if pos + n > |wire| {
        return None;
      }
      var i: nat, value: nat := 0, 0;
      while i < n
        invariant 0 <= i <= n && value == BeValue(wire[pos..pos + i])
      {
        assert wire[pos..pos + i + 1][..i] == wire[pos..pos + i];
        value := value * 256 + wire[pos + i];
        i := i + 1;
      }
      pos := pos + n;
      v := Some(value);
    }

    /** The search by name. */
    method FindBlock(id: Wire) returns (k: Option<nat>)
      ensures k == FindName(names, id, 0)
    {
      var i := 0;
      while i < |names|
        invariant 0 <= i <= |names| && FindName(names, id, i) == FindName(names, id, 0)
      {
        if names[i] == id {
          return Some(i);
        }
        i := i + 1;
      }
      k := None;
    }

    /** host_from_stream_offset */
    method HostFromStreamOffset(flags: nat) returns (ok: bool)
      modifies this`pos, this`block
      ensures ok == HostOf(names, wire, old(pos), flags, old(block)).Host?
      ensures ok ==> block.Some? && Host(block.value, pos) == HostOf(names, wire, old(pos), flags, old(block))
    {
      if Has(flags, FLAG_CONTINUE) {
        return block.Some?;
      }
      match GetName(wire, pos)
      case NoName =>
        ok := false;
      case NameAt(id, next) =>
        pos := next;
        block := FindBlock(id);
        ok := block.Some?;
    }

    /** The loop over the list of blocks. */
    method LoadBlocks(total: nat) returns (ok: bool)
      requires |blocks| == |names|
      modifies this`pos
      ensures ok == ReadBlocks(names, blocks, wire, old(pos), total).Some?
      ensures ok ==> Some(pos) == ReadBlocks(names, blocks, wire, old(pos), total)
    {
      hide GetName, GetBe, FindName;
      var remaining: nat := total;
      while remaining != 0
        invariant ReadBlocks(names, blocks, wire, pos, remaining) == ReadBlocks(names, blocks, wire, old(pos), total)
        decreases |wire| - pos
      {
        match GetName(wire, pos)
        case NoName =>
          return false;
        case NameAt(id, next) =>
          NameEnds(wire, pos);
          pos := next;
          var length := Get(8);
          if length.None? {
            return false;
          }
          var k := FindBlock(id);
          if k.None? || blocks[k.value].pages * PAGE_SIZE != length.value {
            return false;
          }
          remaining := (remaining - length.value) % WORD64;
      }
      ok := true;
    }

    /** ram_load: loads one section. */
    method RamLoad() returns (ok: bool)
      requires |blocks| == |names|
      modifies this
      ensures ok == LoadSection(names, blocks, wire, old(pos), old(dst), old(block)).Loaded?
      ensures ok ==> Loaded(dst, block, pos) == LoadSection(names, blocks, wire, old(pos), old(dst), old(block))
    {
      hide GetBe, ReadBlocks, HostOf, GetContent, Has, IsPage, Received;
      while true
        invariant LoadSection(names, blocks, wire, pos, dst, block)
               == LoadSection(names, blocks, wire, old(pos), old(dst), old(block))
        decreases |wire| - pos
      {
        var word := Get(8);
        if word.None? {
          return false;
        }
        var offset, flags := word.value / PAGE_SIZE, word.value % PAGE_SIZE;
        if Has(flags, FLAG_MEM_SIZE) {
          var listed := LoadBlocks(offset * PAGE_SIZE);
          if !listed {
            return false;
          }
        }
        if IsPageKind(flags) {
          var found := HostFromStreamOffset(flags);
          if !found {
            return false;
          }
          var loaded := TakeContent(offset, flags);
          if !loaded {
            return false;
          }
        } else if Has(flags, FLAG_HOOK) {
          return false;
        }
        if Has(flags, FLAG_EOS) {
          return true;
        }
      }
    }

    /** Loads the sections of a migration one after the other. */
    method LoadSections(n: nat) returns (ok: bool)
      requires |blocks| == |names|
      modifies this
      ensures ok == LoadAll(names, blocks, wire, old(pos), old(dst), old(block), n).Loaded?
      ensures ok ==> Loaded(dst, block, pos) == LoadAll(names, blocks, wire, old(pos), old(dst), old(block), n)
    {
      hide LoadSection;
      var k := n;
      while k > 0
        invariant LoadAll(names, blocks, wire, pos, dst, block, k)
               == LoadAll(names, blocks, wire, old(pos), old(dst), old(block), n)
      {
        ok := RamLoad();
        if !ok {
          return;
        }
        k := k - 1;
      }
      ok := true;
    }

    /** A page's content goes to where its header says. */
    method TakeContent(offset: nat, flags: nat) returns (ok: bool)
      requires block.Some?
      modifies this`pos, this`dst
      ensures
        var c := GetContent(wire, old(pos), flags);
        var to := block.value;
        if c.NoContent? || !IsPage(blocks, to, offset) || PageAt(blocks[to], offset) >= |old(dst)| then !ok
        else
          var dst' := Received(old(dst), PageAt(blocks[to], offset), c.content);
          ok == dst'.Some? && (ok ==> dst == dst'.value && pos == c.pos)
    {
      match GetContent(wire, pos, flags)
      case NoContent =>
        ok := false;
      case ContentAt(c, end) =>
        if !IsPage(blocks, block.value, offset) || PageAt(blocks[block.value], offset) >= |dst| {
          return false;
        }
        pos := end;
        var page := PageAt(blocks[block.value], offset);
        match c
        case SendFill(ch) =>
          dst := dst[page := FillPage(ch)];
          ok := true;
        case SendPage(data) =>
          dst := dst[page := data];
          ok := true;
        case SendDelta(delta) =>
          var r, decoded := DecodeBuffer(delta, dst[page]);
          ok := r != -1;
          if ok {
            dst := dst[page := decoded];
          }
    }
  }

  lemma NameEnds(wire: Wire, pos: nat)
    ensures GetName(wire, pos).NameAt? ==> pos < GetName(wire, pos).pos <= |wire|
  {
  }

  /** The receiver at the other end: whatever records a stream holds, and however it is cut into sections, loading its
      bytes takes the memory to what the records say. */
  method Receive(names: seq<Wire>, blocks: seq<Block>, ss: seq<seq<Record>>, dst0: seq<Page>)
    returns (ok: bool, dst: seq<Page>)
    requires WireOk(names, blocks) && StreamOk(blocks, Flat(ss))
    ensures forall d :: Delivers(blocks, dst0, Flat(ss), d) ==> ok && dst == d
  {
    hide Delivers, Records, EndOfSection, Setup, CString;
    var wire := Setup(names, blocks) + Sections(names, None, ss);
    var receiver := new RamReceiver(names, blocks, wire, dst0);
    ok := receiver.LoadSections(1 + |ss|);
    dst := receiver.dst;
    forall d | Delivers(blocks, dst0, Flat(ss), d)
      ensures ok && dst == d
    {
      StreamBack(names, blocks, ss, dst0, d);
    }
  }
}
