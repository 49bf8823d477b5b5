/** The kdump-compressed dump (dump.c): two bitmaps of page frames, a descriptor for each frame, and the data. */
module Kdump {
  import opened Arith
  import opened Disks
  import opened ElfDump
  import opened Endian
  import opened KdumpBitmap
  import opened KdumpPages
  import opened Options
  import opened TargetPage

  // ---- Page descriptors ----

  const DESC_SIZE: nat := 24

  datatype PageDesc = PageDesc(offset: nat, size: nat, flags: nat, pageFlags: nat)

  /** A number in the target's byte order. */
  function Put(v: nat, n: nat, big: bool): (r: seq<Byte>)
    ensures |r| == n
  {
    if big then PutBe(v, n) else PutLe(v, n)
  }

  function Get(s: seq<Byte>, big: bool): nat {
    if big then BeValue(s) else LeValue(s)
  }

  lemma PutGet(v: nat, n: nat, big: bool)
    requires v < Bound(n)
    ensures Get(Put(v, n, big), big) == v
  {
    if big {
      BeRoundTrip(v, n);
    } else {
      LeRoundTrip(v, n);
    }
  }

  function PutDesc(d: PageDesc, big: bool): (r: seq<Byte>)
    ensures |r| == DESC_SIZE
  {
    Put(d.offset, 8, big) + Put(d.size, 4, big) + Put(d.flags, 4, big) + Put(d.pageFlags, 8, big)
  }

  // ---- Pages ----

  /** The compressor, the flag that stands for it, and the target's byte order. */
  datatype Format = Format(compress: seq<Byte> -> Option<seq<Byte>>, flag: nat, big: bool)

  datatype Stored = Stored(flags: nat, bytes: seq<Byte>)

  function ZeroPage(): (r: seq<Byte>)
    ensures |r| == PAGE_SIZE
  {
    seq(PAGE_SIZE, _ => 0)
  }

  /** A page as it is stored: compressed if that makes it smaller. */
  function StoredPage(fmt: Format, page: seq<Byte>): (r: Stored)
    requires |page| == PAGE_SIZE
    ensures |r.bytes| <= PAGE_SIZE
  {
    var c := fmt.compress(page);
    if c.Some? && |c.value| < PAGE_SIZE then Stored(fmt.flag, c.value) else Stored(0, page)
  }

  function PageOf(mem: Memory, f: Frame): (r: seq<Byte>)
    ensures |r| == PAGE_SIZE
  {
    Slice(mem, f.host, PAGE_SIZE)
  }

  /** The data of the first n frames: the page that all zero pages share, and then the others. */
  function Data(fmt: Format, mem: Memory, frames: seq<Frame>, n: nat): seq<Byte>
    requires n <= |frames|
  {
    if n == 0 then ZeroPage()
    else Data(fmt, mem, frames, n - 1)
         + if PageOf(mem, frames[n - 1]) == ZeroPage() then [] else StoredPage(fmt, PageOf(mem, frames[n - 1])).bytes
  }

  function DescOf(fmt: Format, mem: Memory, frames: seq<Frame>, base: nat, i: nat): PageDesc
    requires i < |frames|
  {
    var page := PageOf(mem, frames[i]);
    if page == ZeroPage() then PageDesc(base, PAGE_SIZE, 0, 0)
    else
      var s := StoredPage(fmt, page);
      PageDesc(base + |Data(fmt, mem, frames, i)|, |s.bytes|, s.flags, 0)
  }

  function Descs(fmt: Format, mem: Memory, frames: seq<Frame>, base: nat, n: nat): (r: seq<Byte>)
    requires n <= |frames|
    ensures |r| == n * DESC_SIZE
  {
    if n == 0 then []
    else Descs(fmt, mem, frames, base, n - 1) + PutDesc(DescOf(fmt, mem, frames, base, n - 1), fmt.big)
  }

  lemma {:induction false} DescAt(fmt: Format, mem: Memory, frames: seq<Frame>, base: nat, i: nat, n: nat)
    requires i < n <= |frames|
    ensures Descs(fmt, mem, frames, base, n)[i * DESC_SIZE..(i + 1) * DESC_SIZE]
         == PutDesc(DescOf(fmt, mem, frames, base, i), fmt.big)
  {
    hide PutDesc, DescOf;
    if i < n - 1 {
      DescAt(fmt, mem, frames, base, i, n - 1);
      assert Descs(fmt, mem, frames, base, n)[i * DESC_SIZE..(i + 1) * DESC_SIZE]
          == Descs(fmt, mem, frames, base, n - 1)[i * DESC_SIZE..(i + 1) * DESC_SIZE];
    }
  }

  lemma {:induction false} DataPrefix(fmt: Format, mem: Memory, frames: seq<Frame>, i: nat, n: nat)
    requires i <= n <= |frames|
    ensures Data(fmt, mem, frames, i) <= Data(fmt, mem, frames, n)
  {
    hide ZeroPage, StoredPage, PageOf;
    if i < n {
      DataPrefix(fmt, mem, frames, i, n - 1);
    }
  }

  lemma SamePart(a: seq<Byte>, b: seq<Byte>, from: nat, n: nat)
    requires a <= b && from + n <= |a|
    ensures b[from..from + n] == a[from..from + n]
  {
    assert b[..|a|] == a;
  }

  /** What a descriptor selects, given where the data begin. */
  ghost predicate Selects(data: seq<Byte>, base: nat, d: PageDesc, bytes: seq<Byte>) {
    && base <= d.offset && d.offset - base + d.size <= |data|
    && data[d.offset - base..d.offset - base + d.size] == bytes
  }

  /** A page's bytes in the file. */
  function Kept(fmt: Format, page: seq<Byte>): seq<Byte>
    requires |page| == PAGE_SIZE
  {
    if page == ZeroPage() then page else StoredPage(fmt, page).bytes
  }

  lemma DataLast(fmt: Format, mem: Memory, frames: seq<Frame>, base: nat, i: nat)
    requires i < |frames|
    ensures Selects(Data(fmt, mem, frames, i + 1), base, DescOf(fmt, mem, frames, base, i),
                    Kept(fmt, PageOf(mem, frames[i])))
  {
    hide ZeroPage, StoredPage, PageOf;
    DataStart(fmt, mem, frames, i + 1);
  }

  /** A frame's descriptor selects the frame's bytes. */
  lemma DataAt(fmt: Format, mem: Memory, frames: seq<Frame>, base: nat, i: nat, n: nat)
    requires i < n <= |frames|
    ensures Selects(Data(fmt, mem, frames, n), base, DescOf(fmt, mem, frames, base, i),
                    Kept(fmt, PageOf(mem, frames[i])))
  {
    hide Data, DescOf, Kept, PageOf;
    DataLast(fmt, mem, frames, base, i);
    DataPrefix(fmt, mem, frames, i + 1, n);
    var d := DescOf(fmt, mem, frames, base, i);
    SamePart(Data(fmt, mem, frames, i + 1), Data(fmt, mem, frames, n), d.offset - base, d.size);
  }

  lemma {:induction false} DataStart(fmt: Format, mem: Memory, frames: seq<Frame>, n: nat)
    requires n <= |frames|
    ensures PAGE_SIZE <= |Data(fmt, mem, frames, n)| <= PAGE_SIZE * (n + 1)
    ensures Data(fmt, mem, frames, n)[..PAGE_SIZE] == ZeroPage()
  {
    hide PageOf;
    if n > 0 {
      DataStart(fmt, mem, frames, n - 1);
    }
  }

  // ---- Bitmaps ----

  /** Both bitmaps hold the bits of the chunks before c. */
  ghost predicate Both(file: Disk, offset: nat, len: nat, s: set<nat>, c: nat) {
    FileHolds(file, offset, s, c) && FileHolds(file, offset + len, s, c)
  }

  lemma BothWith(file: Disk, offset: nat, len: nat, buf: seq<Byte>, s: set<nat>, c: nat)
    requires Both(file, offset, len, s, c) && BufHolds(buf, s, c) && (c + 1) * BUFSIZE_BITMAP <= len
    ensures var once := Overlay(file, offset + c * BUFSIZE_BITMAP, buf);
            Both(Overlay(once, offset + len + c * BUFSIZE_BITMAP, buf), offset, len, s, c + 1)
  {
    hide FileHolds, BufHolds;
    BufSize(buf, s, c);
    var once := Overlay(file, offset + c * BUFSIZE_BITMAP, buf);
    var twice := Overlay(once, offset + len + c * BUFSIZE_BITMAP, buf);
    FileWith(file, offset, buf, s, c);
    FileFrame(once, twice, offset, s, c + 1);
    FileFrame(file, once, offset + len, s, c);
    FileWith(once, offset + len, buf, s, c);
  }

  lemma BufSize(buf: seq<Byte>, s: set<nat>, c: nat)
    requires BufHolds(buf, s, c)
    ensures |buf| == BUFSIZE_BITMAP
  {
  }

  /** What a later bit does not change. */
  lemma BothLater(file: Disk, offset: nat, len: nat, s: set<nat>, c: nat, pfn: nat)
    requires Both(file, offset, len, s, c) && pfn >= c * PFN_BUFBITMAP
    ensures Both(file, offset, len, s + {pfn}, c) && Both(file, offset, len, s - {pfn}, c)
  {
    hide FileBit;
  }

  /** The pages of the first n frames. */
  ghost function Pfns(frames: seq<Frame>, n: nat): set<nat>
    requires n <= |frames|
  {
    set i | 0 <= i < n :: frames[i].pfn
  }

  lemma BothStart(file: Disk, offset: nat, len: nat)
    ensures Both(file, offset, len, {}, 0)
  {
  }

  /** The last of the first n frames; 0 before the first. */
  function LastPfn(frames: seq<Frame>, n: nat): nat
    requires n <= |frames|
  {
    if n == 0 then 0 else frames[n - 1].pfn
  }

  lemma PfnsNext(blocks: seq<PhysBlock>, n: nat)
    requires Aligned(blocks) && n < |AllFrames(blocks)|
    ensures var frames := AllFrames(blocks);
            var s := Pfns(frames, n + 1);
            && s == Pfns(frames, n) + {frames[n].pfn}
            && (n > 0 ==> frames[n - 1].pfn < frames[n].pfn)
            && forall p :: p in s ==> p <= frames[n].pfn
  {
    hide Frames;
    var frames := AllFrames(blocks);
    forall i | 0 <= i < n
      ensures frames[i].pfn < frames[n].pfn
    {
      Increasing(blocks, i, n);
    }
  }

  lemma SomeFrame(blocks: seq<PhysBlock>)
    requires Aligned(blocks)
    ensures |AllFrames(blocks)| > 0
  {
    Boundary(blocks[0]);
    PosFrame(blocks, 0, 0, First(blocks[0]));
  }

  /** The walk ends with the page before the end of the last block. */
  lemma LastFrame(blocks: seq<PhysBlock>, n: nat)
    requires Aligned(blocks) && n < |AllFrames(blocks)|
    ensures var frames, last := AllFrames(blocks), Last(blocks[|blocks| - 1]) - 1;
            frames[n].pfn <= frames[|frames| - 1].pfn == last
  {
    hide FramesOf;
    var k := |blocks| - 1;
    Boundary(blocks[k]);
    var frames := AllFrames(blocks);
    PosFrame(blocks, |frames| - 1, k, Last(blocks[k]) - 1);
    if n < |frames| - 1 {
      Increasing(blocks, n, |frames| - 1);
    }
  }

  /** The pages that a bit for each of n frames takes. */
  lemma BitmapPages(n: nat)
    requires n > 0
    ensures ((n + CHAR_BIT - 1) / CHAR_BIT + PAGE_SIZE - 1) / PAGE_SIZE == (n - 1) / PFN_BUFBITMAP + 1
  {
    var q, r := (n - 1) / PFN_BUFBITMAP, (n - 1) % PFN_BUFBITMAP;
    var e := r / CHAR_BIT;
    DivUnique(n + CHAR_BIT - 1, CHAR_BIT, q * PAGE_SIZE + e + 1);
    DivUnique(q * PAGE_SIZE + e + PAGE_SIZE, PAGE_SIZE, q + 1);
  }

  class KdumpState {
    const blocks: seq<PhysBlock>
    const mem: Memory
    const fmt: Format
    const offsetBitmap: nat
    const lenBitmap: nat
    const offsetPage: nat
    const file: DumpFile
    var numDumpable: nat

    /** What dump_init and create_header compute: the bitmaps have a bit for each page up to the end of the last
        block, in whole pages, and the descriptors follow them. */
    constructor (blocks: seq<PhysBlock>, mem: Memory, fmt: Format, offsetBitmap: nat, file: DumpFile)
      requires Aligned(blocks)
      ensures this.blocks == blocks && this.mem == mem && this.fmt == fmt && this.offsetBitmap == offsetBitmap
      ensures this.file == file && Valid()
    {
      this.blocks, this.mem, this.fmt, this.offsetBitmap, this.file := blocks, mem, fmt, offsetBitmap, file;
      var maxMapnr := Last(blocks[|blocks| - 1]);
      var bytes := (maxMapnr + CHAR_BIT - 1) / CHAR_BIT;
      var tmp := (bytes + PAGE_SIZE - 1) / PAGE_SIZE;
      Boundary(blocks[|blocks| - 1]);
      BitmapPages(maxMapnr);
      DivUnique(tmp * PAGE_SIZE + PAGE_SIZE - 1, PAGE_SIZE, tmp);
      lenBitmap := tmp * PAGE_SIZE;
      offsetPage := offsetBitmap + (tmp * PAGE_SIZE + PAGE_SIZE - 1) / PAGE_SIZE * 2 * PAGE_SIZE;
      numDumpable := 0;
    }

    ghost predicate Valid() {
      && Aligned(blocks) && offsetPage == offsetBitmap + 2 * lenBitmap
      && lenBitmap == ((Last(blocks[|blocks| - 1]) - 1) / PFN_BUFBITMAP + 1) * BUFSIZE_BITMAP
    }

    /** One turn of set_dump_bitmap's loop: the buffer goes to both bitmaps and is cleared. */
    method Flush(oldOffset: nat, buf: array<Byte>, ghost s: set<nat>, ghost c: nat)
      requires oldOffset == c * BUFSIZE_BITMAP && buf.Length == BUFSIZE_BITMAP && (c + 1) * BUFSIZE_BITMAP <= lenBitmap
      requires BufHolds(buf[..], s, c) && Both(file.disk, offsetBitmap, lenBitmap, s, c)
      requires forall p :: p in s ==> p < (c + 1) * PFN_BUFBITMAP
      modifies file, buf
      ensures BufHolds(buf[..], s, c + 1) && Both(file.disk, offsetBitmap, lenBitmap, s, c + 1)
      ensures SameOutside(file.disk, old(file.disk), offsetBitmap, offsetBitmap + 2 * lenBitmap)
    {
      hide BufHolds, Both;
      BothWith(file.disk, offsetBitmap, lenBitmap, buf[..], s, c);
      file.WriteBuffer(offsetBitmap + oldOffset, buf[..]);
      file.WriteBuffer(offsetBitmap + lenBitmap + oldOffset, buf[..]);
      forall i | 0 <= i < buf.Length {
        buf[i] := 0;
      }
      ZeroHolds(buf[..], s, c + 1);
    }

    /** set_dump_bitmap: bits are given in increasing order; all chunks before the bit's own are in the file. */
    method SetDumpBitmap(lastPfn: nat, pfn: nat, value: bool, buf: array<Byte>, ghost s: set<nat>)
      requires lastPfn <= pfn && buf.Length == BUFSIZE_BITMAP && pfn / PFN_BUFBITMAP * BUFSIZE_BITMAP <= lenBitmap
      requires forall p :: p in s ==> p <= lastPfn
      requires BufHolds(buf[..], s, lastPfn / PFN_BUFBITMAP)
      requires Both(file.disk, offsetBitmap, lenBitmap, s, lastPfn / PFN_BUFBITMAP)
      modifies file, buf
      ensures var s' := if value then s + {pfn} else s - {pfn};
              && BufHolds(buf[..], s', pfn / PFN_BUFBITMAP)
              && Both(file.disk, offsetBitmap, lenBitmap, s', pfn / PFN_BUFBITMAP)
      ensures SameOutside(file.disk, old(file.disk), offsetBitmap, offsetBitmap + 2 * lenBitmap)
    {
      hide BufHolds, Both, WithBit, Pow2;
      var oldOffset := BUFSIZE_BITMAP * (lastPfn / PFN_BUFBITMAP);
      var newOffset := BUFSIZE_BITMAP * (pfn / PFN_BUFBITMAP);
      ghost var c := lastPfn / PFN_BUFBITMAP;
      while oldOffset < newOffset
        invariant oldOffset == c * BUFSIZE_BITMAP <= newOffset && lastPfn < (c + 1) * PFN_BUFBITMAP
        invariant BufHolds(buf[..], s, c) && Both(file.disk, offsetBitmap, lenBitmap, s, c)
        invariant SameOutside(file.disk, old(file.disk), offsetBitmap, offsetBitmap + 2 * lenBitmap)
      {
        Flush(oldOffset, buf, s, c);
        oldOffset := oldOffset + BUFSIZE_BITMAP;
        c := c + 1;
      }
      assert c == pfn / PFN_BUFBITMAP;
      var k := pfn % PFN_BUFBITMAP;
      ByteBits();
      BufWith(buf[..], s, c, k, value);
      BothLater(file.disk, offsetBitmap, lenBitmap, s, c, pfn);
      ghost var before := buf[..];
      buf[k / CHAR_BIT] := WithBit(buf[k / CHAR_BIT], k % CHAR_BIT, value, CHAR_BIT);
      assert buf[..] == before[k / CHAR_BIT := WithBit(before[k / CHAR_BIT], k % CHAR_BIT, value, CHAR_BIT)];
    }

    /** The bitmaps, in the file and in the buffer, after n frames. */
    ghost predicate Bitmaps(buf: seq<Byte>, n: nat)
      reads file
    {
      && Aligned(blocks) && n <= |AllFrames(blocks)|
      && var frames := AllFrames(blocks);
         var c := LastPfn(frames, n) / PFN_BUFBITMAP;
         BufHolds(buf, Pfns(frames, n), c) && Both(file.disk, offsetBitmap, lenBitmap, Pfns(frames, n), c)
    }

    method StartBitmap() returns (buf: array<Byte>)
      requires Valid()
      ensures fresh(buf) && buf.Length == BUFSIZE_BITMAP && Bitmaps(buf[..], 0)
      ensures 0 < |AllFrames(blocks)| && LastPfn(AllFrames(blocks), 0) == 0
    {
      assert Pfns(AllFrames(blocks), 0) == {};
      hide BufHolds, Both, Frames;
      SomeFrame(blocks);
      buf := new Byte[BUFSIZE_BITMAP](_ => 0);
      ZeroHolds(buf[..], {}, 0);
      BothStart(file.disk, offsetBitmap, lenBitmap);
    }

    method MarkFrame(lastPfn: nat, pfn: nat, buf: array<Byte>, ghost n: nat)
      requires Valid() && n < |AllFrames(blocks)| && buf.Length == BUFSIZE_BITMAP && Bitmaps(buf[..], n)
      requires lastPfn == LastPfn(AllFrames(blocks), n) && pfn == AllFrames(blocks)[n].pfn
      modifies file, buf
      ensures Bitmaps(buf[..], n + 1) && pfn == LastPfn(AllFrames(blocks), n + 1)
      ensures SameOutside(file.disk, old(file.disk), offsetBitmap, offsetBitmap + 2 * lenBitmap)
    {
      hide BufHolds, Both, Frames, SameOutside;
      PfnsNext(blocks, n);
      LastFrame(blocks, n);
      if n > 0 {
        PfnsNext(blocks, n - 1);
      }
      SetDumpBitmap(lastPfn, pfn, true, buf, Pfns(AllFrames(blocks), n));
    }

    /** The last buffer is written out by clearing a bit that belongs behind it. */
    method EndBitmap(lastPfn: nat, buf: array<Byte>)
      requires Valid() && buf.Length == BUFSIZE_BITMAP && Bitmaps(buf[..], |AllFrames(blocks)|)
      requires 0 < |AllFrames(blocks)| && lastPfn == LastPfn(AllFrames(blocks), |AllFrames(blocks)|)
      modifies file, buf
      ensures Both(file.disk, offsetBitmap, lenBitmap, Pfns(AllFrames(blocks), |AllFrames(blocks)|),
                   lenBitmap / BUFSIZE_BITMAP)
      ensures SameOutside(file.disk, old(file.disk), offsetBitmap, offsetBitmap + 2 * lenBitmap)
    {
      hide BufHolds, Both, Frames, SameOutside;
      ghost var n, all := |AllFrames(blocks)|, Pfns(AllFrames(blocks), |AllFrames(blocks)|);
      PfnsNext(blocks, n - 1);
      LastFrame(blocks, n - 1);
      assert all - {lastPfn + PFN_BUFBITMAP} == all;
      assert (lastPfn + PFN_BUFBITMAP) / PFN_BUFBITMAP == lastPfn / PFN_BUFBITMAP + 1 == lenBitmap / BUFSIZE_BITMAP;
      SetDumpBitmap(lastPfn, lastPfn + PFN_BUFBITMAP, false, buf, all);
    }

    /** write_dump_bitmap: in both bitmaps, to their last byte, a bit is set just if the page is RAM. */
    method WriteDumpBitmap()
      requires Valid()
      modifies file, this`numDumpable
      ensures numDumpable == |AllFrames(blocks)|
      ensures Both(file.disk, offsetBitmap, lenBitmap, Pfns(AllFrames(blocks), |AllFrames(blocks)|),
                   lenBitmap / BUFSIZE_BITMAP)
      ensures SameOutside(file.disk, old(file.disk), offsetBitmap, offsetBitmap + 2 * lenBitmap)
    {
      hide BufHolds, Both, Frames, Pos, AllFrames, Pfns, SameOutside, LastPfn, KdumpState.Bitmaps;
      ghost var frames := AllFrames(blocks);
      OutsideSelf(file.disk, offsetBitmap, offsetBitmap + 2 * lenBitmap);
      var buf := StartBitmap();
      var n, lastPfn := 0, 0;
      var block: Option<nat> := None;
      var more, pfn, host := true, 0, 0;
      more, block, pfn, host := GetNextPage(blocks, block, pfn, n);
      while more
        invariant 0 <= n <= |frames| && (more <==> n < |frames|) && fresh(buf)
        invariant more ==> block.Some? && Pos(blocks, n, block.value, pfn) && frames[n] == Frame(pfn, host)
        invariant lastPfn == LastPfn(frames, n) && Bitmaps(buf[..], n)
        invariant SameOutside(file.disk, old(file.disk), offsetBitmap, offsetBitmap + 2 * lenBitmap)
        decreases |frames| - n
      {
        ghost var disk := file.disk;
        MarkFrame(lastPfn, pfn, buf, n);
        OutsideTrans(file.disk, disk, old(file.disk), offsetBitmap, offsetBitmap + 2 * lenBitmap);
        lastPfn := pfn;
        n := n + 1;
        more, block, pfn, host := GetNextPage(blocks, block, pfn, n);
      }
      if n > 0 {
        ghost var disk := file.disk;
        EndBitmap(lastPfn, buf);
        OutsideTrans(file.disk, disk, old(file.disk), offsetBitmap, offsetBitmap + 2 * lenBitmap);
      }
      numDumpable := n;
    }

    /** The caches of descriptors and of data after n frames. */
    ghost predicate Cached(desc: DataCache, data: DataCache, n: nat)
      reads desc, data, file
    {
      && Aligned(blocks) && n <= |AllFrames(blocks)| && desc != data && desc.file == data.file == file
      && desc.Valid() && data.Valid()
      && desc.base == offsetPage && data.base == offsetPage + DESC_SIZE * |AllFrames(blocks)|
      && data.data == Data(fmt, mem, AllFrames(blocks), n)
      && desc.data == Descs(fmt, mem, AllFrames(blocks), data.base, n)
    }

    /** What write_dump_pages does with a page that is not zero: its data go out, and its descriptor is made. */
    method WriteData(desc: DataCache, data: DataCache, offsetData: nat, page: seq<Byte>, ghost n: nat)
      returns (pd: PageDesc)
      requires Cached(desc, data, n) && n < |AllFrames(blocks)| &&
               page == PageOf(mem, AllFrames(blocks)[n]) != ZeroPage()
      requires offsetData == data.base + |data.data|
      modifies data, file
      ensures desc.Valid() && data.Valid() && data.data == Data(fmt, mem, AllFrames(blocks), n + 1)
      ensures pd == DescOf(fmt, mem, AllFrames(blocks), data.base, n) && pd.size == |data.data| - |old(data.data)|
      ensures SameBelow(file.disk, old(file.disk), offsetPage)
    {
      hide AllFrames, StoredPage, PageOf, ZeroPage, Descs, Block, SameOutside;
      var s := StoredPage(fmt, page);
      data.Write(s.bytes, false);
      BytesFrame(file.disk, old(file.disk), data.base, data.base + |old(data.data)|, desc.base,
                 |desc.data| - |desc.buf|);
      BelowFrame(file.disk, old(file.disk), data.base, data.base + |old(data.data)|, offsetPage);
      pd := PageDesc(offsetData, |s.bytes|, s.flags, 0);
    }

    /** A page's turn in write_dump_pages. */
    method WritePage(desc: DataCache, data: DataCache, pdZero: PageDesc, offsetData: nat, host: nat, ghost n: nat)
      returns (offsetData': nat)
      requires Cached(desc, data, n) && n < |AllFrames(blocks)| && AllFrames(blocks)[n].host == host
      requires offsetData == data.base + |data.data| && pdZero == PageDesc(data.base, PAGE_SIZE, 0, 0)
      modifies desc, data, file
      ensures Cached(desc, data, n + 1) && offsetData' == data.base + |data.data|
      ensures SameBelow(file.disk, old(file.disk), offsetPage)
    {
      hide AllFrames, StoredPage, ZeroPage, Block, SameOutside, PutDesc;
      var page := Slice(mem, host, PAGE_SIZE);
      var pd := pdZero;
      offsetData' := offsetData;
      if page == ZeroPage() {
      } else {
        pd := WriteData(desc, data, offsetData, page, n);
        offsetData' := offsetData + pd.size;
      }
      ghost var disk := file.disk;
      desc.Write(PutDesc(pd, fmt.big), false);
      BytesFrame(file.disk, disk, offsetPage, offsetPage + n * DESC_SIZE, data.base, |data.data| - |data.buf|);
      BelowFrame(file.disk, disk, offsetPage, offsetPage + n * DESC_SIZE, offsetPage);
    }

    /** What a reader finds below the data: the descriptors, and after them the data. */
    ghost predicate Written()
      reads file
    {
      && Aligned(blocks)
      && var frames := AllFrames(blocks);
         var base := offsetPage + DESC_SIZE * |frames|;
         && Block(file.disk, offsetPage, |frames| * DESC_SIZE) == Descs(fmt, mem, frames, base, |frames|)
         && Block(file.disk, base, |Data(fmt, mem, frames, |frames|)|) == Data(fmt, mem, frames, |frames|)
    }

    /** The beginning of write_dump_pages: the page that zero pages share. */
    method StartPages() returns (desc: DataCache, data: DataCache)
      requires Valid() && numDumpable == |AllFrames(blocks)|
      modifies file
      ensures fresh(desc) && fresh(data) && Cached(desc, data, 0)
      ensures SameBelow(file.disk, old(file.disk), offsetPage)
    {
      hide AllFrames, Block;
      var offsetData := offsetPage + DESC_SIZE * numDumpable;
      desc := new DataCache(file, offsetPage);
      data := new DataCache(file, offsetData);
      data.Write(ZeroPage(), false);
      BytesFrame(file.disk, old(file.disk), offsetData, offsetData, offsetPage, 0);
      BelowFrame(file.disk, old(file.disk), offsetData, offsetData, offsetPage);
    }

    /** write_dump_pages */
    method WriteDumpPages()
      requires Valid() && numDumpable == |AllFrames(blocks)|
      modifies file
      ensures Written() && SameBelow(file.disk, old(file.disk), offsetPage)
    {
      hide AllFrames, Block, Pos, StoredPage, PageOf, DataCache.Valid, Descs;
      var pageDesc, pageData := StartPages();
      var offsetData := offsetPage + DESC_SIZE * numDumpable;
      var pdZero := PageDesc(offsetData, PAGE_SIZE, 0, 0);
      offsetData := offsetData + PAGE_SIZE;
      ghost var n := 0;
      var block: Option<nat> := None;
      var more, pfn, host := true, 0, 0;
      more, block, pfn, host := GetNextPage(blocks, block, pfn, n);
      while more
        invariant n <= |AllFrames(blocks)| && (more <==> n < |AllFrames(blocks)|)
        invariant more ==> block.Some? && Pos(blocks, n, block.value, pfn) && AllFrames(blocks)[n] == Frame(pfn, host)
        invariant fresh(pageDesc) && fresh(pageData) && Cached(pageDesc, pageData, n)
        invariant offsetData == pageData.base + |pageData.data| && pdZero == PageDesc(pageData.base, PAGE_SIZE, 0, 0)
        invariant SameBelow(file.disk, old(file.disk), offsetPage)
        decreases |AllFrames(blocks)| - n
      {
        offsetData := WritePage(pageDesc, pageData, pdZero, offsetData, host, n);
        n := n + 1;
        more, block, pfn, host := GetNextPage(blocks, block, pfn, n);
      }
      Sync(pageDesc, pageData);
    }

    /** The end of write_dump_pages: both caches are emptied. */
    method Sync(desc: DataCache, data: DataCache)
      requires Aligned(blocks) && Cached(desc, data, |AllFrames(blocks)|)
      modifies desc, data, file
      ensures Written() && SameBelow(file.disk, old(file.disk), offsetPage)
    {
      hide AllFrames, Block, SameOutside, Descs, Data, SameBelow;
      ghost var disk0 := file.disk;
      assert offsetPage + |desc.data| == data.base;
      Drain(desc, data);
      ghost var disk := file.disk;
      BelowFrame(disk, disk0, desc.base, desc.base + |desc.data|, offsetPage);
      Drain(data, desc);
      BelowFrame(file.disk, disk, data.base, data.base + |data.data|, offsetPage);
      BelowTrans(file.disk, disk, disk0, offsetPage);
      AllOnDisk(desc);
      AllOnDisk(data);
    }
  }

  /** One cache is emptied; what another one has written elsewhere stays. */
  method Drain(cache: DataCache, other: DataCache)
    requires cache.Valid() && other.Valid() && cache != other && cache.file == other.file
    requires cache.base + |cache.data| <= other.base || other.base + |other.data| <= cache.base
    modifies cache, cache.file
    ensures cache.Valid() && cache.buf == [] && cache.data == old(cache.data) && other.Valid()
    ensures SameOutside(cache.file.disk, old(cache.file.disk), cache.base, cache.base + |cache.data|)
  {
    hide Block, SameOutside;
    cache.Write([], true);
    BytesFrame(cache.file.disk, old(cache.file.disk), cache.base, cache.base + |cache.data|, other.base,
               |other.data| - |other.buf|);
  }

  lemma AllOnDisk(cache: DataCache)
    requires cache.Valid() && cache.buf == []
    ensures Block(cache.file.disk, cache.base, |cache.data|) == cache.data
  {
    hide Block;
    assert cache.data[..|cache.data|] == cache.data;
  }

  lemma OutsideSelf(a: Disk, from: nat, to: nat)
    ensures SameOutside(a, a, from, to)
  {
  }

  lemma OutsideTrans(a: Disk, b: Disk, c: Disk, from: nat, to: nat)
    requires SameOutside(a, b, from, to) && SameOutside(b, c, from, to)
    ensures SameOutside(a, c, from, to)
  {
  }

  ghost predicate SameBelow(a: Disk, b: Disk, end: nat) {
    forall i: nat :: i < end ==> a(i) == b(i)
  }

  lemma BelowTrans(a: Disk, b: Disk, c: Disk, end: nat)
    requires SameBelow(a, b, end) && SameBelow(b, c, end)
    ensures SameBelow(a, c, end)
  {
  }

  lemma BelowFrame(a: Disk, b: Disk, from: nat, to: nat, end: nat)
    requires SameOutside(a, b, from, to) && end <= from
    ensures SameBelow(a, b, end)
  {
  }

  lemma BytesFrame(a: Disk, b: Disk, from: nat, to: nat, base: nat, n: nat)
    requires SameOutside(a, b, from, to) && (base + n <= from || to <= base)
    ensures Block(a, base, n) == Block(b, base, n)
  {
  }

  // ---- Reading the file ----

  /** How many bits of the bitmap are set before bit p: the index of p's descriptor. */
  function Rank(disk: Disk, offset: nat, p: nat): nat {
    if p == 0 then 0 else Rank(disk, offset, p - 1) + if FileBit(disk, offset, p - 1) then 1 else 0
  }

  lemma {:induction false} RankIs(disk: Disk, offset: nat, blocks: seq<PhysBlock>, c: nat, i: nat, p: nat)
    requires Aligned(blocks) && i < |AllFrames(blocks)|
    requires FileHolds(disk, offset, Pfns(AllFrames(blocks), |AllFrames(blocks)|), c)
    requires p <= AllFrames(blocks)[i].pfn && (i > 0 ==> AllFrames(blocks)[i - 1].pfn < p) && p <= c * PFN_BUFBITMAP
    ensures Rank(disk, offset, p) == i
    decreases p
  {
    hide FileBit, Frames;
    var frames := AllFrames(blocks);
    if p > 0 {
      assert FileBit(disk, offset, p - 1) == (p - 1 in Pfns(frames, |frames|));
      if i > 0 && frames[i - 1].pfn == p - 1 {
        if i > 1 {
          Increasing(blocks, i - 2, i - 1);
        }
        RankIs(disk, offset, blocks, c, i - 1, p - 1);
      } else {
        Between(blocks, i, p - 1);
        RankIs(disk, offset, blocks, c, i, p - 1);
      }
    }
  }

  /** There is no frame between a frame and the next. */
  lemma Between(blocks: seq<PhysBlock>, i: nat, p: nat)
    requires Aligned(blocks) && i < |AllFrames(blocks)|
    requires p < AllFrames(blocks)[i].pfn && (i > 0 ==> AllFrames(blocks)[i - 1].pfn < p)
    ensures p !in Pfns(AllFrames(blocks), |AllFrames(blocks)|)
  {
    hide Frames;
    var frames := AllFrames(blocks);
    forall j | 0 <= j < |frames|
      ensures frames[j].pfn != p
    {
      if j > i {
        Increasing(blocks, i, j);
      } else if j < i - 1 {
        Increasing(blocks, j, i - 1);
      }
    }
  }

  lemma BitIs(disk: Disk, offset: nat, blocks: seq<PhysBlock>, c: nat, p: nat)
    requires Aligned(blocks) && FileHolds(disk, offset, Pfns(AllFrames(blocks), |AllFrames(blocks)|), c) &&
             p < c * PFN_BUFBITMAP
    ensures FileBit(disk, offset, p) == InRam(blocks, p)
    ensures FileBit(disk, offset, p) <==> disk(offset + p / 8) / Pow2(p % 8) % 2 == 1
  {
    BitValue(disk(offset + p / 8), p % 8);
    assert FileBit(disk, offset, p) <==> Bit(disk(offset + p / 8), p % 8);
    hide FileBit, Frames, Bit, Pow2;
    FramesAreRam(blocks, p);
  }

  /** Following the file as a reader would: page p is RAM just if its bit is set, in either bitmap. */
  ghost predicate BitsReadBack(disk: Disk, offset: nat, len: nat, blocks: seq<PhysBlock>) {
    forall p: nat :: p < len * CHAR_BIT ==>
      && (disk(offset + p / 8) / Pow2(p % 8) % 2 == 1 <==> InRam(blocks, p))
      && (disk(offset + len + p / 8) / Pow2(p % 8) % 2 == 1 <==> InRam(blocks, p))
  }

  /** What a reader finds of page p, whose memory is at `host`: 24 bytes at its rank that give the offset, the size
      and the flags of its bytes in the file. A page of zeroes is the one that stands before all others; any other page
      is compressed, if that makes it smaller, and is then flagged. */
  ghost predicate PageReadsBack(disk: Disk, s: KdumpState, pages: nat, p: nat, host: nat) {
    var at := s.offsetPage + 24 * Rank(disk, s.offsetBitmap, p);
    var offset, size := Get(Block(disk, at, 8), s.fmt.big), Get(Block(disk, at + 8, 4), s.fmt.big);
    var flags, pageFlags := Get(Block(disk, at + 12, 4), s.fmt.big), Get(Block(disk, at + 16, 8), s.fmt.big);
    var page, bytes := Slice(s.mem, host, PAGE_SIZE), Block(disk, offset, size);
    pageFlags == 0 &&
    if forall i :: 0 <= i < PAGE_SIZE ==> page[i] == 0 then
      flags == 0 && bytes == page && offset == s.offsetPage + 24 * pages
    else
      var c := s.fmt.compress(page);
      if c.Some? && |c.value| < PAGE_SIZE then flags == s.fmt.flag && bytes == c.value else flags == 0 && bytes == page
  }

  lemma PartBytes(disk: Disk, base: nat, data: seq<Byte>, from: nat, n: nat)
    requires Block(disk, base, |data|) == data && from + n <= |data|
    ensures Block(disk, base + from, n) == data[from..from + n]
  {
    var part := data[from..from + n];
    forall i | 0 <= i < n
      ensures part[i] == disk(base + from + i)
    {
      assert Block(disk, base, |data|)[from + i] == disk(base + from + i);
    }
  }

  /** The numbers of a descriptor fit into its fields. */
  lemma DescFits(fmt: Format, mem: Memory, frames: seq<Frame>, base: nat, i: nat)
    requires i < |frames| && fmt.flag < Bound(4) && base + PAGE_SIZE * (|frames| + 1) <= Bound(8)
    ensures var d := DescOf(fmt, mem, frames, base, i);
            d.offset < Bound(8) && d.size < Bound(4) && d.flags < Bound(4) && d.pageFlags < Bound(8)
  {
    hide Bound, PageOf, ZeroPage, Data;
    Bounds();
    DataStart(fmt, mem, frames, i);
  }

  /** A descriptor on the disk is read field by field. */
  lemma DescFields(disk: Disk, at: nat, d: PageDesc, big: bool)
    requires Block(disk, at, DESC_SIZE) == PutDesc(d, big)
    requires d.offset < Bound(8) && d.size < Bound(4) && d.flags < Bound(4) && d.pageFlags < Bound(8)
    ensures Get(Block(disk, at, 8), big) == d.offset && Get(Block(disk, at + 8, 4), big) == d.size
    ensures Get(Block(disk, at + 12, 4), big) == d.flags && Get(Block(disk, at + 16, 8), big) == d.pageFlags
  {
    hide Put, Get, Bound, Block;
    var raw := PutDesc(d, big);
    PartBytes(disk, at, raw, 0, 8);
    PartBytes(disk, at, raw, 8, 4);
    PartBytes(disk, at, raw, 12, 4);
    PartBytes(disk, at, raw, 16, 8);
    DescParts(d, big);
    PutGet(d.offset, 8, big);
    PutGet(d.size, 4, big);
    PutGet(d.flags, 4, big);
    PutGet(d.pageFlags, 8, big);
  }

  lemma DescParts(d: PageDesc, big: bool)
    ensures var s := PutDesc(d, big);
            && s[0..8] == Put(d.offset, 8, big) && s[8..12] == Put(d.size, 4, big)
            && s[12..16] == Put(d.flags, 4, big) && s[16..24] == Put(d.pageFlags, 8, big)
  {
    hide Put;
  }

  /** A frame's descriptor and its bytes in the file, by the frame's memory. */
  lemma DescMeans(fmt: Format, mem: Memory, frames: seq<Frame>, base: nat, i: nat)
    requires i < |frames|
    ensures var d, page := DescOf(fmt, mem, frames, base, i), Slice(mem, frames[i].host, PAGE_SIZE);
            var bytes := Kept(fmt, PageOf(mem, frames[i]));
            d.pageFlags == 0 &&
            if forall j :: 0 <= j < PAGE_SIZE ==> page[j] == 0 then d.flags == 0 && bytes == page && d.offset == base
            else
              var c := fmt.compress(page);
              if c.Some? && |c.value| < PAGE_SIZE then d.flags == fmt.flag && bytes == c.value
              else d.flags == 0 && bytes == page
  {
    hide Data, Slice, ZeroPage;
    AllZero(PageOf(mem, frames[i]));
  }

  lemma AllZero(page: seq<Byte>)
    requires |page| == PAGE_SIZE
    ensures page == ZeroPage() <==> forall i :: 0 <= i < PAGE_SIZE ==> page[i] == 0
  {
  }

  /** A reader gets every page's bytes. */
  lemma PageBack(s: KdumpState, disk: Disk, c: nat, i: nat)
    requires s.Valid() && i < |AllFrames(s.blocks)| && disk == s.file.disk && s.Written()
    requires s.fmt.flag < Bound(4)
    requires s.offsetPage + DESC_SIZE * |AllFrames(s.blocks)| + PAGE_SIZE * (|AllFrames(s.blocks)| + 1) <= Bound(8)
    requires FileHolds(disk, s.offsetBitmap, Pfns(AllFrames(s.blocks), |AllFrames(s.blocks)|), c)
    requires AllFrames(s.blocks)[i].pfn < c * PFN_BUFBITMAP
    ensures PageReadsBack(disk, s, |AllFrames(s.blocks)|, AllFrames(s.blocks)[i].pfn, AllFrames(s.blocks)[i].host)
  {
    hide Block, Frames, PutDesc, Bound, Rank, FileHolds, Pfns, Data, Descs, Get, Slice, DescOf, Kept, PageOf;
    var frames := AllFrames(s.blocks);
    var base := s.offsetPage + DESC_SIZE * |frames|;
    var d := DescOf(s.fmt, s.mem, frames, base, i);
    if i > 0 {
      Increasing(s.blocks, i - 1, i);
    }
    RankIs(disk, s.offsetBitmap, s.blocks, c, i, frames[i].pfn);
    DescAt(s.fmt, s.mem, frames, base, i, |frames|);
    PartBytes(disk, s.offsetPage, Descs(s.fmt, s.mem, frames, base, |frames|), i * DESC_SIZE, DESC_SIZE);
    DescFits(s.fmt, s.mem, frames, base, i);
    DescFields(disk, s.offsetPage + i * DESC_SIZE, d, s.fmt.big);
    DataAt(s.fmt, s.mem, frames, base, i, |frames|);
    PartBytes(disk, base, Data(s.fmt, s.mem, frames, |frames|), d.offset - base, d.size);
    DescMeans(s.fmt, s.mem, frames, base, i);
  }

  /** A whole dump, and what can be read from it. */
  method CreateKdump(blocks: seq<PhysBlock>, mem: Memory, fmt: Format, offsetBitmap: nat, file: DumpFile)
    returns (s: KdumpState)
    requires Aligned(blocks)
    modifies file
    ensures fresh(s) && s.Valid() && s.file == file && s.blocks == blocks && s.mem == mem && s.fmt == fmt
    ensures s.offsetBitmap == offsetBitmap
    ensures BitsReadBack(file.disk, offsetBitmap, s.lenBitmap, blocks)
    ensures s.numDumpable == PageCount(blocks, |blocks|)
    ensures fmt.flag < 0x1_0000_0000 &&
            s.offsetPage + 24 * s.numDumpable + PAGE_SIZE * (s.numDumpable + 1) <= 0x1_0000_0000_0000_0000 ==>
              forall k: nat, p: nat :: InBlock(blocks, k, p) ==>
                PageReadsBack(file.disk, s, s.numDumpable, p, blocks[k].host + (p * PAGE_SIZE - blocks[k].start))
    ensures SameBelow(file.disk, old(file.disk), offsetBitmap)
  {
    hide Frames, Block, FileHolds, PageReadsBack, FileBit, InRam, Bound, SameOutside, Pfns, Data, Descs, Aligned;
    s := new KdumpState(blocks, mem, fmt, offsetBitmap, file);
    s.WriteDumpBitmap();
    BelowFrame(file.disk, old(file.disk), offsetBitmap, s.offsetPage, offsetBitmap);
    ghost var disk := file.disk;
    s.WriteDumpPages();
    ghost var frames := AllFrames(blocks);
    ghost var all, c := Pfns(frames, |frames|), s.lenBitmap / BUFSIZE_BITMAP;
    FileFrame(disk, file.disk, offsetBitmap, all, c);
    FileFrame(disk, file.disk, offsetBitmap + s.lenBitmap, all, c);
    BitsBack(file.disk, offsetBitmap, s.lenBitmap, blocks, c);
    CountFrames(blocks, |blocks|);
    Bounds();
    if fmt.flag < Bound(4) && s.offsetPage + DESC_SIZE * |frames| + PAGE_SIZE * (|frames| + 1) <= Bound(8) {
      PagesBack(s, c);
    }
  }

  lemma BitsBack(disk: Disk, offset: nat, len: nat, blocks: seq<PhysBlock>, c: nat)
    requires Aligned(blocks) && len * CHAR_BIT <= c * PFN_BUFBITMAP
    requires FileHolds(disk, offset, Pfns(AllFrames(blocks), |AllFrames(blocks)|), c)
    requires FileHolds(disk, offset + len, Pfns(AllFrames(blocks), |AllFrames(blocks)|), c)
    ensures BitsReadBack(disk, offset, len, blocks)
  {
    hide Frames, FileHolds, FileBit, InRam, Pfns, Aligned, Pow2;
    forall p: nat | p < len * CHAR_BIT
      ensures disk(offset + p / 8) / Pow2(p % 8) % 2 == 1 <==> InRam(blocks, p)
      ensures disk(offset + len + p / 8) / Pow2(p % 8) % 2 == 1 <==> InRam(blocks, p)
    {
      BitIs(disk, offset, blocks, c, p);
      BitIs(disk, offset + len, blocks, c, p);
    }
  }

  lemma PagesBack(s: KdumpState, c: nat)
    requires s.Valid() && s.Written() && s.fmt.flag < Bound(4) && s.lenBitmap == c * BUFSIZE_BITMAP
    requires s.offsetPage + DESC_SIZE * |AllFrames(s.blocks)| + PAGE_SIZE * (|AllFrames(s.blocks)| + 1) <= Bound(8)
    requires FileHolds(s.file.disk, s.offsetBitmap, Pfns(AllFrames(s.blocks), |AllFrames(s.blocks)|), c)
    ensures forall k: nat, p: nat :: InBlock(s.blocks, k, p) ==>
              PageReadsBack(s.file.disk, s, |AllFrames(s.blocks)|, p,
                            s.blocks[k].host + (p * PAGE_SIZE - s.blocks[k].start))
  {
    hide Frames, Block, FileHolds, PageReadsBack, Bound, Pfns, Data, Descs;
    forall k: nat, p: nat | InBlock(s.blocks, k, p)
      ensures PageReadsBack(s.file.disk, s, |AllFrames(s.blocks)|, p,
                            s.blocks[k].host + (p * PAGE_SIZE - s.blocks[k].start))
    {
      var i := FrameHost(s.blocks, k, p);
      LastFrame(s.blocks, i);
      PageBack(s, s.file.disk, c, i);
    }
  }
}
