/** The pages of a kdump file (dump.c): the order in which they are visited, and the caches through which they are
    written. */
module KdumpPages {
  import opened Disks
  import opened ElfDump
  import opened Options
  import opened TargetPage

  // ---- Page frames in the order of the walk ----

  datatype Frame = Frame(pfn: nat, host: nat)

  /** Guest blocks as the memory listener leaves them: whole pages, sorted, apart. */
  ghost predicate Aligned(blocks: seq<PhysBlock>) {
    && blocks != []
    && (forall k :: 0 <= k < |blocks| ==> PageBlock(blocks[k]))
    && forall j, k :: 0 <= j < k < |blocks| ==> blocks[j].end <= blocks[k].start
  }

  predicate PageBlock(b: PhysBlock) {
    b.start % PAGE_SIZE == 0 && b.end % PAGE_SIZE == 0 && b.start < b.end
  }

  function First(b: PhysBlock): nat {
    b.start / PAGE_SIZE
  }

  function Last(b: PhysBlock): nat {
    b.end / PAGE_SIZE
  }

  function FrameOf(b: PhysBlock, pfn: nat): Frame
    requires First(b) <= pfn
  {
    Frame(pfn, b.host + (pfn - First(b)) * PAGE_SIZE)
  }

  function FramesOf(b: PhysBlock): (r: seq<Frame>)
    requires PageBlock(b)
    ensures |r| == Last(b) - First(b)
  {
    seq(Last(b) - First(b), j requires 0 <= j => FrameOf(b, First(b) + j))
  }

  /** The frames of the first k blocks. */
  function Frames(blocks: seq<PhysBlock>, k: nat): seq<Frame>
    requires Aligned(blocks) && k <= |blocks|
  {
    if k == 0 then [] else Frames(blocks, k - 1) + FramesOf(blocks[k - 1])
  }

  function AllFrames(blocks: seq<PhysBlock>): seq<Frame>
    requires Aligned(blocks)
  {
    Frames(blocks, |blocks|)
  }

  /** The n-th frame is page `pfn` of block k. */
  ghost predicate Pos(blocks: seq<PhysBlock>, n: nat, k: nat, pfn: nat)
    requires Aligned(blocks)
  {
    k < |blocks| && First(blocks[k]) <= pfn < Last(blocks[k]) && n == |Frames(blocks, k)| + (pfn - First(blocks[k]))
  }

  lemma {:induction false} FramePrefix(blocks: seq<PhysBlock>, j: nat, k: nat)
    requires Aligned(blocks) && j <= k <= |blocks|
    ensures |Frames(blocks, j)| <= |Frames(blocks, k)| && Frames(blocks, j) == Frames(blocks, k)[..|Frames(blocks, j)|]
  {
    if j < k {
      FramePrefix(blocks, j, k - 1);
    }
  }

  lemma PosFrame(blocks: seq<PhysBlock>, n: nat, k: nat, pfn: nat)
    requires Aligned(blocks) && Pos(blocks, n, k, pfn)
    ensures n < |AllFrames(blocks)| && AllFrames(blocks)[n] == FrameOf(blocks[k], pfn)
  {
    FramePrefix(blocks, k + 1, |blocks|);
    assert AllFrames(blocks)[n] == Frames(blocks, k + 1)[n];
  }

  /** Every index is the position of a page of some block. */
  lemma {:induction false} FramePos(blocks: seq<PhysBlock>, n: nat, k: nat) returns (b: nat, pfn: nat)
    requires Aligned(blocks) && k <= |blocks| && n < |Frames(blocks, k)|
    ensures b < k && Pos(blocks, n, b, pfn)
  {
    if n < |Frames(blocks, k - 1)| {
      b, pfn := FramePos(blocks, n, k - 1);
    } else {
      b, pfn := k - 1, First(blocks[k - 1]) + (n - |Frames(blocks, k - 1)|);
    }
  }

  lemma Boundary(b: PhysBlock)
    requires PageBlock(b)
    ensures First(b) * PAGE_SIZE == b.start && Last(b) * PAGE_SIZE == b.end && First(b) < Last(b)
  {
  }

  /** Frame numbers increase. */
  lemma Increasing(blocks: seq<PhysBlock>, m: nat, n: nat)
    requires Aligned(blocks) && m < n < |AllFrames(blocks)|
    ensures AllFrames(blocks)[m].pfn < AllFrames(blocks)[n].pfn
  {
    var j, p := FramePos(blocks, m, |blocks|);
    var k, q := FramePos(blocks, n, |blocks|);
    PosFrame(blocks, m, j, p);
    PosFrame(blocks, n, k, q);
    Boundary(blocks[j]);
    Boundary(blocks[k]);
    if k < j {
      FramePrefix(blocks, k + 1, j);
    }
  }

  /** Page p of the guest's memory is in block k. */
  ghost predicate InBlock(blocks: seq<PhysBlock>, k: nat, p: nat) {
    k < |blocks| && blocks[k].start <= p * PAGE_SIZE < blocks[k].end
  }

  /** Page p of the guest's memory is RAM. */
  ghost predicate InRam(blocks: seq<PhysBlock>, p: nat) {
    exists k: nat :: InBlock(blocks, k, p)
  }

  /** The visit to a RAM page takes its bytes from where its block has them. */
  lemma FrameHost(blocks: seq<PhysBlock>, k: nat, p: nat) returns (n: nat)
    requires Aligned(blocks) && InBlock(blocks, k, p)
    ensures n < |AllFrames(blocks)|
    ensures AllFrames(blocks)[n] == Frame(p, blocks[k].host + (p * PAGE_SIZE - blocks[k].start))
  {
    hide FramesOf;
    Boundary(blocks[k]);
    n := |Frames(blocks, k)| + (p - First(blocks[k]));
    PosFrame(blocks, n, k, p);
  }

  /** How many pages the first k blocks have. */
  function PageCount(blocks: seq<PhysBlock>, k: nat): nat
    requires k <= |blocks| && forall j :: 0 <= j < |blocks| ==> PageBlock(blocks[j])
  {
    if k == 0 then 0 else PageCount(blocks, k - 1) + (blocks[k - 1].end - blocks[k - 1].start) / PAGE_SIZE
  }

  lemma {:induction false} CountFrames(blocks: seq<PhysBlock>, k: nat)
    requires Aligned(blocks) && k <= |blocks|
    ensures |Frames(blocks, k)| == PageCount(blocks, k)
  {
    hide FramesOf;
    if k > 0 {
      CountFrames(blocks, k - 1);
      Boundary(blocks[k - 1]);
    }
  }

  /** A frame is visited just if it is RAM. */
  lemma FramesAreRam(blocks: seq<PhysBlock>, p: nat)
    requires Aligned(blocks)
    ensures InRam(blocks, p) <==> exists n :: 0 <= n < |AllFrames(blocks)| && AllFrames(blocks)[n].pfn == p
  {
    if InRam(blocks, p) {
      var k: nat :| InBlock(blocks, k, p);
      var n := FrameHost(blocks, k, p);
    }
    if n :| 0 <= n < |AllFrames(blocks)| && AllFrames(blocks)[n].pfn == p {
      var k, pfn := FramePos(blocks, n, |blocks|);
      PosFrame(blocks, n, k, pfn);
      Boundary(blocks[k]);
      assert InBlock(blocks, k, p);
    }
  }

  /** get_next_page: the walk visits the frames one by one. */
  method GetNextPage(blocks: seq<PhysBlock>, block: Option<nat>, pfn: nat, ghost n: nat)
    returns (more: bool, block': Option<nat>, pfn': nat, host: nat)
    requires Aligned(blocks)
    requires if block.None? then n == 0 else n > 0 && Pos(blocks, n - 1, block.value, pfn)
    ensures more <==> n < |AllFrames(blocks)|
    ensures more ==> block'.Some? && Pos(blocks, n, block'.value, pfn') && AllFrames(blocks)[n] == Frame(pfn', host)
    ensures more ==> InBlock(blocks, block'.value, pfn')
    ensures more ==> host == blocks[block'.value].host + (pfn' * PAGE_SIZE - blocks[block'.value].start)
    ensures !more ==> n == |AllFrames(blocks)|
  {
    hide FramesOf;
    if block.None? {
      var b := blocks[0];
      Boundary(b);
      PosFrame(blocks, 0, 0, First(b));
      return true, Some(0), First(b), b.host;
    }
    var k := block.value;
    var b := blocks[k];
    pfn' := pfn + 1;
    var addr := pfn' * PAGE_SIZE;
    Boundary(b);
    if addr >= b.start && addr + PAGE_SIZE <= b.end {
      host := b.host + (addr - b.start);
      PosFrame(blocks, n, k, pfn');
      return true, block, pfn', host;
    }
    if k + 1 == |blocks| {
      return false, None, pfn', 0;
    }
    b := blocks[k + 1];
    Boundary(b);
    PosFrame(blocks, n, k + 1, First(b));
    return true, Some(k + 1), First(b), b.host;
  }

  // ---- Buffered output ----

  const BUFSIZE_DATA_CACHE: nat := 16384

  class DumpFile {
    var disk: Disk

    constructor (disk: Disk)
      ensures this.disk == disk
    {
      this.disk := disk;
    }

    /** write_buffer, as the file is once its records are put in place */
    method WriteBuffer(offset: nat, buf: seq<Byte>)
      modifies this
      ensures disk == Overlay(old(disk), offset, buf)
    {
      disk := Overlay(disk, offset, buf);
    }
  }

  /** Two files are the same outside [from, to). */
  ghost predicate SameOutside(a: Disk, b: Disk, from: nat, to: nat) {
    forall i: nat :: i < from || i >= to ==> a(i) == b(i)
  }

  class DataCache {
    const file: DumpFile
    var buf: seq<Byte>
    var offset: nat
    ghost const base: nat         // where the data begin in the file
    ghost var data: seq<Byte>     // all that has been given so far

    /** prepare_data_cache */
    constructor (file: DumpFile, offset: nat)
      ensures this.file == file && base == offset && data == [] && buf == [] && Valid()
    {
      this.file, this.offset, buf := file, offset, [];
      base, data := offset, [];
    }

    /** What is not in the buffer is in the file. */
    ghost predicate Valid()
      reads this, file
    {
      && |buf| <= BUFSIZE_DATA_CACHE && |buf| <= |data| && offset + |buf| == base + |data|
      && buf == data[|data| - |buf|..]
      && Block(file.disk, base, |data| - |buf|) == data[..|data| - |buf|]
    }

    /** The buffered bytes go to the file. */
    method WriteOut()
      requires Valid()
      modifies this`buf, this`offset, file
      ensures Valid() && buf == []
      ensures SameOutside(file.disk, old(file.disk), base, base + |data|)
    {
      hide Block;
      ghost var done := data[..|data| - |buf|];
      OverlayBytes(file.disk, base, done, buf);
      file.WriteBuffer(offset, buf);
      assert done + buf == data;
      offset := offset + |buf|;
      buf := [];
    }

    /** write_cache: takes the bytes, and writes out what was buffered when there is no room for them. */
    method Write(bytes: seq<Byte>, sync: bool)
      requires Valid() && |bytes| <= BUFSIZE_DATA_CACHE && (sync ==> bytes == [])
      modifies this`buf, this`offset, this`data, file
      ensures Valid() && data == old(data) + bytes && (sync ==> buf == [])
      ensures !sync ==> buf == (if |old(buf)| + |bytes| > BUFSIZE_DATA_CACHE then [] else old(buf)) + bytes
      ensures SameOutside(file.disk, old(file.disk), base, base + |old(data)|)
    {
      hide Block;
      if (!sync && |buf| + |bytes| > BUFSIZE_DATA_CACHE) || (sync && |buf| > 0) {
        WriteOut();
      }
      if !sync {
        assert (data + bytes)[..|data| - |buf|] == data[..|data| - |buf|];
        buf := buf + bytes;
        data := data + bytes;
      }
    }
  }

  lemma OverlayBytes(disk: Disk, base: nat, done: seq<Byte>, buf: seq<Byte>)
    requires Block(disk, base, |done|) == done
    ensures Block(Overlay(disk, base + |done|, buf), base, |done + buf|) == done + buf
  {
    var r := Block(Overlay(disk, base + |done|, buf), base, |done + buf|);
    forall i | 0 <= i < |done|
      ensures r[i] == done[i]
    {
      assert Block(disk, base, |done|)[i] == disk(base + i);
    }
  }
}
