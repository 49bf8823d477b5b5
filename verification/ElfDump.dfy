/** The memory part of an ELF dump (dump.c). The program headers say where in the file the bytes of a guest address
    are; another walk over the same blocks writes them. */
module ElfDump {
  import opened Arith
  import opened Disks
  import opened TargetPage

  /** Guest addresses [start, end) at a host address. */
  datatype PhysBlock = PhysBlock(start: nat, end: nat, host: nat)

  /** What is to be dumped: everything, or guest addresses [begin, begin + length). */
  datatype Filter = All | Range(begin: nat, length: nat)

  type Memory = nat -> Byte

  function Slice(mem: Memory, host: nat, n: nat): (r: seq<Byte>)
    ensures |r| == n
  {
    seq(n, i requires 0 <= i < n => mem(host + i))
  }

  // ---- What is stored ----

  /** The guest addresses of a block that are dumped are [Lo, Hi). */
  function Lo(b: PhysBlock, f: Filter): nat {
    if f.Range? then Max(b.start, Min(f.begin, b.end)) else b.start
  }

  function Hi(b: PhysBlock, f: Filter): nat {
    if f.Range? then Max(Lo(b, f), Min(b.end, f.begin + f.length)) else b.end
  }

  ghost predicate BlocksOk(blocks: seq<PhysBlock>) {
    forall k :: 0 <= k < |blocks| ==> blocks[k].start <= blocks[k].end
  }

  predicate OutOfRange(b: PhysBlock, f: Filter) {
    f.Range? && (b.start >= f.begin + f.length || b.end <= f.begin)
  }

  /** Guest address `a` belongs to the block, and is to be dumped. */
  ghost predicate Asked(b: PhysBlock, f: Filter, a: nat) {
    b.start <= a < b.end && (f.All? || f.begin <= a < f.begin + f.length)
  }

  /** What is dumped of a block is what the filter asks for. */
  lemma DumpedIsAsked(b: PhysBlock, f: Filter, a: nat)
    requires b.start <= b.end
    ensures Lo(b, f) <= a < Hi(b, f) <==> Asked(b, f, a)
    ensures Asked(b, f, a) ==> Hi(b, f) == if f.All? then b.end else Min(b.end, f.begin + f.length)
  {
  }

  lemma OutOfRangeEmpty(b: PhysBlock, f: Filter)
    requires b.start <= b.end && OutOfRange(b, f)
    ensures Hi(b, f) == Lo(b, f)
  {
  }

  /** The bytes of a block that are dumped. */
  function Part(b: PhysBlock, f: Filter, mem: Memory): (r: seq<Byte>)
    requires b.start <= b.end
    ensures |r| == Hi(b, f) - Lo(b, f)
  {
    Slice(mem, b.host + (Lo(b, f) - b.start), Hi(b, f) - Lo(b, f))
  }

  /** The bytes of the first k blocks. */
  function Image(blocks: seq<PhysBlock>, f: Filter, mem: Memory, k: nat): seq<Byte>
    requires BlocksOk(blocks) && k <= |blocks|
  {
    if k == 0 then [] else Image(blocks, f, mem, k - 1) + Part(blocks[k - 1], f, mem)
  }

  /** How many bytes the first k blocks take. */
  function Size(blocks: seq<PhysBlock>, f: Filter, k: nat): nat
    requires BlocksOk(blocks) && k <= |blocks|
  {
    if k == 0 then 0 else Size(blocks, f, k - 1) + (Hi(blocks[k - 1], f) - Lo(blocks[k - 1], f))
  }

  lemma SizeNext(blocks: seq<PhysBlock>, f: Filter, k: nat)
    requires BlocksOk(blocks) && k < |blocks|
    ensures Size(blocks, f, k + 1) == Size(blocks, f, k) + (Hi(blocks[k], f) - Lo(blocks[k], f))
  {
  }

  lemma OutsideFilter(blocks: seq<PhysBlock>, f: Filter, addr: nat)
    requires f.Range? && !(f.begin <= addr < f.begin + f.length)
    ensures forall k :: 0 <= k < |blocks| ==> !(Lo(blocks[k], f) <= addr < Hi(blocks[k], f))
  {
  }

  lemma {:induction false} ImageSize(blocks: seq<PhysBlock>, f: Filter, mem: Memory, k: nat)
    requires BlocksOk(blocks) && k <= |blocks|
    ensures |Image(blocks, f, mem, k)| == Size(blocks, f, k)
  {
    if k > 0 {
      ImageSize(blocks, f, mem, k - 1);
    }
  }

  lemma SkippedImage(blocks: seq<PhysBlock>, f: Filter, mem: Memory, k: nat)
    requires BlocksOk(blocks) && k < |blocks| && OutOfRange(blocks[k], f)
    ensures Image(blocks, f, mem, k + 1) == Image(blocks, f, mem, k)
  {
    OutOfRangeEmpty(blocks[k], f);
  }

  lemma InRangeStart(b: PhysBlock, f: Filter)
    requires b.start <= b.end && !OutOfRange(b, f)
    ensures Lo(b, f) == if f.Range? && f.begin > b.start then f.begin else b.start
  {
  }

  /** Block k's bytes stand in the image of all blocks where those of the blocks before it end. */
  lemma {:induction false} ImageAt(blocks: seq<PhysBlock>, f: Filter, mem: Memory, k: nat, n: nat, i: nat)
    requires BlocksOk(blocks) && k < n <= |blocks| && i < Hi(blocks[k], f) - Lo(blocks[k], f)
    ensures Size(blocks, f, k) + i < |Image(blocks, f, mem, n)|
    ensures Image(blocks, f, mem, n)[Size(blocks, f, k) + i]
         == mem(blocks[k].host + (Lo(blocks[k], f) - blocks[k].start) + i)
  {
    hide Lo, Hi;
    ImageSize(blocks, f, mem, n - 1);
    if k < n - 1 {
      ImageAt(blocks, f, mem, k, n - 1, i);
    }
  }

  // ---- The dump ----

  class DumpState {
    const blocks: seq<PhysBlock>
    const filter: Filter
    const memoryOffset: nat
    const mem: Memory
    var start: nat
    var nextBlock: nat
    var file: seq<Byte>

    constructor (blocks: seq<PhysBlock>, filter: Filter, mem: Memory, header: seq<Byte>)
      requires BlocksOk(blocks)
      ensures this.blocks == blocks && this.filter == filter && this.mem == mem
      ensures file == header && memoryOffset == |header|
    {
      this.blocks, this.filter, this.mem := blocks, filter, mem;
      file, memoryOffset, start, nextBlock := header, |header|, 0, 0;
    }

    /** write_memory: page by page, then the rest. */
    method WriteMemory(block: PhysBlock, start: nat, size: nat)
      modifies this`file
      ensures file == old(file) + Slice(mem, block.host + start, size)
    {
      var i := 0;
      while i < size / PAGE_SIZE
        invariant 0 <= i <= size / PAGE_SIZE
        invariant file == old(file) + Slice(mem, block.host + start, i * PAGE_SIZE)
      {
        SliceMore(mem, block.host + start, i * PAGE_SIZE, PAGE_SIZE);
        file := file + Slice(mem, block.host + start + i * PAGE_SIZE, PAGE_SIZE);
        i := i + 1;
      }
      SliceMore(mem, block.host + start, i * PAGE_SIZE, size % PAGE_SIZE);
      if size % PAGE_SIZE != 0 {
        file := file + Slice(mem, block.host + start + i * PAGE_SIZE, size % PAGE_SIZE);
      }
    }

    /** The walk stands at the beginning of what is dumped of a block, and all before it is in the file. */
    ghost predicate Stands(header: seq<Byte>)
      reads this
    {
      && BlocksOk(blocks) && nextBlock < |blocks| && !OutOfRange(blocks[nextBlock], filter)
      && start == Lo(blocks[nextBlock], filter) - blocks[nextBlock].start
      && file == header + Image(blocks, filter, mem, nextBlock)
    }

    /** get_start_block: fails if no block is in range. */
    method GetStartBlock() returns (ok: bool)
      requires BlocksOk(blocks) && (filter.All? ==> blocks != [])
      modifies this`start, this`nextBlock
      ensures ok == exists k :: 0 <= k < |blocks| && !OutOfRange(blocks[k], filter)
      ensures ok ==> Stands(file)
    {
      if filter.All? {
        assert !OutOfRange(blocks[0], filter);
        nextBlock, start := 0, 0;
        return true;
      }
      var k := 0;
      while k < |blocks|
        invariant 0 <= k <= |blocks| && Image(blocks, filter, mem, k) == []
        invariant forall j :: 0 <= j < k ==> OutOfRange(blocks[j], filter)
      {
        if !OutOfRange(blocks[k], filter) {
          nextBlock := k;
          start := if filter.begin > blocks[k].start then filter.begin - blocks[k].start else 0;
          return true;
        }
        OutOfRangeEmpty(blocks[k], filter);
        k := k + 1;
      }
      ok := false;
    }

    /** get_next_block: on to the next block in range. */
    method GetNextBlock(ghost header: seq<Byte>) returns (more: bool)
      requires BlocksOk(blocks) && nextBlock < |blocks|
      requires file == header + Image(blocks, filter, mem, nextBlock + 1)
      modifies this`start, this`nextBlock
      ensures more ==> Stands(header) && nextBlock > old(nextBlock)
      ensures !more ==> file == header + Image(blocks, filter, mem, |blocks|)
    {
      hide Image, Lo, Hi;
      var block := nextBlock;
      while true
        invariant nextBlock <= block < |blocks| && old(nextBlock) <= block
        invariant file == header + Image(blocks, filter, mem, block + 1)
        decreases |blocks| - block
      {
        block := block + 1;
        if block == |blocks| {
          return false;
        }
        start, nextBlock := 0, block;
        if filter.Range? {
          if OutOfRange(blocks[block], filter) {
            SkippedImage(blocks, filter, mem, block);
            continue;
          }
          if filter.begin > blocks[block].start {
            start := filter.begin - blocks[block].start;
          }
        }
        InRangeStart(blocks[block], filter);
        return true;
      }
    }

    /** dump_iterate: the file is the header and what is dumped of every block. */
    method DumpIterate()
      requires Stands(file)
      modifies this
      ensures file == old(file) + Image(blocks, filter, mem, |blocks|)
    {
      while true
        invariant Stands(old(file))
        decreases |blocks| - nextBlock
      {
        var b := blocks[nextBlock];
        var size := b.end - b.start;
        if filter.Range? {
          size := size - start;
          if filter.begin + filter.length < b.end {
            size := size - (b.end - (filter.begin + filter.length));
          }
        }
        WriteMemory(b, start, size);
        var more := GetNextBlock(old(file));
        if !more {
          return;
        }
      }
    }

    /** Where the dumped part of a block begins, and its size. */
    method DumpedRange(b: PhysBlock) returns (from: nat, size: int)
      requires b.start <= b.end && !OutOfRange(b, filter)
      ensures from == Lo(b, filter) && from + size == Hi(b, filter)
    {
      from, size := b.start, b.end - b.start;
      if filter.Range? {
        from := if filter.begin <= b.start then b.start else filter.begin;
        size := b.end - from;
        if filter.begin + filter.length < b.end {
          size := size - (b.end - (filter.begin + filter.length));
        }
      }
    }

    /** get_offset_range: where the bytes from a guest address on are in the file, and how many of them. */
    method GetOffsetRange(addr: nat, mappingLength: nat) returns (offset: int, filesz: nat)
      requires BlocksOk(blocks)
      ensures offset == -1 <==>
                forall k :: 0 <= k < |blocks| ==> !(Lo(blocks[k], filter) <= addr < Hi(blocks[k], filter))
      ensures offset == -1 ==> filesz == 0
      ensures offset != -1 ==>
                exists k :: 0 <= k < |blocks| && Lo(blocks[k], filter) <= addr < Hi(blocks[k], filter)
                  && offset == memoryOffset + Size(blocks, filter, k) + (addr - Lo(blocks[k], filter))
                  && filesz == Min(mappingLength, Hi(blocks[k], filter) - addr)
    {
      assert Size(blocks, filter, 0) == 0;
      hide Lo, Hi, Size, OutOfRange;
      if filter.Range? && (addr < filter.begin || addr >= filter.begin + filter.length) {
        OutsideFilter(blocks, filter, addr);
        return -1, 0;
      }
      var at := memoryOffset;
      var k := 0;
      while k < |blocks|
        invariant 0 <= k <= |blocks| && at == memoryOffset + Size(blocks, filter, k)
        invariant forall j :: 0 <= j < k ==> !(Lo(blocks[j], filter) <= addr < Hi(blocks[j], filter))
      {
        var b := blocks[k];
        SizeNext(blocks, filter, k);
        if OutOfRange(b, filter) {
          OutOfRangeEmpty(b, filter);
          k := k + 1;
          continue;
        }
        var from, size := DumpedRange(b);
        if from <= addr < from + size {
          offset := addr - from + at;
          filesz := if addr + mappingLength <= from + size then mappingLength else size - (addr - from);
          return;
        }
        at := at + size;
        k := k + 1;
      }
      return -1, 0;
    }
  }

  lemma SliceMore(mem: Memory, host: nat, n: nat, m: nat)
    ensures Slice(mem, host, n) + Slice(mem, host + n, m) == Slice(mem, host, n + m)
  {
  }

  /** A dump and the program header of any mapping agree: the header selects bytes exactly if the address is RAM and
      asked for, and then the bytes that it selects in the file are those of the mapping's guest addresses, up to the
      end of the block or of what is asked for. Behind the header the file has nothing but bytes that are asked for. */
  method DumpAgrees(blocks: seq<PhysBlock>, filter: Filter, mem: Memory, header: seq<Byte>, addr: nat,
                    mappingLength: nat)
    returns (ok: bool, file: seq<Byte>, offset: int, filesz: nat)
    requires BlocksOk(blocks) && (filter.All? ==> blocks != [])
    ensures ok ==
            exists k :: 0 <= k < |blocks| &&
              (filter.All? || (blocks[k].start < filter.begin + filter.length && filter.begin < blocks[k].end))
    ensures offset == -1 <==> forall k :: 0 <= k < |blocks| ==> !Asked(blocks[k], filter, addr)
    ensures ok && offset != -1 ==>
              exists k :: 0 <= k < |blocks| && Asked(blocks[k], filter, addr)
                && filesz == Min(mappingLength, (if filter.All? then blocks[k].end
                                                 else Min(blocks[k].end, filter.begin + filter.length)) - addr)
                && |header| <= offset <= offset + filesz <= |file|
                && var part := file[offset..offset + filesz];
                   forall i :: 0 <= i < filesz ==> part[i] == mem(blocks[k].host + (addr - blocks[k].start) + i)
    ensures ok ==> header <= file && var data := file[|header|..];
                                     forall i :: 0 <= i < |data| ==> FromGuest(blocks, filter, mem, data[i])
  {
    hide Image, Size, Lo, Hi, Asked, FromGuest;
    var s := new DumpState(blocks, filter, mem, header);
    offset, filesz := s.GetOffsetRange(addr, mappingLength);
    ok := s.GetStartBlock();
    if ok {
      s.DumpIterate();
    }
    file := s.file;
    forall k | 0 <= k < |blocks|
      ensures Lo(blocks[k], filter) <= addr < Hi(blocks[k], filter) <==> Asked(blocks[k], filter, addr)
    {
      DumpedIsAsked(blocks[k], filter, addr);
    }
    if ok {
      OnlyAsked(blocks, filter, mem);
      if offset != -1 {
        ghost var k :| 0 <= k < |blocks| && Lo(blocks[k], filter) <= addr < Hi(blocks[k], filter)
          && offset == |header| + Size(blocks, filter, k) + (addr - Lo(blocks[k], filter))
          && filesz == Min(mappingLength, Hi(blocks[k], filter) - addr);
        DumpedIsAsked(blocks[k], filter, addr);
        AboveStart(blocks[k], filter);
        RangeInImage(blocks, filter, mem, header, k, addr, filesz);
      }
    }
  }

  /** The byte is the memory behind some address that is asked for. */
  ghost predicate FromGuest(blocks: seq<PhysBlock>, f: Filter, mem: Memory, byte: Byte) {
    exists k, a: nat ::
      0 <= k < |blocks| && Asked(blocks[k], f, a) && byte == mem(blocks[k].host + (a - blocks[k].start))
  }

  lemma OnlyAsked(blocks: seq<PhysBlock>, f: Filter, mem: Memory)
    requires BlocksOk(blocks)
    ensures var image := Image(blocks, f, mem, |blocks|);
            forall i :: 0 <= i < |image| ==> FromGuest(blocks, f, mem, image[i])
  {
    hide Image, FromGuest;
    var image := Image(blocks, f, mem, |blocks|);
    forall i | 0 <= i < |image|
      ensures FromGuest(blocks, f, mem, image[i])
    {
      ImageFrom(blocks, f, mem, |blocks|, i);
    }
  }

  /** Every byte of the image is asked for. */
  lemma {:induction false} ImageFrom(blocks: seq<PhysBlock>, f: Filter, mem: Memory, n: nat, i: nat)
    requires BlocksOk(blocks) && n <= |blocks| && i < |Image(blocks, f, mem, n)|
    ensures FromGuest(blocks, f, mem, Image(blocks, f, mem, n)[i])
  {
    hide Lo, Hi, FromGuest;
    if n > 0 {
      var before := Image(blocks, f, mem, n - 1);
      if i < |before| {
        ImageFrom(blocks, f, mem, n - 1, i);
      } else {
        PartFrom(blocks, f, mem, n - 1, i - |before|);
      }
    }
  }

  lemma PartFrom(blocks: seq<PhysBlock>, f: Filter, mem: Memory, k: nat, i: nat)
    requires BlocksOk(blocks) && k < |blocks| && i < |Part(blocks[k], f, mem)|
    ensures FromGuest(blocks, f, mem, Part(blocks[k], f, mem)[i])
  {
    hide Lo, Hi, Asked;
    var b := blocks[k];
    var a := Lo(b, f) + i;
    AboveStart(b, f);
    DumpedIsAsked(b, f, a);
    assert Part(b, f, mem)[i] == mem(b.host + (a - b.start));
  }

  lemma RangeInImage(blocks: seq<PhysBlock>, f: Filter, mem: Memory, header: seq<Byte>, k: nat, addr: nat, n: nat)
    requires BlocksOk(blocks) && k < |blocks| && Lo(blocks[k], f) <= addr < Hi(blocks[k], f) &&
             addr + n <= Hi(blocks[k], f)
    ensures var at := |header| + Size(blocks, f, k) + (addr - Lo(blocks[k], f));
            var file := header + Image(blocks, f, mem, |blocks|);
            && at + n <= |file|
            && file[at..at + n] == Slice(mem, blocks[k].host + (addr - blocks[k].start), n)
  {
    hide Image, Size, Lo, Hi;
    AboveStart(blocks[k], f);
    var at, file := |header| + Size(blocks, f, k) + (addr - Lo(blocks[k], f)), header + Image(blocks, f, mem, |blocks|);
    ByteInFile(blocks, f, mem, header, k, addr, if n == 0 then 0 else n - 1);
    var part := file[at..at + n];
    forall i | 0 <= i < n
      ensures part[i] == mem(blocks[k].host + (addr - blocks[k].start) + i)
    {
      ByteInFile(blocks, f, mem, header, k, addr, i);
    }
  }

  lemma AboveStart(b: PhysBlock, f: Filter)
    ensures b.start <= Lo(b, f)
  {
  }

  lemma ByteInFile(blocks: seq<PhysBlock>, f: Filter, mem: Memory, header: seq<Byte>, k: nat, addr: nat, i: nat)
    requires BlocksOk(blocks) && k < |blocks| && Lo(blocks[k], f) <= addr <= addr + i < Hi(blocks[k], f)
    ensures var at := |header| + Size(blocks, f, k) + (addr - Lo(blocks[k], f)) + i;
            var file := header + Image(blocks, f, mem, |blocks|);
            && at < |file| && blocks[k].start <= addr
            && file[at] == mem(blocks[k].host + (addr - blocks[k].start) + i)
  {
    hide Image, Size, Lo, Hi;
    AboveStart(blocks[k], f);
    ImageAt(blocks, f, mem, k, |blocks|, addr - Lo(blocks[k], f) + i);
  }
}
