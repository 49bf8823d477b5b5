/** The list of RAM blocks (exec.c): where a new block goes, how the list is kept sorted, and how the block for
    an address is found. */
module RamList {
  import opened Arith
  import opened Options
  import opened TargetPage

  const RAM_ADDR_MAX := 0xffff_ffff_ffff_ffff

  datatype RamBlock = RamBlock(offset: nat, length: nat, id: nat)

  function End(b: RamBlock): nat { b.offset + b.length }

  predicate Holds(b: RamBlock, addr: nat) {
    b.offset <= addr < End(b)
  }

  // ---- The invariant ----

  ghost predicate BlockOk(b: RamBlock) {
    b.length > 0 && b.length % PAGE_SIZE == 0 && b.offset % PAGE_SIZE == 0 && End(b) <= RAM_ADDR_MAX
  }

  ghost predicate Apart(a: RamBlock, b: RamBlock) {
    End(a) <= b.offset || End(b) <= a.offset
  }

  ghost predicate Disjoint(blocks: seq<RamBlock>) {
    forall i, j :: 0 <= i < j < |blocks| ==> Apart(blocks[i], blocks[j])
  }

  ghost predicate BiggestFirst(blocks: seq<RamBlock>) {
    forall i, j :: 0 <= i < j < |blocks| ==> blocks[i].length >= blocks[j].length
  }

  ghost predicate ListOk(blocks: seq<RamBlock>) {
    && (forall i :: 0 <= i < |blocks| ==> BlockOk(blocks[i]))
    && Disjoint(blocks)
    && BiggestFirst(blocks)
  }

  // ---- Gaps ----

  /** Where the next block after `end` starts, or the end of the address space. */
  ghost function NextStart(blocks: seq<RamBlock>, end: nat): nat {
    if blocks == [] then RAM_ADDR_MAX
    else
      var next := NextStart(blocks[..|blocks| - 1], end);
      var b := blocks[|blocks| - 1];
      if b.offset >= end then Min(next, b.offset) else next
  }

  /** The gap that follows block `i`. */
  ghost function Gap(blocks: seq<RamBlock>, i: nat): int
    requires i < |blocks|
  {
    NextStart(blocks, End(blocks[i])) - End(blocks[i])
  }

  lemma {:induction false} NextStartIs(blocks: seq<RamBlock>, end: nat)
    ensures NextStart(blocks, end) <= RAM_ADDR_MAX
    ensures end <= RAM_ADDR_MAX ==> end <= NextStart(blocks, end)
    ensures forall i :: 0 <= i < |blocks| && blocks[i].offset >= end ==> NextStart(blocks, end) <= blocks[i].offset
    ensures NextStart(blocks, end) == RAM_ADDR_MAX ||
            exists i :: 0 <= i < |blocks| && blocks[i].offset == NextStart(blocks, end)
  {
    if blocks != [] {
      var n := |blocks| - 1;
      NextStartIs(blocks[..n], end);
      assert forall i :: 0 <= i < n ==> blocks[..n][i] == blocks[i];
    }
  }

  /** A block put at the start of a gap, and no longer than the gap, overlaps no other block. */
  lemma FitsInGap(blocks: seq<RamBlock>, i: nat, b: RamBlock)
    requires ListOk(blocks) && i < |blocks| && b.offset == End(blocks[i]) && b.length <= Gap(blocks, i)
    ensures forall j :: 0 <= j < |blocks| ==> Apart(blocks[j], b)
    ensures End(b) <= RAM_ADDR_MAX
  {
    NextStartIs(blocks, End(blocks[i]));
    forall j | 0 <= j < |blocks|
      ensures Apart(blocks[j], b)
    {
      if blocks[j].offset < End(blocks[i]) && j != i {
        assert j < i ==> Apart(blocks[j], blocks[i]);
        assert i < j ==> Apart(blocks[i], blocks[j]);
        assert BlockOk(blocks[i]) && BlockOk(blocks[j]);
      }
    }
  }

  /** The smallest following gap that fits: the first in the list of those. */
  ghost predicate BestFit(blocks: seq<RamBlock>, size: nat, i: nat) {
    && i < |blocks| && Gap(blocks, i) >= size
    && (forall j :: 0 <= j < |blocks| && Gap(blocks, j) >= size ==> Gap(blocks, i) <= Gap(blocks, j))
    && (forall j :: 0 <= j < i && Gap(blocks, j) >= size ==> Gap(blocks, i) < Gap(blocks, j))
  }

  /** Where a block of this size goes: at 0 in an empty list, at the best fit otherwise, and nowhere exactly if no
      following gap is big enough. */
  ghost predicate Placed(blocks: seq<RamBlock>, size: nat, offset: Option<nat>) {
    if blocks == [] then offset == Some(0)
    else if offset.Some? then exists i: nat :: BestFit(blocks, size, i) && offset.value == End(blocks[i])
    else forall j :: 0 <= j < |blocks| ==> Gap(blocks, j) < size
  }

  lemma PlacedFits(blocks: seq<RamBlock>, size: nat, offset: Option<nat>, b: RamBlock)
    requires ListOk(blocks) && Placed(blocks, size, offset) && offset.Some?
    requires 0 < size <= RAM_ADDR_MAX && size % PAGE_SIZE == 0 && b.offset == offset.value && b.length == size
    ensures BlockOk(b) && forall j :: 0 <= j < |blocks| ==> Apart(blocks[j], b)
  {
    hide NextStart, ListOk, Gap, Apart;
    if blocks != [] {
      var i: nat :| BestFit(blocks, size, i) && offset.value == End(blocks[i]);
      BestFitFits(blocks, size, i, b);
    }
  }

  lemma BestFitFits(blocks: seq<RamBlock>, size: nat, i: nat, b: RamBlock)
    requires ListOk(blocks) && BestFit(blocks, size, i)
    requires 0 < size && size % PAGE_SIZE == 0 && b.offset == End(blocks[i]) && b.length == size
    ensures BlockOk(b) && forall j :: 0 <= j < |blocks| ==> Apart(blocks[j], b)
  {
    hide NextStart;
    FitsInGap(blocks, i, b);
    assert BlockOk(blocks[i]);
  }

  lemma ZeroBytes()
    ensures AlignUp(0, PAGE_SIZE) == 0
  {
  }

  // ---- Sorted insertion ----

  function Position(blocks: seq<RamBlock>, length: nat): (p: nat)
    ensures p <= |blocks|
    ensures forall i :: 0 <= i < p ==> blocks[i].length >= length
    ensures p < |blocks| ==> blocks[p].length < length
  {
    if blocks == [] || blocks[0].length < length then 0 else 1 + Position(blocks[1..], length)
  }

  function Inserted(blocks: seq<RamBlock>, b: RamBlock): seq<RamBlock> {
    var p := Position(blocks, b.length);
    blocks[..p] + [b] + blocks[p..]
  }

  lemma InsertedAt(blocks: seq<RamBlock>, b: RamBlock, i: nat)
    requires i <= |blocks|
    ensures |Inserted(blocks, b)| == |blocks| + 1
    ensures var p := Position(blocks, b.length);
            Inserted(blocks, b)[i] == if i < p then blocks[i] else if i == p then b else blocks[i - 1]
  {
  }

  lemma InsertedPair(blocks: seq<RamBlock>, b: RamBlock, i: nat, j: nat)
    requires ListOk(blocks) && (forall k :: 0 <= k < |blocks| ==> Apart(blocks[k], b)) && i < j <= |blocks|
    ensures |Inserted(blocks, b)| == |blocks| + 1
    ensures var t := Inserted(blocks, b); Apart(t[i], t[j]) && t[i].length >= t[j].length
  {
    hide Inserted;
    InsertedAt(blocks, b, i);
    InsertedAt(blocks, b, j);
    var p := Position(blocks, b.length);
    if i == p && p < j - 1 {
      assert blocks[p].length >= blocks[j - 1].length;
    }
  }

  lemma InsertedOk(blocks: seq<RamBlock>, b: RamBlock)
    requires ListOk(blocks) && BlockOk(b) && forall j :: 0 <= j < |blocks| ==> Apart(blocks[j], b)
    ensures ListOk(Inserted(blocks, b))
  {
    hide Inserted, Apart, BlockOk;
    var t := Inserted(blocks, b);
    InsertedAt(blocks, b, 0);
    forall i | 0 <= i < |t|
      ensures BlockOk(t[i])
    {
      InsertedAt(blocks, b, i);
    }
    forall i, j | 0 <= i < j < |t|
      ensures Apart(t[i], t[j]) && t[i].length >= t[j].length
    {
      InsertedPair(blocks, b, i, j);
    }
  }

  /** The block that holds an address, by linear search. */
  function Find(blocks: seq<RamBlock>, addr: nat): Option<RamBlock> {
    if blocks == [] then None else if Holds(blocks[0], addr) then Some(blocks[0]) else Find(blocks[1..], addr)
  }

  lemma {:induction false} FindIs(blocks: seq<RamBlock>, addr: nat, i: nat)
    requires ListOk(blocks) && i < |blocks| && Holds(blocks[i], addr)
    ensures Find(blocks, addr) == Some(blocks[i])
  {
    if i > 0 {
      assert Apart(blocks[0], blocks[i]);
      FindIs(blocks[1..], addr, i - 1);
    }
  }

  class RamBlockList {
    var blocks: seq<RamBlock>
    var mruBlock: Option<RamBlock>
    var version: nat

    ghost predicate Valid()
      reads this
    {
      ListOk(blocks) && (mruBlock.Some? ==> mruBlock.value in blocks)
    }

    constructor ()
      ensures Valid() && blocks == []
    {
      blocks, mruBlock, version := [], None, 0;
    }

    method NextOffset(end: nat) returns (next: nat)
      ensures next == NextStart(blocks, end)
    {
      next := RAM_ADDR_MAX;
      var m := 0;
      while m < |blocks|
        invariant 0 <= m <= |blocks|
        invariant next == NextStart(blocks[..m], end)
      {
        assert blocks[..m + 1][..m] == blocks[..m];
        if blocks[m].offset >= end {
          next := Min(next, blocks[m].offset);
        }
        m := m + 1;
      }
      assert blocks[..m] == blocks;
    }

    /** find_ram_offset; without a gap the program aborts. */
    method FindRamOffset(size: nat) returns (offset: Option<nat>)
      requires Valid() && size > 0
      ensures Placed(blocks, size, offset)
    {
      hide NextStart, Disjoint, BiggestFirst;
      if blocks == [] {
        return Some(0);
      }
      ghost var i: nat := 0;
      offset := None;
      var mingap := RAM_ADDR_MAX;
      var k := 0;
      while k < |blocks|
        invariant 0 <= k <= |blocks|
        invariant offset.None? ==> mingap == RAM_ADDR_MAX && forall j :: 0 <= j < k ==> Gap(blocks, j) < size
        invariant offset.Some? ==> i < k && offset.value == End(blocks[i]) && mingap == Gap(blocks, i) >= size
        invariant offset.Some? ==> forall j :: 0 <= j < k && Gap(blocks, j) >= size ==> mingap <= Gap(blocks, j)
        invariant offset.Some? ==> forall j :: 0 <= j < i && Gap(blocks, j) >= size ==> mingap < Gap(blocks, j)
      {
        var end := End(blocks[k]);
        var next := NextOffset(end);
        NextStartIs(blocks, end);
        assert BlockOk(blocks[k]);
        if next - end >= size && next - end < mingap {
          offset, i := Some(end), k;
          mingap := next - end;
        }
        k := k + 1;
      }
      assert offset.Some? ==> BestFit(blocks, size, i);
    }

    /** Puts a block before the first one that is smaller. */
    method Insert(b: RamBlock)
      requires Valid() && BlockOk(b) && forall j :: 0 <= j < |blocks| ==> Apart(blocks[j], b)
      modifies this
      ensures Valid() && blocks == Inserted(old(blocks), b) && version == old(version) + 1 && mruBlock == None
    {
      InsertedOk(blocks, b);
      hide ListOk;
      var p := 0;
      while p < |blocks| && blocks[p].length >= b.length
        invariant 0 <= p <= |blocks| && forall j :: 0 <= j < p ==> blocks[j].length >= b.length
      {
        p := p + 1;
      }
      assert p == Position(blocks, b.length);
      blocks := blocks[..p] + [b] + blocks[p..];
      mruBlock := None;
      version := version + 1;
    }

    /** qemu_ram_alloc_from_ptr, as far as the list goes. `None` stands for the aborts on a size of zero and on a
        full address space. */
    method Alloc(bytes: nat, id: nat) returns (offset: Option<nat>)
      requires Valid() && AlignUp(bytes, PAGE_SIZE) <= RAM_ADDR_MAX
      modifies this
      ensures Valid()
      ensures bytes == 0 ==> offset.None?
      ensures bytes != 0 ==> Placed(old(blocks), AlignUp(bytes, PAGE_SIZE), offset)
      ensures blocks == if offset.None? then old(blocks)
                        else Inserted(old(blocks), RamBlock(offset.value, AlignUp(bytes, PAGE_SIZE), id))
    {
      hide AlignUp, NextStart, Inserted, BestFit;
      var size := AlignUp(bytes, PAGE_SIZE);
      if size == 0 {
        return None;
      }
      offset := FindRamOffset(size);
      if offset.None? {
        return;
      }
      assert bytes > 0 by { ZeroBytes(); }
      var b := RamBlock(offset.value, size, id);
      PlacedFits(blocks, size, offset, b);
      Insert(b);
    }

    /** qemu_ram_free: removes the block at this offset, if there is one. */
    method Free(addr: nat)
      requires Valid()
      modifies this
      ensures Valid()
      ensures (forall i :: 0 <= i < |old(blocks)| ==> old(blocks)[i].offset != addr) ==> blocks == old(blocks)
      ensures forall i :: 0 <= i < |old(blocks)| && old(blocks)[i].offset == addr ==>
                blocks == old(blocks)[..i] + old(blocks)[i + 1..]
      ensures version == old(version) + |old(blocks)| - |blocks|
    {
      hide ListOk;
      var i := 0;
      while i < |blocks| && blocks[i].offset != addr
        invariant 0 <= i <= |blocks| && forall j :: 0 <= j < i ==> blocks[j].offset != addr
      {
        i := i + 1;
      }
      OneAtOffset(blocks, addr);
      if i < |blocks| {
        RemovedOk(blocks, i);
        blocks := blocks[..i] + blocks[i + 1..];
        mruBlock := None;
        version := version + 1;
      }
    }

    /** qemu_get_ram_block: the block used last is tried first, which changes nothing about the answer. */
    method GetRamBlock(addr: nat) returns (block: Option<RamBlock>)
      requires Valid()
      modifies this`mruBlock
      ensures Valid() && block == Find(blocks, addr)
      ensures block.Some? ==> mruBlock == block
    {
      if mruBlock.Some? && Holds(mruBlock.value, addr) {
        ghost var i :| 0 <= i < |blocks| && blocks[i] == mruBlock.value;
        FindIs(blocks, addr, i);
        return mruBlock;
      }
      var i := 0;
      while i < |blocks| && !Holds(blocks[i], addr)
        invariant 0 <= i <= |blocks| && Find(blocks, addr) == Find(blocks[i..], addr)
      {
        i := i + 1;
      }
      if i == |blocks| {
        return None;
      }
      mruBlock := Some(blocks[i]);
      block := mruBlock;
    }
  }

  lemma RemovedOk(blocks: seq<RamBlock>, i: nat)
    requires ListOk(blocks) && i < |blocks|
    ensures ListOk(blocks[..i] + blocks[i + 1..]) && |blocks[..i] + blocks[i + 1..]| == |blocks| - 1
  {
  }

  lemma OneAtOffset(blocks: seq<RamBlock>, addr: nat)
    requires ListOk(blocks)
    ensures forall i, j :: 0 <= i < j < |blocks| ==> blocks[i].offset != addr || blocks[j].offset != addr
  {
    forall i, j | 0 <= i < j < |blocks|
      ensures blocks[i].offset != addr || blocks[j].offset != addr
    {
      assert Apart(blocks[i], blocks[j]) && BlockOk(blocks[i]) && BlockOk(blocks[j]);
    }
  }
}
