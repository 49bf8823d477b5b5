/** KVM memory slots (kvm-all.c): a fixed array of slots that maps guest addresses to host memory. A section
    replaces or removes what is mapped at its pages; slots in the way are split and shrunk. */
module KvmSlots {
  import opened Arith
  import opened Options
  import opened TargetPage

  datatype Slot = Slot(start: nat, size: nat, ram: int)

  predicate Covers(s: Slot, a: nat) {
    s.start <= a < s.start + s.size
  }

  /** The test of kvm_lookup_overlapping_slot for a slot in use. */
  predicate Overlaps(s: Slot, lo: nat, hi: nat) {
    s.size != 0 && hi > s.start && lo < s.start + s.size
  }

  ghost predicate Apart(s: Slot, t: Slot) {
    !Overlaps(s, t.start, t.start + t.size) || t.size == 0
  }

  ghost predicate Disjoint(slots: seq<Slot>) {
    forall i, j :: 0 <= i < j < |slots| ==> Apart(slots[i], slots[j])
  }

  /** What the slots map a guest address to. */
  function HostAt(slots: seq<Slot>, a: nat): Option<int> {
    if slots == [] then None
    else if Covers(slots[0], a) then Some(slots[0].ram + a - slots[0].start)
    else HostAt(slots[1..], a)
  }

  lemma {:induction false} HostIs(slots: seq<Slot>, a: nat, i: nat)
    requires Disjoint(slots) && i < |slots| && Covers(slots[i], a)
    ensures HostAt(slots, a) == Some(slots[i].ram + a - slots[i].start)
  {
    if i > 0 {
      assert Apart(slots[0], slots[i]);
      HostIs(slots[1..], a, i - 1);
    }
  }

  lemma {:induction false} HostIsNone(slots: seq<Slot>, a: nat)
    requires forall i :: 0 <= i < |slots| ==> !Covers(slots[i], a)
    ensures HostAt(slots, a) == None
  {
    if slots != [] {
      HostIsNone(slots[1..], a);
    }
  }

  /** The slot that covers an address, if there is one. */
  lemma Covering(slots: seq<Slot>, a: nat) returns (i: nat)
    requires Disjoint(slots)
    ensures i <= |slots|
    ensures i < |slots| ==> Covers(slots[i], a) && HostAt(slots, a) == Some(slots[i].ram + a - slots[i].start)
    ensures i == |slots| ==> HostAt(slots, a) == None && forall j :: 0 <= j < |slots| ==> !Covers(slots[j], a)
  {
    if j :| 0 <= j < |slots| && Covers(slots[j], a) {
      i := j;
      HostIs(slots, a, i);
    } else {
      i := |slots|;
      HostIsNone(slots, a);
    }
  }

  // ---- Replacing one slot ----

  ghost predicate ApartFromOthers(slots: seq<Slot>, i: nat, s: Slot) {
    forall j :: 0 <= j < |slots| && j != i ==> Apart(slots[j], s)
  }

  lemma StoreDisjoint(slots: seq<Slot>, i: nat, s: Slot)
    requires Disjoint(slots) && i < |slots| && ApartFromOthers(slots, i, s)
    ensures Disjoint(slots[i := s])
  {
  }

  /** Storing a slot in a free place adds what it covers to the map. */
  lemma StoreHost(slots: seq<Slot>, i: nat, s: Slot, a: nat)
    requires Disjoint(slots) && i < |slots| && slots[i].size == 0 && ApartFromOthers(slots, i, s)
    ensures HostAt(slots[i := s], a) == if Covers(s, a) then Some(s.ram + a - s.start) else HostAt(slots, a)
  {
    StoreDisjoint(slots, i, s);
    var k := Covering(slots[i := s], a);
    if k < |slots| && k != i {
      HostIs(slots, a, k);
      assert Apart(slots[k], s);
    } else if k == |slots| {
      assert !Covers(slots[i := s][i], a);
      forall j | 0 <= j < |slots|
        ensures !Covers(slots[j], a)
      {
        assert !Covers(slots[i := s][j], a);
      }
      HostIsNone(slots, a);
    }
  }

  /** Freeing a slot takes what it covered out of the map. */
  lemma FreeHost(slots: seq<Slot>, i: nat, a: nat)
    requires Disjoint(slots) && i < |slots|
    ensures Disjoint(slots[i := slots[i].(size := 0)])
    ensures HostAt(slots[i := slots[i].(size := 0)], a) == if Covers(slots[i], a) then None else HostAt(slots, a)
  {
    var freed := slots[i := slots[i].(size := 0)];
    StoreDisjoint(slots, i, slots[i].(size := 0));
    StoreHost(freed, i, slots[i], a);
    assert freed[i := slots[i]] == slots;
    if Covers(slots[i], a) {
      forall j | 0 <= j < |freed|
        ensures !Covers(freed[j], a)
      {
        if j < i {
          assert Apart(slots[j], slots[i]);
        } else if i < j {
          assert Apart(slots[i], slots[j]);
        }
      }
      HostIsNone(freed, a);
    }
  }

  // ---- Free and overlapping slots ----

  function Free(slots: seq<Slot>): nat {
    if slots == [] then 0 else (if slots[0].size == 0 then 1 else 0) + Free(slots[1..])
  }

  function Overlapping(slots: seq<Slot>, lo: nat, hi: nat): nat {
    if slots == [] then 0 else (if Overlaps(slots[0], lo, hi) then 1 else 0) + Overlapping(slots[1..], lo, hi)
  }

  lemma {:induction false} CountStore(slots: seq<Slot>, i: nat, s: Slot, lo: nat, hi: nat)
    requires i < |slots|
    ensures Free(slots[i := s]) == Free(slots) - (if slots[i].size == 0 then 1 else 0) + (if s.size == 0 then 1 else 0)
    ensures Overlapping(slots[i := s], lo, hi) ==
            Overlapping(slots, lo, hi) - (if Overlaps(slots[i], lo, hi) then 1 else 0)
                                       + (if Overlaps(s, lo, hi) then 1 else 0)
  {
    if i > 0 {
      CountStore(slots[1..], i - 1, s, lo, hi);
      assert slots[i := s][1..] == slots[1..][i - 1 := s];
    } else {
      assert slots[0 := s][1..] == slots[1..];
    }
  }

  lemma {:induction false} AllFree(slots: seq<Slot>)
    requires forall i :: 0 <= i < |slots| ==> slots[i].size == 0
    ensures Free(slots) == |slots|
  {
    if slots != [] {
      AllFree(slots[1..]);
    }
  }

  lemma {:induction false} SomeFree(slots: seq<Slot>)
    requires Free(slots) > 0
    ensures exists i :: 0 <= i < |slots| && slots[i].size == 0
  {
    if slots[0].size != 0 {
      SomeFree(slots[1..]);
      var i :| 0 <= i < |slots[1..]| && slots[1..][i].size == 0;
      assert slots[i + 1].size == 0;
    }
  }

  lemma {:induction false} FreePositive(slots: seq<Slot>, i: nat)
    requires i < |slots| && slots[i].size == 0
    ensures Free(slots) > 0
  {
    if i > 0 {
      FreePositive(slots[1..], i - 1);
    }
  }

  lemma {:induction false} NoneOverlapping(slots: seq<Slot>, lo: nat, hi: nat)
    ensures Overlapping(slots, lo, hi) == 0 <==> forall i :: 0 <= i < |slots| ==> !Overlaps(slots[i], lo, hi)
  {
    if slots != [] {
      NoneOverlapping(slots[1..], lo, hi);
      assert forall i :: 0 < i < |slots| ==> slots[i] == slots[1..][i - 1];
    }
  }

  // ---- Taking one slot out of the way ----

  ghost predicate SameOutside(a: seq<Slot>, b: seq<Slot>, lo: nat, hi: nat) {
    forall x: nat :: !(lo <= x < hi) ==> HostAt(a, x) == HostAt(b, x)
  }

  /** The map is the same except on [lo, hi), where it now leads to `ram` on, or nowhere. */
  ghost predicate Changed(before: seq<Slot>, after: seq<Slot>, lo: nat, hi: nat, ram: Option<int>) {
    forall a: nat :: HostAt(after, a) ==
      if lo <= a < hi then (if ram.Some? then Some(ram.value + a - lo) else None) else HostAt(before, a)
  }

  function Prefix(s: Slot, lo: nat): Slot
    requires s.start < lo
  {
    Slot(s.start, lo - s.start, s.ram)
  }

  function Suffix(s: Slot, hi: nat): Slot
    requires s.start <= hi <= s.start + s.size
  {
    Slot(hi, s.size - (hi - s.start), s.ram + (hi - s.start))
  }

  /** What is left of a slot outside a range fits where the slot was. */
  lemma RemainderFits(slots: seq<Slot>, i: nat, part: Slot)
    requires Disjoint(slots) && i < |slots|
    requires forall a :: Covers(part, a) ==> Covers(slots[i], a)
    requires part.size > 0
    ensures ApartFromOthers(slots, i, part)
  {
    assert Covers(part, part.start) && Covers(part, part.start + part.size - 1);
    forall j | 0 <= j < |slots| && j != i
      ensures Apart(slots[j], part)
    {
      if j < i {
        assert Apart(slots[j], slots[i]);
      } else {
        assert Apart(slots[i], slots[j]);
      }
    }
  }

  lemma Freed(slots: seq<Slot>, i: nat, lo: nat, hi: nat)
    requires Disjoint(slots) && i < |slots| && Overlaps(slots[i], lo, hi)
    ensures var freed := slots[i := slots[i].(size := 0)];
            && Disjoint(freed) && Free(freed) == Free(slots) + 1
            && Overlapping(freed, lo, hi) == Overlapping(slots, lo, hi) - 1
            && forall a: nat :: HostAt(freed, a) == if Covers(slots[i], a) then None else HostAt(slots, a)
  {
    CountStore(slots, i, slots[i].(size := 0), lo, hi);
    forall a: nat
      ensures HostAt(slots[i := slots[i].(size := 0)], a) == if Covers(slots[i], a) then None else HostAt(slots, a)
    {
      FreeHost(slots, i, a);
    }
    FreeHost(slots, i, 0);
  }

  ghost predicate AllApart(slots: seq<Slot>, s: Slot) {
    forall j :: 0 <= j < |slots| ==> Apart(slots[j], s)
  }

  lemma FreedFits(slots: seq<Slot>, i: nat, part: Slot)
    requires Disjoint(slots) && i < |slots| && part.size > 0
    requires forall a :: Covers(part, a) ==> Covers(slots[i], a)
    ensures AllApart(slots[i := slots[i].(size := 0)], part)
  {
    RemainderFits(slots, i, part);
  }

  /** A slot that sticks out of the range on both sides is the only one in the way. */
  lemma OnlyOneInside(slots: seq<Slot>, i: nat, lo: nat, hi: nat)
    requires Disjoint(slots) && i < |slots| && lo < hi
    requires slots[i].start <= lo && hi <= slots[i].start + slots[i].size
    ensures forall j :: 0 <= j < |slots| && j != i ==> !Overlaps(slots[j], lo, hi)
  {
    forall j | 0 <= j < |slots| && j != i
      ensures !Overlaps(slots[j], lo, hi)
    {
      if j < i {
        assert Apart(slots[j], slots[i]);
      } else {
        assert Apart(slots[i], slots[j]);
      }
    }
  }

  lemma OnlyOneLeft(slots: seq<Slot>, i: nat, lo: nat, hi: nat)
    requires Disjoint(slots) && i < |slots| && lo < hi
    requires slots[i].start <= lo && hi <= slots[i].start + slots[i].size
    ensures Overlapping(slots[i := slots[i].(size := 0)], lo, hi) == 0
  {
    OnlyOneInside(slots, i, lo, hi);
    NoneOverlapping(slots[i := slots[i].(size := 0)], lo, hi);
  }

  lemma NotCovered(slots: seq<Slot>, lo: nat, hi: nat, a: nat)
    requires lo <= a < hi && forall i :: 0 <= i < |slots| ==> !Overlaps(slots[i], lo, hi)
    ensures HostAt(slots, a) == None
  {
    HostIsNone(slots, a);
  }

  ghost predicate Lowest(slots: seq<Slot>, i: nat, lo: nat, hi: nat) {
    && i < |slots| && Overlaps(slots[i], lo, hi)
    && forall j :: 0 <= j < |slots| && Overlaps(slots[j], lo, hi) ==> slots[i].start <= slots[j].start
  }

  /** A slot already leads the whole range where it is to lead. */
  ghost predicate AlreadyThere(slots: seq<Slot>, lo: nat, size: nat, ram: int) {
    exists i :: 0 <= i < |slots| && slots[i].start <= lo && lo + size <= slots[i].start + slots[i].size &&
      ram - lo == slots[i].ram - slots[i].start
  }

  lemma FoundThere(slots: seq<Slot>, lo: nat, size: nat, ram: int, k: nat)
    requires Disjoint(slots) && size > 0 && AlreadyThere(slots, lo, size, ram)
    requires k < |slots| && Overlaps(slots[k], lo, lo + size)
    ensures slots[k].start <= lo && lo + size <= slots[k].start + slots[k].size
    ensures ram - lo == slots[k].ram - slots[k].start
  {
    var i :| 0 <= i < |slots| && slots[i].start <= lo && lo + size <= slots[i].start + slots[i].size &&
      ram - lo == slots[i].ram - slots[i].start;
    OnlyOneInside(slots, i, lo, lo + size);
  }

  lemma NotThere(slots: seq<Slot>, lo: nat, size: nat, ram: int)
    requires size > 0 && forall i :: 0 <= i < |slots| ==> !Overlaps(slots[i], lo, lo + size)
    ensures !AlreadyThere(slots, lo, size, ram)
  {
  }

  /** `after` has one more region than `before`. */
  ghost predicate Registered(before: seq<Slot>, after: seq<Slot>, s: Slot) {
    && (forall a: nat :: HostAt(after, a) == if Covers(s, a) then Some(s.ram + a - s.start) else HostAt(before, a))
    && (forall lo, hi ::
          Overlapping(after, lo, hi) == Overlapping(before, lo, hi) + if Overlaps(s, lo, hi) then 1 else 0)
    && Free(after) == Free(before) - 1
    && |after| == |before| && (forall j :: 0 <= j < |after| ==> after[j] == before[j] || after[j] == s)
  }

  lemma StoreRegistered(before: seq<Slot>, i: nat, s: Slot)
    requires Disjoint(before) && i < |before| && before[i].size == 0 && s.size > 0 && AllApart(before, s)
    ensures Registered(before, before[i := s], s)
  {
    var after := before[i := s];
    forall a: nat
      ensures HostAt(after, a) == if Covers(s, a) then Some(s.ram + a - s.start) else HostAt(before, a)
    {
      StoreHost(before, i, s, a);
    }
    forall lo, hi
      ensures Overlapping(after, lo, hi) == Overlapping(before, lo, hi) + if Overlaps(s, lo, hi) then 1 else 0
    {
      CountStore(before, i, s, lo, hi);
    }
    CountStore(before, i, s, 0, 0);
  }

  // ---- The section's pages ----

  datatype Section = Section(start: nat, size: nat, host: int, ram: bool, writeable: bool, romdMode: bool)

  /** The page range that kvm_set_phys_mem works on; empty if it gives up. */
  function PageRange(start: nat, size: nat): (nat, nat) {
    var delta := AlignUp(size, PAGE_SIZE) - size;
    if delta > size then (start, 0)
    else
      var lo, rest := start + delta, AlignDown(size - delta, PAGE_SIZE);
      if rest == 0 || lo % PAGE_SIZE != 0 then (start, 0) else (lo, rest)
  }

  lemma AlignedIs(x: nat, k: nat, r: nat)
    requires x == k * PAGE_SIZE + r && r < PAGE_SIZE
    ensures x % PAGE_SIZE == r && AlignDown(x, PAGE_SIZE) == k * PAGE_SIZE
    ensures AlignUp(x, PAGE_SIZE) == if r == 0 then k * PAGE_SIZE else (k + 1) * PAGE_SIZE
  {
    DivUnique(x, PAGE_SIZE, k);
    DivUnique(x + PAGE_SIZE - 1, PAGE_SIZE, if r == 0 then k else k + 1);
  }

  /** The whole pages inside a section are found exactly if its size and its start are equally far past a page
      boundary, or if it holds no whole page. */
  lemma PageRangeExact(start: nat, size: nat)
    ensures var lo, hi := AlignUp(start, PAGE_SIZE), AlignDown(start + size, PAGE_SIZE);
            var (plo, psize) := PageRange(start, size);
            (if lo < hi then plo == lo && psize == hi - lo else psize == 0) <==>
            (start % PAGE_SIZE == size % PAGE_SIZE || lo >= hi)
  {
    hide AlignUp, AlignDown, PageRange;
    var k, r, m, z := start / PAGE_SIZE, start % PAGE_SIZE, size / PAGE_SIZE, size % PAGE_SIZE;
    AlignedIs(start, k, r);
    var e := if r + z >= PAGE_SIZE then 1 else 0;
    AlignedIs(start + size, k + m + e, r + z - e * PAGE_SIZE);
    PageRangeIs(start, size);
  }

  /** The range by the parts of start and size past a page boundary. */
  lemma PageRangeIs(start: nat, size: nat)
    ensures var r, m, z := start % PAGE_SIZE, size / PAGE_SIZE, size % PAGE_SIZE;
            if z == 0 then PageRange(start, size) == (start, if r == 0 then size else 0)
            else
              var rest := (m - 1 + if 2 * z >= PAGE_SIZE then 1 else 0) * PAGE_SIZE;
              PageRange(start, size) == if r == z && rest > 0 then (start + PAGE_SIZE - z, rest) else (start, 0)
  {
    hide PageRange;
    var m, z := size / PAGE_SIZE, size % PAGE_SIZE;
    if z == 0 {
      PageRangeWhole(start, m);
    } else {
      PageRangeRagged(start, m, z, if 2 * z >= PAGE_SIZE then 1 else 0);
    }
  }

  lemma PageRangeWhole(start: nat, m: nat)
    ensures PageRange(start, m * PAGE_SIZE) == (start, if start % PAGE_SIZE == 0 then m * PAGE_SIZE else 0)
  {
    hide AlignUp, AlignDown;
    AlignedIs(m * PAGE_SIZE, m, 0);
  }

  lemma PageRangeRagged(start: nat, m: nat, z: nat, f: nat)
    requires 0 < z < PAGE_SIZE && f == if 2 * z >= PAGE_SIZE then 1 else 0
    ensures var rest := (m - 1 + f) * PAGE_SIZE;
            PageRange(start, m * PAGE_SIZE + z) ==
            if start % PAGE_SIZE == z && rest > 0 then (start + PAGE_SIZE - z, rest) else (start, 0)
  {
    hide AlignUp, AlignDown;
    AlignedIs(m * PAGE_SIZE + z, m, z);
    if m + f > 0 {
      AlignedIs((m - 1 + f) * PAGE_SIZE + (2 * z - f * PAGE_SIZE), m - 1 + f, 2 * z - f * PAGE_SIZE);
    }
  }

  /** An aligned section of a page and a half: its one whole page is not mapped. */
  lemma PageAndAHalf()
    ensures PageRange(0, 6144).1 == 0 && AlignDown(6144, PAGE_SIZE) - AlignUp(0, PAGE_SIZE) == PAGE_SIZE
  {
  }

  class KvmState {
    const slots: array<Slot>
    ghost var kernel: seq<Slot>  // the regions registered with the kernel, by slot number

    /** What the kernel knows is what the slots say, and no two regions overlap. */
    ghost predicate Valid()
      reads this, slots
    {
      kernel == slots[..] && Disjoint(kernel)
    }

    /** As kvm_init leaves the slots: all of them are free. */
    constructor (n: nat)
      ensures Valid() && fresh(slots) && slots.Length == n && Free(slots[..]) == n
      ensures forall a: nat :: HostAt(slots[..], a) == None
    {
      slots := new Slot[n](_ => Slot(0, 0, 0));
      new;
      kernel := slots[..];
      AllFree(slots[..]);
      forall a: nat
        ensures HostAt(slots[..], a) == None
      {
        HostIsNone(slots[..], a);
      }
    }

    /** The kernel accepts a region only if it overlaps no other. */
    ghost method SetUserMemoryRegion(i: nat)
      requires i < slots.Length && |kernel| == slots.Length
      requires Disjoint(kernel[i := slots[i]])
      modifies this`kernel
      ensures kernel == old(kernel)[i := slots[i]]
    {
      kernel := kernel[i := slots[i]];
    }

    /** kvm_alloc_slot: the first free slot. Without one the program aborts. */
    method AllocSlot() returns (i: Option<nat>)
      ensures i.Some? <==> Free(slots[..]) > 0
      ensures i.Some? ==> i.value < slots.Length && slots[i.value].size == 0
    {
      var k := 0;
      while k < slots.Length
        invariant 0 <= k <= slots.Length
        invariant forall j :: 0 <= j < k ==> slots[j].size != 0
      {
        if slots[k].size == 0 {
          FreePositive(slots[..], k);
          return Some(k);
        }
        k := k + 1;
      }
      if Free(slots[..]) > 0 {
        SomeFree(slots[..]);
      }
      i := None;
    }

    /** kvm_lookup_overlapping_slot: of the slots that overlap the range, the one with the lowest start. */
    method LookupOverlappingSlot(lo: nat, hi: nat) returns (found: Option<nat>)
      ensures found.None? ==> forall i :: 0 <= i < slots.Length ==> !Overlaps(slots[i], lo, hi)
      ensures found.Some? ==> Lowest(slots[..], found.value, lo, hi)
    {
      found := None;
      var i := 0;
      while i < slots.Length
        invariant 0 <= i <= slots.Length
        invariant found.None? ==> forall j :: 0 <= j < i ==> !Overlaps(slots[j], lo, hi)
        invariant found.Some? ==> Lowest(slots[..i], found.value, lo, hi)
      {
        if slots[i].size == 0 || (found.Some? && slots[found.value].start < slots[i].start) {
        } else if hi > slots[i].start && lo < slots[i].start + slots[i].size {
          found := Some(i);
        }
        i := i + 1;
      }
      assert slots[..i] == slots[..];
    }

    /** Registers a region in a free slot; `ok` is false if there is none. */
    method Register(s: Slot) returns (ok: bool)
      requires Valid() && s.size > 0 && AllApart(slots[..], s)
      modifies this`kernel, slots
      ensures ok == (Free(old(slots[..])) > 0)
      ensures ok ==> Valid() && Registered(old(slots[..]), slots[..], s)
    {
      ghost var before := slots[..];
      var i := AllocSlot();
      if i.None? {
        return false;
      }
      slots[i.value] := s;
      assert slots[..] == before[i.value := s];
      StoreDisjoint(before, i.value, s);
      StoreRegistered(before, i.value, s);
      SetUserMemoryRegion(i.value);
      ok := true;
    }

    /** One round of the loop: an overlapping slot is unregistered, and what sticks out of the range on either
        side is registered again. */
    method MakeRoom(i: nat, lo: nat, hi: nat) returns (ok: bool)
      requires Valid() && i < slots.Length && lo < hi && Overlaps(slots[i], lo, hi)
      modifies this`kernel, slots
      ensures Free(old(slots[..])) > 0 ==> ok
      ensures ok ==> Valid() && SameOutside(old(slots[..]), slots[..], lo, hi)
      ensures ok ==> Overlapping(slots[..], lo, hi) < Overlapping(old(slots[..]), lo, hi)
      ensures ok ==> Free(slots[..]) >= Free(old(slots[..])) ||
                     (Free(slots[..]) == Free(old(slots[..])) - 1 && Overlapping(slots[..], lo, hi) == 0)
    {
      hide HostAt, Free, Overlapping, Disjoint;
      ghost var before := slots[..];
      var whole := slots[i];
      ghost var freed := before[i := whole.(size := 0)];
      slots[i] := whole.(size := 0);
      assert slots[..] == freed;
      Freed(before, i, lo, hi);
      forall a: nat | Covers(whole, a)
        ensures HostAt(before, a) == Some(whole.ram + a - whole.start)
      {
        HostIs(before, a, i);
      }
      SetUserMemoryRegion(i);
      if whole.start < lo {
        FreedFits(before, i, Prefix(whole, lo));
        ok := Register(Prefix(whole, lo));
        assert ok;  // the slot just given up is free
      }
      if whole.start + whole.size > hi {
        FreedFits(before, i, Suffix(whole, hi));
        ok := Register(Suffix(whole, hi));
        if !ok {
          return;
        }
        if whole.start < lo {
          OnlyOneLeft(before, i, lo, hi);
        }
      }
      ok := true;
    }

    /** The loop of kvm_set_phys_mem and the registration after it, for a range of whole pages. The map changes
        exactly by that range: overridden if a section is added, removed if not. Two free slots are always enough
        to get through. */
    method SetRange(lo: nat, size: nat, ram: int, add: bool) returns (ok: bool)
      requires Valid() && size > 0
      modifies this`kernel, slots
      ensures Free(old(slots[..])) >= 2 ==> ok
      ensures ok ==> Valid() && Changed(old(slots[..]), slots[..], lo, lo + size, if add then Some(ram) else None)
      ensures add && AlreadyThere(old(slots[..]), lo, size, ram) ==> ok && slots[..] == old(slots[..])
    {
      hide AlreadyThere;
      var hi := lo + size;
      ghost var before, there := slots[..], AlreadyThere(slots[..], lo, size, ram);
      while true
        invariant Valid() && SameOutside(before, slots[..], lo, hi)
        invariant add && there ==> slots[..] == before
        invariant Free(before) >= 2 ==>
                    Free(slots[..]) >= 2 || (Free(slots[..]) >= 1 && Overlapping(slots[..], lo, hi) == 0)
        decreases Overlapping(slots[..], lo, hi)
      {
        NoneOverlapping(slots[..], lo, hi);
        var found := LookupOverlappingSlot(lo, hi);
        if found.None? {
          NotThere(slots[..], lo, size, ram);
          break;
        }
        if there && add {
          FoundThere(slots[..], lo, size, ram, found.value);
        }
        var mem := slots[found.value];
        if add && lo >= mem.start && hi <= mem.start + mem.size && ram - lo == mem.ram - mem.start {
          forall a | lo <= a < hi
            ensures HostAt(slots[..], a) == Some(ram + a - lo)
          {
            HostIs(slots[..], a, found.value);
          }
          return true;
        }
        ok := MakeRoom(found.value, lo, hi);
        if !ok {
          return;
        }
      }
      forall a | lo <= a < hi
        ensures HostAt(slots[..], a) == None
      {
        NotCovered(slots[..], lo, hi, a);
      }
      ok := true;
      if add {
        ok := Register(Slot(lo, size, ram));
      }
    }

    /** kvm_set_phys_mem: the section's page range leads to its host memory after it is added, and nowhere after it is
        removed. A ROM device is mapped only while its reads do not trap; other devices change nothing. */
    method SetPhysMem(section: Section, add: bool, readonlyMemAllowed: bool) returns (ok: bool)
      requires Valid()
      modifies this`kernel, slots
      ensures Free(old(slots[..])) >= 2 ==> ok
      ensures ok ==> Valid()
      ensures var (lo, n) := PageRange(section.start, section.size);
              ok ==>
                forall a: nat ::
                  HostAt(slots[..], a) ==
                  if !(lo <= a < lo + n) then HostAt(old(slots[..]), a)
                  else if !section.ram && (section.writeable || !readonlyMemAllowed) then HostAt(old(slots[..]), a)
                  else if add && (section.ram || section.romdMode) then Some(section.host + (a - section.start))
                  else None
    {
      var (lo, size) := PageRange(section.start, section.size);
      if size == 0 {
        return true;
      }
      var adding := add;
      if !section.ram {
        if section.writeable || !readonlyMemAllowed {
          return true;
        } else if !section.romdMode {
          adding := false;
        }
      }
      ok := SetRange(lo, size, section.host + (lo - section.start), adding);
    }
  }
}
