/** Merging the requests of a multiwrite (block.c): neighbouring and overlapping requests become one,
    which keeps only the head of the earlier request. */
module Multiwrite {
  import opened Disks

  const SECTOR_SIZE := 512
  const IOV_MAX := 1024

  /** A write request; `iov` holds the lengths of the buffers that make up its data. */
  datatype Request = Request(sector: nat, nbSectors: nat, data: seq<Byte>, iov: seq<nat>)

  ghost predicate Valid(r: Request) {
    |r.data| == r.nbSectors * SECTOR_SIZE && Sum(r.iov) == |r.data|
  }

  function Sum(iov: seq<nat>): nat {
    if iov == [] then 0 else iov[0] + Sum(iov[1..])
  }

  function Start(r: Request): nat { r.sector * SECTOR_SIZE }

  function EndSector(r: Request): nat { r.sector + r.nbSectors }

  predicate Covers(r: Request, a: nat) {
    Start(r) <= a < Start(r) + |r.data|
  }

  /** The buffers that make up the first `size` bytes; buffers of length zero are dropped. */
  function TakeIov(iov: seq<nat>, size: nat): seq<nat> {
    if iov == [] || size == 0 then []
    else if iov[0] == 0 then TakeIov(iov[1..], size)
    else if iov[0] <= size then [iov[0]] + TakeIov(iov[1..], size - iov[0])
    else [size]
  }

  lemma {:induction false} TakeIovSum(iov: seq<nat>, size: nat)
    ensures Sum(TakeIov(iov, size)) == if size <= Sum(iov) then size else Sum(iov)
  {
    if iov != [] && size != 0 {
      if iov[0] <= size {
        TakeIovSum(iov[1..], size - iov[0]);
        var rest := TakeIov(iov[1..], size - iov[0]);
        assert ([iov[0]] + rest)[1..] == rest;
      }
    }
  }

  lemma {:induction false} SumConcat(a: seq<nat>, b: seq<nat>)
    ensures Sum(a + b) == Sum(a) + Sum(b)
  {
    if a == [] {
      assert a + b == b;
    } else {
      SumConcat(a[1..], b);
      assert (a + b)[1..] == a[1..] + b;
    }
  }

  // ---- Merging as a function ----

  predicate Merges(head: Request, r: Request) {
    r.sector <= EndSector(head) && |head.iov| + |r.iov| + 1 <= IOV_MAX
  }

  function Merge(head: Request, r: Request): Request
    requires head.sector <= r.sector && Merges(head, r)
    requires |head.data| == head.nbSectors * SECTOR_SIZE
  {
    var size := (r.sector - head.sector) * SECTOR_SIZE;
    var data := head.data[..size] + r.data;
    Request(head.sector, |data| / SECTOR_SIZE, data, TakeIov(head.iov, size) + TakeIov(r.iov, |r.data|))
  }

  /** One round of the merge loop on the requests kept so far. */
  function MergeInto(out: seq<Request>, r: Request): seq<Request>
    requires out != [] ==> out[|out| - 1].sector <= r.sector && Valid(out[|out| - 1])
  {
    if out == [] then [r]
    else
      var last := out[|out| - 1];
      if Merges(last, r) then out[..|out| - 1] + [Merge(last, r)] else out + [r]
  }

  ghost predicate Sorted(rs: seq<Request>) {
    forall i, j :: 0 <= i < j < |rs| ==> rs[i].sector <= rs[j].sector
  }

  ghost predicate AllValid(rs: seq<Request>) {
    forall i :: 0 <= i < |rs| ==> Valid(rs[i])
  }

  /** The requests that remain after merging. The last one starts no later than the last original and ends with it. */
  function Merged(rs: seq<Request>): (out: seq<Request>)
    requires Sorted(rs) && AllValid(rs)
    ensures rs != [] ==> out != [] && Valid(out[|out| - 1])
    ensures rs != [] ==> out[|out| - 1].sector <= rs[|rs| - 1].sector
    ensures rs != [] ==> EndSector(out[|out| - 1]) == EndSector(rs[|rs| - 1])
    ensures |out| <= |rs|
  {
    if rs == [] then []
    else
      var r := rs[|rs| - 1];
      var out := Merged(rs[..|rs| - 1]);
      MergeIntoOk(out, r);
      MergeInto(out, r)
  }

  lemma MergeIntoOk(out: seq<Request>, r: Request)
    requires Valid(r) && (out != [] ==> out[|out| - 1].sector <= r.sector && Valid(out[|out| - 1]))
    ensures var out' := MergeInto(out, r);
            && out' != [] && |out'| <= |out| + 1 && Valid(out'[|out'| - 1])
            && out'[|out'| - 1].sector <= r.sector && EndSector(out'[|out'| - 1]) == EndSector(r)
  {
    hide Valid;
    if out != [] && Merges(out[|out| - 1], r) {
      WholeSectors(out[|out| - 1]);
      MergeValid(out[|out| - 1], r);
    }
  }

  lemma MergeValid(head: Request, r: Request)
    requires head.sector <= r.sector && Merges(head, r) && Valid(head) && Valid(r)
    ensures Valid(Merge(head, r)) && EndSector(Merge(head, r)) == EndSector(r)
  {
    var size := (r.sector - head.sector) * SECTOR_SIZE;
    TakeIovSum(head.iov, size);
    TakeIovSum(r.iov, |r.data|);
    SumConcat(TakeIov(head.iov, size), TakeIov(r.iov, |r.data|));
  }

  function Applied(disk: Disk, rs: seq<Request>): Disk {
    if rs == [] then disk else Overlay(Applied(disk, rs[..|rs| - 1]), Start(rs[|rs| - 1]), rs[|rs| - 1].data)
  }

  // ---- When merging preserves the disk ----

  ghost predicate MergesLast(rs: seq<Request>)
    requires Sorted(rs) && AllValid(rs) && |rs| >= 2
  {
    var out := Merged(rs[..|rs| - 1]);
    Merges(out[|out| - 1], rs[|rs| - 1])
  }

  /** Byte `a` is cut off: some request was merged into one that reached further, up to `a`, and no later
      request writes `a` again. */
  ghost predicate Lost(rs: seq<Request>, a: nat)
    requires Sorted(rs) && AllValid(rs)
  {
    |rs| >= 2 &&
    var r, before := rs[|rs| - 1], rs[|rs| - 2];
    !Covers(r, a) &&
    ((MergesLast(rs) && EndSector(r) * SECTOR_SIZE <= a < EndSector(before) * SECTOR_SIZE) || Lost(rs[..|rs| - 1], a))
  }

  lemma AppliedLast(disk: Disk, rs: seq<Request>, r: Request, a: nat)
    ensures Applied(disk, rs + [r])(a) == if Covers(r, a) then r.data[a - Start(r)] else Applied(disk, rs)(a)
  {
    assert (rs + [r])[..|rs|] == rs;
  }

  /** A merged request holds the head of the first request and then the second request. */
  lemma MergeHolds(last: Request, r: Request, a: nat)
    requires last.sector <= r.sector && Valid(last) && Valid(r) && Merges(last, r)
    ensures Covers(Merge(last, r), a) <==> Start(last) <= a < EndSector(r) * SECTOR_SIZE
    ensures Covers(Merge(last, r), a) ==>
              Merge(last, r).data[a - Start(last)] ==
              if a < Start(r) then last.data[a - Start(last)] else r.data[a - Start(r)]
  {
    hide Sum, TakeIov;
  }

  /** What one merge does to one byte that it does not cut off. */
  lemma MergeByte(disk: Disk, out: seq<Request>, r: Request, a: nat)
    requires out != [] && out[|out| - 1].sector <= r.sector && Valid(out[|out| - 1]) && Valid(r)
    requires !(Merges(out[|out| - 1], r) && !Covers(r, a) &&
               EndSector(r) * SECTOR_SIZE <= a < EndSector(out[|out| - 1]) * SECTOR_SIZE)
    ensures Applied(disk, MergeInto(out, r))(a) == if Covers(r, a) then r.data[a - Start(r)] else Applied(disk, out)(a)
  {
    hide Sum, TakeIov, Applied;
    var init, last := out[..|out| - 1], out[|out| - 1];
    assert out == init + [last];
    AppliedLast(disk, init, last, a);
    if Merges(last, r) {
      MergeHolds(last, r, a);
      AppliedLast(disk, init, Merge(last, r), a);
    } else {
      AppliedLast(disk, out, r, a);
    }
  }

  /** A byte that is not cut off ends up as if the requests had been carried out one by one. */
  lemma {:induction false} MergePreserves(disk: Disk, rs: seq<Request>, a: nat)
    requires Sorted(rs) && AllValid(rs) && !Lost(rs, a)
    ensures Applied(disk, Merged(rs))(a) == Applied(disk, rs)(a)
  {
    hide *;
    if |rs| <= 1 {
      NothingToMerge(rs);
    } else {
      var init, r := rs[..|rs| - 1], rs[|rs| - 1];
      PrefixOk(rs, |rs| - 1);
      PrefixOk(rs, |rs|);
      MergedNext(rs);
      NotCutNow(rs, a);
      AppliedNext(disk, rs, a);
      MergeByte(disk, Merged(init), r, a);
      if !Covers(r, a) {
        MergePreserves(disk, init, a);
      }
    }
  }

  lemma NothingToMerge(rs: seq<Request>)
    requires Sorted(rs) && AllValid(rs) && |rs| <= 1
    ensures Merged(rs) == rs
  {
    hide Valid, MergeInto, Sorted, AllValid;
    if rs == [] {
    } else {
      hide Merged;
      MergedStep(rs);
    }
  }

  lemma AppliedNext(disk: Disk, rs: seq<Request>, a: nat)
    requires rs != []
    ensures var init, r := rs[..|rs| - 1], rs[|rs| - 1];
            Applied(disk, rs)(a) == if Covers(r, a) then r.data[a - Start(r)] else Applied(disk, init)(a)
  {
    hide Applied;
    assert rs == rs[..|rs| - 1] + [rs[|rs| - 1]];
    AppliedLast(disk, rs[..|rs| - 1], rs[|rs| - 1], a);
  }

  lemma NotCutNow(rs: seq<Request>, a: nat)
    requires Sorted(rs) && AllValid(rs) && |rs| >= 2 && !Lost(rs, a)
    requires Sorted(rs[..|rs| - 1]) && AllValid(rs[..|rs| - 1])
    ensures var out, r := Merged(rs[..|rs| - 1]), rs[|rs| - 1];
            && out != []
            && !(Merges(out[|out| - 1], r) && !Covers(r, a) &&
                 EndSector(r) * SECTOR_SIZE <= a < EndSector(out[|out| - 1]) * SECTOR_SIZE)
            && (!Covers(r, a) ==> !Lost(rs[..|rs| - 1], a))
  {
    hide Valid, Covers, EndSector, Merged, Sorted, AllValid, Merges;
    assert rs[..|rs| - 1][|rs| - 2] == rs[|rs| - 2];
  }

  // ---- When it does not ----

  /** Same sectors and buffers; the data may differ. */
  ghost predicate Alike(r: Request, r': Request) {
    r'.sector == r.sector && r'.nbSectors == r.nbSectors && r'.iov == r.iov && |r'.data| == |r.data|
  }

  ghost predicate SameShape(rs: seq<Request>, rs': seq<Request>) {
    |rs| == |rs'| && forall i :: 0 <= i < |rs| ==> Alike(rs[i], rs'[i])
  }

  lemma ShapeValid(rs: seq<Request>, rs': seq<Request>)
    requires Sorted(rs) && AllValid(rs) && SameShape(rs, rs')
    ensures Sorted(rs') && AllValid(rs')
  {
    forall i | 0 <= i < |rs'|
      ensures Valid(rs'[i]) && rs'[i].sector == rs[i].sector
    {
      assert Valid(rs[i]) && Alike(rs[i], rs'[i]);
    }
  }

  lemma MergeIntoShape(out: seq<Request>, out': seq<Request>, r: Request, r': Request)
    requires SameShape(out, out') && Alike(r, r') && Valid(r)
    requires out != [] && out[|out| - 1].sector <= r.sector && Valid(out[|out| - 1]) && Valid(out'[|out| - 1])
    requires out'[|out| - 1].sector <= r'.sector
    ensures SameShape(MergeInto(out, r), MergeInto(out', r'))
  {
    assert Alike(out[|out| - 1], out'[|out| - 1]);
  }

  lemma {:induction false} MergedShape(rs: seq<Request>, rs': seq<Request>)
    requires Sorted(rs) && AllValid(rs) && SameShape(rs, rs') && Sorted(rs') && AllValid(rs')
    ensures SameShape(Merged(rs), Merged(rs'))
  {
    hide Valid, Sum, Alike, MergeInto;
    if |rs| >= 1 {
      var n := |rs| - 1;
      MergedShape(rs[..n], rs'[..n]);
      MergedStep(rs);
      MergedStep(rs');
      if n > 0 {
        LastShape(rs, rs');
        MergeIntoShape(Merged(rs[..n]), Merged(rs'[..n]), rs[n], rs'[n]);
      }
    }
  }

  lemma LastShape(rs: seq<Request>, rs': seq<Request>)
    requires Sorted(rs) && AllValid(rs) && SameShape(rs, rs') && Sorted(rs') && AllValid(rs') && |rs| >= 2
    ensures var out, out' := Merged(rs[..|rs| - 1]), Merged(rs'[..|rs| - 1]);
            out[|out| - 1].sector <= rs[|rs| - 1].sector && out'[|out'| - 1].sector <= rs'[|rs| - 1].sector
  {
  }

  lemma MergedStep(rs: seq<Request>)
    requires Sorted(rs) && AllValid(rs) && rs != []
    ensures var init := rs[..|rs| - 1];
            if init == [] then Merged(rs) == rs
            else Merged(init)[|Merged(init)| - 1].sector <= rs[|rs| - 1].sector &&
                 Merged(rs) == MergeInto(Merged(init), rs[|rs| - 1])
  {
  }

  lemma MergesLastShape(rs: seq<Request>, rs': seq<Request>)
    requires Sorted(rs) && AllValid(rs) && SameShape(rs, rs') && Sorted(rs') && AllValid(rs') && |rs| >= 2
    ensures MergesLast(rs) == MergesLast(rs')
  {
    hide Valid, Merged;
    var out, out' := Merged(rs[..|rs| - 1]), Merged(rs'[..|rs| - 1]);
    MergedShape(rs[..|rs| - 1], rs'[..|rs| - 1]);
    assert Alike(out[|out| - 1], out'[|out| - 1]) && Alike(rs[|rs| - 1], rs'[|rs| - 1]);
  }

  lemma {:induction false} LostShape(rs: seq<Request>, rs': seq<Request>, a: nat)
    requires Sorted(rs) && AllValid(rs) && SameShape(rs, rs') && Sorted(rs') && AllValid(rs')
    ensures Lost(rs, a) == Lost(rs', a)
  {
    hide Valid, Merged, MergesLast, Sum;
    if |rs| >= 2 {
      MergesLastShape(rs, rs');
      assert Alike(rs[|rs| - 1], rs'[|rs| - 1]) && Alike(rs[|rs| - 2], rs'[|rs| - 2]);
      LostShape(rs[..|rs| - 1], rs'[..|rs| - 1], a);
    }
  }

  /** Request `i` is the last to write byte `a`, and the next one cuts it off. */
  ghost predicate CutAt(rs: seq<Request>, i: nat, a: nat)
    requires Sorted(rs) && AllValid(rs)
  {
    && i + 2 <= |rs|
    && MergesLast(rs[..i + 2])
    && EndSector(rs[i + 1]) * SECTOR_SIZE <= a < EndSector(rs[i]) * SECTOR_SIZE
    && forall j :: i < j < |rs| ==> !Covers(rs[j], a)
  }

  lemma CutCovers(rs: seq<Request>, i: nat, a: nat)
    requires Sorted(rs) && AllValid(rs) && i + 2 <= |rs|
    requires EndSector(rs[i + 1]) * SECTOR_SIZE <= a < EndSector(rs[i]) * SECTOR_SIZE
    ensures Covers(rs[i], a)
  {
    assert Valid(rs[i]) && rs[i].sector <= rs[i + 1].sector;
  }

  lemma {:induction false} LostIsCut(rs: seq<Request>, a: nat) returns (i: nat)
    requires Sorted(rs) && AllValid(rs) && Lost(rs, a)
    ensures CutAt(rs, i, a) && Covers(rs[i], a)
  {
    hide Valid, Covers, MergesLast, EndSector;
    var n := |rs|;
    if MergesLast(rs) && EndSector(rs[n - 1]) * SECTOR_SIZE <= a < EndSector(rs[n - 2]) * SECTOR_SIZE {
      i := n - 2;
      assert rs[..i + 2] == rs;
      CutCovers(rs, i, a);
    } else {
      i := LostIsCut(rs[..n - 1], a);
      assert rs[..n - 1][..i + 2] == rs[..i + 2];
    }
  }

  lemma LastStarts(rs: seq<Request>)
    requires Sorted(rs) && AllValid(rs) && |rs| >= 2
    ensures var out := Merged(rs[..|rs| - 1]);
            out != [] && out[|out| - 1].sector <= rs[|rs| - 1].sector && Valid(out[|out| - 1])
  {
  }

  lemma PrefixOk(rs: seq<Request>, n: nat)
    requires Sorted(rs) && AllValid(rs) && n <= |rs|
    ensures Sorted(rs[..n]) && AllValid(rs[..n])
    ensures n > 0 ==> Valid(rs[n - 1])
  {
  }

  lemma PrefixOfPrefix(rs: seq<Request>, n: nat, k: nat)
    requires k <= n <= |rs|
    ensures rs[..n][..k] == rs[..k]
  {
  }

  /** The groups before the one that holds the last request. */
  ghost function Rest(rs: seq<Request>): seq<Request>
    requires Sorted(rs) && AllValid(rs) && rs != []
  {
    Merged(rs)[..|Merged(rs)| - 1]
  }

  /** Once byte `a` is behind the last group, a request that does not write it leaves it there. */
  lemma StaysBehind(disk: Disk, out: seq<Request>, r: Request, a: nat)
    requires out != [] && out[|out| - 1].sector <= r.sector && Valid(out[|out| - 1]) && Valid(r)
    requires !Covers(out[|out| - 1], a) && !Covers(r, a)
    ensures var out' := MergeInto(out, r); !Covers(out'[|out'| - 1], a)
    ensures Applied(disk, MergeInto(out, r))(a) == Applied(disk, out)(a)
  {
    hide Sum, TakeIov, Applied;
    var init, last := out[..|out| - 1], out[|out| - 1];
    assert out == init + [last];
    AppliedLast(disk, init, last, a);
    if Merges(last, r) {
      MergeHolds(last, r, a);
      AppliedLast(disk, init, Merge(last, r), a);
    } else {
      AppliedLast(disk, out, r, a);
    }
  }

  lemma CutsOff(disk: Disk, out: seq<Request>, r: Request, a: nat)
    requires out != [] && out[|out| - 1].sector <= r.sector && Valid(out[|out| - 1]) && Valid(r)
    requires Merges(out[|out| - 1], r) && EndSector(r) * SECTOR_SIZE <= a
    ensures var out' := MergeInto(out, r); !Covers(out'[|out'| - 1], a)
    ensures Applied(disk, MergeInto(out, r))(a) == Applied(disk, out[..|out| - 1])(a)
  {
    var init, last := out[..|out| - 1], out[|out| - 1];
    MergeValid(last, r);
    AppliedLast(disk, init, Merge(last, r), a);
  }

  /** A byte that is cut off keeps what the groups before left there. */
  lemma {:induction false} CutValue(disk: Disk, rs: seq<Request>, i: nat, a: nat, head: seq<Request>)
    requires Sorted(rs) && AllValid(rs) && CutAt(rs, i, a) && head == rs[..i + 1]
    ensures Sorted(head) && AllValid(head) && !Covers(Merged(rs)[|Merged(rs)| - 1], a)
    ensures Applied(disk, Merged(rs))(a) == Applied(disk, Rest(head))(a)
    decreases |rs|
  {
    assert i + 2 <= |rs|;
    hide *;
    if i + 2 == |rs| {
      CutNow(disk, rs, a);
    } else {
      CutBefore(rs, i, a);
      PrefixOfPrefix(rs, |rs| - 1, i + 1);
      CutValue(disk, rs[..|rs| - 1], i, a, head);
      NextStaysBehind(disk, rs, a);
    }
  }

  lemma CutNow(disk: Disk, rs: seq<Request>, a: nat)
    requires Sorted(rs) && AllValid(rs) && |rs| >= 2 && CutAt(rs, |rs| - 2, a)
    ensures Sorted(rs[..|rs| - 1]) && AllValid(rs[..|rs| - 1])
    ensures !Covers(Merged(rs)[|Merged(rs)| - 1], a)
    ensures Applied(disk, Merged(rs))(a) == Applied(disk, Rest(rs[..|rs| - 1]))(a)
  {
    hide Valid, Covers, EndSector, MergeInto, Applied, Merged, Sorted, AllValid, Merges;
    assert rs[..|rs|] == rs;
    PrefixOk(rs, |rs|);
    PrefixOk(rs, |rs| - 1);
    LastStarts(rs);
    MergedStep(rs);
    CutsOff(disk, Merged(rs[..|rs| - 1]), rs[|rs| - 1], a);
  }

  lemma CutBefore(rs: seq<Request>, i: nat, a: nat)
    requires Sorted(rs) && AllValid(rs) && CutAt(rs, i, a) && i + 2 < |rs|
    ensures Sorted(rs[..|rs| - 1]) && AllValid(rs[..|rs| - 1]) && CutAt(rs[..|rs| - 1], i, a)
    ensures !Covers(rs[|rs| - 1], a)
  {
    hide Valid, Covers, EndSector, Sorted, AllValid, MergesLast;
    PrefixOk(rs, |rs| - 1);
    PrefixOfPrefix(rs, |rs| - 1, i + 2);
  }

  lemma NextStaysBehind(disk: Disk, rs: seq<Request>, a: nat)
    requires Sorted(rs) && AllValid(rs) && |rs| >= 2 && !Covers(rs[|rs| - 1], a)
    requires Sorted(rs[..|rs| - 1]) && AllValid(rs[..|rs| - 1])
    requires var out := Merged(rs[..|rs| - 1]); !Covers(out[|out| - 1], a)
    ensures !Covers(Merged(rs)[|Merged(rs)| - 1], a)
    ensures Applied(disk, Merged(rs))(a) == Applied(disk, Merged(rs[..|rs| - 1]))(a)
  {
    hide *;
    PrefixOk(rs, |rs|);
    MergedNext(rs);
    StaysBehind(disk, Merged(rs[..|rs| - 1]), rs[|rs| - 1], a);
  }

  lemma MergedNext(rs: seq<Request>)
    requires Sorted(rs) && AllValid(rs) && |rs| >= 2
    requires Sorted(rs[..|rs| - 1]) && AllValid(rs[..|rs| - 1])
    ensures var out, r := Merged(rs[..|rs| - 1]), rs[|rs| - 1];
            && out != [] && out[|out| - 1].sector <= r.sector && Valid(out[|out| - 1])
            && Merged(rs) == MergeInto(out, r)
  {
    hide Valid, MergeInto, Merged, Sorted, AllValid;
    LastStarts(rs);
    MergedStep(rs);
  }

  lemma {:induction false} LastWriter(disk: Disk, rs: seq<Request>, i: nat, a: nat)
    requires i < |rs| && Covers(rs[i], a) && forall j :: i < j < |rs| ==> !Covers(rs[j], a)
    ensures Applied(disk, rs)(a) == rs[i].data[a - Start(rs[i])]
  {
    var n := |rs|;
    assert rs == rs[..n - 1] + [rs[n - 1]];
    AppliedLast(disk, rs[..n - 1], rs[n - 1], a);
    if i < n - 1 {
      LastWriter(disk, rs[..n - 1], i, a);
    }
  }

  lemma RestIgnoresLast(rs: seq<Request>, rs': seq<Request>)
    requires Sorted(rs) && AllValid(rs) && SameShape(rs, rs') && Sorted(rs') && AllValid(rs') && rs != []
    requires rs'[..|rs| - 1] == rs[..|rs| - 1]
    ensures Rest(rs') == Rest(rs)
  {
    hide Merged, Valid, Sorted, AllValid;
    var n := |rs| - 1;
    PrefixOk(rs, n);
    MergedStep(rs);
    MergedStep(rs');
    if n > 0 {
      assert Alike(rs[n], rs'[n]);
    }
  }

  /** The same requests with byte `a` of request `i` changed. */
  ghost function Changed(rs: seq<Request>, i: nat, a: nat): seq<Request>
    requires i < |rs| && Covers(rs[i], a)
  {
    var at := a - Start(rs[i]);
    rs[i := rs[i].(data := rs[i].data[at := if rs[i].data[at] == 0 then 1 else 0])]
  }

  lemma ChangedCut(rs: seq<Request>, i: nat, a: nat)
    requires Sorted(rs) && AllValid(rs) && CutAt(rs, i, a) && Covers(rs[i], a)
    ensures var rs' := Changed(rs, i, a);
            && SameShape(rs, rs') && Sorted(rs') && AllValid(rs')
            && CutAt(rs', i, a) && Rest(rs'[..i + 1]) == Rest(rs[..i + 1])
  {
    hide Valid, EndSector, Merged, Sum;
    var rs' := Changed(rs, i, a);
    forall j | 0 <= j < |rs|
      ensures Alike(rs[j], rs'[j])
    {
    }
    ShapeValid(rs, rs');
    MergedShape(rs[..i + 1], rs'[..i + 1]);
    assert rs[..i + 2][..i + 1] == rs[..i + 1] && rs'[..i + 2][..i + 1] == rs'[..i + 1];
    MergesLastShape(rs[..i + 2], rs'[..i + 2]);
    assert rs'[..i + 1][..i] == rs[..i + 1][..i];
    RestIgnoresLast(rs[..i + 1], rs'[..i + 1]);
    assert EndSector(rs'[i]) == EndSector(rs[i]) by { EndShape(rs[i], rs'[i]); }
  }

  lemma EndShape(r: Request, r': Request)
    requires Alike(r, r')
    ensures EndSector(r') == EndSector(r)
  {
  }

  /** If a byte is cut off, then for these requests, or for the same requests with one byte changed, merging
      leaves a different disk. */
  lemma LostDiffers(disk: Disk, rs: seq<Request>, a: nat) returns (rs': seq<Request>)
    requires Sorted(rs) && AllValid(rs) && Lost(rs, a)
    ensures SameShape(rs, rs') && Sorted(rs') && AllValid(rs')
    ensures Applied(disk, Merged(rs))(a) != Applied(disk, rs)(a) ||
            Applied(disk, Merged(rs'))(a) != Applied(disk, rs')(a)
  {
    hide Valid, EndSector, Merged, Applied, Lost, MergesLast, Alike;
    var i := LostIsCut(rs, a);
    rs' := Changed(rs, i, a);
    ChangedCut(rs, i, a);
    CutValue(disk, rs, i, a, rs[..i + 1]);
    CutValue(disk, rs', i, a, rs'[..i + 1]);
    LastWriter(disk, rs, i, a);
    LastWriter(disk, rs', i, a);
  }

  ghost predicate SameEffect(rs: seq<Request>)
    requires Sorted(rs) && AllValid(rs)
  {
    forall disk: Disk, a: nat :: Applied(disk, Merged(rs))(a) == Applied(disk, rs)(a)
  }

  lemma NoneLostSameEffect(rs: seq<Request>, rs': seq<Request>)
    requires Sorted(rs) && AllValid(rs) && SameShape(rs, rs') && Sorted(rs') && AllValid(rs')
    requires forall a: nat :: !Lost(rs, a)
    ensures SameEffect(rs')
  {
    hide Valid, Merged, Applied, Lost, Alike, Sorted, AllValid;
    forall disk: Disk, a: nat
      ensures Applied(disk, Merged(rs'))(a) == Applied(disk, rs')(a)
    {
      LostShape(rs, rs', a);
      MergePreserves(disk, rs', a);
    }
  }

  ghost predicate SameEffectForShape(rs: seq<Request>)
    requires Sorted(rs) && AllValid(rs)
  {
    forall rs' :: SameShape(rs, rs') && Sorted(rs') && AllValid(rs') ==> SameEffect(rs')
  }

  /** Merging preserves the disk, whatever is on it and whatever is written, exactly if no byte is cut off. */
  lemma MergeExact(rs: seq<Request>)
    requires Sorted(rs) && AllValid(rs)
    ensures (forall a: nat :: !Lost(rs, a)) <==> SameEffectForShape(rs)
  {
    hide Valid, Merged, Applied, Lost, Sorted, AllValid;
    if a: nat :| Lost(rs, a) {
      var disk: Disk := (b: nat) => 0;
      var rs' := LostDiffers(disk, rs, a);
      assert !SameEffect(rs) || !SameEffect(rs');
      assert SameShape(rs, rs);
    } else {
      forall rs' | SameShape(rs, rs') && Sorted(rs') && AllValid(rs')
        ensures SameEffect(rs')
      {
        NoneLostSameEffect(rs, rs');
      }
    }
  }

  /** In particular it does if the requests also end in order. */
  lemma {:induction false} EndsInOrder(rs: seq<Request>, a: nat)
    requires Sorted(rs) && AllValid(rs)
    requires forall i :: 0 <= i < |rs| - 1 ==> EndSector(rs[i]) <= EndSector(rs[i + 1])
    ensures !Lost(rs, a)
  {
    if |rs| >= 2 {
      EndsInOrder(rs[..|rs| - 1], a);
      assert EndSector(rs[|rs| - 2]) <= EndSector(rs[|rs| - 2 + 1]);
    }
  }

  // ---- The same over sectors ----

  /** How many buffers the requests have. */
  function Buffers(rs: seq<Request>): nat {
    if rs == [] then 0 else Buffers(rs[..|rs| - 1]) + |rs[|rs| - 1].iov|
  }

  /** Request i + 1 ends at or before sector s, which request i writes and no later request does. */
  ghost predicate CutSector(rs: seq<Request>, i: nat, s: nat) {
    && i + 2 <= |rs| && EndSector(rs[i + 1]) <= s < EndSector(rs[i])
    && forall j :: i < j < |rs| ==> !(rs[j].sector <= s < EndSector(rs[j]))
  }

  lemma {:induction false} TakeIovShorter(iov: seq<nat>, size: nat)
    ensures |TakeIov(iov, size)| <= |iov|
  {
    if iov != [] && size != 0 && iov[0] <= size {
      TakeIovShorter(iov[1..], size - iov[0]);
    }
  }

  /** A group has no more buffers than the requests merged so far. */
  lemma {:induction false} LastBuffers(rs: seq<Request>)
    requires Sorted(rs) && AllValid(rs) && rs != []
    ensures var out := Merged(rs); out != [] && |out[|out| - 1].iov| <= Buffers(rs)
  {
    hide Valid, Merged, MergeInto, Sorted, AllValid;
    MergedStep(rs);
    if |rs| > 1 {
      PrefixOk(rs, |rs| - 1);
      LastBuffers(rs[..|rs| - 1]);
      LastStarts(rs);
      MergeIntoBuffers(Merged(rs[..|rs| - 1]), rs[|rs| - 1]);
    }
  }

  lemma MergeIntoBuffers(out: seq<Request>, r: Request)
    requires out != [] && out[|out| - 1].sector <= r.sector && Valid(out[|out| - 1])
    ensures var out' := MergeInto(out, r);
            out' != [] && |out'[|out'| - 1].iov| <= |out[|out| - 1].iov| + |r.iov|
  {
    hide TakeIov;
    var last := out[|out| - 1];
    if Merges(last, r) {
      TakeIovShorter(last.iov, (r.sector - last.sector) * SECTOR_SIZE);
      TakeIovShorter(r.iov, |r.data|);
    }
  }

  lemma {:induction false} BuffersPrefix(rs: seq<Request>, n: nat)
    requires n <= |rs|
    ensures Buffers(rs[..n]) <= Buffers(rs)
  {
    if n < |rs| {
      BuffersPrefix(rs[..|rs| - 1], n);
      assert rs[..|rs| - 1][..n] == rs[..n];
    } else {
      assert rs[..n] == rs;
    }
  }

  /** With few buffers, requests are merged just if they touch. */
  lemma MergesTouching(rs: seq<Request>)
    requires Sorted(rs) && AllValid(rs) && |rs| >= 2 && Buffers(rs) < IOV_MAX
    ensures MergesLast(rs) == (rs[|rs| - 1].sector <= EndSector(rs[|rs| - 2]))
  {
    hide Valid, Merged, Sorted, AllValid, EndSector, Buffers;
    var init := rs[..|rs| - 1];
    PrefixOk(rs, |rs| - 1);
    BuffersNext(rs);
    LastBuffers(init);
    LastEnds(init);
    assert init[|init| - 1] == rs[|rs| - 2];
  }

  lemma BuffersNext(rs: seq<Request>)
    requires rs != []
    ensures Buffers(rs) == Buffers(rs[..|rs| - 1]) + |rs[|rs| - 1].iov|
  {
  }

  lemma LastEnds(rs: seq<Request>)
    requires Sorted(rs) && AllValid(rs) && rs != []
    ensures var out := Merged(rs); out != [] && EndSector(out[|out| - 1]) == EndSector(rs[|rs| - 1])
  {
  }

  lemma {:induction false} CutIsLost(rs: seq<Request>, i: nat, a: nat)
    requires Sorted(rs) && AllValid(rs) && CutAt(rs, i, a)
    ensures Lost(rs, a)
  {
    hide Valid, Covers, MergesLast, EndSector;
    var n := |rs|;
    if i + 2 == n {
      assert rs[..i + 2] == rs;
    } else {
      assert rs[..n - 1][..i + 2] == rs[..i + 2];
      CutIsLost(rs[..n - 1], i, a);
    }
  }

  lemma SectorCovers(r: Request, a: nat)
    requires Valid(r)
    ensures Covers(r, a) <==> r.sector <= a / SECTOR_SIZE < EndSector(r)
  {
  }

  /** For requests that have fewer buffers than the limit between them: merging preserves the disk, whatever is on it
      and whatever is written, if and only if no sector is cut off. */
  lemma MergeExactBySectors(rs: seq<Request>)
    requires Sorted(rs) && AllValid(rs) && Buffers(rs) < IOV_MAX
    ensures (forall i: nat, s: nat :: !CutSector(rs, i, s)) <==> SameEffectForShape(rs)
  {
    hide Lost, CutSector, SameEffectForShape, Valid;
    MergeExact(rs);
    if a: nat :| Lost(rs, a) {
      var i := LostIsCut(rs, a);
      CutSectorOf(rs, i, a);
    }
    if i: nat, s: nat :| CutSector(rs, i, s) {
      CutOfSector(rs, i, s);
      CutIsLost(rs, i, s * SECTOR_SIZE);
    }
  }

  lemma CutSectorOf(rs: seq<Request>, i: nat, a: nat)
    requires Sorted(rs) && AllValid(rs) && CutAt(rs, i, a)
    ensures CutSector(rs, i, a / SECTOR_SIZE)
  {
    hide Covers, MergesLast;
    forall j | i < j < |rs|
      ensures !(rs[j].sector <= a / SECTOR_SIZE < EndSector(rs[j]))
    {
      SectorCovers(rs[j], a);
    }
  }

  lemma CutOfSector(rs: seq<Request>, i: nat, s: nat)
    requires Sorted(rs) && AllValid(rs) && Buffers(rs) < IOV_MAX && CutSector(rs, i, s)
    ensures CutAt(rs, i, s * SECTOR_SIZE)
  {
    hide Covers, MergesLast, Merged;
    var pair := rs[..i + 2];
    PrefixOk(rs, i + 2);
    BuffersPrefix(rs, i + 2);
    MergesTouching(pair);
    assert pair[|pair| - 1] == rs[i + 1] && pair[|pair| - 2] == rs[i];
    forall j | i < j < |rs|
      ensures !Covers(rs[j], s * SECTOR_SIZE)
    {
      SectorCovers(rs[j], s * SECTOR_SIZE);
    }
  }

  /** A request is merged into one that ends later: what lies behind the second one's end is not written. */
  lemma SecondEndsFirst(disk: Disk, long: Request, short: Request, a: nat)
    requires Valid(long) && Valid(short) && long.sector <= short.sector && Merges(long, short)
    requires EndSector(short) * SECTOR_SIZE <= a < EndSector(long) * SECTOR_SIZE
    ensures var rs := [long, short];
            && Sorted(rs) && AllValid(rs) && Lost(rs, a) && Covers(long, a)
            && Applied(disk, rs)(a) == long.data[a - Start(long)] && Applied(disk, Merged(rs))(a) == disk(a)
  {
    hide Sum, TakeIov, Merged, Merge, Applied;
    var rs := [long, short];
    assert rs[..1] == [long] && [long][..0] == [];
    NothingToMerge([long]);
    MergedNext(rs);
    CutsOff(disk, [long], short, a);
    AppliedNext(disk, rs, a);
    AppliedNext(disk, [long], a);
    AppliedNone(disk);
  }

  lemma AppliedNone(disk: Disk)
    ensures Applied(disk, []) == disk
  {
  }

  /** Three sectors at 0 and one sector at 1: merged, they no longer write sector 2. */
  lemma ShorterSecondRequest()
    ensures var long := Request(0, 3, seq(1536, _ => 7), [1536]);
            var short := Request(1, 1, seq(512, _ => 9), [512]);
            var rs := [long, short];
            && Sorted(rs) && AllValid(rs) && Lost(rs, 1100)
            && Applied((a: nat) => 0, rs)(1100) == 7 && Applied((a: nat) => 0, Merged(rs))(1100) == 0
  {
    var long, short := Request(0, 3, seq(1536, _ => 7), [1536]), Request(1, 1, seq(512, _ => 9), [512]);
    assert Sum(long.iov[1..]) == 0 && Sum(short.iov[1..]) == 0;
    assert Valid(long) && Valid(short) && Merges(long, short) && long.data[1100] == 7;
    hide Sum, TakeIov, Valid, Merged, Merges, Applied, Lost, Sorted, AllValid;
    SecondEndsFirst((a: nat) => 0, long, short, 1100);
  }

  // ---- The merge loop ----

  function Inserted(t: seq<Request>, r: Request): (t': seq<Request>)
    requires Sorted(t)
    ensures Sorted(t') && multiset(t') == multiset(t) + multiset{r}
  {
    if t == [] then [r]
    else if r.sector < t[0].sector then [r] + t
    else
      var rest := Inserted(t[1..], r);
      InsertedOk(t, r, rest);
      [t[0]] + rest
  }

  lemma InsertedOk(t: seq<Request>, r: Request, rest: seq<Request>)
    requires t != [] && Sorted(t) && t[0].sector <= r.sector
    requires Sorted(rest) && multiset(rest) == multiset(t[1..]) + multiset{r}
    ensures Sorted([t[0]] + rest) && multiset([t[0]] + rest) == multiset(t) + multiset{r}
  {
    InsertedAbove(t, r, rest);
    assert t == [t[0]] + t[1..];
  }

  lemma InsertedAbove(t: seq<Request>, r: Request, rest: seq<Request>)
    requires t != [] && Sorted(t) && t[0].sector <= r.sector && multiset(rest) == multiset(t[1..]) + multiset{r}
    ensures forall i :: 0 <= i < |rest| ==> t[0].sector <= rest[i].sector
  {
    forall i | 0 <= i < |rest|
      ensures t[0].sector <= rest[i].sector
    {
      assert rest[i] in multiset(rest);
      assert rest[i] == r || rest[i] in t[1..];
    }
  }

  /** qsort by starting sector; requests that start at the same sector may come out in any order. */
  method SortBySector(reqs: seq<Request>) returns (sorted: seq<Request>)
    ensures Sorted(sorted) && multiset(sorted) == multiset(reqs)
  {
    sorted := [];
    for i := 0 to |reqs|
      invariant Sorted(sorted) && multiset(sorted) == multiset(reqs[..i])
    {
      sorted := Inserted(sorted, reqs[i]);
      assert reqs[..i + 1] == reqs[..i] + [reqs[i]];
    }
    assert reqs[..|reqs|] == reqs;
  }

  lemma ValidPermutation(a: seq<Request>, b: seq<Request>)
    requires AllValid(a) && multiset(a) == multiset(b)
    ensures AllValid(b) && |a| == |b|
  {
    assert |multiset(a)| == |a| && |multiset(b)| == |b|;
    forall i | 0 <= i < |b|
      ensures Valid(b[i])
    {
      assert b[i] in multiset(a);
      assert b[i] in a;
    }
  }

  /** One round of the loop. */
  method MergeRound(reqs: array<Request>, outidx: nat, i: nat, ghost s: seq<Request>) returns (outidx': nat)
    requires Sorted(s) && AllValid(s) && |s| == reqs.Length && outidx < i < reqs.Length
    requires forall j :: i <= j < reqs.Length ==> reqs[j] == s[j]
    requires reqs[..outidx + 1] == Merged(s[..i])
    modifies reqs
    ensures outidx' <= i && reqs[..outidx' + 1] == Merged(s[..i + 1])
    ensures forall j :: i + 1 <= j < reqs.Length ==> reqs[j] == s[j]
  {
    hide Merged, Sum, TakeIov, Valid, Sorted, AllValid, Merge, Merges;
    PrefixOk(s, i);
    PrefixOk(s, i + 1);
    ghost var out := reqs[..outidx + 1];
    PrefixOfPrefix(s, i + 1, i);
    MergedNext(s[..i + 1]);
    var last, r := reqs[outidx], reqs[i];
    assert last == out[|out| - 1] && r == s[i];
    if Merges(last, r) {
      WholeSectors(last);
      reqs[outidx] := Merge(last, r);
      outidx' := outidx;
      assert reqs[..outidx' + 1] == out[..outidx] + [Merge(last, r)];
    } else {
      outidx' := outidx + 1;
      reqs[outidx'] := r;
      assert reqs[..outidx' + 1] == out + [r];
    }
  }

  lemma WholeSectors(r: Request)
    requires Valid(r)
    ensures |r.data| == r.nbSectors * SECTOR_SIZE
  {
  }

  /** multiwrite_merge: sorts the array and merges neighbours in place; the first `num` requests remain. */
  method MultiwriteMerge(reqs: array<Request>) returns (num: nat, ghost sorted: seq<Request>)
    requires reqs.Length > 0 && AllValid(reqs[..])
    modifies reqs
    ensures multiset(sorted) == multiset(old(reqs[..])) && Sorted(sorted) && AllValid(sorted)
    ensures 0 < num <= reqs.Length && reqs[..num] == Merged(sorted)
  {
    hide Merged, Valid, Sorted;
    var s := SortBySector(reqs[..]);
    ValidPermutation(reqs[..], s);
    forall i | 0 <= i < reqs.Length {
      reqs[i] := s[i];
    }
    assert reqs[..] == s;
    sorted := s;
    var outidx, i := 0, 1;
    PrefixOk(s, 1);
    MergedStep(s[..1]);
    while i < reqs.Length
      invariant 0 <= outidx < i <= reqs.Length
      invariant forall j :: i <= j < reqs.Length ==> reqs[j] == s[j]
      invariant Sorted(s[..i]) && reqs[..outidx + 1] == Merged(s[..i])
    {
      PrefixOk(s, i + 1);
      outidx := MergeRound(reqs, outidx, i, s);
      i := i + 1;
    }
    assert s[..i] == s;
    num := outidx + 1;
  }

  // ---- Completion ----

  datatype Call = Call(callback: nat, error: int)

  /** What the shared completion record has seen so far. */
  datatype Progress = Progress(error: int, numRequests: int, fired: seq<Call>)

  /** The first n callbacks have been called, in order and with that error. */
  ghost predicate Called(fired: seq<Call>, callbacks: seq<nat>, n: nat, error: int) {
    && |fired| == n <= |callbacks|
    && forall i :: 0 <= i < n ==> fired[i].callback == callbacks[i] && fired[i].error == error
  }

  /** The first error among the results, or zero. */
  function FirstError(rets: seq<int>): int {
    if rets == [] then 0 else if rets[0] < 0 then rets[0] else FirstError(rets[1..])
  }

  class MultiwriteCb {
    const callbacks: seq<nat>
    var progress: Progress
    ghost var rets: seq<int>
    ghost const total: nat

    /** After `rets`, in whatever order the merged requests complete: nothing has been called back before the last
        one, and then every original callback exactly once, with the first error. */
    ghost predicate Valid()
      reads this
    {
      && |rets| <= total && progress.numRequests == total - |rets|
      && progress.error == FirstError(rets)
      && if |rets| < total then progress.fired == []
         else Called(progress.fired, callbacks, |callbacks|, FirstError(rets))
    }

    constructor (callbacks: seq<nat>, num: nat)
      requires num > 0
      ensures Valid() && this.callbacks == callbacks && total == num && rets == []
    {
      this.callbacks := callbacks;
      progress := Progress(0, num, []);
      rets, total := [], num;
    }

    /** multiwrite_cb */
    method Complete(ret: int)
      requires Valid() && |rets| < total
      modifies this
      ensures Valid() && rets == old(rets) + [ret]
    {
      FirstErrorLast(rets, ret);
      if ret < 0 && progress.error == 0 {
        progress := progress.(error := ret);
      }
      progress := progress.(numRequests := progress.numRequests - 1);
      if progress.numRequests == 0 {
        var i := 0;
        while i < |callbacks|
          invariant 0 <= i <= |callbacks|
          invariant Called(progress.fired, callbacks, i, progress.error) && progress.numRequests == 0
          invariant progress.error == FirstError(rets + [ret]) && rets == old(rets)
        {
          progress := progress.(fired := progress.fired + [Call(callbacks[i], progress.error)]);
          i := i + 1;
        }
      }
      rets := rets + [ret];
    }
  }

  lemma {:induction false} FirstErrorLast(rets: seq<int>, ret: int)
    ensures FirstError(rets + [ret]) == if FirstError(rets) != 0 then FirstError(rets) else if ret < 0 then ret else 0
  {
    if rets != [] {
      assert (rets + [ret])[1..] == rets[1..] + [ret];
      FirstErrorLast(rets[1..], ret);
    }
  }

  /** The first error is the first negative result, and zero exactly if there is none. */
  lemma {:induction false} FirstErrorIs(rets: seq<int>)
    ensures if forall k :: 0 <= k < |rets| ==> rets[k] >= 0 then FirstError(rets) == 0
            else exists k ::
              0 <= k < |rets| && FirstError(rets) == rets[k] < 0 && forall j :: 0 <= j < k ==> rets[j] >= 0
  {
    if rets != [] && rets[0] >= 0 {
      var rest := rets[1..];
      FirstErrorIs(rest);
      if k :| 0 <= k < |rest| && rest[k] < 0 {
        var i :| 0 <= i < |rest| && FirstError(rest) == rest[i] < 0 && forall j :: 0 <= j < i ==> rest[j] >= 0;
        assert rets[i + 1] == rest[i] && forall j :: 0 <= j < i + 1 ==> rets[j] >= 0;
      } else {
        assert forall j :: 0 < j < |rets| ==> rets[j] == rest[j - 1];
      }
    }
  }

  // ---- The whole call ----

  /** bdrv_aio_multiwrite up to the submission: the requests to be submitted stand at the front of the array, and
      there is a completion record for them, unless there is nothing to do. */
  method AioMultiwrite(reqs: array<Request>, callbacks: seq<nat>)
    returns (num: nat, mcb: MultiwriteCb?, ghost sorted: seq<Request>)
    requires |callbacks| == reqs.Length && AllValid(reqs[..])
    modifies reqs
    ensures multiset(sorted) == multiset(old(reqs[..])) && Sorted(sorted) && AllValid(sorted)
    ensures num <= reqs.Length && reqs[..num] == Merged(sorted)
    ensures num == 0 <==> reqs.Length == 0
    ensures num == 0 <==> mcb == null
    ensures mcb != null ==>
              fresh(mcb) && mcb.Valid() && mcb.callbacks == callbacks && mcb.total == num && mcb.rets == []
  {
    num, mcb, sorted := 0, null, [];
    if reqs.Length > 0 {
      num, sorted := MultiwriteMerge(reqs);
      mcb := new MultiwriteCb(callbacks, num);
    }
  }

  function Results(rets: nat -> int, n: nat): (r: seq<int>)
    ensures |r| == n
  {
    seq(n, i requires 0 <= i => rets(i))
  }

  /** Every callback has been called once, with the first negative of the results, or 0 if there is none. */
  ghost predicate CalledBack(fired: seq<Call>, callbacks: seq<nat>, num: nat, rets: nat -> int) {
    && |fired| == |callbacks| && (forall i :: 0 <= i < |callbacks| ==> fired[i].callback == callbacks[i])
    && forall i :: 0 <= i < |callbacks| ==>
         if forall k: nat :: k < num ==> rets(k) >= 0 then fired[i].error == 0
         else exists k: nat :: k < num && fired[i].error == rets(k) < 0 && forall j: nat :: j < k ==> rets(j) >= 0
  }

  /** A multiwrite from the caller's array to the last callback. The merged requests are carried out in order, and
      complete with results `rets` in whatever order. `seen` is what has been called back after each completion.
      The disk is what the sorted originals leave, for every disk and all data of these sizes, if and only if no byte
      is cut off; and the originals' callbacks fire once each, after the last completion, with the first error. */
  method Multiwrite(reqs: array<Request>, callbacks: seq<nat>, disk: Disk, rets: nat -> int)
    returns (num: nat, disk': Disk, seen: seq<seq<Call>>, ghost sorted: seq<Request>)
    requires |callbacks| == reqs.Length && AllValid(reqs[..])
    modifies reqs
    ensures multiset(sorted) == multiset(old(reqs[..])) && Sorted(sorted) && AllValid(sorted)
    ensures disk' == Applied(disk, Merged(sorted)) && num == |Merged(sorted)|
    ensures forall a: nat :: !Lost(sorted, a) ==> disk'(a) == Applied(disk, sorted)(a)
    ensures (forall a: nat :: !Lost(sorted, a)) <==> SameEffectForShape(sorted)
    ensures |seen| == num + 1 && (forall i :: 0 <= i < num ==> seen[i] == [])
    ensures CalledBack(seen[num], callbacks, num, rets)
  {
    hide Sorted, AllValid, Merged, Lost, SameEffectForShape, Applied;
    var mcb;
    num, mcb, sorted := AioMultiwrite(reqs, callbacks);
    MergeExact(sorted);
    forall a: nat | !Lost(sorted, a)
      ensures Applied(disk, Merged(sorted))(a) == Applied(disk, sorted)(a)
    {
      MergePreserves(disk, sorted, a);
    }
    disk' := CarriedOut(disk, reqs[..num]);
    seen := [[]];
    if mcb != null {
      seen := CompleteAll(mcb, rets);
    }
  }

  /** The merged requests complete one after the other. */
  method CompleteAll(mcb: MultiwriteCb, rets: nat -> int) returns (seen: seq<seq<Call>>)
    requires mcb.Valid() && mcb.rets == [] && mcb.total > 0
    modifies mcb
    ensures |seen| == mcb.total + 1 && (forall i :: 0 <= i < mcb.total ==> seen[i] == [])
    ensures CalledBack(seen[mcb.total], mcb.callbacks, mcb.total, rets)
  {
    hide FirstError;
    seen := [[]];
    while mcb.progress.numRequests > 0
      invariant mcb.Valid() && |seen| == |mcb.rets| + 1 && mcb.rets == Results(rets, |mcb.rets|)
      invariant forall j :: 0 <= j < |seen| && j < mcb.total ==> seen[j] == []
      invariant seen[|mcb.rets|] == mcb.progress.fired
      decreases mcb.progress.numRequests
    {
      mcb.Complete(rets(|seen| - 1));
      seen := seen + [mcb.progress.fired];
    }
    ghost var results := Results(rets, mcb.total);
    FirstErrorIs(results);
    assert forall k :: 0 <= k < mcb.total ==> results[k] == rets(k);
  }

  /** The driver carries out requests one after the other. */
  method CarriedOut(disk: Disk, rs: seq<Request>) returns (r: Disk)
    ensures r == Applied(disk, rs)
  {
    r := disk;
    var i := 0;
    while i < |rs|
      invariant 0 <= i <= |rs| && r == Applied(disk, rs[..i])
    {
      assert rs[..i + 1][..i] == rs[..i];
      r := Overlay(r, Start(rs[i]), rs[i].data);
      i := i + 1;
    }
    assert rs[..i] == rs;
  }
}
