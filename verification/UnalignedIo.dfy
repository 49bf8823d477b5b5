/** Reads and writes of any byte range on a device with a request alignment (block.c): padding,
    read-modify-write, and copy-on-read, interleaved in every way the wait protocol allows. */
module UnalignedIo {
  import opened Arith
  import opened Disks
  import opened Options
  import opened TrackedRequests

  datatype Kind = Read | Write(data: seq<Byte>) | CopyOnRead

  /** The local state of a request's coroutine: what it is to do, the blocks read so far for padding (`tail`
      for the last block, `head` for the first, or for the whole range of a copy-on-read), and its result. */
  datatype Job = Job(kind: Kind, offset: nat, bytes: nat, head: Option<seq<Byte>>, tail: Option<seq<Byte>>,
                     result: Option<seq<Byte>>)

  datatype Written = Written(offset: nat, data: seq<Byte>)

  datatype Device = Device(queue: Queue, jobs: map<nat, Job>, disk: Disk, log: seq<Written>, align: nat, cluster: nat)

  /** The specification: the logged writes, one after the other. */
  function Applied(disk: Disk, log: seq<Written>): Disk {
    if log == [] then disk
    else Overlay(Applied(disk, log[..|log| - 1]), log[|log| - 1].offset, log[|log| - 1].data)
  }

  // ---- Padding ----

  predicate HeadPadded(j: Job, align: nat)
    requires align > 0
  {
    j.offset % align != 0
  }

  predicate TailPadded(j: Job, align: nat)
    requires align > 0
  {
    (j.offset + j.bytes) % align != 0
  }

  /** What a read-modify-write sends to the driver: the start of the first block, the caller's data, and the end
      of the last block. */
  function PaddedData(j: Job, align: nat): seq<Byte>
    requires align > 0 && j.kind.Write?
    requires HeadPadded(j, align) ==> j.head.Some? && |j.head.value| == align
    requires TailPadded(j, align) ==> j.tail.Some? && |j.tail.value| == align
  {
    (if HeadPadded(j, align) then j.head.value[..j.offset % align] else []) + j.kind.data +
    (if TailPadded(j, align) then j.tail.value[(j.offset + j.bytes) % align..] else [])
  }

  ghost predicate HeadCurrent(j: Job, align: nat, disk: Disk)
    requires align > 0
  {
    j.head.Some? ==> j.head.value == Block(disk, AlignDown(j.offset, align), align)
  }

  ghost predicate TailCurrent(j: Job, align: nat, disk: Disk)
    requires align > 0
  {
    j.tail.Some? ==> j.tail.value == Block(disk, AlignDown(j.offset + j.bytes, align), align)
  }

  lemma Aligned(x: nat, align: nat)
    requires align > 0
    ensures AlignDown(x, align) == x - x % align
    ensures x % align == 0 ==> AlignUp(x, align) == x
    ensures x % align != 0 ==> AlignUp(x, align) == AlignDown(x, align) + align
  {
    if x % align == 0 && AlignUp(x, align) != x {
      MultiplesApart(x, AlignUp(x, align), align);
    }
    if x % align != 0 {
      MultiplesApart(AlignDown(x, align), AlignUp(x, align), align);
      if AlignDown(x, align) + align != AlignUp(x, align) {
        NextMultiple(AlignDown(x, align), align);
        MultiplesApart(AlignDown(x, align) + align, AlignUp(x, align), align);
      }
    }
  }

  lemma NextMultiple(x: nat, d: nat)
    requires d > 0 && x % d == 0
    ensures (x + d) % d == 0
  {
    DivMod(x, d);
    assert x + d == (x / d + 1) * d;
    MultipleOf(x / d + 1, d);
  }

  lemma BlockAt(disk: Disk, offset: nat, bytes: nat, i: nat)
    requires i < bytes
    ensures Block(disk, offset, bytes)[i] == disk(offset + i)
  {
  }

  /** A padded write changes exactly the caller's bytes, provided the padding is still what is on the disk. */
  lemma PaddedWriteExact(j: Job, align: nat, disk: Disk, a: nat)
    requires align > 0 && j.kind.Write? && |j.kind.data| == j.bytes
    requires (HeadPadded(j, align) ==> j.head.Some?) && HeadCurrent(j, align, disk)
    requires (TailPadded(j, align) ==> j.tail.Some?) && TailCurrent(j, align, disk)
    ensures AlignDown(j.offset, align) + |PaddedData(j, align)| == AlignUp(j.offset + j.bytes, align)
    ensures Overlay(disk, AlignDown(j.offset, align), PaddedData(j, align))(a)
         == Overlay(disk, j.offset, j.kind.data)(a)
  {
    Aligned(j.offset, align);
    Aligned(j.offset + j.bytes, align);
    var lo, skip, rest := AlignDown(j.offset, align), j.offset % align, (j.offset + j.bytes) % align;
    var buf := PaddedData(j, align);
    if lo <= a < lo + |buf| {
      if a < j.offset {
        BlockAt(disk, lo, align, a - lo);
      } else if a >= j.offset + j.bytes {
        BlockAt(disk, AlignDown(j.offset + j.bytes, align), align, a - AlignDown(j.offset + j.bytes, align));
      }
    }
  }

  // ---- The steps of the device ----

  /** What a request does on the driver once it has passed its wait. */
  datatype Action = FetchHead | FetchTail | StorePadded | Deliver | FetchCluster | StoreCluster

  datatype Step =
    | Submit(kind: Kind, offset: nat, bytes: nat)
    | Resume(id: nat)
    | Work(id: nat, action: Action)
    | Finish(id: nat)

  ghost predicate DeviceOk(d: Device) {
    d.align > 0 && d.cluster > 0
  }

  function NewJob(kind: Kind, offset: nat, bytes: nat): Job {
    Job(kind, offset, bytes, None, None, None)
  }

  /** Writes track the caller's range, reads the padded one. */
  function TrackedRange(d: Device, j: Job): (nat, nat)
    requires d.align > 0
  {
    if j.kind.Write? then (j.offset, j.bytes)
    else
      var lo := AlignDown(j.offset, d.align);
      (lo, AlignUp(j.offset + j.bytes, d.align) - lo)
  }

  function MarkAlign(d: Device, j: Job): (a: Option<nat>)
    requires d.align > 0 && d.cluster > 0
    ensures a.Some? ==> a.value > 0
  {
    match j.kind
    case Read => None
    case Write(_) => if HeadPadded(j, d.align) || TailPadded(j, d.align) then Some(d.align) else None
    case CopyOnRead => Some(d.cluster)
  }

  /** The request as it stands once begun and, if need be, marked. */
  function RequestOf(d: Device, j: Job): Request
    requires d.align > 0 && d.cluster > 0
  {
    var (offset, bytes) := TrackedRange(d, j);
    var r := Begun(offset, bytes);
    if MarkAlign(d, j).Some? then Marked(r, MarkAlign(d, j).value) else r
  }

  /** The range a job reads or writes on the driver. */
  function DriverRange(d: Device, j: Job): (r: (nat, nat))
    requires d.align > 0 && d.cluster > 0
    ensures r.0 <= r.1
  {
    var lo, hi := AlignDown(j.offset, d.align), AlignUp(j.offset + j.bytes, d.align);
    if j.kind.CopyOnRead? then (AlignDown(lo, d.cluster), AlignUp(hi, d.cluster)) else (lo, hi)
  }

  /** A copy-on-read copies its clusters, unless all it asks for is already allocated: then it is a plain read. Which
      of the two is up to the image. */
  ghost predicate CanWork(j: Job, align: nat, action: Action)
    requires align > 0
  {
    j.result.None? &&
    match action
    case FetchHead => j.kind.Write? && HeadPadded(j, align) && j.head.None?
    case FetchTail => j.kind.Write? && TailPadded(j, align) && j.tail.None? && (HeadPadded(j, align) ==> j.head.Some?)
    case StorePadded =>
      j.kind.Write? && (HeadPadded(j, align) ==> j.head.Some?) && (TailPadded(j, align) ==> j.tail.Some?)
    case Deliver => j.kind.Read? || (j.kind.CopyOnRead? && j.head.None?)
    case FetchCluster => j.kind.CopyOnRead? && j.head.None?
    case StoreCluster => j.kind.CopyOnRead? && j.head.Some?
  }

  /** A request that has passed may also finish early, when the driver reports an error. */
  ghost predicate Enabled(d: Device, step: Step)
    requires DeviceOk(d)
  {
    match step
    case Submit(kind, _, bytes) => kind.Write? ==> |kind.data| == bytes
    case Resume(id) => Woken(d.queue, id)
    case Work(id, action) => id in d.jobs && Passed(d.queue, id) && CanWork(d.jobs[id], d.align, action)
    case Finish(id) => id in d.jobs && Passed(d.queue, id)
  }

  ghost predicate Inv(d: Device) {
    && DeviceOk(d)
    && TrackedRequests.Inv(d.queue)
    && d.jobs.Keys == d.queue.reqs.Keys
    && forall id :: id in d.jobs ==> JobOk(d, id)
  }

  ghost predicate JobOk(d: Device, id: nat)
    requires DeviceOk(d) && id in d.jobs && id in d.queue.reqs
  {
    var j := d.jobs[id];
    && d.queue.reqs[id].(waitingFor := None) == RequestOf(d, j)
    && (j.kind.Write? ==> |j.kind.data| == j.bytes)
    && (j.head.Some? || j.tail.Some? ==> Passed(d.queue, id))
    && BuffersCurrent(d, j, d.disk)
  }

  /** What a job has read for padding is still what is on the disk. */
  ghost predicate BuffersCurrent(d: Device, j: Job, disk: Disk)
    requires DeviceOk(d)
  {
    match j.kind
    case Read => j.head.None? && j.tail.None?
    case Write(_) =>
      && (j.head.Some? ==> HeadPadded(j, d.align)) && (j.tail.Some? ==> TailPadded(j, d.align))
      && HeadCurrent(j, d.align, disk) && TailCurrent(j, d.align, disk)
    case CopyOnRead =>
      var (lo, hi) := DriverRange(d, j);
      j.tail.None? && (j.head.Some? ==> j.head.value == Block(disk, lo, hi - lo))
  }

  /** The queue after the waits, and the second marking, that precede an action. */
  ghost function Rewaited(d: Device, id: nat, action: Action): Queue
    requires Inv(d) && id in d.jobs
  {
    match action
    case FetchTail => Waited(if HeadPadded(d.jobs[id], d.align) then Mark(d.queue, id, d.align) else d.queue, id)
    case StoreCluster => d.queue
    case _ => Waited(d.queue, id)
  }

  ghost function Worked(d: Device, id: nat, action: Action): Device
    requires Inv(d) && id in d.jobs && Passed(d.queue, id) && CanWork(d.jobs[id], d.align, action)
  {
    var j := d.jobs[id];
    var (lo, hi) := DriverRange(d, j);
    assert JobOk(d, id);
    RangeContains(d, j);
    match action
    case FetchHead =>
      d.(jobs := d.jobs[id := j.(head := Some(Block(d.disk, AlignDown(j.offset, d.align), d.align)))])
    case FetchTail =>
      d.(jobs := d.jobs[id := j.(tail := Some(Block(d.disk, AlignDown(j.offset + j.bytes, d.align), d.align)))])
    case StorePadded =>
      d.(jobs := d.jobs[id := j.(head := None, tail := None, result := Some([]))],
         disk := Overlay(d.disk, AlignDown(j.offset, d.align), PaddedData(j, d.align)),
         log := d.log + [Written(j.offset, j.kind.data)])
    case Deliver =>
      var from, to := AlignDown(j.offset, d.align), AlignUp(j.offset + j.bytes, d.align);
      var read := Block(d.disk, from, to - from);
      d.(jobs := d.jobs[id := j.(result := Some(read[j.offset - from..j.offset - from + j.bytes]))])
    case FetchCluster =>
      d.(jobs := d.jobs[id := j.(head := Some(Block(d.disk, lo, hi - lo)))])
    case StoreCluster =>
      d.(jobs := d.jobs[id := j.(head := None, result := Some(j.head.value[j.offset - lo..j.offset - lo + j.bytes]))],
         disk := Overlay(d.disk, lo, j.head.value))
  }

  ghost function Next(d: Device, step: Step): Device
    requires Inv(d) && Enabled(d, step)
  {
    match step
    case Submit(kind, offset, bytes) =>
      var j := NewJob(kind, offset, bytes);
      var (o, b) := TrackedRange(d, j);
      StartedOk(d.queue, o, b, MarkAlign(d, j));
      d.(queue := Waited(Started(d.queue, o, b, MarkAlign(d, j)), d.queue.unused), jobs := d.jobs[d.queue.unused := j])
    case Resume(id) => d.(queue := Waited(d.queue, id))
    case Work(id, action) => Worked(d, id, action).(queue := Rewaited(d, id, action))
    case Finish(id) => d.(queue := End(d.queue, id), jobs := d.jobs - {id})
  }

  lemma RangeContains(d: Device, j: Job)
    requires DeviceOk(d)
    ensures DriverRange(d, j).0 <= j.offset && j.offset + j.bytes <= DriverRange(d, j).1
  {
  }

  // ---- Windows keep padding stable ----

  /** What a job reads or writes on the driver lies in its request's window. */
  lemma RangeInWindow(d: Device, j: Job)
    requires DeviceOk(d)
    ensures InWindow(RequestOf(d, j), DriverRange(d, j).0, DriverRange(d, j).1)
  {
    if j.kind.Write? && MarkAlign(d, j).None? {
      Aligned(j.offset, d.align);
      Aligned(j.offset + j.bytes, d.align);
    }
  }

  lemma AlignMonotone(x: nat, y: nat, align: nat)
    requires align > 0 && x <= y
    ensures AlignDown(x, align) <= AlignDown(y, align) && AlignUp(x, align) <= AlignUp(y, align)
  {
    if AlignDown(y, align) < AlignDown(x, align) {
      MultiplesApart(AlignDown(y, align), AlignDown(x, align), align);
    }
    if AlignUp(y, align) < AlignUp(x, align) {
      MultiplesApart(AlignUp(y, align), AlignUp(x, align), align);
    }
  }

  /** The blocks read for padding lie in the padded range. */
  lemma PaddingInRange(j: Job, align: nat)
    requires align > 0
    ensures HeadPadded(j, align) ==> AlignDown(j.offset, align) + align <= AlignUp(j.offset + j.bytes, align)
    ensures AlignDown(j.offset, align) <= AlignDown(j.offset + j.bytes, align)
    ensures TailPadded(j, align) ==> AlignDown(j.offset + j.bytes, align) + align == AlignUp(j.offset + j.bytes, align)
  {
    Aligned(j.offset, align);
    Aligned(j.offset + j.bytes, align);
    AlignMonotone(j.offset, j.offset + j.bytes, align);
  }

  /** Writing outside a job's range leaves its buffers current. */
  lemma BuffersStay(d: Device, j: Job, lo: nat, data: seq<Byte>)
    requires DeviceOk(d) && BuffersCurrent(d, j, d.disk)
    requires lo + |data| <= DriverRange(d, j).0 || DriverRange(d, j).1 <= lo
    ensures BuffersCurrent(d, j, Overlay(d.disk, lo, data))
  {
    hide AlignDown, AlignUp, Block;
    var disk' := Overlay(d.disk, lo, data);
    var (rlo, rhi) := DriverRange(d, j);
    PaddingInRange(j, d.align);
    match j.kind
    case Read =>
    case Write(_) =>
      if j.head.Some? {
        BlockSame(d.disk, disk', AlignDown(j.offset, d.align), d.align);
      }
      if j.tail.Some? {
        BlockSame(d.disk, disk', AlignDown(j.offset + j.bytes, d.align), d.align);
      }
    case CopyOnRead =>
      BlockSame(d.disk, disk', rlo, rhi - rlo);
  }

  lemma BlockSame(a: Disk, b: Disk, offset: nat, bytes: nat)
    requires forall i :: offset <= i < offset + bytes ==> a(i) == b(i)
    ensures Block(a, offset, bytes) == Block(b, offset, bytes)
  {
    forall i | 0 <= i < bytes
      ensures Block(a, offset, bytes)[i] == Block(b, offset, bytes)[i]
    {
      BlockAt(a, offset, bytes, i);
      BlockAt(b, offset, bytes, i);
    }
  }

  // ---- Every step keeps the invariant ----

  lemma QueueStays(d: Device, id: nat, action: Action)
    requires Inv(d) && id in d.jobs && Passed(d.queue, id)
    requires action == FetchTail ==> d.jobs[id].kind.Write?
    ensures Rewaited(d, id, action) == d.queue
  {
    hide Conflict, FirstBlocker;
    NeverWaitsAgain(d.queue, id);
    if action == FetchTail && HeadPadded(d.jobs[id], d.align) {
      var j := d.jobs[id];
      assert JobOk(d, id);
      RemarkedSame(j.offset, j.bytes, d.align);
      assert Marked(d.queue.reqs[id], d.align) == d.queue.reqs[id];
      assert d.queue.reqs[id := d.queue.reqs[id]] == d.queue.reqs;
    }
  }

  /** Two requests past their wait, one of them serialising, work on disjoint ranges. */
  lemma RangesApart(d: Device, a: nat, b: nat)
    requires Inv(d) && a in d.jobs && b in d.jobs && a != b
    requires Passed(d.queue, a) && Passed(d.queue, b)
    requires d.queue.reqs[a].serialising || d.queue.reqs[b].serialising
    requires DriverRange(d, d.jobs[a]).0 < DriverRange(d, d.jobs[a]).1
    ensures var (alo, ahi) := DriverRange(d, d.jobs[a]);
            var (blo, bhi) := DriverRange(d, d.jobs[b]);
            ahi <= blo || bhi <= alo
  {
    hide DriverRange, RequestOf;
    assert JobOk(d, a) && JobOk(d, b);
    RangeInWindow(d, d.jobs[a]);
    RangeInWindow(d, d.jobs[b]);
    assert !Conflict(d.queue.reqs[a], d.queue.reqs[b]);
  }

  /** The records of all requests but `self` are the same in `q` and `q'`, and so is who has passed. */
  ghost predicate OthersSame(q: Queue, q': Queue, self: nat) {
    forall id: nat :: id != self ==> (id in q.reqs <==> id in q'.reqs) && (id in q.reqs ==> q'.reqs[id] == q.reqs[id])
  }

  lemma WaitedRecord(q: Queue, self: nat)
    requires InvBut(q, self)
    ensures TrackedRequests.Inv(Waited(q, self))
    ensures OthersSame(q, Waited(q, self), self) && Waited(q, self).reqs.Keys == q.reqs.Keys
    ensures Waited(q, self).reqs[self].(waitingFor := None) == q.reqs[self].(waitingFor := None)
  {
    hide TrackedRequests.Inv, FirstBlocker;
    WaitedOk(q, self);
  }

  lemma UnusedId(q: Queue)
    requires TrackedRequests.Inv(q)
    ensures q.unused !in q.reqs
  {
  }

  lemma StartedRecord(q: Queue, offset: nat, bytes: nat, align: Option<nat>)
    requires TrackedRequests.Inv(q) && (align.Some? ==> align.value > 0)
    ensures var q', r := Started(q, offset, bytes, align), Begun(offset, bytes);
            && InvBut(q', q.unused)
            && q.unused !in q.reqs
            && OthersSame(q, q', q.unused) && q'.reqs.Keys == q.reqs.Keys + {q.unused}
            && q'.reqs[q.unused] == (if align.Some? then Marked(r, align.value) else r)
            && q'.reqs[q.unused].waitingFor == None
  {
    hide TrackedRequests.Inv, InvBut, AlignUp, AlignDown;
    StartedOk(q, offset, bytes, align);
    UnusedId(q);
  }

  lemma SameDevice(d: Device, d': Device, j: Job, disk: Disk)
    requires DeviceOk(d) && d'.align == d.align && d'.cluster == d.cluster
    ensures RequestOf(d', j) == RequestOf(d, j)
    ensures BuffersCurrent(d', j, disk) == BuffersCurrent(d, j, disk)
  {
  }

  lemma OtherJobs(d: Device, d': Device, self: nat)
    requires Inv(d) && d'.align == d.align && d'.cluster == d.cluster && d'.disk == d.disk
    requires OthersSame(d.queue, d'.queue, self)
    requires forall id :: id in d'.jobs && id != self ==> id in d.jobs && d'.jobs[id] == d.jobs[id]
    ensures forall id :: id in d'.jobs && id != self ==> id in d'.queue.reqs && JobOk(d', id)
  {
    hide TrackedRequests.Inv, RequestOf, BuffersCurrent;
    forall id | id in d'.jobs && id != self
      ensures id in d'.queue.reqs && JobOk(d', id)
    {
      assert JobOk(d, id) && id in d.queue.reqs;
      SameDevice(d, d', d.jobs[id], d.disk);
    }
  }

  lemma SubmitOk(d: Device, kind: Kind, offset: nat, bytes: nat)
    requires Inv(d) && Enabled(d, Submit(kind, offset, bytes))
    ensures Inv(Next(d, Submit(kind, offset, bytes)))
  {
    hide Waited, Started, TrackedRequests.Inv, InvBut, Marked, AlignUp, AlignDown, JobOk;
    var j, id := NewJob(kind, offset, bytes), d.queue.unused;
    var (o, b) := TrackedRange(d, j);
    StartedRecord(d.queue, o, b, MarkAlign(d, j));
    WaitedRecord(Started(d.queue, o, b, MarkAlign(d, j)), id);
    var d' := Next(d, Submit(kind, offset, bytes));
    OtherJobs(d, d', id);
    SameDevice(d, d', j, d.disk);
    SubmittedJob(d', id, j);
  }

  lemma SubmittedJob(d: Device, id: nat, j: Job)
    requires DeviceOk(d) && id in d.jobs && id in d.queue.reqs && d.jobs[id] == j
    requires j.head.None? && j.tail.None? && (j.kind.Write? ==> |j.kind.data| == j.bytes)
    requires d.queue.reqs[id].(waitingFor := None) == RequestOf(d, j)
    ensures JobOk(d, id)
  {
  }

  lemma ResumeOk(d: Device, id: nat)
    requires Inv(d) && Enabled(d, Resume(id))
    ensures Inv(Next(d, Resume(id)))
  {
    WokenOk(d.queue, id);
    WaitedRecord(d.queue, id);
    assert JobOk(d, id);
    hide Waited, TrackedRequests.Inv, InvBut, RequestOf, BuffersCurrent;
    var d' := Next(d, Resume(id));
    OtherJobs(d, d', id);
    SameDevice(d, d', d.jobs[id], d.disk);
    assert JobOk(d', id);
  }

  lemma EndedRecord(q: Queue, id: nat)
    requires TrackedRequests.Inv(q) && Passed(q, id)
    ensures TrackedRequests.Inv(End(q, id))
    ensures OthersSame(q, End(q, id), id) && End(q, id).reqs.Keys == q.reqs.Keys - {id}
  {
    hide TrackedRequests.Inv, Without;
    EndedOk(q, id);
  }

  lemma FinishOk(d: Device, id: nat)
    requires Inv(d) && Enabled(d, Finish(id))
    ensures Inv(Next(d, Finish(id)))
  {
    hide TrackedRequests.Inv, JobOk, End;
    EndedRecord(d.queue, id);
    OtherJobs(d, Next(d, Finish(id)), id);
  }

  /** Reading for padding, or to deliver, keeps the job in order. */
  lemma FetchedJob(d: Device, id: nat, action: Action)
    requires Inv(d) && Enabled(d, Work(id, action)) && !action.StorePadded? && !action.StoreCluster?
    ensures JobOk(Worked(d, id, action), id)
  {
    hide TrackedRequests.Inv, Block, AlignDown, AlignUp, RequestOf;
    assert JobOk(d, id);
    SameDevice(d, Worked(d, id, action), Worked(d, id, action).jobs[id], Worked(d, id, action).disk);
    RequestSame(d, Worked(d, id, action).jobs[id], d.jobs[id]);
  }

  /** The request does not depend on what has been read. */
  lemma RequestSame(d: Device, j: Job, j': Job)
    requires DeviceOk(d) && j.kind == j'.kind && j.offset == j'.offset && j.bytes == j'.bytes
    ensures RequestOf(d, j) == RequestOf(d, j') && DriverRange(d, j) == DriverRange(d, j')
  {
  }

  lemma FetchOk(d: Device, id: nat, action: Action)
    requires Inv(d) && Enabled(d, Work(id, action)) && !action.StorePadded? && !action.StoreCluster?
    ensures Inv(Next(d, Work(id, action)))
  {
    hide TrackedRequests.Inv, JobOk, Rewaited, Block;
    QueueStays(d, id, action);
    FetchedJob(d, id, action);
    OtherJobs(d, Worked(d, id, action), id);
  }

  /** A store by one request leaves the buffers of every other request current. */
  lemma StoreLeavesOthers(d: Device, id: nat, other: nat, lo: nat, data: seq<Byte>)
    requires Inv(d) && id in d.jobs && other in d.jobs && id != other && Passed(d.queue, id)
    requires DriverRange(d, d.jobs[id]) == (lo, lo + |data|)
    ensures BuffersCurrent(d, d.jobs[other], Overlay(d.disk, lo, data))
  {
    hide TrackedRequests.Inv, DriverRange, Block, AlignUp, AlignDown;
    var j := d.jobs[other];
    assert JobOk(d, other);
    if data == [] {
      BuffersSameDisk(d, j, Overlay(d.disk, lo, data));
    } else if j.head.Some? || j.tail.Some? {
      PaddingIsSerialising(d, other);
      RangesApart(d, id, other);
      BuffersStay(d, j, lo, data);
    }
  }

  lemma BuffersSameDisk(d: Device, j: Job, disk': Disk)
    requires DeviceOk(d) && BuffersCurrent(d, j, d.disk) && forall a: nat :: disk'(a) == d.disk(a)
    ensures BuffersCurrent(d, j, disk')
  {
    hide AlignUp, AlignDown, Block;
    BlockSame(d.disk, disk', AlignDown(j.offset, d.align), d.align);
    BlockSame(d.disk, disk', AlignDown(j.offset + j.bytes, d.align), d.align);
    BlockSame(d.disk, disk', DriverRange(d, j).0, DriverRange(d, j).1 - DriverRange(d, j).0);
  }

  lemma PaddingIsSerialising(d: Device, id: nat)
    requires Inv(d) && id in d.jobs && (d.jobs[id].head.Some? || d.jobs[id].tail.Some?)
    ensures d.queue.reqs[id].serialising
  {
    hide TrackedRequests.Inv;
    assert JobOk(d, id);
  }

  /** Storing padded data changes the disk as the plain write of the caller's bytes would. */
  lemma PaddedStored(d: Device, id: nat)
    requires Inv(d) && Enabled(d, Work(id, StorePadded))
    ensures var j, d' := d.jobs[id], Worked(d, id, StorePadded);
            && DriverRange(d, j).0 == AlignDown(j.offset, d.align)
            && JobOk(d, id)
            && DriverRange(d, j).1 == AlignDown(j.offset, d.align) + |PaddedData(j, d.align)|
            && d'.disk == Overlay(d.disk, DriverRange(d, j).0, PaddedData(j, d.align))
    ensures SameBytes(Worked(d, id, StorePadded).disk, Overlay(d.disk, d.jobs[id].offset, d.jobs[id].kind.data))
  {
    hide TrackedRequests.Inv, RequestOf, Overlay, AlignUp, AlignDown, Block, PaddedData;
    var j := d.jobs[id];
    assert JobOk(d, id);
    forall a: nat
      ensures Overlay(d.disk, AlignDown(j.offset, d.align), PaddedData(j, d.align))(a)
           == Overlay(d.disk, j.offset, j.kind.data)(a)
    {
      PaddedWriteExact(j, d.align, d.disk, a);
    }
    PaddedWriteExact(j, d.align, d.disk, 0);
  }

  /** A copy-on-read stores what is already there. */
  lemma ClusterStored(d: Device, id: nat)
    requires Inv(d) && Enabled(d, Work(id, StoreCluster))
    ensures var j, d' := d.jobs[id], Worked(d, id, StoreCluster);
            && DriverRange(d, j).1 == DriverRange(d, j).0 + |j.head.value|
            && d'.disk == Overlay(d.disk, DriverRange(d, j).0, j.head.value)
            && SameBytes(d'.disk, d.disk)
  {
    hide TrackedRequests.Inv, RequestOf, AlignUp, AlignDown, Block;
    var j := d.jobs[id];
    assert JobOk(d, id);
    var (lo, hi) := DriverRange(d, j);
    forall a: nat
      ensures Overlay(d.disk, lo, j.head.value)(a) == d.disk(a)
    {
      if lo <= a < hi {
        BlockAt(d.disk, lo, hi - lo, a - lo);
      }
    }
  }

  lemma StoredJob(d: Device, id: nat, action: Action)
    requires Inv(d) && Enabled(d, Work(id, action)) && (action.StorePadded? || action.StoreCluster?)
    ensures JobOk(Worked(d, id, action), id)
  {
    hide TrackedRequests.Inv, Block, AlignDown, AlignUp, RequestOf, Overlay, PaddedData;
    assert JobOk(d, id);
    SameDevice(d, Worked(d, id, action), Worked(d, id, action).jobs[id], Worked(d, id, action).disk);
    RequestSame(d, Worked(d, id, action).jobs[id], d.jobs[id]);
  }

  lemma BufferLengths(d: Device, id: nat)
    requires Inv(d) && id in d.jobs && d.jobs[id].kind.Write?
    ensures d.jobs[id].head.Some? ==> |d.jobs[id].head.value| == d.align
    ensures d.jobs[id].tail.Some? ==> |d.jobs[id].tail.value| == d.align
  {
    hide TrackedRequests.Inv, RequestOf;
    assert JobOk(d, id);
  }

  lemma StoreOk(d: Device, id: nat, action: Action)
    requires Inv(d) && Enabled(d, Work(id, action)) && (action.StorePadded? || action.StoreCluster?)
    ensures Inv(Next(d, Work(id, action)))
  {
    hide TrackedRequests.Inv, Rewaited, Block, BuffersCurrent, DriverRange, Overlay, AlignDown, PaddedData, RequestOf;
    QueueStays(d, id, action);
    StoredJob(d, id, action);
    var d', j := Worked(d, id, action), d.jobs[id];
    if action.StorePadded? {
      PaddedStored(d, id);
      BufferLengths(d, id);
    } else {
      ClusterStored(d, id);
    }
    var lo, data := DriverRange(d, j).0, if action.StorePadded? then PaddedData(j, d.align) else j.head.value;
    assert d'.queue == d.queue;
    forall x | x in d.jobs && x != id
      ensures JobOk(d', x)
    {
      assert JobOk(d, x);
      StoreLeavesOthers(d, id, x, lo, data);
      SameDevice(d, d', d.jobs[x], d'.disk);
    }
  }

  lemma StepOk(d: Device, step: Step)
    requires Inv(d) && Enabled(d, step)
    ensures Inv(Next(d, step))
  {
    hide Inv, Next, Enabled;
    match step
    case Submit(kind, offset, bytes) => SubmitOk(d, kind, offset, bytes);
    case Resume(id) => ResumeOk(d, id);
    case Work(id, action) =>
      if action.StorePadded? || action.StoreCluster? {
        StoreOk(d, id, action);
      } else {
        FetchOk(d, id, action);
      }
    case Finish(id) => FinishOk(d, id);
  }

  // ---- Whole runs ----

  function Idle(disk: Disk, align: nat, cluster: nat): Device {
    Device(Queue([], map[], 0, 0), map[], disk, [], align, cluster)
  }

  lemma IdleOk(disk: Disk, align: nat, cluster: nat)
    requires align > 0 && cluster > 0
    ensures Inv(Idle(disk, align, cluster))
  {
  }

  /** The device after the given steps, if each of them is possible when its turn comes. */
  ghost function Run(disk: Disk, align: nat, cluster: nat, steps: seq<Step>): (r: Option<Device>)
    requires align > 0 && cluster > 0
    ensures r.Some? ==> Inv(r.value)
  {
    if steps == [] then
      IdleOk(disk, align, cluster);
      Some(Idle(disk, align, cluster))
    else
      var r, step := Run(disk, align, cluster, steps[..|steps| - 1]), steps[|steps| - 1];
      if r.None? || !Enabled(r.value, step) then None
      else
        StepOk(r.value, step);
        Some(Next(r.value, step))
  }

  lemma AppliedOne(disk: Disk, log: seq<Written>, w: Written)
    ensures Applied(disk, log + [w]) == Overlay(Applied(disk, log), w.offset, w.data)
  {
    assert (log + [w])[..|log|] == log;
  }

  lemma OverlaySame(a: Disk, b: Disk, offset: nat, data: seq<Byte>)
    requires SameBytes(a, b)
    ensures SameBytes(Overlay(a, offset, data), Overlay(b, offset, data))
  {
  }

  lemma LoggedStep(d: Device, step: Step, disk: Disk)
    requires Inv(d) && Enabled(d, step) && SameBytes(d.disk, Applied(disk, d.log))
    ensures SameBytes(Next(d, step).disk, Applied(disk, Next(d, step).log))
  {
    hide Inv, Applied, Overlay, PaddedData, Block, AlignDown, AlignUp, Waited, Started, Rewaited;
    if step.Work? {
      var j := d.jobs[step.id];
      if step.action.StorePadded? {
        PaddedStored(d, step.id);
        OverlaySame(d.disk, Applied(disk, d.log), j.offset, j.kind.data);
        AppliedOne(disk, d.log, Written(j.offset, j.kind.data));
      } else if step.action.StoreCluster? {
        ClusterStored(d, step.id);
      }
    }
  }

  // ---- What the steps say ----

  /** The submissions among the steps; the n-th of them is request n. */
  ghost function Submitted(steps: seq<Step>): seq<Step> {
    if steps == [] then []
    else
      var before, step := Submitted(steps[..|steps| - 1]), steps[|steps| - 1];
      if step.Submit? then before + [step] else before
  }

  /** The callers' writes in the order in which they are stored. */
  ghost function Stored(steps: seq<Step>): seq<Written> {
    if steps == [] then []
    else
      var init, step := steps[..|steps| - 1], steps[|steps| - 1];
      if step.Work? && step.action.StorePadded? && step.id < |Submitted(init)| && Submitted(init)[step.id].Submit? &&
         Submitted(init)[step.id].kind.Write? then
        Stored(init) + [Written(Submitted(init)[step.id].offset, Submitted(init)[step.id].kind.data)]
      else Stored(init)
  }

  /** The device knows what was submitted, and has logged what was stored. */
  ghost predicate Recorded(d: Device, steps: seq<Step>) {
    && d.queue.unused == |Submitted(steps)| && d.log == Stored(steps)
    && forall id :: id in d.jobs ==>
         id < |Submitted(steps)| && Submitted(steps)[id] == Submit(d.jobs[id].kind, d.jobs[id].offset, d.jobs[id].bytes)
  }

  lemma {:induction false} RunRecords(disk: Disk, align: nat, cluster: nat, steps: seq<Step>)
    requires align > 0 && cluster > 0
    ensures var r := Run(disk, align, cluster, steps); r.Some? ==> Recorded(r.value, steps)
  {
    hide TrackedRequests.Inv, JobOk, Next, Enabled, Recorded, Submitted, Stored;
    if steps == [] {
      IdleRecords(disk, align, cluster);
    } else {
      var init, step := steps[..|steps| - 1], steps[|steps| - 1];
      var r := Run(disk, align, cluster, init);
      RunRecords(disk, align, cluster, init);
      if r.Some? && Enabled(r.value, step) {
        StepRecords(r.value, init, step);
        assert steps == init + [step];
      }
    }
  }

  lemma IdleRecords(disk: Disk, align: nat, cluster: nat)
    ensures Recorded(Idle(disk, align, cluster), [])
  {
  }

  lemma StepRecords(d: Device, init: seq<Step>, step: Step)
    requires Inv(d) && Enabled(d, step) && Recorded(d, init)
    ensures Recorded(Next(d, step), init + [step])
  {
    hide TrackedRequests.Inv, FirstBlocker, Block, AlignUp, AlignDown, PaddedData, Marked, Overlay, RequestOf,
         Submitted, Stored, JobOk, Rewaited;
    SubmittedNext(init, step);
    StoredNext(init, step);
    if step.Work? {
      QueueStays(d, step.id, step.action);
    }
  }

  lemma SubmittedNext(init: seq<Step>, step: Step)
    ensures Submitted(init + [step]) == if step.Submit? then Submitted(init) + [step] else Submitted(init)
  {
    assert (init + [step])[..|init|] == init;
  }

  lemma StoredNext(init: seq<Step>, step: Step)
    requires step.Work? && step.action.StorePadded? ==>
               step.id < |Submitted(init)| && Submitted(init)[step.id].Submit? && Submitted(init)[step.id].kind.Write?
    ensures Stored(init + [step]) ==
            if step.Work? && step.action.StorePadded? then
              Stored(init) + [Written(Submitted(init)[step.id].offset, Submitted(init)[step.id].kind.data)]
            else Stored(init)
  {
    assert (init + [step])[..|init|] == init;
  }

  /** No update is ever lost: in every interleaving of reads, padded writes and copies-on-read, the disk holds
      what the plain writes would leave, carried out one after the other in the order they were stored. */
  lemma {:induction false} NoLostUpdate(disk: Disk, align: nat, cluster: nat, steps: seq<Step>)
    requires align > 0 && cluster > 0
    ensures var r := Run(disk, align, cluster, steps);
            r.Some? ==> r.value.log == Stored(steps) && SameBytes(r.value.disk, Applied(disk, Stored(steps)))
  {
    RunRecords(disk, align, cluster, steps);
    if steps != [] {
      RunRecords(disk, align, cluster, steps[..|steps| - 1]);
      var r, step := Run(disk, align, cluster, steps[..|steps| - 1]), steps[|steps| - 1];
      NoLostUpdate(disk, align, cluster, steps[..|steps| - 1]);
      if r.Some? && Enabled(r.value, step) {
        LoggedStep(r.value, step, disk);
      }
    }
  }

  /** What a read hands to its caller, copied or not, is what the disk holds at those bytes. */
  lemma DeliveredExact(d: Device, id: nat, action: Action)
    requires Inv(d) && Enabled(d, Work(id, action)) && (action.Deliver? || action.StoreCluster?)
    ensures Worked(d, id, action).jobs[id].result == Some(Block(d.disk, d.jobs[id].offset, d.jobs[id].bytes))
  {
    hide TrackedRequests.Inv, RequestOf, Block, AlignUp, AlignDown, Overlay;
    var j := d.jobs[id];
    assert JobOk(d, id);
    RangeContains(d, j);
    var (lo, hi) := DriverRange(d, j);
    SliceOfBlock(d.disk, lo, hi - lo, j.offset - lo, j.bytes);
    var from, to := AlignDown(j.offset, d.align), AlignUp(j.offset + j.bytes, d.align);
    SliceOfBlock(d.disk, from, to - from, j.offset - from, j.bytes);
  }

  lemma SliceOfBlock(disk: Disk, lo: nat, length: nat, skip: nat, bytes: nat)
    requires skip + bytes <= length
    ensures Block(disk, lo, length)[skip..skip + bytes] == Block(disk, lo + skip, bytes)
  {
    var whole, part := Block(disk, lo, length), Block(disk, lo + skip, bytes);
    forall i | 0 <= i < bytes
      ensures whole[skip + i] == part[i]
    {
      BlockAt(disk, lo, length, skip + i);
      BlockAt(disk, lo + skip, bytes, i);
    }
  }

  /** Which requests are serialising, and for which bytes a request holds off others: exactly those that it reads or
      writes on the driver. */
  lemma WindowIs(d: Device, id: nat)
    requires Inv(d) && id in d.jobs
    ensures var j, r := d.jobs[id], d.queue.reqs[id];
            var lo, hi := AlignDown(j.offset, d.align), AlignUp(j.offset + j.bytes, d.align);
            && (r.serialising <==>
                j.kind.CopyOnRead? ||
                (j.kind.Write? && (j.offset % d.align != 0 || (j.offset + j.bytes) % d.align != 0)))
            && (if j.kind.CopyOnRead? then
                  && r.overlapOffset == AlignDown(lo, d.cluster)
                  && r.overlapOffset + r.overlapBytes == AlignUp(hi, d.cluster)
                else r.overlapOffset == lo && r.overlapOffset + r.overlapBytes == hi)
  {
    hide AlignDown, AlignUp, TrackedRequests.Inv, BuffersCurrent, RequestOf;
    assert JobOk(d, id);
    RequestIs(d, d.jobs[id]);
  }

  lemma RequestIs(d: Device, j: Job)
    requires DeviceOk(d)
    ensures var r, lo, hi := RequestOf(d, j), AlignDown(j.offset, d.align), AlignUp(j.offset + j.bytes, d.align);
            && (r.serialising <==>
                j.kind.CopyOnRead? || (j.kind.Write? && (HeadPadded(j, d.align) || TailPadded(j, d.align))))
            && (if j.kind.CopyOnRead? then
                  && r.overlapOffset == AlignDown(lo, d.cluster)
                  && r.overlapOffset + r.overlapBytes == AlignUp(hi, d.cluster)
                else r.overlapOffset == lo && r.overlapOffset + r.overlapBytes == hi)
  {
    hide AlignDown, AlignUp;
    if j.kind.Write? {
      Aligned(j.offset, d.align);
      Aligned(j.offset + j.bytes, d.align);
    }
  }

  /** What holds at every point of every run: the count is right, no two requests that conflict are both past
      their wait, a request past its wait never waits again, as long as there is a request one can run, and waiting
      never forms a cycle or a chain. */
  lemma RunsAreSafe(disk: Disk, align: nat, cluster: nat, steps: seq<Step>, a: nat, b: nat)
    requires align > 0 && cluster > 0 && Run(disk, align, cluster, steps).Some?
    ensures var q := Run(disk, align, cluster, steps).value.queue;
            && ListOk(q) && q.serialisingInFlight == Serialising(q.tracked, q.reqs)
            && (Passed(q, a) && Passed(q, b) && a != b ==> !Conflict(q.reqs[a], q.reqs[b]))
            && (Passed(q, a) && Passed(q, b) && a != b && q.reqs[a].serialising ==>
                  forall x: nat :: !Shared(q.reqs[a], q.reqs[b], x))
            && (Passed(q, a) ==> FirstBlocker(q.tracked, q.reqs, a) == None)
            && (q.reqs != map[] ==> exists id :: Passed(q, id) || Woken(q, id))
            && forall path :: WaitPath(q, path) ==>
                 |path| <= 2 && (|path| == 2 ==> path[0] != path[1] && Passed(q, path[1]))
  {
    hide Conflict, FirstBlocker, Run, JobOk;
    var q := Run(disk, align, cluster, steps).value.queue;
    if Passed(q, a) {
      NeverWaitsAgain(q, a);
      if Passed(q, b) {
        ConflictIs(q.reqs[a], q.reqs[b]);
      }
    }
    if q.reqs != map[] {
      SomeRequestCanRun(q);
    }
    forall path | WaitPath(q, path)
      ensures |path| <= 2 && (|path| == 2 ==> path[0] != path[1] && Passed(q, path[1]))
    {
      WaitPathShort(q, path);
    }
  }
}
