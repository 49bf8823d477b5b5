/** Tracked requests of a block device (block.c): which requests are in flight, which of
    them are serialising, and whom each one waits for.

    A request's coroutine runs from one yield to the next without interruption. So at every
    step boundary a tracked request either waits (`waitingFor` is set) or has passed its wait. */
module TrackedRequests {
  import opened Arith
  import opened Options

  datatype Request = Request(offset: nat, bytes: nat, serialising: bool, overlapOffset: nat, overlapBytes: nat,
                             waitingFor: Option<nat>)

  /** The device's list of tracked requests, newest first, and its count of serialising ones.
      Requests are told apart by numbers; those from `unused` on have never been given out. */
  datatype Queue = Queue(tracked: seq<nat>, reqs: map<nat, Request>, serialisingInFlight: int, unused: nat)

  // ---- Windows ----

  function Begun(offset: nat, bytes: nat): Request {
    Request(offset, bytes, false, offset, bytes, None)
  }

  function Marked(r: Request, align: nat): Request
    requires align > 0
  {
    var start := AlignDown(r.offset, align);
    var length := AlignUp(r.offset + r.bytes, align) - start;
    r.(serialising := true, overlapOffset := Min(r.overlapOffset, start), overlapBytes := Max(r.overlapBytes, length))
  }

  predicate Overlaps(r: Request, offset: nat, bytes: nat) {
    !(offset >= r.overlapOffset + r.overlapBytes) && !(r.overlapOffset >= offset + bytes)
  }

  /** One of the two requests must wait for the other. */
  predicate Conflict(a: Request, b: Request) {
    (a.serialising || b.serialising) && Overlaps(a, b.overlapOffset, b.overlapBytes)
  }

  ghost predicate InWindow(r: Request, lo: nat, hi: nat) {
    r.overlapOffset <= lo && hi <= r.overlapOffset + r.overlapBytes
  }

  function MarkedAll(r: Request, shifts: seq<nat>): Request {
    if shifts == [] then r else Marked(MarkedAll(r, shifts[..|shifts| - 1]), Pow2(shifts[|shifts| - 1]))
  }

  /** The window is the request widened to 2^m. */
  ghost predicate WindowAt(r: Request, offset: nat, bytes: nat, m: nat) {
    && r.serialising && r.offset == offset && r.bytes == bytes
    && r.overlapOffset == AlignDown(offset, Pow2(m))
    && r.overlapOffset + r.overlapBytes == AlignUp(offset + bytes, Pow2(m))
  }

  /** However often a request is marked, with whatever powers of two, its window is the request widened to the
      coarsest of them, and so contains the range padded to each of them. */
  lemma {:induction false} MarkedWindow(offset: nat, bytes: nat, shifts: seq<nat>) returns (m: nat)
    requires shifts != []
    ensures m in shifts && forall s :: s in shifts ==> s <= m
    ensures WindowAt(MarkedAll(Begun(offset, bytes), shifts), offset, bytes, m)
    ensures forall s :: s in shifts ==>
              InWindow(MarkedAll(Begun(offset, bytes), shifts), AlignDown(offset, Pow2(s)),
                       AlignUp(offset + bytes, Pow2(s)))
  {
    assert MarkedAll(Begun(offset, bytes), []) == Begun(offset, bytes);
    var init, s := shifts[..|shifts| - 1], shifts[|shifts| - 1];
    assert MarkedAll(Begun(offset, bytes), shifts) == Marked(MarkedAll(Begun(offset, bytes), init), Pow2(s));
    hide *;
    assert forall x :: x in shifts ==> x in init || x == s;
    if init == [] {
      m := s;
      FirstMark(offset, bytes, s);
    } else {
      m := MarkedWindow(offset, bytes, init);
      MarkedMore(MarkedAll(Begun(offset, bytes), init), offset, bytes, m, s);
      m := if s <= m then m else s;
    }
    InAllWindows(MarkedAll(Begun(offset, bytes), shifts), offset, bytes, m, shifts);
  }

  lemma InAllWindows(r: Request, offset: nat, bytes: nat, m: nat, shifts: seq<nat>)
    requires WindowAt(r, offset, bytes, m) && forall s :: s in shifts ==> s <= m
    ensures forall s :: s in shifts ==> InWindow(r, AlignDown(offset, Pow2(s)), AlignUp(offset + bytes, Pow2(s)))
  {
    hide *;
    forall s | s in shifts
      ensures InWindow(r, AlignDown(offset, Pow2(s)), AlignUp(offset + bytes, Pow2(s)))
    {
      CoarserWindow(r, offset, bytes, m, s);
    }
  }

  lemma FirstMark(offset: nat, bytes: nat, s: nat)
    ensures WindowAt(Marked(Begun(offset, bytes), Pow2(s)), offset, bytes, s)
  {
    hide AlignDown, AlignUp, Pow2;
  }

  lemma MarkedMore(r: Request, offset: nat, bytes: nat, m: nat, s: nat)
    requires WindowAt(r, offset, bytes, m)
    ensures WindowAt(Marked(r, Pow2(s)), offset, bytes, if s <= m then m else s)
  {
    hide AlignDown, AlignUp, Pow2;
    if s <= m {
      PaddingNested(offset, bytes, s, m);
    } else {
      PaddingNested(offset, bytes, m, s);
    }
  }

  lemma CoarserWindow(r: Request, offset: nat, bytes: nat, m: nat, s: nat)
    requires WindowAt(r, offset, bytes, m) && s <= m
    ensures InWindow(r, AlignDown(offset, Pow2(s)), AlignUp(offset + bytes, Pow2(s)))
  {
    hide AlignDown, AlignUp, Pow2;
    PaddingNested(offset, bytes, s, m);
  }

  lemma PaddingNested(offset: nat, bytes: nat, s: nat, m: nat)
    requires s <= m
    ensures AlignDown(offset, Pow2(m)) <= AlignDown(offset, Pow2(s))
    ensures AlignUp(offset + bytes, Pow2(s)) <= AlignUp(offset + bytes, Pow2(m))
  {
    Pow2Divides(s, m);
    AlignNested(offset, Pow2(s), Pow2(m));
    AlignNested(offset + bytes, Pow2(s), Pow2(m));
  }

  // ---- The queue's operations as functions ----

  function Begin(q: Queue, offset: nat, bytes: nat): Queue {
    q.(tracked := [q.unused] + q.tracked, reqs := q.reqs[q.unused := Begun(offset, bytes)], unused := q.unused + 1)
  }

  function Mark(q: Queue, id: nat, align: nat): Queue
    requires id in q.reqs && align > 0
  {
    q.(serialisingInFlight := q.serialisingInFlight + if q.reqs[id].serialising then 0 else 1,
       reqs := q.reqs[id := Marked(q.reqs[id], align)])
  }

  function End(q: Queue, id: nat): Queue
    requires id in q.reqs
  {
    q.(serialisingInFlight := q.serialisingInFlight - if q.reqs[id].serialising then 1 else 0,
       tracked := Without(q.tracked, id), reqs := q.reqs - {id})
  }

  function Without(s: seq<nat>, id: nat): seq<nat> {
    if s == [] then [] else if s[0] == id then s[1..] else [s[0]] + Without(s[1..], id)
  }

  /** The first of the listed requests that `self` must wait for: in conflict with it, and not itself waiting. */
  function FirstBlocker(list: seq<nat>, reqs: map<nat, Request>, self: nat): Option<nat>
    requires self in reqs && forall i :: 0 <= i < |list| ==> list[i] in reqs
  {
    if list == [] then None
    else if list[0] != self && Conflict(reqs[list[0]], reqs[self]) && reqs[list[0]].waitingFor.None? then Some(list[0])
    else FirstBlocker(list[1..], reqs, self)
  }

  /** `self` has gone through its wait until the next yield: it waits for a blocker, or passes if there is none. */
  function Waited(q: Queue, self: nat): Queue
    requires self in q.reqs && forall i :: 0 <= i < |q.tracked| ==> q.tracked[i] in q.reqs
  {
    var reqs := q.reqs[self := q.reqs[self].(waitingFor := None)];
    q.(reqs := reqs[self := reqs[self].(waitingFor := FirstBlocker(q.tracked, reqs, self))])
  }

  // ---- The invariant ----

  ghost predicate Passed(q: Queue, id: nat) {
    id in q.reqs && q.reqs[id].waitingFor.None?
  }

  ghost predicate ListOk(q: Queue) {
    && (forall i :: 0 <= i < |q.tracked| ==> q.tracked[i] in q.reqs)
    && (forall id :: id in q.reqs ==> id in q.tracked)
    && (forall i, j :: 0 <= i < j < |q.tracked| ==> q.tracked[i] != q.tracked[j])
    && (forall id :: id in q.reqs ==> id < q.unused)
    && (forall id :: id in q.reqs && q.reqs[id].waitingFor.Some? ==> q.reqs[id].waitingFor.value < q.unused)
  }

  function Serialising(list: seq<nat>, reqs: map<nat, Request>): nat
    requires forall i :: 0 <= i < |list| ==> list[i] in reqs
  {
    if list == [] then 0 else (if reqs[list[0]].serialising then 1 else 0) + Serialising(list[1..], reqs)
  }

  /** No two requests that conflict are both past their wait. */
  ghost predicate Exclusive(q: Queue) {
    forall a, b :: Passed(q, a) && Passed(q, b) && a != b ==> !Conflict(q.reqs[a], q.reqs[b])
  }

  /** Whoever a request waits for has passed its own wait, or has ended. */
  ghost predicate WaitsForPassed(q: Queue) {
    forall id :: id in q.reqs && q.reqs[id].waitingFor.Some? ==>
      var t := q.reqs[id].waitingFor.value; t != id && (t in q.reqs ==> Passed(q, t))
  }

  ghost predicate Inv(q: Queue) {
    && ListOk(q)
    && q.serialisingInFlight == Serialising(q.tracked, q.reqs)
    && Exclusive(q)
    && WaitsForPassed(q)
  }

  lemma ConflictSymmetric(a: Request, b: Request)
    ensures Conflict(a, b) == Conflict(b, a)
  {
  }

  /** Byte `a` is in the windows of both requests. */
  ghost predicate Shared(r: Request, s: Request, a: nat) {
    && r.overlapOffset <= a < r.overlapOffset + r.overlapBytes
    && s.overlapOffset <= a < s.overlapOffset + s.overlapBytes
  }

  /** Requests conflict exactly if one of them is serialising and their windows have a byte in common; one with an
      empty window may conflict with the request that it lies in. */
  lemma ConflictIs(r: Request, s: Request)
    ensures (r.serialising || s.serialising) && (exists a: nat :: Shared(r, s, a)) ==> Conflict(r, s)
    ensures Conflict(r, s) ==> r.serialising || s.serialising
    ensures Conflict(r, s) && r.overlapBytes > 0 && s.overlapBytes > 0 ==> exists a: nat :: Shared(r, s, a)
  {
    if Conflict(r, s) && r.overlapBytes > 0 && s.overlapBytes > 0 {
      assert Shared(r, s, Max(r.overlapOffset, s.overlapOffset));
    }
  }

  // ---- Scanning for a blocker ----

  lemma {:induction false} BlockerIs(list: seq<nat>, reqs: map<nat, Request>, self: nat)
    requires self in reqs && forall i :: 0 <= i < |list| ==> list[i] in reqs
    ensures var b := FirstBlocker(list, reqs, self);
            && (b.Some? ==> b.value in list && b.value != self && Conflict(reqs[b.value], reqs[self]) &&
                            reqs[b.value].waitingFor.None?)
            && (b.None? ==> forall id :: id in list && id != self && Conflict(reqs[id], reqs[self]) ==>
                                reqs[id].waitingFor.Some?)
  {
    if list != [] {
      BlockerIs(list[1..], reqs, self);
      assert forall id :: id in list ==> id == list[0] || id in list[1..];
    }
  }

  /** A request waits only for one that has a byte of its window; if it passes, no other request that has passed has
      one, unless neither is serialising. */
  lemma BlockerShares(list: seq<nat>, reqs: map<nat, Request>, self: nat)
    requires self in reqs && (forall i :: 0 <= i < |list| ==> list[i] in reqs)
    requires forall id :: id in reqs ==> reqs[id].overlapBytes > 0
    ensures var b := FirstBlocker(list, reqs, self);
            if b.Some? then
              && b.value in list && b.value != self && reqs[b.value].waitingFor.None?
              && (reqs[b.value].serialising || reqs[self].serialising)
              && exists a: nat :: Shared(reqs[b.value], reqs[self], a)
            else
              forall id, a: nat :: id in list && id != self && Shared(reqs[id], reqs[self], a) ==>
                reqs[id].waitingFor.Some? || (!reqs[id].serialising && !reqs[self].serialising)
  {
    hide FirstBlocker, Conflict;
    BlockerIs(list, reqs, self);
    var b := FirstBlocker(list, reqs, self);
    if b.Some? {
      ConflictIs(reqs[b.value], reqs[self]);
    } else {
      forall id, a: nat | id in list && id != self && Shared(reqs[id], reqs[self], a)
        ensures reqs[id].waitingFor.Some? || (!reqs[id].serialising && !reqs[self].serialising)
      {
        ConflictIs(reqs[id], reqs[self]);
      }
    }
  }

  /** A request that has passed its wait finds no blocker when it scans again. */
  lemma NeverWaitsAgain(q: Queue, id: nat)
    requires Inv(q) && Passed(q, id)
    ensures FirstBlocker(q.tracked, q.reqs, id) == None
    ensures Waited(q, id) == q
  {
    BlockerIs(q.tracked, q.reqs, id);
    assert q.reqs[id := q.reqs[id].(waitingFor := None)] == q.reqs;
  }

  /** With no serialising request in flight there is nothing to wait for. */
  lemma NoneSerialising(q: Queue, id: nat)
    requires ListOk(q) && id in q.reqs && Serialising(q.tracked, q.reqs) == 0
    ensures FirstBlocker(q.tracked, q.reqs, id) == None
  {
    BlockerIs(q.tracked, q.reqs, id);
    ZeroSerialising(q.tracked, q.reqs);
    assert id in q.tracked;
  }

  lemma {:induction false} ZeroSerialising(list: seq<nat>, reqs: map<nat, Request>)
    requires (forall i :: 0 <= i < |list| ==> list[i] in reqs) && Serialising(list, reqs) == 0
    ensures forall id :: id in list ==> !reqs[id].serialising
  {
    if list != [] {
      ZeroSerialising(list[1..], reqs);
    }
  }

  // ---- The count of serialising requests ----

  lemma {:induction false} SerialisingSame(list: seq<nat>, a: map<nat, Request>, b: map<nat, Request>)
    requires forall i :: 0 <= i < |list| ==>
             list[i] in a && list[i] in b && a[list[i]].serialising == b[list[i]].serialising
    ensures Serialising(list, a) == Serialising(list, b)
  {
    if list != [] {
      SerialisingSame(list[1..], a, b);
    }
  }

  lemma {:induction false} SerialisingOne(list: seq<nat>, reqs: map<nat, Request>, id: nat, r: Request)
    requires forall i :: 0 <= i < |list| ==> list[i] in reqs
    requires forall i, j :: 0 <= i < j < |list| ==> list[i] != list[j]
    requires id in list
    ensures Serialising(list, reqs[id := r]) ==
            Serialising(list, reqs) - (if reqs[id].serialising then 1 else 0) + (if r.serialising then 1 else 0)
  {
    if list[0] == id {
      SerialisingSame(list[1..], reqs, reqs[id := r]);
    } else {
      SerialisingOne(list[1..], reqs, id, r);
    }
  }

  lemma {:induction false} WithoutIs(list: seq<nat>, id: nat)
    requires id in list
    requires forall i, j :: 0 <= i < j < |list| ==> list[i] != list[j]
    ensures var l := Without(list, id);
            && (forall x :: x in l <==> x in list && x != id)
            && (forall i, j :: 0 <= i < j < |l| ==> l[i] != l[j])
  {
    if list[0] != id {
      WithoutIs(list[1..], id);
      assert forall x :: x in list <==> x == list[0] || x in list[1..];
      assert list[0] !in list[1..];
      assert Without(list, id)[0] == list[0] && Without(list, id)[1..] == Without(list[1..], id);
    }
  }

  lemma {:induction false} SerialisingWithout(list: seq<nat>, reqs: map<nat, Request>, id: nat)
    requires forall i :: 0 <= i < |list| ==> list[i] in reqs
    requires forall i, j :: 0 <= i < j < |list| ==> list[i] != list[j]
    requires id in list
    ensures (forall i :: 0 <= i < |Without(list, id)| ==> Without(list, id)[i] in reqs - {id})
    ensures Serialising(Without(list, id), reqs - {id}) ==
            Serialising(list, reqs) - if reqs[id].serialising then 1 else 0
  {
    if list[0] == id {
      SerialisingSame(list[1..], reqs, reqs - {id});
    } else {
      SerialisingWithout(list[1..], reqs, id);
      assert Without(list, id)[1..] == Without(list[1..], id);
    }
  }

  // ---- The steps between two yields ----

  /** A new request starts, is marked if it must be serialising, and runs into its wait. */
  function Started(q: Queue, offset: nat, bytes: nat, align: Option<nat>): Queue
    requires align.Some? ==> align.value > 0
  {
    var q1 := Begin(q, offset, bytes);
    if align.Some? then Mark(q1, q.unused, align.value) else q1
  }

  /** Everything but the new or resumed request's own standing is in order. */
  ghost predicate InvBut(q: Queue, self: nat) {
    && ListOk(q)
    && q.serialisingInFlight == Serialising(q.tracked, q.reqs)
    && self in q.reqs && OthersOk(q, self)
  }

  /** The requests other than `self` exclude each other, and wait for each other only as they should. */
  ghost predicate OthersOk(q: Queue, self: nat) {
    && (forall a, b ::
          Passed(q, a) && Passed(q, b) && a != b && a != self && b != self ==> !Conflict(q.reqs[a], q.reqs[b]))
    && (forall id :: id in q.reqs && id != self && q.reqs[id].waitingFor.Some? ==>
          var t := q.reqs[id].waitingFor.value; t != id && t != self && (t in q.reqs ==> Passed(q, t)))
  }

  lemma OthersStay(q: Queue, q': Queue, self: nat)
    requires OthersOk(q, self)
    requires forall x: nat :: x != self ==> (x in q.reqs <==> x in q'.reqs)
    requires forall x: nat :: x != self && x in q.reqs ==> q'.reqs[x] == q.reqs[x]
    ensures OthersOk(q', self)
  {
    hide Conflict;
    assert forall x: nat :: x != self ==> (Passed(q, x) <==> Passed(q', x));
  }

  lemma NewcomerApart(q: Queue)
    requires ListOk(q) && Exclusive(q) && WaitsForPassed(q)
    ensures OthersOk(q, q.unused)
  {
    hide Conflict;
  }

  lemma MarkedList(q: Queue, id: nat, align: nat)
    requires ListOk(q) && id in q.reqs && align > 0
    ensures ListOk(Mark(q, id, align))
  {
    hide AlignDown, AlignUp;
  }

  lemma BegunList(q: Queue, offset: nat, bytes: nat)
    requires ListOk(q)
    ensures ListOk(Begin(q, offset, bytes))
  {
    var q1 := Begin(q, offset, bytes);
    assert forall x :: x in q1.tracked <==> x == q.unused || x in q.tracked;
  }

  lemma BegunCount(q: Queue, offset: nat, bytes: nat)
    requires ListOk(q) && ListOk(Begin(q, offset, bytes))
    ensures Serialising(Begin(q, offset, bytes).tracked, Begin(q, offset, bytes).reqs) == Serialising(q.tracked, q.reqs)
  {
    hide Serialising;
    SerialisingNew(q.tracked, q.reqs, q.unused, Begun(offset, bytes));
  }

  lemma SerialisingNew(list: seq<nat>, reqs: map<nat, Request>, id: nat, r: Request)
    requires (forall i :: 0 <= i < |list| ==> list[i] in reqs) && id !in reqs && !r.serialising
    ensures Serialising([id] + list, reqs[id := r]) == Serialising(list, reqs)
  {
    assert ([id] + list)[1..] == list;
    SerialisingSame(list, reqs, reqs[id := r]);
  }

  lemma BegunOk(q: Queue, offset: nat, bytes: nat)
    requires Inv(q)
    ensures InvBut(Begin(q, offset, bytes), q.unused)
  {
    hide Exclusive, WaitsForPassed, Serialising, OthersOk, ListOk;
    BegunList(q, offset, bytes);
    BegunCount(q, offset, bytes);
    NewcomerApart(q);
    OthersStay(q, Begin(q, offset, bytes), q.unused);
  }

  lemma MarkedSerialising(r: Request, align: nat)
    requires align > 0
    ensures Marked(r, align).serialising
  {
  }

  lemma MarkedOk(q: Queue, id: nat, align: nat)
    requires InvBut(q, id) && align > 0
    ensures InvBut(Mark(q, id, align), id)
  {
    hide Serialising, OthersOk, Marked;
    MarkedList(q, id, align);
    SerialisingOne(q.tracked, q.reqs, id, Marked(q.reqs[id], align));
    MarkedSerialising(q.reqs[id], align);
    OthersStay(q, Mark(q, id, align), id);
  }

  lemma StartedOk(q: Queue, offset: nat, bytes: nat, align: Option<nat>)
    requires Inv(q) && (align.Some? ==> align.value > 0)
    ensures InvBut(Started(q, offset, bytes, align), q.unused)
  {
    hide Inv, InvBut, Marked;
    BegunOk(q, offset, bytes);
    if align.Some? {
      MarkedOk(Begin(q, offset, bytes), q.unused, align.value);
    }
  }

  lemma WokenOk(q: Queue, id: nat)
    requires Inv(q) && id in q.reqs && q.reqs[id].waitingFor.Some?
    ensures InvBut(q, id)
  {
  }

  lemma WaitedExclusive(q: Queue, self: nat)
    requires InvBut(q, self)
    ensures Exclusive(Waited(q, self))
  {
    var q' := Waited(q, self);
    var reqs := q.reqs[self := q.reqs[self].(waitingFor := None)];
    BlockerIs(q.tracked, reqs, self);
    forall a: nat, b: nat | Passed(q', a) && Passed(q', b) && a != b
      ensures !Conflict(q'.reqs[a], q'.reqs[b])
    {
      ConflictSymmetric(q'.reqs[a], q'.reqs[b]);
      if a != self && b != self {
        assert Passed(q, a) && Passed(q, b);
      } else {
        var other := if a == self then b else a;
        assert other in q.tracked && q'.reqs[other] == reqs[other];
      }
    }
  }

  lemma WaitedList(q: Queue, self: nat)
    requires ListOk(q) && self in q.reqs
    ensures ListOk(Waited(q, self))
  {
    BlockerIs(q.tracked, q.reqs[self := q.reqs[self].(waitingFor := None)], self);
    hide FirstBlocker, Conflict;
  }

  lemma WaitedTarget(q: Queue, self: nat)
    requires ListOk(q) && self in q.reqs
    ensures var q' := Waited(q, self);
            q'.reqs[self].waitingFor.Some? ==>
              var t := q'.reqs[self].waitingFor.value; t != self && Passed(q', t)
  {
    BlockerIs(q.tracked, q.reqs[self := q.reqs[self].(waitingFor := None)], self);
    hide FirstBlocker, Conflict;
  }

  lemma WaitedTargets(q: Queue, self: nat)
    requires InvBut(q, self)
    ensures WaitsForPassed(Waited(q, self))
  {
    hide FirstBlocker, Conflict, Serialising;
    WaitedTarget(q, self);
    OthersStay(q, Waited(q, self), self);
  }

  /** The heart of the protocol: going through the wait restores the whole invariant. */
  lemma WaitedOk(q: Queue, self: nat)
    requires InvBut(q, self)
    ensures Inv(Waited(q, self))
  {
    WaitedExclusive(q, self);
    WaitedTargets(q, self);
    WaitedList(q, self);
    hide FirstBlocker, Exclusive, WaitsForPassed, OthersOk;
    SerialisingSame(q.tracked, q.reqs, Waited(q, self).reqs);
  }

  lemma EndedOk(q: Queue, id: nat)
    requires Inv(q) && Passed(q, id)
    ensures Inv(End(q, id))
  {
    var q' := End(q, id);
    WithoutIs(q.tracked, id);
    SerialisingWithout(q.tracked, q.reqs, id);
    forall a: nat, b: nat | Passed(q', a) && Passed(q', b) && a != b
      ensures !Conflict(q'.reqs[a], q'.reqs[b])
    {
      assert Passed(q, a) && Passed(q, b);
    }
  }

  lemma NothingToWaitFor(q: Queue, self: nat)
    requires InvBut(q, self) && q.serialisingInFlight == 0
    ensures Waited(q, self) == q.(reqs := q.reqs[self := q.reqs[self].(waitingFor := None)])
  {
    hide FirstBlocker, OthersOk;
    var q' := q.(reqs := q.reqs[self := q.reqs[self].(waitingFor := None)]);
    SerialisingSame(q.tracked, q.reqs, q'.reqs);
    NoneSerialising(q', self);
    assert q'.reqs[self := q'.reqs[self].(waitingFor := None)] == q'.reqs;
  }

  // ---- Consequences ----

  /** Marking once more with the same alignment changes nothing. */
  lemma RemarkedSame(offset: nat, bytes: nat, align: nat)
    requires align > 0
    ensures Marked(Marked(Begun(offset, bytes), align), align) == Marked(Begun(offset, bytes), align)
  {
  }

  /** `path` follows waitingFor from one tracked request to the next. */
  ghost predicate WaitPath(q: Queue, path: seq<nat>) {
    && (forall i :: 0 <= i < |path| ==> path[i] in q.reqs)
    && (forall i :: 0 <= i < |path| - 1 ==> q.reqs[path[i]].waitingFor == Some(path[i + 1]))
  }

  lemma PathStep(q: Queue, path: seq<nat>, i: nat)
    requires WaitPath(q, path) && i + 1 < |path|
    ensures path[i] in q.reqs && path[i + 1] in q.reqs && q.reqs[path[i]].waitingFor == Some(path[i + 1])
  {
  }

  /** Waiting never forms a cycle, nor even a chain: whoever is waited for has passed its own wait. */
  lemma WaitPathShort(q: Queue, path: seq<nat>)
    requires Inv(q) && WaitPath(q, path)
    ensures |path| <= 2
    ensures |path| == 2 ==> path[0] != path[1] && Passed(q, path[1])
  {
    if |path| >= 2 {
      PathStep(q, path, 0);
      if |path| > 2 {
        PathStep(q, path, 1);
      }
    }
  }

  /** A request whose blocker has ended has been woken. */
  ghost predicate Woken(q: Queue, id: nat) {
    id in q.reqs && q.reqs[id].waitingFor.Some? && q.reqs[id].waitingFor.value !in q.reqs
  }

  /** There is no deadlock: some tracked request has passed its wait or has been woken. */
  lemma SomeRequestCanRun(q: Queue)
    requires Inv(q) && q.reqs != map[]
    ensures exists id :: Passed(q, id) || Woken(q, id)
  {
    var id :| id in q.reqs;
    if !Passed(q, id) && !Woken(q, id) {
      assert Passed(q, q.reqs[id].waitingFor.value);
    }
  }

  // ---- The device ----

  class BlockDriverState {
    var tracked: seq<nat>
    var reqs: map<nat, Request>
    var serialisingInFlight: int
    ghost var unused: nat

    ghost function Requests(): Queue
      reads this
    {
      Queue(tracked, reqs, serialisingInFlight, unused)
    }

    /** A device without requests. */
    constructor ()
      ensures Inv(Requests()) && tracked == [] && reqs == map[] && serialisingInFlight == 0
    {
      tracked, reqs, serialisingInFlight, unused := [], map[], 0, 0;
    }

    /** tracked_request_begin */
    method TrackedRequestBegin(offset: nat, bytes: nat, id: nat)
      requires id == unused
      modifies this
      ensures Requests() == Begin(old(Requests()), offset, bytes)
    {
      reqs := reqs[id := Request(offset, bytes, false, offset, bytes, None)];
      tracked := [id] + tracked;
      unused := unused + 1;
    }

    /** mark_request_serialising */
    method MarkRequestSerialising(id: nat, align: nat)
      requires id in reqs && align > 0
      modifies this`reqs, this`serialisingInFlight
      ensures Requests() == Mark(old(Requests()), id, align)
    {
      var r := reqs[id];
      var overlapOffset := AlignDown(r.offset, align);
      var overlapBytes := AlignUp(r.offset + r.bytes, align) - overlapOffset;
      if !r.serialising {
        serialisingInFlight := serialisingInFlight + 1;
        r := r.(serialising := true);
      }
      r := r.(overlapOffset := Min(r.overlapOffset, overlapOffset));
      r := r.(overlapBytes := Max(r.overlapBytes, overlapBytes));
      reqs := reqs[id := r];
    }

    /** The scan of wait_serialising_requests over the tracked list. */
    method FindBlocker(self: nat) returns (blocker: Option<nat>)
      requires self in reqs && forall i :: 0 <= i < |tracked| ==> tracked[i] in reqs
      ensures blocker == FirstBlocker(tracked, reqs, self)
    {
      var i := 0;
      while i < |tracked|
        invariant 0 <= i <= |tracked|
        invariant FirstBlocker(tracked, reqs, self) == FirstBlocker(tracked[i..], reqs, self)
      {
        var id := tracked[i];
        var r := reqs[id];
        if id == self || (!r.serialising && !reqs[self].serialising) {
        } else if Overlaps(r, reqs[self].overlapOffset, reqs[self].overlapBytes) {
          if r.waitingFor.None? {
            return Some(id);
          }
        }
        assert tracked[i..][1..] == tracked[i + 1..];
        i := i + 1;
      }
      blocker := None;
    }

    /** wait_serialising_requests from its start, or from being woken, to its next yield or its end. */
    method WaitSerialisingRequests(self: nat) returns (waits: bool)
      requires InvBut(Requests(), self)
      modifies this`reqs
      ensures Requests() == Waited(old(Requests()), self) && Inv(Requests())
      ensures waits == reqs[self].waitingFor.Some?
    {
      hide Inv, OthersOk, FirstBlocker, Serialising;
      WaitedOk(Requests(), self);
      ghost var q := Requests();
      reqs := reqs[self := reqs[self].(waitingFor := None)];
      if serialisingInFlight == 0 {
        NothingToWaitFor(q, self);
        waits := false;
      } else {
        var blocker := FindBlocker(self);
        reqs := reqs[self := reqs[self].(waitingFor := blocker)];
        waits := blocker.Some?;
      }
    }

    /** tracked_request_end */
    method TrackedRequestEnd(id: nat)
      requires Inv(Requests()) && Passed(Requests(), id)
      modifies this`tracked, this`reqs, this`serialisingInFlight
      ensures Requests() == End(old(Requests()), id) && Inv(Requests())
    {
      EndedOk(Requests(), id);
      if reqs[id].serialising {
        serialisingInFlight := serialisingInFlight - 1;
      }
      tracked := Without(tracked, id);
      reqs := reqs - {id};
    }
  }
}
