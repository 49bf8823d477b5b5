/** The multi-level physical page map of exec.c, as values: entries, nodes, the
    walk that a lookup performs, and the facts that setting and compacting rest on.

    Every node carries a ghost label (its level and the first page it covers).
    A node reached through an entry covers a sub-range of the entry's range, so a
    change confined to one range cannot be seen by a walk that stays in another. */
module PhysTree {
  import opened Arith

  const L2_SIZE := 512
  const NODE_NIL: nat := 0x3ff_ffff
  const UNASSIGNED: nat := 0

  // The unassigned, not-dirty, rom and watch sections come first and are never mapped.
  const RESERVED_SECTIONS: nat := 4

  datatype Entry = Entry(skip: nat, ptr: nat)

  const NIL_ENTRY := Entry(1, NODE_NIL)

  type Node = n: seq<Entry> | |n| == L2_SIZE witness seq(L2_SIZE, _ => NIL_ENTRY)

  /** Number of pages below an entry `h` levels above the pages. */
  function Span(h: nat): (r: nat)
    ensures r >= 1
  {
    if h == 0 then 1 else L2_SIZE * Span(h - 1)
  }

  /** `(page >> (h * P_L2_BITS)) & (P_L2_SIZE - 1)` */
  function Digit(page: nat, h: nat): (r: nat)
    ensures r < L2_SIZE
  {
    page / Span(h) % L2_SIZE
  }

  /** The leaf that a lookup of `page` ends on, starting at an entry `h` levels above
      the pages. Skipped levels are not checked. */
  function Walk(nodes: seq<Node>, e: Entry, h: nat, page: nat): nat
    decreases h
  {
    if e.skip == 0 then e.ptr
    else if e.skip > h || e.ptr >= |nodes| then UNASSIGNED
    else Walk(nodes, nodes[e.ptr][Digit(page, h - e.skip)], h - e.skip, page)
  }

  // ---- Ghost labels and well-formed trees ----

  datatype Label = Label(level: nat, base: nat)

  /** The first page below slot `i`. */
  ghost function SlotBase(l: Label, i: nat): nat {
    if i == 0 then l.base else SlotBase(l, i - 1) + Span(l.level)
  }

  lemma {:induction false} SlotBaseMul(l: Label, i: nat)
    ensures SlotBase(l, i) == l.base + i * Span(l.level)
  {
    if i > 0 {
      SlotBaseMul(l, i - 1);
      assert i * Span(l.level) == (i - 1) * Span(l.level) + Span(l.level);
    }
  }

  lemma SlotEnds(l: Label, i: nat)
    requires i < L2_SIZE
    ensures l.base <= SlotBase(l, i)
    ensures SlotBase(l, i + 1) == SlotBase(l, i) + Span(l.level) <= l.base + Span(l.level + 1)
    ensures i == L2_SIZE - 1 ==> SlotBase(l, i + 1) == l.base + Span(l.level + 1)
  {
    SlotBaseMul(l, i);
    SlotEnd(i, Span(l.level));
  }

  /** The node labelled `l` lies below an entry that covers [b, b + Span(h)). */
  ghost predicate Within(l: Label, h: nat, b: nat) {
    b <= l.base && l.base + Span(l.level + 1) <= b + Span(h)
  }

  /** An entry `h` levels above the pages, covering the pages from `b` on. */
  ghost predicate EntryOk(labels: seq<Label>, e: Entry, h: nat, b: nat, leaves: nat) {
    if e.skip == 0 then (e.ptr == UNASSIGNED && h == 0) || RESERVED_SECTIONS <= e.ptr < leaves
    else if e.ptr == NODE_NIL then e.skip == 1 <= h
    else
      && e.skip <= h
      && e.ptr < |labels|
      && labels[e.ptr].level == h - e.skip
      && Within(labels[e.ptr], h, b)
  }

  ghost predicate NodeOk(labels: seq<Label>, node: Node, l: Label, leaves: nat) {
    && l.base % Span(l.level + 1) == 0
    && forall i :: 0 <= i < L2_SIZE ==> EntryOk(labels, node[i], l.level, SlotBase(l, i), leaves)
  }

  ghost predicate NodesOk(nodes: seq<Node>, labels: seq<Label>, leaves: nat) {
    && |nodes| == |labels| <= NODE_NIL
    && forall n :: 0 <= n < |nodes| ==> NodeOk(labels, nodes[n], labels[n], leaves)
  }

  /** No entry of a node below [b, b + Span(h)) skips a level yet. */
  ghost predicate Uncompacted(nodes: seq<Node>, labels: seq<Label>, h: nat, b: nat)
    requires |nodes| == |labels|
  {
    forall n, i :: 0 <= n < |nodes| && Within(labels[n], h, b) && 0 <= i < L2_SIZE ==> nodes[n][i].skip <= 1
  }

  /** `after` differs from `before` only in nodes below [b, b + Span(h)), and in new nodes. */
  ghost predicate SameOutside(before: seq<Node>, after: seq<Node>, labels: seq<Label>, h: nat, b: nat)
    requires |before| <= |labels|
  {
    && |before| <= |after|
    && forall n :: 0 <= n < |before| && !Within(labels[n], h, b) ==> after[n] == before[n]
  }

  // ---- Arithmetic of ranges ----

  /** The digit of x above `s`, for x in the i-th interval of length s from a multiple of 512s. */
  lemma DigitUnique(s: nat, k: nat, i: nat, x: nat)
    requires s > 0 && i < L2_SIZE
    requires k * (L2_SIZE * s) + i * s <= x < k * (L2_SIZE * s) + i * s + s
    ensures x / s % L2_SIZE == i && x % s == x - (k * (L2_SIZE * s) + i * s)
  {
    var q := k * L2_SIZE + i;
    assert q * s == k * (L2_SIZE * s) + i * s by {
      assert (k * L2_SIZE) * s == k * (L2_SIZE * s);
    }
    assert (q + 1) * s == q * s + s;
    DivUnique(x, s, q);
  }

  lemma SlotEnd(i: nat, s: nat)
    requires i < L2_SIZE
    ensures i * s + s <= L2_SIZE * s
  {
    assert (i + 1) * s == i * s + s;
    MulLe(i + 1, L2_SIZE, s);
  }

  /** Slot `i` of a node holds the pages whose digit at the node's level is `i`. */
  lemma DigitOfSlot(l: Label, i: nat, page: nat)
    requires l.base % Span(l.level + 1) == 0
    requires i < L2_SIZE
    requires SlotBase(l, i) <= page < SlotBase(l, i) + Span(l.level)
    ensures Digit(page, l.level) == i
    ensures l.base <= page < l.base + Span(l.level + 1)
  {
    var s := Span(l.level);
    var k := l.base / Span(l.level + 1);
    assert l.base == k * Span(l.level + 1) == k * (L2_SIZE * s);
    SlotBaseMul(l, i);
    DigitUnique(s, k, i, page);
    SlotEnd(i, s);
  }

  /** Every page of a node is in the slot that its digit selects. */
  lemma SlotOfPage(l: Label, page: nat)
    requires l.base % Span(l.level + 1) == 0
    requires l.base <= page < l.base + Span(l.level + 1)
    ensures SlotBase(l, Digit(page, l.level)) <= page < SlotBase(l, Digit(page, l.level)) + Span(l.level)
  {
    var s := Span(l.level);
    var i := (page - l.base) / s;
    assert page - l.base == i * s + (page - l.base) % s;
    if i >= L2_SIZE {
      MulLe(L2_SIZE, i, s);
      assert false;
    }
    SlotBaseMul(l, i);
    DigitOfSlot(l, i, page);
  }

  /** A node below one slot is not below another slot, nor is it the node itself. */
  lemma SlotsApart(l: Label, i: nat, j: nat, m: Label)
    requires i < L2_SIZE && j < L2_SIZE
    requires Within(m, l.level, SlotBase(l, i))
    ensures i != j ==> !Within(m, l.level, SlotBase(l, j))
    ensures m != l
    ensures Within(m, l.level + 1, l.base)
  {
    SlotEnds(l, i);
    if i < j {
      SlotsOrdered(l, i, j);
    } else if j < i {
      SlotsOrdered(l, j, i);
    }
  }

  lemma {:induction false} SlotsOrdered(l: Label, i: nat, j: nat)
    requires i < j
    ensures SlotBase(l, i) + Span(l.level) <= SlotBase(l, j)
  {
    if i + 1 < j {
      SlotsOrdered(l, i, j - 1);
    }
  }

  lemma SpanPositive(h: nat)
    ensures Span(h + 1) == L2_SIZE * Span(h) > Span(h)
  {
  }

  lemma WithinTrans(m: Label, l: Label, i: nat, h: nat, b: nat)
    requires i < L2_SIZE
    requires Within(m, l.level, SlotBase(l, i)) && Within(l, h, b)
    ensures Within(m, h, b)
  {
    SlotsApart(l, i, i, m);
  }

  // ---- Walks ----

  /** A walk sees only nodes below the entry it starts from. */
  lemma {:induction false} WalkFrame(a: seq<Node>, c: seq<Node>, labels: seq<Label>, e: Entry, h: nat, b: nat,
                                     leaves: nat, page: nat)
    requires |a| <= |labels| && |a| <= |c| <= NODE_NIL && NodesOk(a, labels[..|a|], leaves)
    requires EntryOk(labels[..|a|], e, h, b, leaves)
    requires forall n :: 0 <= n < |a| && Within(labels[n], h, b) ==> a[n] == c[n]
    ensures Walk(a, e, h, page) == Walk(c, e, h, page)
    decreases h
  {
    if e.skip != 0 && e.ptr != NODE_NIL {
      var l := labels[e.ptr];
      var i := Digit(page, l.level);
      var next := a[e.ptr][i];
      assert NodeOk(labels[..|a|], a[e.ptr], labels[..|a|][e.ptr], leaves);
      forall n | 0 <= n < |a| && Within(labels[n], l.level, SlotBase(l, i))
        ensures a[n] == c[n]
      {
        WithinTrans(labels[n], l, i, h, b);
      }
      WalkFrame(a, c, labels, next, l.level, SlotBase(l, i), leaves, page);
    }
  }

  /** A walk ends on a mapped section or on the unassigned one. */
  lemma {:induction false} WalkLeaf(nodes: seq<Node>, labels: seq<Label>, e: Entry, h: nat, b: nat, leaves: nat,
                                    page: nat)
    requires NodesOk(nodes, labels, leaves) && EntryOk(labels, e, h, b, leaves)
    ensures var s := Walk(nodes, e, h, page); s == UNASSIGNED || RESERVED_SECTIONS <= s < leaves
    decreases h
  {
    if e.skip != 0 && e.ptr != NODE_NIL {
      var l := labels[e.ptr];
      NodeEntries(nodes, labels, leaves, e.ptr, Digit(page, l.level));
      WalkLeaf(nodes, labels, nodes[e.ptr][Digit(page, l.level)], l.level, SlotBase(l, Digit(page, l.level)), leaves,
               page);
    }
  }

  // ---- Changing one slot of a node ----

  lemma NodeOutsideItsSlots(l: Label, j: nat)
    requires j < L2_SIZE
    ensures !Within(l, l.level, SlotBase(l, j))
  {
    SpanPositive(l.level);
  }

  lemma NodeEntries(nodes: seq<Node>, labels: seq<Label>, leaves: nat, n: nat, i: nat)
    requires NodesOk(nodes, labels, leaves) && n < |nodes| && i < L2_SIZE
    ensures labels[n].base % Span(labels[n].level + 1) == 0
    ensures EntryOk(labels, nodes[n][i], labels[n].level, SlotBase(labels[n], i), leaves)
  {
    assert NodeOk(labels, nodes[n], labels[n], leaves);
  }

  lemma StoreOk(nodes: seq<Node>, labels: seq<Label>, leaves: nat, n: nat, i: nat, e: Entry)
    requires NodesOk(nodes, labels, leaves)
    requires n < |nodes| && i < L2_SIZE
    requires EntryOk(labels, e, labels[n].level, SlotBase(labels[n], i), leaves)
    ensures NodesOk(nodes[n := nodes[n][i := e]], labels, leaves)
  {
    var after := nodes[n := nodes[n][i := e]];
    forall m | 0 <= m < |after|
      ensures NodeOk(labels, after[m], labels[m], leaves)
    {
      assert NodeOk(labels, nodes[m], labels[m], leaves);
    }
  }

  /** A page of a node is in slot `i` exactly when its digit is `i`. */
  lemma SlotIff(l: Label, i: nat, page: nat)
    requires l.base % Span(l.level + 1) == 0 && i < L2_SIZE
    requires l.base <= page < l.base + Span(l.level + 1)
    ensures Digit(page, l.level) == i <==> SlotBase(l, i) <= page < SlotBase(l, i) + Span(l.level)
  {
    SlotOfPage(l, page);
    if SlotBase(l, i) <= page < SlotBase(l, i) + Span(l.level) {
      DigitOfSlot(l, i, page);
    }
  }

  /** Storing an entry changes the walks of that slot's pages and of no other page of the node. */
  lemma StoreSlot(nodes: seq<Node>, labels: seq<Label>, leaves: nat, n: nat, i: nat, e: Entry, page: nat)
    requires NodesOk(nodes, labels, leaves)
    requires n < |nodes| && i < L2_SIZE
    requires EntryOk(labels, e, labels[n].level, SlotBase(labels[n], i), leaves)
    ensures var l, after := labels[n], nodes[n := nodes[n][i := e]];
            Walk(after, Entry(1, n), l.level + 1, page) ==
            if Digit(page, l.level) == i then Walk(nodes, e, l.level, page)
            else Walk(nodes, Entry(1, n), l.level + 1, page)
  {
    hide NodeOk, EntryOk, Within, SlotBase, Span, Digit;
    var l, after := labels[n], nodes[n := nodes[n][i := e]];
    var j := Digit(page, l.level);
    NodeEntries(nodes, labels, leaves, n, j);
    var x := if j == i then e else nodes[n][j];
    NodeOutsideItsSlots(l, j);
    assert labels[..|nodes|] == labels;
    WalkFrame(nodes, after, labels, x, l.level, SlotBase(l, j), leaves, page);
    assert after[n][j] == x;
  }

  /** A change below slot `i` of a node leaves the node and the walks of its other slots alone. */
  lemma OtherSlot(a: seq<Node>, c: seq<Node>, labels: seq<Label>, leaves: nat, n: nat, i: nat, j: nat, page: nat)
    requires |a| <= |c| == |labels| <= NODE_NIL && NodesOk(a, labels[..|a|], leaves)
    requires n < |a| && i < L2_SIZE && j < L2_SIZE
    requires SameOutside(a, c, labels, labels[n].level, SlotBase(labels[n], i))
    ensures c[n] == a[n]
    ensures i != j ==> Walk(c, a[n][j], labels[n].level, page) == Walk(a, a[n][j], labels[n].level, page)
  {
    var l := labels[n];
    NodeOutsideItsSlots(l, i);
    if j != i {
      assert NodeOk(labels[..|a|], a[n], labels[..|a|][n], leaves);
      forall m | 0 <= m < |a| && Within(labels[m], l.level, SlotBase(l, j))
        ensures a[m] == c[m]
      {
        SlotsApart(l, j, i, labels[m]);
      }
      WalkFrame(a, c, labels, a[n][j], l.level, SlotBase(l, j), leaves, page);
    }
  }

  /** Labels only ever grow, and then what was well-formed stays so. */
  lemma MoreLabels(nodes: seq<Node>, labels: seq<Label>, more: seq<Label>, leaves: nat, moreLeaves: nat)
    requires labels <= more && leaves <= moreLeaves
    requires NodesOk(nodes, labels, leaves)
    ensures forall n :: 0 <= n < |nodes| ==> NodeOk(more, nodes[n], labels[n], moreLeaves)
  {
    forall n | 0 <= n < |nodes|
      ensures NodeOk(more, nodes[n], labels[n], moreLeaves)
    {
      assert NodeOk(labels, nodes[n], labels[n], leaves);
    }
  }
}
