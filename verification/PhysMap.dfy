/** The in-place operations on the physical page map (exec.c): filling a range of
    pages with a leaf, collapsing single-child paths, and looking a page up. */
module PhysMap {
  import opened Arith
  import opened PhysTree

  const L2_LEVELS := 6

  /** Node allocations of one call at `level`: half as many when the range it paints starts or
      ends at an edge of the range below it. */
  function Budget(level: nat, atEdge: bool): (r: nat)
    ensures r >= 1
  {
    if atEdge then level + 1 else 2 * level + 1
  }

  ghost predicate AtEdge(h: nat, b: nat, index: nat, nb: nat) {
    index == b || index + nb >= b + Span(h)
  }

  ghost function SlotBudget(level: nat, b: nat, i: nat, index: nat, nb: nat): nat {
    if level == 0 || (index == SlotBase(Label(level, b), i) && nb >= Span(level)) then 0
    else Budget(level - 1, AtEdge(level, SlotBase(Label(level, b), i), index, nb))
  }

  /** The slots of one node share its budget: only the first and the last can need nodes below them. */
  lemma BudgetStep(l: Label, first: nat, index: nat, nb: nat, i: nat, index': nat, used: nat)
    requires i < L2_SIZE && first < L2_SIZE && SlotBase(l, first) <= index && nb > 0 &&
             l.base <= index <= index' < index + nb
    requires SlotBase(l, i) <= index' < SlotBase(l, i) + Span(l.level)
    requires if index' == index then i == first else index' == SlotBase(l, i)
    requires used <= 1 + if index != SlotBase(l, first) && index' != index then l.level else 0
    ensures used + SlotBudget(l.level, l.base, i, index', index + nb - index') <=
            Budget(l.level, AtEdge(l.level + 1, l.base, index, nb))
    ensures index + nb > SlotBase(l, i) + Span(l.level) ==>
              used + SlotBudget(l.level, l.base, i, index', index + nb - index') <=
              1 + if index != SlotBase(l, first) then l.level else 0
  {
    SlotEnds(l, i);
    SlotEnds(l, first);
  }

  /** Where filling a node's slots from page `index` on has got to: page `at`, in slot `i`, with `used` more nodes. */
  ghost predicate Filling(l: Label, first: nat, index: nat, nb: nat, i: nat, at: nat, used: int) {
    && first < L2_SIZE && i <= L2_SIZE && SlotBase(l, first) <= index && l.base <= index <= at <= index + nb
    && at <= l.base + Span(l.level + 1)
    && used <= Budget(l.level, AtEdge(l.level + 1, l.base, index, nb))
    && (at < index + nb ==>
          && SlotBase(l, i) <= at && (i < L2_SIZE ==> at < SlotBase(l, i) + Span(l.level))
          && (if at == index then i == first else at == SlotBase(l, i))
          && used <= 1 + if index != SlotBase(l, first) && at != index then l.level else 0)
  }

  lemma FillingStarts(l: Label, index: nat, nb: nat, used: int)
    requires l.base % Span(l.level + 1) == 0 && l.base <= index < l.base + Span(l.level + 1) && nb > 0 && used <= 1
    ensures Filling(l, Digit(index, l.level), index, nb, Digit(index, l.level), index, used)
  {
    hide Span, SlotBase, Digit, AtEdge;
    SlotOfPage(l, index);
  }

  lemma FillingRoom(l: Label, first: nat, index: nat, nb: nat, i: nat, at: nat, used: nat)
    requires Filling(l, first, index, nb, i, at, used) && at < index + nb && i < L2_SIZE
    ensures SlotBase(l, i) <= at < SlotBase(l, i) + Span(l.level)
    ensures used + SlotBudget(l.level, l.base, i, at, index + nb - at) <=
            Budget(l.level, AtEdge(l.level + 1, l.base, index, nb))
  {
    hide Span, SlotBase, Budget, SlotBudget, AtEdge;
    BudgetStep(l, first, index, nb, i, at, used);
  }

  lemma FillingStep(l: Label, first: nat, index: nat, nb: nat, i: nat, at: nat, used: nat, at': nat, used': int)
    requires Filling(l, first, index, nb, i, at, used) && at < index + nb && i < L2_SIZE
    requires at' == Min(index + nb, SlotBase(l, i) + Span(l.level))
    requires used' <= used + SlotBudget(l.level, l.base, i, at, index + nb - at)
    ensures Filling(l, first, index, nb, i + 1, at', used')
  {
    hide Span, SlotBase, Budget, SlotBudget, AtEdge;
    BudgetStep(l, first, index, nb, i, at, used);
    SlotEnds(l, i);
  }

  lemma FillingEnds(l: Label, first: nat, index: nat, nb: nat, i: nat, at: nat, used: int)
    requires Filling(l, first, index, nb, i, at, used) && (at == index + nb || i == L2_SIZE)
    ensures at == Min(index + nb, l.base + Span(l.level + 1))
    ensures used <= Budget(l.level, AtEdge(l.level + 1, l.base, index, nb))
  {
    hide Span, SlotBase, Budget, AtEdge;
    SlotEnds(l, L2_SIZE - 1);
  }

  /** No entry skips a level yet: the tree has not been compacted. */
  ghost predicate Fresh(nodes: seq<Node>) {
    forall n, i :: 0 <= n < |nodes| && 0 <= i < L2_SIZE ==> nodes[n][i].skip <= 1
  }

  /** `after` shows `leaf` on [from, to) and what `before` shows elsewhere. */
  ghost predicate Painted(before: seq<Node>, oldEntry: Entry, after: seq<Node>, newEntry: Entry, h: nat, b: nat,
                          from: nat, to: nat, leaf: nat)
  {
    forall p :: b <= p < b + Span(h) ==>
      Walk(after, newEntry, h, p) == if from <= p < to then leaf else Walk(before, oldEntry, h, p)
  }

  /** No page of [from, to) below the entry is assigned. */
  ghost predicate Vacant(nodes: seq<Node>, e: Entry, h: nat, b: nat, from: nat, to: nat) {
    forall p :: from <= p < to && b <= p < b + Span(h) ==> Walk(nodes, e, h, p) == UNASSIGNED
  }

  lemma PaintedTrans(n0: seq<Node>, e0: Entry, n1: seq<Node>, e1: Entry, n2: seq<Node>, e2: Entry, h: nat, b: nat,
                     from: nat, mid: nat, to: nat, leaf: nat)
    requires Painted(n0, e0, n1, e1, h, b, from, mid, leaf)
    requires Painted(n1, e1, n2, e2, h, b, mid, to, leaf)
    requires from <= mid <= to
    ensures Painted(n0, e0, n2, e2, h, b, from, to, leaf)
  {
  }

  lemma PaintedNothing(n0: seq<Node>, e0: Entry, n1: seq<Node>, e1: Entry, labels: seq<Label>, h: nat, b: nat,
                       at: nat, leaf: nat)
    requires Painted(n0, e0, n1, e1, h, b, b, b, 0)
    requires n0 <= n1 && |n0| <= |labels|
    ensures Painted(n0, e0, n1, e1, h, b, at, at, leaf)
    ensures SameOutside(n0, n1, labels, h, b)
  {
  }

  lemma VacantAfter(n0: seq<Node>, e0: Entry, n1: seq<Node>, e1: Entry, h: nat, b: nat,
                    from: nat, mid: nat, to: nat, leaf: nat)
    requires Painted(n0, e0, n1, e1, h, b, from, mid, leaf)
    requires Vacant(n0, e0, h, b, from, to)
    requires from <= mid <= to
    ensures Vacant(n1, e1, h, b, mid, to)
  {
  }

  lemma SameOutsideTrans(n0: seq<Node>, n1: seq<Node>, n2: seq<Node>, labels: seq<Label>, more: seq<Label>, h: nat,
                         b: nat)
    requires |n0| <= |labels| && |n1| <= |more| && labels <= more
    requires SameOutside(n0, n1, labels, h, b) && SameOutside(n1, n2, more, h, b)
    ensures SameOutside(n0, n2, more, h, b)
  {
  }

  /** How one page of a node is found once slot `i` has been rebuilt below the node and stored. */
  lemma RebuiltSlot(a: seq<Node>, c: seq<Node>, labels: seq<Label>, leaves: nat, n: nat, i: nat, e: Entry, p: nat)
    requires |a| <= |c| == |labels| && NodesOk(a, labels[..|a|], leaves) && NodesOk(c, labels, leaves)
    requires n < |a| && i < L2_SIZE
    requires SameOutside(a, c, labels, labels[n].level, SlotBase(labels[n], i))
    requires EntryOk(labels, e, labels[n].level, SlotBase(labels[n], i), leaves)
    ensures c[n] == a[n]
    ensures var h := labels[n].level + 1;
            Walk(c[n := c[n][i := e]], Entry(1, n), h, p) ==
            if Digit(p, h - 1) == i then Walk(c, e, h - 1, p) else Walk(a, Entry(1, n), h, p)
  {
    hide NodeOk, EntryOk, Within, SlotBase, Span, SameOutside, Digit;
    var j := Digit(p, labels[n].level);
    StoreSlot(c, labels, leaves, n, i, e, p);
    OtherSlot(a, c, labels, leaves, n, i, j, p);
  }

  lemma PaintPage(a: seq<Node>, c: seq<Node>, labels: seq<Label>, leaves: nat, n: nat, i: nat, e: Entry,
                  from: nat, to: nat, leaf: nat, p: nat)
    requires |a| <= |c| == |labels| && NodesOk(a, labels[..|a|], leaves) && NodesOk(c, labels, leaves)
    requires n < |a| && i < L2_SIZE
    requires SameOutside(a, c, labels, labels[n].level, SlotBase(labels[n], i))
    requires EntryOk(labels, e, labels[n].level, SlotBase(labels[n], i), leaves)
    requires SlotBase(labels[n], i) <= from <= to <= SlotBase(labels[n], i) + Span(labels[n].level)
    requires Painted(a, a[n][i], c, e, labels[n].level, SlotBase(labels[n], i), from, to, leaf)
    requires labels[n].base <= p < labels[n].base + Span(labels[n].level + 1)
    ensures var h := labels[n].level + 1;
            Walk(c[n := c[n][i := e]], Entry(1, n), h, p) == if from <= p < to then leaf else Walk(a, Entry(1, n), h, p)
  {
    hide NodeOk, EntryOk, Within, SlotBase, Span, SameOutside, Digit;
    var l, k := labels[n], labels[n].level;
    RebuiltSlot(a, c, labels, leaves, n, i, e, p);
    NodeEntries(c, labels, leaves, n, i);
    SlotIff(l, i, p);
    if Digit(p, k) == i {
      assert Walk(a, Entry(1, n), k + 1, p) == Walk(a, a[n][i], k, p);
    }
  }

  /** Painting below slot `i` of a node paints the node. */
  lemma PaintSlot(a: seq<Node>, c: seq<Node>, labels: seq<Label>, leaves: nat, n: nat, i: nat, e: Entry,
                  from: nat, to: nat, leaf: nat)
    requires |a| <= |c| == |labels| && NodesOk(a, labels[..|a|], leaves) && NodesOk(c, labels, leaves)
    requires n < |a| && i < L2_SIZE
    requires SameOutside(a, c, labels, labels[n].level, SlotBase(labels[n], i))
    requires EntryOk(labels, e, labels[n].level, SlotBase(labels[n], i), leaves)
    requires SlotBase(labels[n], i) <= from <= to <= SlotBase(labels[n], i) + Span(labels[n].level)
    requires Painted(a, a[n][i], c, e, labels[n].level, SlotBase(labels[n], i), from, to, leaf)
    ensures c[n] == a[n]
    ensures Painted(a, Entry(1, n), c[n := c[n][i := e]], Entry(1, n), labels[n].level + 1, labels[n].base, from, to,
                    leaf)
  {
    hide NodeOk, EntryOk, Within, Walk, SlotBase, Span, SameOutside;
    RebuiltSlot(a, c, labels, leaves, n, i, e, 0);
    var l, h, after := labels[n], labels[n].level + 1, c[n := c[n][i := e]];
    forall p | l.base <= p < l.base + Span(h)
      ensures Walk(after, Entry(1, n), h, p) == if from <= p < to then leaf else Walk(a, Entry(1, n), h, p)
    {
      PaintPage(a, c, labels, leaves, n, i, e, from, to, leaf, p);
    }
  }

  /** A change below slot `i`, and in the node itself, is a change below the node's own range. */
  lemma SlotChangeIsBelow(a: seq<Node>, c: seq<Node>, labels: seq<Label>, n: nat, i: nat, node: Node)
    requires |a| <= |c| == |labels| && n < |a| && i < L2_SIZE
    requires SameOutside(a, c, labels, labels[n].level, SlotBase(labels[n], i))
    ensures SameOutside(a, c[n := node], labels, labels[n].level + 1, labels[n].base)
  {
    var l := labels[n];
    forall m | 0 <= m < |a| && !Within(labels[m], l.level + 1, l.base)
      ensures c[n := node][m] == a[m]
    {
      if Within(labels[m], l.level, SlotBase(l, i)) {
        SlotsApart(l, i, i, labels[m]);
      }
    }
  }

  /** A leaf over a whole slot paints the slot. */
  lemma LeafSlot(nodes: seq<Node>, e: Entry, labels: seq<Label>, leaves: nat, h: nat, b: nat, leaf: nat)
    requires RESERVED_SECTIONS <= leaf < leaves && |nodes| <= |labels|
    ensures EntryOk(labels, Entry(0, leaf), h, b, leaves)
    ensures Painted(nodes, e, nodes, Entry(0, leaf), h, b, b, b + Span(h), leaf)
    ensures SameOutside(nodes, nodes, labels, h, b)
  {
  }

  /** Storing the rebuilt slot completes the painting of the node. */
  lemma StorePainted(a: seq<Node>, c: seq<Node>, labels: seq<Label>, leaves: nat, n: nat, i: nat, e: Entry,
                     from: nat, to: nat, leaf: nat)
    requires |a| <= |c| == |labels| && NodesOk(a, labels[..|a|], leaves) && NodesOk(c, labels, leaves) && Fresh(c)
    requires n < |a| && i < L2_SIZE && e.skip <= 1
    requires SameOutside(a, c, labels, labels[n].level, SlotBase(labels[n], i))
    requires EntryOk(labels, e, labels[n].level, SlotBase(labels[n], i), leaves)
    requires SlotBase(labels[n], i) <= from <= to <= SlotBase(labels[n], i) + Span(labels[n].level)
    requires Painted(a, a[n][i], c, e, labels[n].level, SlotBase(labels[n], i), from, to, leaf)
    ensures NodesOk(c[n := c[n][i := e]], labels, leaves) && Fresh(c[n := c[n][i := e]])
    ensures Painted(a, Entry(1, n), c[n := c[n][i := e]], Entry(1, n), labels[n].level + 1, labels[n].base, from, to,
                    leaf)
    ensures SameOutside(a, c[n := c[n][i := e]], labels, labels[n].level + 1, labels[n].base)
  {
    hide NodeOk, EntryOk, Walk, Painted, SlotBase, Span, Within, SameOutside;
    PaintSlot(a, c, labels, leaves, n, i, e, from, to, leaf);
    StoreOk(c, labels, leaves, n, i, e);
    SlotChangeIsBelow(a, c, labels, n, i, c[n][i := e]);
  }

  /** An entry that points to a node one level down is well-formed over the node's range. */
  lemma NodeEntry(labels: seq<Label>, n: nat, leaves: nat)
    requires n < |labels| <= NODE_NIL
    ensures EntryOk(labels, Entry(1, n), labels[n].level + 1, labels[n].base, leaves)
  {
  }

  lemma BottomStep(level: nat)
    ensures level == 0 <==> Span(level) == 1
  {
  }

  lemma SlotAligned(l: Label, i: nat, page: nat)
    requires l.base % Span(l.level + 1) == 0 && i < L2_SIZE
    requires SlotBase(l, i) <= page < SlotBase(l, i) + Span(l.level)
    ensures page % Span(l.level) == page - SlotBase(l, i)
  {
    var s := Span(l.level);
    var k := l.base / Span(l.level + 1);
    assert l.base == k * (L2_SIZE * s);
    SlotBaseMul(l, i);
    DigitUnique(s, k, i, page);
  }

  /** A slot with a vacant page is no leaf, and the range is vacant below it. */
  lemma VacantSlot(nodes: seq<Node>, labels: seq<Label>, leaves: nat, n: nat, i: nat, index: nat, to: nat)
    requires NodesOk(nodes, labels, leaves) && Fresh(nodes) && n < |nodes| && i < L2_SIZE && labels[n].level > 0
    requires SlotBase(labels[n], i) <= index < SlotBase(labels[n], i) + Span(labels[n].level) && index < to
    requires Vacant(nodes, Entry(1, n), labels[n].level + 1, labels[n].base, index, to)
    ensures nodes[n][i].skip == 1
    ensures Vacant(nodes, nodes[n][i], labels[n].level, SlotBase(labels[n], i), index, to)
  {
    var l, k, e := labels[n], labels[n].level, nodes[n][i];
    assert NodeOk(labels, nodes[n], labels[n], leaves);
    forall p | index <= p < to && SlotBase(l, i) <= p < SlotBase(l, i) + Span(k)
      ensures Walk(nodes, e, k, p) == UNASSIGNED
    {
      DigitOfSlot(l, i, p);
      assert Walk(nodes, Entry(1, n), k + 1, p) == Walk(nodes, e, k, p);
    }
    assert Walk(nodes, e, k, index) == UNASSIGNED;
  }

  lemma SlotBaseAligned(l: Label, i: nat)
    requires l.base % Span(l.level + 1) == 0 && i < L2_SIZE
    ensures SlotBase(l, i) % Span(l.level) == 0
  {
    SlotAligned(l, i, SlotBase(l, i));
  }

  // ---- Compaction ----

  /** `after` may show a leaf where `before` shows none, and agrees with `before` everywhere else. */
  ghost predicate Shadows(before: seq<Node>, oldEntry: Entry, after: seq<Node>, newEntry: Entry, h: nat, b: nat) {
    forall p :: b <= p < b + Span(h) ==>
      Walk(after, newEntry, h, p) == Walk(before, oldEntry, h, p) || Walk(before, oldEntry, h, p) == UNASSIGNED
  }

  lemma ShadowsTrans(n0: seq<Node>, e0: Entry, n1: seq<Node>, e1: Entry, n2: seq<Node>, e2: Entry, h: nat, b: nat)
    requires Shadows(n0, e0, n1, e1, h, b) && Shadows(n1, e1, n2, e2, h, b)
    ensures Shadows(n0, e0, n2, e2, h, b)
  {
  }

  lemma ShadowPage(a: seq<Node>, c: seq<Node>, labels: seq<Label>, leaves: nat, n: nat, i: nat, e: Entry, p: nat)
    requires |a| == |c| == |labels| && NodesOk(a, labels, leaves) && NodesOk(c, labels, leaves)
    requires n < |a| && i < L2_SIZE
    requires SameOutside(a, c, labels, labels[n].level, SlotBase(labels[n], i))
    requires EntryOk(labels, e, labels[n].level, SlotBase(labels[n], i), leaves)
    requires Shadows(a, a[n][i], c, e, labels[n].level, SlotBase(labels[n], i))
    requires labels[n].base <= p < labels[n].base + Span(labels[n].level + 1)
    ensures var h := labels[n].level + 1;
            var w := Walk(a, Entry(1, n), h, p);
            Walk(c[n := c[n][i := e]], Entry(1, n), h, p) == w || w == UNASSIGNED
  {
    hide NodeOk, EntryOk, Within, SlotBase, Span, SameOutside, Digit;
    var l, k := labels[n], labels[n].level;
    assert labels[..|a|] == labels;
    RebuiltSlot(a, c, labels, leaves, n, i, e, p);
    NodeEntries(c, labels, leaves, n, i);
    SlotIff(l, i, p);
    if Digit(p, k) == i {
      assert Walk(a, Entry(1, n), k + 1, p) == Walk(a, a[n][i], k, p);
    }
  }

  /** Storing a compacted slot leaves a node that shadows the old one. */
  lemma StoreShadow(a: seq<Node>, c: seq<Node>, labels: seq<Label>, leaves: nat, n: nat, i: nat, e: Entry)
    requires |a| == |c| == |labels| && NodesOk(a, labels, leaves) && NodesOk(c, labels, leaves)
    requires n < |a| && i < L2_SIZE
    requires SameOutside(a, c, labels, labels[n].level, SlotBase(labels[n], i))
    requires EntryOk(labels, e, labels[n].level, SlotBase(labels[n], i), leaves)
    requires Shadows(a, a[n][i], c, e, labels[n].level, SlotBase(labels[n], i))
    ensures c[n] == a[n]
    ensures NodesOk(c[n := c[n][i := e]], labels, leaves)
    ensures Shadows(a, Entry(1, n), c[n := c[n][i := e]], Entry(1, n), labels[n].level + 1, labels[n].base)
    ensures SameOutside(a, c[n := c[n][i := e]], labels, labels[n].level + 1, labels[n].base)
  {
    hide NodeOk, EntryOk, Walk, SlotBase, Within, SameOutside;
    assert labels[..|a|] == labels;
    OtherSlot(a, c, labels, leaves, n, i, i, 0);
    StoreOk(c, labels, leaves, n, i, e);
    SlotChangeIsBelow(a, c, labels, n, i, c[n][i := e]);
    var l, h, after := labels[n], labels[n].level + 1, c[n := c[n][i := e]];
    forall p | l.base <= p < l.base + Span(h)
      ensures Walk(after, Entry(1, n), h, p) == Walk(a, Entry(1, n), h, p) || Walk(a, Entry(1, n), h, p) == UNASSIGNED
    {
      ShadowPage(a, c, labels, leaves, n, i, e, p);
    }
  }

  /** The slots from `i` on are as they were before compaction began. */
  ghost predicate Pending(nodes: seq<Node>, labels: seq<Label>, n: nat, i: nat)
    requires |nodes| == |labels| && n < |nodes|
  {
    forall j :: i <= j < L2_SIZE ==>
      nodes[n][j].skip <= 1 && Uncompacted(nodes, labels, labels[n].level, SlotBase(labels[n], j))
  }

  lemma PendingFirst(nodes: seq<Node>, labels: seq<Label>, n: nat)
    requires |nodes| == |labels| && n < |nodes|
    requires Uncompacted(nodes, labels, labels[n].level + 1, labels[n].base)
    ensures Pending(nodes, labels, n, 0)
  {
    var l := labels[n];
    assert Within(l, l.level + 1, l.base);
    forall j | 0 <= j < L2_SIZE
      ensures Uncompacted(nodes, labels, l.level, SlotBase(l, j))
    {
      forall m, i | 0 <= m < |nodes| && Within(labels[m], l.level, SlotBase(l, j)) && 0 <= i < L2_SIZE
        ensures nodes[m][i].skip <= 1
      {
        SlotsApart(l, j, j, labels[m]);
      }
    }
  }

  lemma PendingNext(a: seq<Node>, c: seq<Node>, labels: seq<Label>, n: nat, i: nat, e: Entry)
    requires |a| == |c| == |labels| && n < |a| && i < L2_SIZE
    requires Pending(a, labels, n, i)
    requires SameOutside(a, c, labels, labels[n].level, SlotBase(labels[n], i)) && c[n] == a[n]
    ensures Pending(c[n := c[n][i := e]], labels, n, i + 1)
  {
    var l, after := labels[n], c[n := c[n][i := e]];
    forall j | i < j < L2_SIZE
      ensures after[n][j].skip <= 1 && Uncompacted(after, labels, l.level, SlotBase(l, j))
    {
      NodeOutsideItsSlots(l, j);
      forall m, x | 0 <= m < |after| && Within(labels[m], l.level, SlotBase(l, j)) && 0 <= x < L2_SIZE
        ensures after[m][x].skip <= 1
      {
        SlotsApart(l, j, i, labels[m]);
        assert after[m] == a[m];
      }
    }
  }

  lemma PendingSlot(nodes: seq<Node>, labels: seq<Label>, n: nat, i: nat)
    requires |nodes| == |labels| && n < |nodes| && i < L2_SIZE && Pending(nodes, labels, n, i)
    ensures nodes[n][i].skip <= 1
    ensures Uncompacted(nodes, labels, labels[n].level, SlotBase(labels[n], i))
    ensures Pending(nodes, labels, n, i + 1)
  {
  }

  lemma Unchanged(nodes: seq<Node>, e: Entry, labels: seq<Label>, h: nat, b: nat)
    requires |nodes| <= |labels|
    ensures Shadows(nodes, e, nodes, e, h, b) && SameOutside(nodes, nodes, labels, h, b)
  {
  }

  /** Only slot `v` of the node leads anywhere. */
  ghost predicate OnlyChild(node: Node, v: nat) {
    v < L2_SIZE && forall j :: 0 <= j < L2_SIZE ==> (node[j].ptr == NODE_NIL <==> j != v)
  }

  /** An entry whose node has one child, no more than seven levels down, now leads where that child led; any other
      entry has stayed. */
  ghost predicate Bypassed(nodes: seq<Node>, e: Entry, e': Entry) {
    if e.ptr >= |nodes| then e' == e
    else
      var node := nodes[e.ptr];
      && (forall v: nat :: OnlyChild(node, v) && e.skip + node[v].skip < 8 ==>
            e'.ptr == node[v].ptr && e'.skip == if node[v].skip == 0 then 0 else e.skip + node[v].skip)
      && ((forall v: nat :: OnlyChild(node, v) ==> e.skip + node[v].skip >= 8) ==> e' == e)
  }

  function Collapsed(skip: nat, child: Entry): Entry {
    if child.skip == 0 then Entry(0, child.ptr) else Entry(skip + child.skip, child.ptr)
  }

  lemma NothingBelow(nodes: seq<Node>, e: Entry)
    requires e.ptr == NODE_NIL && |nodes| <= NODE_NIL
    ensures Bypassed(nodes, e, e)
  {
  }

  lemma OneChild(nodes: seq<Node>, e: Entry, v: nat)
    requires e.ptr < |nodes| && OnlyChild(nodes[e.ptr], v) && e.skip + nodes[e.ptr][v].skip < 8
    ensures Bypassed(nodes, e, Collapsed(e.skip, nodes[e.ptr][v]))
  {
    var node := nodes[e.ptr];
    forall w: nat | OnlyChild(node, w)
      ensures w == v
    {
      assert node[v].ptr != NODE_NIL;
    }
  }

  /** An entry stays if its node has no child, or several, or one that is too far down. */
  lemma ManyChildren(nodes: seq<Node>, e: Entry, valid: int, v: nat, i: nat, j: nat)
    requires e.ptr < |nodes| && valid >= 0
    requires valid == 0 ==> forall k :: 0 <= k < L2_SIZE ==> nodes[e.ptr][k].ptr == NODE_NIL
    requires valid == 1 ==> OnlyChild(nodes[e.ptr], v)
    requires valid >= 2 ==> i < j < L2_SIZE && nodes[e.ptr][i].ptr != NODE_NIL && nodes[e.ptr][j].ptr != NODE_NIL
    ensures valid != 1 || e.skip + nodes[e.ptr][v].skip >= 8 ==> Bypassed(nodes, e, e)
  {
    var node := nodes[e.ptr];
    forall w: nat | OnlyChild(node, w)
      ensures valid == 1 && w == v
    {
      assert node[w].ptr != NODE_NIL;
    }
  }

  lemma CollapsePage(nodes: seq<Node>, labels: seq<Label>, leaves: nat, n: nat, v: nat, p: nat)
    requires NodesOk(nodes, labels, leaves) && n < |nodes| && OnlyChild(nodes[n], v) && leaves <= NODE_NIL
    ensures var h, w := labels[n].level + 1, Walk(nodes, Entry(1, n), labels[n].level + 1, p);
            Walk(nodes, Collapsed(1, nodes[n][v]), h, p) == w || w == UNASSIGNED
  {
    hide NodeOk, Within, SlotBase, Span, Digit;
    var k, j := labels[n].level, Digit(p, labels[n].level);
    NodeEntries(nodes, labels, leaves, n, j);
    NodeEntries(nodes, labels, leaves, n, v);
    assert Walk(nodes, Entry(1, n), k + 1, p) == Walk(nodes, nodes[n][j], k, p);
  }

  /** An entry may bypass a node with one child: pages outside the child's slot were unassigned. */
  lemma Collapse(nodes: seq<Node>, labels: seq<Label>, leaves: nat, n: nat, v: nat)
    requires NodesOk(nodes, labels, leaves) && n < |nodes| && OnlyChild(nodes[n], v) && leaves <= NODE_NIL
    ensures EntryOk(labels, Collapsed(1, nodes[n][v]), labels[n].level + 1, labels[n].base, leaves)
    ensures Shadows(nodes, Entry(1, n), nodes, Collapsed(1, nodes[n][v]), labels[n].level + 1, labels[n].base)
  {
    var l, h, e, e' := labels[n], labels[n].level + 1, nodes[n][v], Collapsed(1, nodes[n][v]);
    NodeEntries(nodes, labels, leaves, n, v);
    var other := if v == 0 then 1 else 0;
    assert nodes[n][other].ptr == NODE_NIL;
    NodeEntries(nodes, labels, leaves, n, other);
    if e.skip != 0 {
      SlotsApart(l, v, v, labels[e.ptr]);
    }
    forall p | l.base <= p < l.base + Span(h)
      ensures Walk(nodes, e', h, p) == Walk(nodes, Entry(1, n), h, p) || Walk(nodes, Entry(1, n), h, p) == UNASSIGNED
    {
      CollapsePage(nodes, labels, leaves, n, v, p);
    }
  }

  // ---- A new node ----

  /** What a newly allocated node holds: nothing below it, or unassigned pages at the bottom level. */
  function BlankEntry(level: nat): Entry {
    if level == 0 then Entry(0, UNASSIGNED) else NIL_ENTRY
  }

  ghost predicate ShowsNothing(nodes: seq<Node>, e: Entry, h: nat) {
    forall p: nat :: Walk(nodes, e, h, p) == UNASSIGNED
  }

  lemma BlankNode(nodes: seq<Node>, labels: seq<Label>, leaves: nat, l: Label, node: Node)
    requires NodesOk(nodes, labels, leaves) && |nodes| < NODE_NIL
    requires l.base % Span(l.level + 1) == 0
    requires forall i :: 0 <= i < L2_SIZE ==> node[i] == BlankEntry(l.level)
    ensures NodesOk(nodes + [node], labels + [l], leaves)
    ensures ShowsNothing(nodes + [node], Entry(1, |nodes|), l.level + 1)
  {
    var nodes', labels' := nodes + [node], labels + [l];
    MoreLabels(nodes, labels, labels', leaves, leaves);
    assert NodeOk(labels', node, l, leaves);
    forall n | 0 <= n < |nodes'|
      ensures NodeOk(labels', nodes'[n], labels'[n], leaves)
    {
      if n < |nodes| {
        assert nodes'[n] == nodes[n] && labels'[n] == labels[n];
      }
    }
    var h := l.level + 1;
    forall p: nat
      ensures Walk(nodes', Entry(1, |nodes|), h, p) == UNASSIGNED
    {
      assert Walk(nodes', Entry(1, |nodes|), h, p) == Walk(nodes', node[Digit(p, l.level)], l.level, p);
    }
  }

  /** A map under construction: well-formed, and nothing compacted. */
  ghost predicate TreeOk(nodes: seq<Node>, labels: seq<Label>, root: Entry, leaves: nat) {
    && NodesOk(nodes, labels, leaves)
    && Fresh(nodes)
    && EntryOk(labels, root, L2_LEVELS, 0, leaves)
    && root.skip == 1
  }

  lemma MoreLeaves(nodes: seq<Node>, labels: seq<Label>, root: Entry, leaves: nat, more: nat)
    requires TreeOk(nodes, labels, root, leaves) && leaves <= more
    ensures TreeOk(nodes, labels, root, more)
  {
    MoreLabels(nodes, labels, labels, leaves, more);
  }

  lemma SpanTop()
    ensures Span(L2_LEVELS) == 0x40_0000_0000_0000
  {
    assert Span(1) == 512 && Span(2) == 0x4_0000 && Span(3) == 0x800_0000;
    assert Span(4) == 0x10_0000_0000 && Span(5) == 0x2000_0000_0000;
  }

  class PhysPageMap {
    var root: Entry
    var nodes: seq<Node>
    var nodesAlloc: nat
    ghost var labels: seq<Label>
    ghost var leaves: nat

    constructor ()
      ensures root == NIL_ENTRY && nodes == [] && nodesAlloc == 0
      ensures labels == [] && leaves == RESERVED_SECTIONS
    {
      root, nodes, nodesAlloc := NIL_ENTRY, [], 0;
      labels, leaves := [], RESERVED_SECTIONS;
    }

    method NodeAlloc() returns (ret: nat)
      requires |nodes| != NODE_NIL && |nodes| < nodesAlloc
      modifies this`nodes
      ensures ret == |old(nodes)|
      ensures nodes == old(nodes) + [seq(L2_SIZE, _ => NIL_ENTRY)]
    {
      ret := |nodes|;
      nodes := nodes + [seq(L2_SIZE, _ => NIL_ENTRY)];
    }

    method EnsureNode(lp: Entry, level: nat, ghost b: nat) returns (lp': Entry)
      requires NodesOk(nodes, labels, leaves) && Fresh(nodes)
      requires EntryOk(labels, lp, level + 1, b, leaves) && lp.skip == 1
      requires b % Span(level + 1) == 0
      requires lp.ptr == NODE_NIL ==> |nodes| < nodesAlloc && |nodes| < NODE_NIL
      modifies this`nodes, this`labels
      ensures old(labels) <= labels && old(nodes) <= nodes
      ensures |nodes| <= |old(nodes)| + 1
      ensures NodesOk(nodes, labels, leaves) && Fresh(nodes)
      ensures lp'.skip == 1 && lp'.ptr < |nodes| && labels[lp'.ptr] == Label(level, b)
      ensures Painted(old(nodes), lp, nodes, lp', level + 1, b, b, b, 0)
    {
      if lp.ptr == NODE_NIL {
        var n := NodeAlloc();
        if level == 0 {
          nodes := nodes[n := seq(L2_SIZE, _ => Entry(0, UNASSIGNED))];
        }
        lp' := Entry(lp.skip, n);
        BlankNode(old(nodes), labels, leaves, Label(level, b), nodes[n]);
        labels := labels + [Label(level, b)];
        assert nodes == old(nodes) + [nodes[n]];
      } else {
        lp' := lp;
      }
    }

    /** One round of the loop: the slot becomes a leaf if the range covers it, and is filled one level down if not. */
    method SetSlot(n: nat, i: nat, index: nat, nb: nat, leaf: nat, level: nat, ghost b: nat)
      returns (index': nat, nb': nat)
      requires NodesOk(nodes, labels, leaves) && Fresh(nodes)
      requires n < |nodes| && i < L2_SIZE && labels[n] == Label(level, b)
      requires SlotBase(labels[n], i) <= index < SlotBase(labels[n], i) + Span(level) && nb > 0
      requires RESERVED_SECTIONS <= leaf < leaves
      requires Vacant(nodes, Entry(1, n), level + 1, b, index, index + nb)
      requires |nodes| + SlotBudget(level, b, i, index, nb) <= nodesAlloc
      requires |nodes| + SlotBudget(level, b, i, index, nb) <= NODE_NIL
      modifies this`nodes, this`labels
      ensures old(labels) <= labels && NodesOk(nodes, labels, leaves) && Fresh(nodes)
      ensures |nodes| <= |old(nodes)| + SlotBudget(level, b, i, index, nb)
      ensures index' + nb' == index + nb
      ensures index' == Min(index + nb, SlotBase(Label(level, b), i) + Span(level))
      ensures Painted(old(nodes), Entry(1, n), nodes, Entry(1, n), level + 1, b, index, index', leaf)
      ensures SameOutside(old(nodes), nodes, labels, level + 1, b)
      decreases level, 0
    {
      hide NodeOk, EntryOk, Walk, Painted, Vacant, Fresh, SlotBase, Span, Within, SameOutside, Digit;
      ghost var l := Label(level, b);
      var step := Span(level);
      var e;
      NodeEntries(nodes, labels, leaves, n, i);
      SlotAligned(l, i, index);
      if index % step == 0 && nb >= step {
        e, index', nb' := Entry(0, leaf), index + step, nb - step;
        LeafSlot(nodes, nodes[n][i], labels, leaves, level, SlotBase(l, i), leaf);
      } else {
        BottomStep(level);
        VacantSlot(nodes, labels, leaves, n, i, index, index + nb);
        SlotBaseAligned(l, i);
        e, index', nb' := SetLevel(nodes[n][i], index, nb, leaf, level - 1, SlotBase(l, i));
      }
      assert labels[..|old(nodes)|] == old(labels);
      StorePainted(old(nodes), nodes, labels, leaves, n, i, e, index, index', leaf);
      nodes := nodes[n := nodes[n][i := e]];
    }

    method SetLevel(lp: Entry, index: nat, nb: nat, leaf: nat, level: nat, ghost b: nat)
      returns (lp': Entry, index': nat, nb': nat)
      requires NodesOk(nodes, labels, leaves) && Fresh(nodes)
      requires EntryOk(labels, lp, level + 1, b, leaves) && lp.skip == 1
      requires b % Span(level + 1) == 0
      requires b <= index < b + Span(level + 1) && nb > 0
      requires RESERVED_SECTIONS <= leaf < leaves
      requires Vacant(nodes, lp, level + 1, b, index, index + nb)
      requires |nodes| + Budget(level, AtEdge(level + 1, b, index, nb)) <= nodesAlloc
      requires |nodes| + Budget(level, AtEdge(level + 1, b, index, nb)) <= NODE_NIL
      modifies this`nodes, this`labels
      ensures old(labels) <= labels && NodesOk(nodes, labels, leaves) && Fresh(nodes)
      ensures |nodes| <= |old(nodes)| + Budget(level, AtEdge(level + 1, b, index, nb))
      ensures EntryOk(labels, lp', level + 1, b, leaves) && lp'.skip == 1
      ensures index' + nb' == index + nb
      ensures index' == Min(index + nb, b + Span(level + 1))
      ensures Painted(old(nodes), lp, nodes, lp', level + 1, b, index, index', leaf)
      ensures SameOutside(old(nodes), nodes, labels, level + 1, b)
      decreases level, 1
    {
      hide NodeOk, EntryOk, Walk, Painted, Vacant, Fresh, SlotBase, Span, Within, SameOutside, Digit, SlotBudget,
           Budget, AtEdge, Filling;
      ghost var l, h := Label(level, b), level + 1;
      lp' := EnsureNode(lp, level, b);
      var n := lp'.ptr;
      PaintedNothing(old(nodes), lp, nodes, lp', labels, h, b, index, leaf);
      index', nb' := index, nb;
      var i: nat := Digit(index, level);
      ghost var first := i;
      FillingStarts(l, index, nb, |nodes| - |old(nodes)|);
      while nb' > 0 && i < L2_SIZE
        invariant i <= L2_SIZE && index <= index' && index' + nb' == index + nb
        invariant old(labels) <= labels && NodesOk(nodes, labels, leaves) && Fresh(nodes)
        invariant n < |nodes| && labels[n] == l
        invariant Filling(l, first, index, nb, i, index', |nodes| - |old(nodes)|)
        invariant Painted(old(nodes), lp, nodes, lp', h, b, index, index', leaf)
        invariant SameOutside(old(nodes), nodes, labels, h, b)
      {
        ghost var a, la, mid := nodes, labels, index';
        FillingRoom(l, first, index, nb, i, mid, |a| - |old(nodes)|);
        VacantAfter(old(nodes), lp, nodes, lp', h, b, index, mid, index + nb, leaf);
        index', nb' := SetSlot(n, i, index', nb', leaf, level, b);
        FillingStep(l, first, index, nb, i, mid, |a| - |old(nodes)|, index', |nodes| - |old(nodes)|);
        PaintedTrans(old(nodes), lp, a, lp', nodes, lp', h, b, index, mid, index', leaf);
        SameOutsideTrans(old(nodes), a, nodes, la, labels, h, b);
        i := i + 1;
      }
      NodeEntry(labels, n, leaves);
      FillingEnds(l, first, index, nb, i, index', |nodes| - |old(nodes)|);
    }

    method NodeReserve(extra: nat)
      modifies this`nodesAlloc
      ensures |nodes| + extra <= nodesAlloc
      ensures |nodes| + extra <= old(nodesAlloc) ==> nodesAlloc == old(nodesAlloc)
      ensures |nodes| + extra > old(nodesAlloc) ==> nodesAlloc == Max(Max(2 * old(nodesAlloc), 16), |nodes| + extra)
    {
      if |nodes| + extra > nodesAlloc {
        nodesAlloc := if nodesAlloc * 2 > 16 then nodesAlloc * 2 else 16;
        nodesAlloc := if nodesAlloc > |nodes| + extra then nodesAlloc else |nodes| + extra;
      }
    }

    /** Fills [index, index + nb) with `leaf`. The 3 * L2_LEVELS nodes reserved up front are more than the
        2 * L2_LEVELS - 1 that any range can need, so the array never has to grow during the recursion. */
    method PageSet(index: nat, nb: nat, leaf: nat)
      requires TreeOk(nodes, labels, root, leaves)
      requires nb > 0 && index + nb <= Span(L2_LEVELS)
      requires RESERVED_SECTIONS <= leaf < leaves
      requires Vacant(nodes, root, L2_LEVELS, 0, index, index + nb)
      requires |nodes| + 2 * L2_LEVELS - 1 <= NODE_NIL
      modifies this`nodes, this`nodesAlloc, this`labels, this`root
      ensures TreeOk(nodes, labels, root, leaves)
      ensures Painted(old(nodes), old(root), nodes, root, L2_LEVELS, 0, index, index + nb, leaf)
      ensures |nodes| <= |old(nodes)| + 2 * L2_LEVELS - 1
    {
      hide NodesOk, Walk, Painted, Vacant;
      NodeReserve(3 * L2_LEVELS);
      var i, n;
      root, i, n := SetLevel(root, index, nb, leaf, L2_LEVELS - 1, 0);
    }

    method CompactSlot(n: nat, i: nat, ghost k: nat, ghost b: nat)
      requires NodesOk(nodes, labels, leaves) && leaves <= NODE_NIL
      requires n < |nodes| && i < L2_SIZE && labels[n] == Label(k, b)
      requires nodes[n][i].skip == 1 && Pending(nodes, labels, n, i)
      modifies this`nodes
      ensures |nodes| == |old(nodes)| && NodesOk(nodes, labels, leaves)
      ensures Pending(nodes, labels, n, i + 1)
      ensures forall j :: 0 <= j < L2_SIZE && j != i ==> nodes[n][j] == old(nodes)[n][j]
      ensures nodes[n][i].ptr == NODE_NIL <==> old(nodes)[n][i].ptr == NODE_NIL
      ensures Shadows(old(nodes), Entry(1, n), nodes, Entry(1, n), k + 1, b)
      ensures SameOutside(old(nodes), nodes, labels, k + 1, b)
      decreases k + 1, 0
    {
      hide NodeOk, EntryOk, Walk, Shadows, SlotBase, Span, Within, SameOutside, Uncompacted;
      NodeEntries(nodes, labels, leaves, n, i);
      SlotBaseAligned(labels[n], i);
      PendingSlot(nodes, labels, n, i);
      var e := Compact(nodes[n][i], k, SlotBase(labels[n], i));
      StoreShadow(old(nodes), nodes, labels, leaves, n, i, e);
      PendingNext(old(nodes), nodes, labels, n, i, e);
      nodes := nodes[n := nodes[n][i := e]];
    }

    /** Collapses the single-child paths below an entry, and then the entry's own node if it has one child. */
    method Compact(lp: Entry, ghost h: nat, ghost b: nat) returns (lp': Entry)
      requires NodesOk(nodes, labels, leaves) && leaves <= NODE_NIL
      requires EntryOk(labels, lp, h, b, leaves) && lp.skip == 1
      requires b % Span(h) == 0
      requires Uncompacted(nodes, labels, h, b)
      modifies this`nodes
      ensures |nodes| == |old(nodes)| && NodesOk(nodes, labels, leaves)
      ensures EntryOk(labels, lp', h, b, leaves)
      ensures lp'.ptr == NODE_NIL <==> lp.ptr == NODE_NIL
      ensures Bypassed(nodes, lp, lp')
      ensures Shadows(old(nodes), lp, nodes, lp', h, b)
      ensures SameOutside(old(nodes), nodes, labels, h, b)
      decreases h, 1
    {
      hide NodeOk, Walk, Shadows, SlotBase, Uncompacted, SameOutside, Pending, Digit, Bypassed, Collapsed;
      ghost var n0 := nodes;
      Unchanged(nodes, lp, labels, h, b);
      if lp.ptr == NODE_NIL {
        NothingBelow(nodes, lp);
        return lp;
      }
      var n := lp.ptr;
      var valid, validPtr := 0, L2_SIZE;
      ghost var first: nat, second: nat := 0, 0;
      PendingFirst(nodes, labels, n);
      var i: nat := 0;
      while i < L2_SIZE
        invariant i <= L2_SIZE && |nodes| == |n0| && NodesOk(nodes, labels, leaves)
        invariant Pending(nodes, labels, n, i)
        invariant Shadows(n0, lp, nodes, lp, h, b)
        invariant SameOutside(n0, nodes, labels, h, b)
        invariant valid == 0 ==> forall j :: 0 <= j < i ==> nodes[n][j].ptr == NODE_NIL
        invariant valid == 1 ==>
                    validPtr < i && forall j :: 0 <= j < i ==> (nodes[n][j].ptr == NODE_NIL <==> j != validPtr)
        invariant valid >= 0 && validPtr >= 0
        invariant valid >= 2 ==>
                    first < second < i && nodes[n][first].ptr != NODE_NIL && nodes[n][second].ptr != NODE_NIL
      {
        PendingSlot(nodes, labels, n, i);
        if nodes[n][i].ptr != NODE_NIL {
          if valid == 1 {
            first, second := validPtr, i;
          }
          validPtr := i;
          valid := valid + 1;
          if nodes[n][i].skip != 0 {
            ghost var a := nodes;
            CompactSlot(n, i, h - 1, b);
            ShadowsTrans(n0, lp, a, lp, nodes, lp, h, b);
            SameOutsideTrans(n0, a, nodes, labels, labels, h, b);
          }
        }
        i := i + 1;
      }
      ManyChildren(nodes, lp, valid, validPtr, first, second);
      if valid != 1 || lp.skip + nodes[n][validPtr].skip >= 8 {
        return lp;
      }
      OneChild(nodes, lp, validPtr);
      lp' := Collapsed(lp.skip, nodes[n][validPtr]);
      Collapse(nodes, labels, leaves, n, validPtr);
      ShadowsTrans(n0, lp, nodes, lp, nodes, lp', h, b);
    }

    method CompactAll()
      requires TreeOk(nodes, labels, root, leaves) && leaves <= NODE_NIL
      modifies this`nodes, this`root
      ensures NodesOk(nodes, labels, leaves) && EntryOk(labels, root, L2_LEVELS, 0, leaves)
      ensures Shadows(old(nodes), old(root), nodes, root, L2_LEVELS, 0)
      ensures if old(root).skip == 0 then root == old(root) else Bypassed(nodes, old(root), root)
    {
      if root.skip != 0 {
        root := Compact(root, L2_LEVELS, 0);
      }
    }

    /** The leaf for a page. The level counter never goes below zero before a leaf or a hole is met. */
    method PageFind(page: nat) returns (leaf: nat)
      requires NodesOk(nodes, labels, leaves) && EntryOk(labels, root, L2_LEVELS, 0, leaves)
      ensures leaf == Walk(nodes, root, L2_LEVELS, page)
      ensures leaf == UNASSIGNED || RESERVED_SECTIONS <= leaf < leaves
    {
      hide NodesOk, EntryOk, Walk, Digit, SlotBase;
      var lp, i := root, L2_LEVELS;
      ghost var b := 0;
      while lp.skip != 0
        invariant i >= 0 && EntryOk(labels, lp, i, b, leaves)
        invariant Walk(nodes, lp, i, page) == Walk(nodes, root, L2_LEVELS, page)
        decreases i
      {
        WalkStep(nodes, labels, leaves, lp, i, b, page);
        i := i - lp.skip;
        assert i >= 0;
        if lp.ptr == NODE_NIL {
          return UNASSIGNED;
        }
        b := SlotBase(labels[lp.ptr], Digit(page, i));
        lp := nodes[lp.ptr][Digit(page, i)];
      }
      WalkEnds(nodes, labels, leaves, lp, i, b, page);
      leaf := lp.ptr;
    }
  }

  lemma WalkStep(nodes: seq<Node>, labels: seq<Label>, leaves: nat, e: Entry, h: nat, b: nat, page: nat)
    requires NodesOk(nodes, labels, leaves) && EntryOk(labels, e, h, b, leaves) && e.skip != 0
    ensures e.skip <= h
    ensures if e.ptr == NODE_NIL then Walk(nodes, e, h, page) == UNASSIGNED
            else
              var i := Digit(page, h - e.skip);
              && e.ptr < |nodes| == |labels|
              && Walk(nodes, e, h, page) == Walk(nodes, nodes[e.ptr][i], h - e.skip, page)
              && EntryOk(labels, nodes[e.ptr][i], h - e.skip, SlotBase(labels[e.ptr], i), leaves)
  {
    hide NodeOk, Digit, SlotBase, Within;
    if e.ptr != NODE_NIL {
      NodeEntries(nodes, labels, leaves, e.ptr, Digit(page, h - e.skip));
    }
  }

  lemma WalkEnds(nodes: seq<Node>, labels: seq<Label>, leaves: nat, e: Entry, h: nat, b: nat, page: nat)
    requires EntryOk(labels, e, h, b, leaves) && e.skip == 0
    ensures Walk(nodes, e, h, page) == e.ptr && (e.ptr == UNASSIGNED || RESERVED_SECTIONS <= e.ptr < leaves)
  {
  }
}
