/** The migration bitmap and the dirty log that feeds it (arch_init.c). Bitmaps are sequences of bits; a word is
    a slice of 64 of them. */
module DirtyBitmap {
  import opened Arith

  const BITS_PER_LONG := 64

  type Bits = seq<bool>

  function Count(s: Bits): nat {
    if s == [] then 0 else (if s[0] then 1 else 0) + Count(s[1..])
  }

  lemma {:induction false} CountConcat(a: Bits, b: Bits)
    ensures Count(a + b) == Count(a) + Count(b)
  {
    if a == [] {
      assert a + b == b;
    } else {
      CountConcat(a[1..], b);
      assert (a + b)[1..] == a[1..] + b;
    }
  }

  lemma CountSplit(s: Bits, i: nat, j: nat)
    requires i <= j <= |s|
    ensures Count(s) == Count(s[..i]) + Count(s[i..j]) + Count(s[j..])
  {
    hide Count;
    CountConcat(s[..i], s[i..j]);
    CountConcat(s[..i] + s[i..j], s[j..]);
    assert s[..i] + s[i..j] + s[j..] == s;
  }

  lemma CountUpdate(s: Bits, p: nat, v: bool)
    requires p < |s|
    ensures Count(s[p := v]) == Count(s) - (if s[p] then 1 else 0) + (if v then 1 else 0)
  {
    var t := s[p := v];
    CountSplit(s, p, p + 1);
    CountSplit(t, p, p + 1);
    assert t[..p] == s[..p] && t[p + 1..] == s[p + 1..];
    assert s[p..p + 1] == [s[p]] && t[p..p + 1] == [v];
    assert Count([s[p]]) == (if s[p] then 1 else 0) + Count([s[p]][1..]);
    assert Count([v]) == (if v then 1 else 0) + Count([v][1..]);
  }

  lemma {:induction false} CountPositive(s: Bits, p: nat)
    requires p < |s| && s[p]
    ensures Count(s) > 0
  {
    if p > 0 {
      CountPositive(s[1..], p - 1);
    }
  }

  lemma {:induction false} CountOnes(s: Bits, n: nat)
    requires n <= |s| && forall p :: 0 <= p < |s| ==> s[p] == (p < n)
    ensures Count(s) == n
  {
    if s != [] {
      CountOnes(s[1..], if n > 0 then n - 1 else 0);
    }
  }

  // ---- Words ----

  function Or(a: Bits, b: Bits): (r: Bits)
    requires |a| == |b|
    ensures |r| == |a| && forall i :: 0 <= i < |r| ==> r[i] == (a[i] || b[i])
  {
    seq(|a|, i requires 0 <= i < |a| => a[i] || b[i])
  }

  /** The bits of `b` that are not in `a`: `~a & b` */
  function New(a: Bits, b: Bits): (r: Bits)
    requires |a| == |b|
    ensures |r| == |a| && forall i :: 0 <= i < |r| ==> r[i] == (!a[i] && b[i])
  {
    seq(|a|, i requires 0 <= i < |a| => !a[i] && b[i])
  }

  function Zero(n: nat): (r: Bits)
    ensures |r| == n && forall i :: 0 <= i < n ==> !r[i]
  {
    seq(n, _ => false)
  }

  lemma {:induction false} CountOr(a: Bits, b: Bits)
    requires |a| == |b|
    ensures Count(Or(a, b)) == Count(a) + Count(New(a, b))
  {
    if a != [] {
      CountOr(a[1..], b[1..]);
      assert Or(a, b)[1..] == Or(a[1..], b[1..]);
      assert New(a, b)[1..] == New(a[1..], b[1..]);
    }
  }

  function Splice(s: Bits, i: nat, w: Bits): (r: Bits)
    requires i + |w| <= |s|
    ensures |r| == |s|
    ensures forall p :: 0 <= p < |s| ==> r[p] == if i <= p < i + |w| then w[p - i] else s[p]
  {
    s[..i] + w + s[i + |w|..]
  }

  lemma CountSplice(s: Bits, i: nat, w: Bits)
    requires i + |w| <= |s|
    ensures Count(Splice(s, i, w)) == Count(s) - Count(s[i..i + |w|]) + Count(w)
  {
    CountSplit(s, i, i + |w|);
    CountConcat(s[..i], w);
    CountConcat(s[..i] + w, s[i + |w|..]);
  }

  // ---- Moving the log into the bitmap ----

  /** The log's bits in [lo, hi) have moved into the bitmap. */
  ghost predicate Moved(log: Bits, bitmap: Bits, log': Bits, bitmap': Bits, lo: nat, hi: nat) {
    && |log'| == |log| && |bitmap'| == |bitmap| == |log|
    && forall p :: 0 <= p < |log| ==>
         log'[p] == (log[p] && !(lo <= p < hi)) && bitmap'[p] == (bitmap[p] || (log[p] && lo <= p < hi))
  }

  lemma MovedTrans(l0: Bits, b0: Bits, l1: Bits, b1: Bits, l2: Bits, b2: Bits, lo: nat, mid: nat, hi: nat)
    requires lo <= mid <= hi && Moved(l0, b0, l1, b1, lo, mid) && Moved(l1, b1, l2, b2, mid, hi)
    ensures Moved(l0, b0, l2, b2, lo, hi)
  {
  }

  /** Which pages a block's sync reaches: whole words if the block starts at a word, its own pages if not. */
  function SyncedEnd(start: nat, pages: nat): nat {
    if start % BITS_PER_LONG == 0 then AlignUp(start + pages, BITS_PER_LONG) else start + pages
  }

  class MigrationBitmap {
    var log: Bits
    var bitmap: Bits
    var dirtyPages: int

    ghost predicate Valid()
      reads this
    {
      |log| == |bitmap| && |bitmap| % BITS_PER_LONG == 0 && dirtyPages == Count(bitmap)
    }

    /** As ram_save_setup makes it: every page is to be sent, the bits that fill up the last word are not set. */
    constructor (pages: nat, log: Bits)
      requires |log| == AlignUp(pages, BITS_PER_LONG)
      ensures Valid() && this.log == log && |bitmap| >= pages
      ensures forall p :: 0 <= p < |bitmap| ==> bitmap[p] == (p < pages)
    {
      this.log := log;
      bitmap := seq(|log|, p => p < pages);
      dirtyPages := pages;
      new;
      CountOnes(bitmap, pages);
    }

    /** migration_bitmap_set_dirty */
    method SetDirty(p: nat) returns (was: bool)
      requires Valid() && p < |bitmap|
      modifies this`bitmap, this`dirtyPages
      ensures Valid() && bitmap == old(bitmap)[p := true] && was == old(bitmap)[p]
    {
      CountUpdate(bitmap, p, true);
      was := bitmap[p];
      bitmap := bitmap[p := true];
      if !was {
        dirtyPages := dirtyPages + 1;
      }
    }

    /** One word of the fast path. */
    method SyncWord(k: nat)
      requires Valid() && (k + 1) * BITS_PER_LONG <= |bitmap|
      modifies this
      ensures Valid()
      ensures Moved(old(log), old(bitmap), log, bitmap, k * BITS_PER_LONG, (k + 1) * BITS_PER_LONG)
    {
      var i, j := k * BITS_PER_LONG, (k + 1) * BITS_PER_LONG;
      var word, logged := bitmap[i..j], log[i..j];
      CountOr(word, logged);
      CountSplice(bitmap, i, Or(word, logged));
      if logged != Zero(BITS_PER_LONG) {
        bitmap := Splice(bitmap, i, Or(word, logged));
        dirtyPages := dirtyPages + Count(New(word, logged));
        log := Splice(log, i, Zero(BITS_PER_LONG));
      } else {
        assert forall p :: i <= p < j ==> log[p] == logged[p - i];
      }
    }

    /** migration_bitmap_sync_range: on either path nothing is lost, and the block's pages leave the log. */
    method SyncRange(start: nat, pages: nat)
      requires Valid() && start + pages <= |bitmap|
      modifies this
      ensures Valid()
      ensures Moved(old(log), old(bitmap), log, bitmap, start,
                    if start % BITS_PER_LONG == 0 then AlignUp(start + pages, BITS_PER_LONG) else start + pages)
    {
      if start % BITS_PER_LONG == 0 {
        var page := start / BITS_PER_LONG;
        var nr := (pages + BITS_PER_LONG - 1) / BITS_PER_LONG;
        WordsOfBlock(start, pages, |bitmap|);
        var k := page;
        while k < page + nr
          invariant page <= k <= page + nr && Valid() && |bitmap| == |old(bitmap)|
          invariant Moved(old(log), old(bitmap), log, bitmap, start, k * BITS_PER_LONG)
        {
          ghost var l, b := log, bitmap;
          SyncWord(k);
          MovedTrans(old(log), old(bitmap), l, b, log, bitmap, start, k * BITS_PER_LONG, (k + 1) * BITS_PER_LONG);
          k := k + 1;
        }
      } else {
        var addr := 0;
        while addr < pages
          invariant 0 <= addr <= pages && Valid() && |bitmap| == |old(bitmap)|
          invariant Moved(old(log), old(bitmap), log, bitmap, start, start + addr)
        {
          if log[start + addr] {
            log := log[start + addr := false];
            var was := SetDirty(start + addr);
          }
          addr := addr + 1;
        }
      }
    }
  }

  lemma WordsOfBlock(start: nat, pages: nat, n: nat)
    requires start % BITS_PER_LONG == 0 && n % BITS_PER_LONG == 0 && start + pages <= n
    ensures var page, nr := start / BITS_PER_LONG, (pages + BITS_PER_LONG - 1) / BITS_PER_LONG;
            page * BITS_PER_LONG == start && (page + nr) * BITS_PER_LONG == AlignUp(start + pages, BITS_PER_LONG) <= n
  {
    if AlignUp(start + pages, BITS_PER_LONG) > n {
      MultiplesApart(n, AlignUp(start + pages, BITS_PER_LONG), BITS_PER_LONG);
    }
  }
}
