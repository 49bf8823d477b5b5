/** The page bitmaps of a kdump file (dump.c). Bits are set in increasing order in a buffer of one page, which is
    written out to both bitmaps whenever the next bit lies beyond it. */
module KdumpBitmap {
  import opened Arith
  import opened Disks

  const BUFSIZE_BITMAP: nat := 4096
  const CHAR_BIT: nat := 8
  const PFN_BUFBITMAP: nat := 32768

  // ---- Bits of a byte ----

  predicate Bit(b: nat, k: nat) {
    if k == 0 then b % 2 == 1 else Bit(b / 2, k - 1)
  }

  /** `b | 1 << k`, or `b & ~(1 << k)`, of n bits */
  function WithBit(b: nat, k: nat, value: bool, n: nat): (r: nat)
    requires k < n && b < Pow2(n)
    ensures r < Pow2(n)
  {
    if k == 0 then b - b % 2 + (if value then 1 else 0)
    else b % 2 + 2 * WithBit(b / 2, k - 1, value, n - 1)
  }

  lemma {:induction false} WithBitIs(b: nat, k: nat, value: bool, n: nat, j: nat)
    requires k < n && b < Pow2(n)
    ensures Bit(WithBit(b, k, value, n), j) == if j == k then value else Bit(b, j)
  {
    if k > 0 && j > 0 {
      WithBitIs(b / 2, k - 1, value, n - 1, j - 1);
    }
  }

  /** Bit k has the value 2^k. */
  lemma {:induction false} BitValue(b: nat, k: nat)
    ensures Bit(b, k) <==> b / Pow2(k) % 2 == 1
  {
    if k > 0 {
      BitValue(b / 2, k - 1);
      DivDiv(b, 2, Pow2(k - 1));
    }
  }

  lemma {:induction false} ZeroBits(k: nat)
    ensures !Bit(0, k)
  {
    if k > 0 {
      ZeroBits(k - 1);
    }
  }

  lemma ByteBits()
    ensures Pow2(CHAR_BIT) == 256
  {
    assert Pow2(6) == 2 * Pow2(5) && Pow2(5) == 2 * Pow2(4) && Pow2(4) == 2 * Pow2(3) && Pow2(3) == 2 * Pow2(2);
    assert Pow2(7) == 2 * Pow2(6);
  }

  // ---- Bits of a buffer and of a file ----

  predicate BufBit(buf: seq<Byte>, k: nat)
    requires |buf| == BUFSIZE_BITMAP && k < PFN_BUFBITMAP
  {
    Bit(buf[k / CHAR_BIT], k % CHAR_BIT)
  }

  /** Bit p of the bitmap that is at `offset` in the file. */
  predicate FileBit(file: Disk, offset: nat, p: nat) {
    Bit(file(offset + p / CHAR_BIT), p % CHAR_BIT)
  }

  /** The buffer holds the bits of chunk c of the set. */
  ghost predicate BufHolds(buf: seq<Byte>, s: set<nat>, c: nat) {
    && |buf| == BUFSIZE_BITMAP
    && forall k :: 0 <= k < PFN_BUFBITMAP ==> BufBit(buf, k) == (c * PFN_BUFBITMAP + k in s)
  }

  /** The bitmap at `offset` holds the bits of the chunks before c. */
  ghost predicate FileHolds(file: Disk, offset: nat, s: set<nat>, c: nat) {
    forall p: nat :: p < c * PFN_BUFBITMAP ==> FileBit(file, offset, p) == (p in s)
  }

  lemma SameByte(j: nat, k: nat)
    ensures j / CHAR_BIT == k / CHAR_BIT && j % CHAR_BIT == k % CHAR_BIT ==> j == k
  {
  }

  /** Setting or clearing a bit of the buffer. */
  lemma BufWith(buf: seq<Byte>, s: set<nat>, c: nat, k: nat, value: bool)
    requires BufHolds(buf, s, c) && k < PFN_BUFBITMAP && Pow2(CHAR_BIT) == 256
    ensures var pfn := c * PFN_BUFBITMAP + k;
            BufHolds(buf[k / CHAR_BIT := WithBit(buf[k / CHAR_BIT], k % CHAR_BIT, value, CHAR_BIT)],
                     if value then s + {pfn} else s - {pfn}, c)
  {
    hide Bit, WithBit, Pow2;
    var buf' := buf[k / CHAR_BIT := WithBit(buf[k / CHAR_BIT], k % CHAR_BIT, value, CHAR_BIT)];
    forall j | 0 <= j < PFN_BUFBITMAP
      ensures BufBit(buf', j) == if j == k then value else BufBit(buf, j)
    {
      WithBitIs(buf[k / CHAR_BIT], k % CHAR_BIT, value, CHAR_BIT, j % CHAR_BIT);
      SameByte(j, k);
    }
  }

  /** Writing the buffer out makes the file hold one chunk more. */
  lemma FileWith(file: Disk, offset: nat, buf: seq<Byte>, s: set<nat>, c: nat)
    requires FileHolds(file, offset, s, c) && BufHolds(buf, s, c)
    ensures FileHolds(Overlay(file, offset + c * BUFSIZE_BITMAP, buf), offset, s, c + 1)
  {
    hide Bit;
    var file' := Overlay(file, offset + c * BUFSIZE_BITMAP, buf);
    forall p: nat | p < (c + 1) * PFN_BUFBITMAP
      ensures FileBit(file', offset, p) == (p in s)
    {
      if p < c * PFN_BUFBITMAP {
        assert p / CHAR_BIT < c * BUFSIZE_BITMAP;
      } else {
        var k := p - c * PFN_BUFBITMAP;
        assert p / CHAR_BIT == c * BUFSIZE_BITMAP + k / CHAR_BIT && p % CHAR_BIT == k % CHAR_BIT;
        assert BufBit(buf, k) == (p in s);
      }
    }
  }

  /** A file that is the same within the bitmap holds the same bits. */
  lemma FileFrame(file: Disk, file': Disk, offset: nat, s: set<nat>, c: nat)
    requires FileHolds(file, offset, s, c)
    requires forall a: nat :: offset <= a < offset + c * BUFSIZE_BITMAP ==> file'(a) == file(a)
    ensures FileHolds(file', offset, s, c)
  {
    hide Bit;
    forall p: nat | p < c * PFN_BUFBITMAP
      ensures FileBit(file', offset, p) == (p in s)
    {
      assert p / CHAR_BIT < c * BUFSIZE_BITMAP;
      assert FileBit(file, offset, p) == (p in s);
    }
  }

  lemma ZeroHolds(buf: seq<Byte>, s: set<nat>, c: nat)
    requires |buf| == BUFSIZE_BITMAP && forall i :: 0 <= i < |buf| ==> buf[i] == 0
    requires forall p :: p in s ==> p < c * PFN_BUFBITMAP
    ensures BufHolds(buf, s, c)
  {
    hide Bit;
    forall k | 0 <= k < PFN_BUFBITMAP
      ensures BufBit(buf, k) == (c * PFN_BUFBITMAP + k in s)
    {
      ZeroBits(k % CHAR_BIT);
    }
  }
}
