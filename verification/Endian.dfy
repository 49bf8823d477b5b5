/** Numbers as bytes, most or least significant byte first. */
module Endian {
  import opened Arith
  import opened Disks

  /** How many numbers n bytes can tell apart. */
  ghost function Bound(n: nat): (r: nat)
    ensures r > 0
  {
    if n == 0 then 1 else 256 * Bound(n - 1)
  }

  lemma Bounds()
    ensures Bound(2) == 0x1_0000 && Bound(4) == 0x1_0000_0000 && Bound(8) == 0x1_0000_0000_0000_0000
  {
    assert Bound(3) == 256 * Bound(2);
    assert Bound(5) == 256 * Bound(4) && Bound(4) == 256 * Bound(3);
    assert Bound(7) == 256 * Bound(6) && Bound(6) == 256 * Bound(5);
  }

  function PutBe(v: nat, n: nat): (r: seq<Byte>)
    ensures |r| == n
  {
    if n == 0 then [] else PutBe(v / 256, n - 1) + [v % 256]
  }

  /** The most significant byte comes first. */
  lemma {:induction false} BeByte(v: nat, n: nat, i: nat)
    requires i < n
    ensures PutBe(v, n)[i] == v / Bound(n - 1 - i) % 256
  {
    if i < n - 1 {
      BeByte(v / 256, n - 1, i);
      DivDiv(v, 256, Bound(n - 2 - i));
    }
  }

  function BeValue(s: seq<Byte>): nat {
    if s == [] then 0 else BeValue(s[..|s| - 1]) * 256 + s[|s| - 1]
  }

  lemma {:induction false} BeRoundTrip(v: nat, n: nat)
    requires v < Bound(n)
    ensures BeValue(PutBe(v, n)) == v
  {
    if n > 0 {
      BeRoundTrip(v / 256, n - 1);
      assert PutBe(v, n)[..n - 1] == PutBe(v / 256, n - 1);
    }
  }

  function PutLe(v: nat, n: nat): (r: seq<Byte>)
    ensures |r| == n
  {
    if n == 0 then [] else [v % 256] + PutLe(v / 256, n - 1)
  }

  /** The least significant byte comes first. */
  lemma {:induction false} LeByte(v: nat, n: nat, i: nat)
    requires i < n
    ensures PutLe(v, n)[i] == v / Bound(i) % 256
  {
    if i > 0 {
      LeByte(v / 256, n - 1, i - 1);
      DivDiv(v, 256, Bound(i - 1));
    }
  }

  function LeValue(s: seq<Byte>): nat {
    if s == [] then 0 else s[0] + 256 * LeValue(s[1..])
  }

  lemma {:induction false} LeRoundTrip(v: nat, n: nat)
    requires v < Bound(n)
    ensures LeValue(PutLe(v, n)) == v
  {
    if n > 0 {
      LeRoundTrip(v / 256, n - 1);
      assert PutLe(v, n)[1..] == PutLe(v / 256, n - 1);
    }
  }
}
