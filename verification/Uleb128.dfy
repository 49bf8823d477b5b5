/** Lengths as one or two bytes of seven bits (util/cutils.c). */
module Uleb128 {

  /** A byte as bit operations and word-wise comparisons see it. */
  type Octet = bv8

  const MAX_RUN := 0x3fff

  function Uleb(n: nat): (s: seq<Octet>)
    requires n <= MAX_RUN
    ensures 1 <= |s| <= 2
  {
    if n < 0x80 then [n as bv8] else [((n % 0x80) as bv8) | 0x80, (n / 0x80) as bv8]
  }

  datatype Length = Bad | Length(count: nat, bytes: nat)

  function UlebDecode(s: seq<Octet>): Length
    requires |s| >= 2
  {
    if s[0] & 0x80 == 0 then Length(s[0] as nat, 1)
    else if s[1] & 0x80 != 0 then Bad
    else Length((s[0] & 0x7f) as nat + (s[1] as nat) * 0x80, 2)
  }

  lemma NumberBack(x: Octet)
    ensures (x as nat) as bv8 == x
  {
  }

  lemma OneMoreBit(x: Octet, odd: bool)
    requires x as nat < 0x40
    ensures ((x << 1) | (if odd then 1 else 0)) as nat == 2 * (x as nat) + (if odd then 1 else 0)
  {
  }

  lemma {:induction false} ByteBack(n: nat)
    requires n < 0x80
    ensures (n as bv8) as nat == n
  {
    if n > 0 {
      ByteBack(n / 2);
      OneMoreBit((n / 2) as bv8, n % 2 == 1);
      NumberBack(((n / 2) as bv8 << 1) | (if n % 2 == 1 then 1 else 0));
    }
  }

  lemma LowBits(x: Octet)
    requires x as nat < 0x80
    ensures x & 0x80 == 0 && x & 0x7f == x && (x | 0x80) & 0x80 != 0 && (x | 0x80) & 0x7f == x
  {
  }

  lemma SmallByte(n: nat)
    requires n < 0x80
    ensures (n as bv8) & 0x80 == 0 && (n as bv8) & 0x7f == n as bv8 && (n as bv8) as nat == n
    ensures ((n as bv8) | 0x80) & 0x80 != 0 && ((n as bv8) | 0x80) & 0x7f == n as bv8
  {
    ByteBack(n);
    LowBits(n as bv8);
  }

  /** Seven bits a byte, the lowest first; the top bit is set on the first of two bytes only. */
  lemma UlebFormat(n: nat)
    requires n <= MAX_RUN
    ensures var s := Uleb(n);
            && (|s| == 2 <==> n >= 0x80) && (s[0] & 0x80 != 0 <==> |s| == 2) && (|s| == 2 ==> s[1] & 0x80 == 0)
            && (s[0] & 0x7f) as nat + (if |s| == 2 then (s[1] & 0x7f) as nat * 0x80 else 0) == n
  {
    if n < 0x80 {
      SmallByte(n);
    } else {
      SmallByte(n % 0x80);
      SmallByte(n / 0x80);
    }
  }

  lemma UlebRoundTrip(n: nat, rest: seq<Octet>)
    requires n <= MAX_RUN && rest != []
    ensures UlebDecode(Uleb(n) + rest) == Length(n, |Uleb(n)|)
  {
    if n < 0x80 {
      SmallByte(n);
    } else {
      SmallByte(n % 0x80);
      SmallByte(n / 0x80);
    }
  }
}
