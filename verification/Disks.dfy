/** Disk contents as a function from byte addresses. */
module Disks {

  type Byte = x: int | 0 <= x < 256

  /** A disk without end; what lies past the end of a growable image reads as zeroes. */
  type Disk = nat -> Byte

  /** Bytes [offset, offset + bytes) of a disk. */
  function Block(disk: Disk, offset: nat, bytes: nat): (b: seq<Byte>)
    ensures |b| == bytes
  {
    seq(bytes, i requires 0 <= i => disk(offset + i))
  }

  function Overlay(disk: Disk, offset: nat, data: seq<Byte>): Disk {
    (a: nat) => if offset <= a < offset + |data| then data[a - offset] else disk(a)
  }

  ghost predicate SameBytes(a: Disk, b: Disk) {
    forall i: nat :: a(i) == b(i)
  }
}
