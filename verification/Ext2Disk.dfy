/**
 A disk as a sequence of bytes, read and written in sectors of 512 bytes, and the blocks of a
 file system on it.
 */
module Ext2Disk {

  type byte = b: nat | b < 256

  const SECTOR := 512

  type Disk = seq<byte>

  /** Block sizes are `1024 << block_size_log`, up to 64 KB. */
  predicate BlockSize(bs: nat) { bs % 1024 == 0 && 1024 <= bs <= 0x1_0000 }

  /** Addresses are computed in 32 bits. */
  predicate SmallDisk(disk: Disk) { |disk| <= 0x1_0000_0000 }

  // ---------------------------------------------------------------- ranges of bytes

  function Splice(disk: Disk, at: nat, data: seq<byte>): (out: Disk)
    requires at + |data| <= |disk|
    ensures |out| == |disk|
    ensures forall k | 0 <= k < |disk| :: out[k] == if at <= k < at + |data| then data[k - at] else disk[k]
  {
    disk[..at] + data + disk[at + |data|..]
  }

  lemma SpliceSame(disk: Disk, at: nat, data: seq<byte>)
    requires at + |data| <= |disk|
    ensures Splice(disk, at, data)[at..at + |data|] == data
  {
  }

  lemma SpliceApart(disk: Disk, at: nat, data: seq<byte>, from: nat, n: nat)
    requires at + |data| <= |disk| && from + n <= |disk| && (from + n <= at || at + |data| <= from)
    ensures Splice(disk, at, data)[from..from + n] == disk[from..from + n]
  {
  }

  // ---------------------------------------------------------------- sectors

  /** A read of `cnt` sectors.  On a `faulty` device any transfer may fail, on others none
      does. */
  method ReadSectors(disk: Disk, faulty: bool, lba: nat, cnt: nat) returns (err: bool, data: seq<byte>)
    requires lba * SECTOR + cnt * SECTOR <= |disk|
    ensures !err ==> data == disk[lba * SECTOR..lba * SECTOR + cnt * SECTOR]
    ensures err ==> faulty
  {
    err := *;
    err := err && faulty;
    data := if err then [] else disk[lba * SECTOR..lba * SECTOR + cnt * SECTOR];
  }

  /** A write of `cnt` sectors; if it fails the disk is as before. */
  method WriteSectors(disk: Disk, faulty: bool, lba: nat, cnt: nat, data: seq<byte>) returns (err: bool, out: Disk)
    requires lba * SECTOR + cnt * SECTOR <= |disk| && |data| == cnt * SECTOR
    ensures out == if err then disk else Splice(disk, lba * SECTOR, data)
    ensures err ==> faulty
  {
    err := *;
    err := err && faulty;
    out := if err then disk else Splice(disk, lba * SECTOR, data);
  }

  // ---------------------------------------------------------------- blocks

  /** The address of block `b`, which the code computes as `b * block_size`. */
  function Start(bs: nat, b: nat): nat { if b == 0 then 0 else Start(bs, b - 1) + bs }

  lemma {:induction false} StartIs(bs: nat, b: nat)
    ensures Start(bs, b) == b * bs
  {
    if b > 0 {
      StartIs(bs, b - 1);
      assert b * bs == (b - 1) * bs + bs;
    }
  }

  predicate InDisk(disk: Disk, bs: nat, b: nat) { Start(bs, b) + bs <= |disk| }

  function Block(disk: Disk, bs: nat, b: nat): (data: seq<byte>)
    requires InDisk(disk, bs, b)
    ensures |data| == bs
  {
    disk[Start(bs, b)..Start(bs, b) + bs]
  }

  function PutBlock(disk: Disk, bs: nat, b: nat, data: seq<byte>): (out: Disk)
    requires InDisk(disk, bs, b) && |data| == bs
    ensures |out| == |disk|
  {
    Splice(disk, Start(bs, b), data)
  }

  lemma {:induction false} BlocksApart(bs: nat, b: nat, c: nat)
    requires b < c
    ensures Start(bs, b) + bs <= Start(bs, c)
  {
    if b + 1 < c { BlocksApart(bs, b, c - 1); }
  }

  /** A block reads back as it was written, and no other block changes. */
  lemma PutBlockReads(disk: Disk, bs: nat, b: nat, data: seq<byte>, c: nat)
    requires InDisk(disk, bs, b) && |data| == bs && InDisk(disk, bs, c)
    ensures Block(PutBlock(disk, bs, b, data), bs, c) == if c == b then data else Block(disk, bs, c)
  {
    if c < b {
      BlocksApart(bs, c, b);
      SpliceApart(disk, Start(bs, b), data, Start(bs, c), bs);
    } else if b < c {
      BlocksApart(bs, b, c);
      SpliceApart(disk, Start(bs, b), data, Start(bs, c), bs);
    } else {
      SpliceSame(disk, Start(bs, b), data);
    }
  }

  /** `b * block_size / SECTOR_SIZE` is the sector where block `b` starts. */
  lemma StartSector(bs: nat, b: nat)
    requires BlockSize(bs)
    ensures b * bs / SECTOR * SECTOR == Start(bs, b) == b * bs
  {
    StartIs(bs, b);
    var k := bs / SECTOR;
    assert bs == k * SECTOR;
    var x := b * k;
    assert b * bs == x * SECTOR;
    assert x * SECTOR / SECTOR == x;
  }

  /** The sectors of a block are the block exactly, and its address does not wrap. */
  lemma BlockSectors(disk: Disk, bs: nat, b: nat)
    requires BlockSize(bs) && SmallDisk(disk) && InDisk(disk, bs, b)
    ensures b * bs < 0x1_0000_0000
    ensures b * bs / SECTOR * SECTOR == Start(bs, b) && bs / SECTOR * SECTOR == bs
  {
    StartSector(bs, b);
  }

  method ReadBlock(disk: Disk, faulty: bool, bs: nat, b: nat) returns (err: bool, data: seq<byte>)
    requires BlockSize(bs) && SmallDisk(disk) && InDisk(disk, bs, b)
    ensures !err ==> data == Block(disk, bs, b)
    ensures err ==> faulty
  {
    BlockSectors(disk, bs, b);
    err, data := ReadSectors(disk, faulty, b * bs / SECTOR, bs / SECTOR);
  }

  method WriteBlock(disk: Disk, faulty: bool, bs: nat, b: nat, data: seq<byte>) returns (err: bool, out: Disk)
    requires BlockSize(bs) && SmallDisk(disk) && InDisk(disk, bs, b) && |data| == bs
    ensures out == if err then disk else PutBlock(disk, bs, b, data)
    ensures err ==> faulty
  {
    BlockSectors(disk, bs, b);
    err, out := WriteSectors(disk, faulty, b * bs / SECTOR, bs / SECTOR, data);
  }

  // ---------------------------------------------------------------- little-endian words

  function U32(s: seq<byte>, at: nat): (w: nat)
    requires at + 4 <= |s|
    ensures w < 0x1_0000_0000
  {
    (s[at] as nat) + (s[at + 1] as nat) * 0x100 + (s[at + 2] as nat) * 0x1_0000 + (s[at + 3] as nat) * 0x100_0000
  }

  function Bytes32(w: nat): (s: seq<byte>)
    requires w < 0x1_0000_0000
    ensures |s| == 4
  {
    [w % 0x100, w / 0x100 % 0x100, w / 0x1_0000 % 0x100, w / 0x100_0000]
  }

  lemma U32RoundTrip(w: nat)
    requires w < 0x1_0000_0000
    ensures U32(Bytes32(w), 0) == w
  {
    var a := w / 0x100;
    var b := w / 0x1_0000;
    assert b == a / 0x100;
    assert w / 0x100_0000 == b / 0x100;
    assert a == b * 0x100 + a % 0x100;
    assert b == b / 0x100 * 0x100 + b % 0x100;
  }

  /** Storing a word in a struct: it reads back, and words elsewhere are kept. */
  lemma U32Store(s: seq<byte>, at: nat, w: nat, other: nat)
    requires at + 4 <= |s| && other + 4 <= |s| && w < 0x1_0000_0000
             && (other == at || other + 4 <= at || at + 4 <= other)
    ensures U32(Splice(s, at, Bytes32(w)), other) == if other == at then w else U32(s, other)
  {
    U32RoundTrip(w);
  }
}
