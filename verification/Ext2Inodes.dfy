/**
 `group_descriptor_transfer` (reading) and `inode_transfer` of src/common/ext2.c, and the
 whole of `ext2_transfer`.
 */
module Ext2Inodes {
  import opened Common
  import opened Ext2Disk
  import opened Ext2File

  /** What the code takes from the superblock: block size, inodes per group and the size of an
      inode on disk; and the number of groups. */
  datatype Super = Super(bs: nat, perGroup: nat, inodeSize: nat, groups: nat)

  const DESCRIPTOR := 32

  /** The inode sizes that divide a sector. */
  predicate InodeSize(sz: nat) { sz == 128 || sz == 256 || sz == 512 }

  function DescriptorTable(bs: nat): nat { if bs < 2048 then 2048 else bs }

  function DescriptorAt(sb: Super, g: nat): nat { DescriptorTable(sb.bs) + DESCRIPTOR * g }

  /** Where the inode table of group `g` starts, according to the group's descriptor. */
  function TableStart(disk: Disk, sb: Super, g: nat): nat
    requires DescriptorAt(sb, g) + DESCRIPTOR <= |disk|
  {
    Start(sb.bs, U32(disk, DescriptorAt(sb, g) + 8))
  }

  /** A file system whose descriptors and inode tables lie on the disk without overlap. */
  ghost predicate Layout(disk: Disk, sb: Super) {
    && BlockSize(sb.bs) && InodeSize(sb.inodeSize) && 0 < sb.perGroup && SmallDisk(disk) && |disk| % SECTOR == 0
    && DescriptorAt(sb, sb.groups) + SECTOR <= |disk|
    && (forall g | 0 <= g < sb.groups :: OnDisk(disk, sb, g))
    && (forall g, h | 0 <= g < h < sb.groups :: TablesApart(disk, sb, g, h))
  }

  ghost predicate OnDisk(disk: Disk, sb: Super, g: nat)
    requires DescriptorAt(sb, g) + DESCRIPTOR <= |disk|
  {
    DescriptorAt(sb, sb.groups) <= TableStart(disk, sb, g)
        && TableStart(disk, sb, g) + Start(sb.inodeSize, sb.perGroup) <= |disk|
  }

  ghost predicate TablesApart(disk: Disk, sb: Super, g: nat, h: nat)
    requires DescriptorAt(sb, g) + DESCRIPTOR <= |disk| && DescriptorAt(sb, h) + DESCRIPTOR <= |disk|
  {
    var n := Start(sb.inodeSize, sb.perGroup);
    TableStart(disk, sb, g) + n <= TableStart(disk, sb, h) || TableStart(disk, sb, h) + n <= TableStart(disk, sb, g)
  }

  /** Inode ids start at 1. */
  ghost predicate Id(sb: Super, id: nat)
    requires 0 < sb.perGroup
  {
    1 <= id && (id - 1) / sb.perGroup < sb.groups
  }

  /** The first byte of inode number `idx` of group `g`. */
  function SlotAt(disk: Disk, sb: Super, g: nat, idx: nat): nat
    requires DescriptorAt(sb, g) + DESCRIPTOR <= |disk|
  {
    TableStart(disk, sb, g) + Start(sb.inodeSize, idx)
  }

  lemma GroupFits(disk: Disk, sb: Super, g: nat)
    requires Layout(disk, sb) && g < sb.groups
    ensures DescriptorAt(sb, g) + DESCRIPTOR <= DescriptorAt(sb, sb.groups) <= |disk|
  {
  }

  /** Slots lie behind the descriptors and on the disk. */
  lemma SlotOnDisk(disk: Disk, sb: Super, g: nat, idx: nat)
    requires Layout(disk, sb) && g < sb.groups && idx < sb.perGroup
    ensures DescriptorAt(sb, g) + DESCRIPTOR <= DescriptorAt(sb, sb.groups)
    ensures DescriptorAt(sb, sb.groups) <= SlotAt(disk, sb, g, idx) && SlotAt(disk, sb, g, idx) + sb.inodeSize <= |disk|
  {
    GroupFits(disk, sb, g);
    assert OnDisk(disk, sb, g);
    BlocksApart(sb.inodeSize, idx, sb.perGroup);
  }

  ghost predicate Apart(a: nat, b: nat, n: nat) { a + n <= b || b + n <= a }

  lemma SlotsInOrder(disk: Disk, sb: Super, g: nat, i: nat, h: nat, j: nat)
    requires Layout(disk, sb) && g < h < sb.groups && i < sb.perGroup && j < sb.perGroup
    ensures DescriptorAt(sb, g) + DESCRIPTOR <= |disk| && DescriptorAt(sb, h) + DESCRIPTOR <= |disk|
    ensures Apart(SlotAt(disk, sb, g, i), SlotAt(disk, sb, h, j), sb.inodeSize)
  {
    GroupFits(disk, sb, g);
    GroupFits(disk, sb, h);
    assert TablesApart(disk, sb, g, h);
    BlocksApart(sb.inodeSize, i, sb.perGroup);
    BlocksApart(sb.inodeSize, j, sb.perGroup);
  }

  /** Distinct inodes occupy disjoint bytes. */
  lemma SlotsApart(disk: Disk, sb: Super, g: nat, i: nat, h: nat, j: nat)
    requires Layout(disk, sb) && g < sb.groups && h < sb.groups && i < sb.perGroup && j < sb.perGroup
             && (g != h || i != j)
    ensures DescriptorAt(sb, g) + DESCRIPTOR <= |disk| && DescriptorAt(sb, h) + DESCRIPTOR <= |disk|
    ensures Apart(SlotAt(disk, sb, g, i), SlotAt(disk, sb, h, j), sb.inodeSize)
  {
    GroupFits(disk, sb, g);
    GroupFits(disk, sb, h);
    if g < h {
      SlotsInOrder(disk, sb, g, i, h, j);
    } else if h < g {
      SlotsInOrder(disk, sb, h, j, g, i);
    } else if i < j {
      BlocksApart(sb.inodeSize, i, j);
    } else {
      BlocksApart(sb.inodeSize, j, i);
    }
  }

  // ---------------------------------------------------------------- transfers

  /** Reading the descriptor of group `g`: its 32 bytes. */
  method ReadDescriptor(disk: Disk, faulty: bool, sb: Super, g: nat) returns (err: bool, d: seq<byte>)
    requires Layout(disk, sb) && g < sb.groups
    ensures !err ==>
            && DescriptorAt(sb, g) + DESCRIPTOR <= |disk|
            && d == disk[DescriptorAt(sb, g)..DescriptorAt(sb, g) + DESCRIPTOR]
    ensures err ==> faulty
  {
    DescriptorSector(sb.bs, g);
    GroupFits(disk, sb, g);
    var lba := g * DESCRIPTOR / SECTOR + DescriptorTable(sb.bs) / SECTOR;
    var sector;
    err, sector := ReadSectors(disk, faulty, lba, 1);
    var at := g % (SECTOR / DESCRIPTOR) * DESCRIPTOR;
    SliceSlice(disk, lba * SECTOR, SECTOR, at, DESCRIPTOR, DescriptorAt(sb, g));
    d := if err then [] else sector[at..at + DESCRIPTOR];
  }

  lemma SliceSlice(disk: Disk, from: nat, n: nat, at: nat, m: nat, slot: nat)
    requires from + n <= |disk| && at + m <= n && slot == from + at
    ensures disk[from..from + n][at..at + m] == disk[slot..slot + m]
  {
    var outer := disk[from..from + n];
    var a, b := outer[at..at + m], disk[slot..slot + m];
    forall k | 0 <= k < m ensures a[k] == b[k] { assert a[k] == outer[at + k]; }
    assert a == b;
  }

  lemma DescriptorSector(bs: nat, g: nat)
    requires BlockSize(bs)
    ensures var lba := g * DESCRIPTOR / SECTOR + DescriptorTable(bs) / SECTOR;
            && lba * SECTOR + g % 16 * DESCRIPTOR == DescriptorTable(bs) + DESCRIPTOR * g
            && lba * SECTOR <= DescriptorTable(bs) + DESCRIPTOR * g
  {
    assert DescriptorTable(bs) / SECTOR * SECTOR == DescriptorTable(bs);
    assert g == g / 16 * 16 + g % 16;
    assert g * DESCRIPTOR / SECTOR == g / 16;
  }

  /** `idx * inode_size / SECTOR_SIZE` and `idx % (SECTOR_SIZE / inode_size)` name the sector and
      the place in it of inode `idx`. */
  lemma InodeSector(sz: nat, idx: nat)
    requires InodeSize(sz)
    ensures (idx * sz / SECTOR) * SECTOR + idx % (SECTOR / sz) * sz == Start(sz, idx)
    ensures idx % (SECTOR / sz) * sz + sz <= SECTOR
  {
    StartIs(sz, idx);
    if sz == 128 {
      Quarters(idx);
    } else if sz == 256 {
      Halves(idx);
    }
  }

  lemma Quarters(idx: nat)
    ensures (idx * 128 / 512) * 512 + idx % 4 * 128 == idx * 128
  {
    var q := idx / 4;
    assert idx * 128 == q * 512 + idx % 4 * 128;
    assert idx * 128 / 512 == q;
  }

  lemma Halves(idx: nat)
    ensures (idx * 256 / 512) * 512 + idx % 2 * 256 == idx * 256
  {
    var q := idx / 2;
    assert idx * 256 == q * 512 + idx % 2 * 256;
    assert idx * 256 / 512 == q;
  }

  /** Changing part of a sector and writing the sector changes that part of the disk. */
  lemma SpliceInside(disk: Disk, at: nat, n: nat, a: nat, piece: seq<byte>, slot: nat)
    requires at + n <= |disk| && a + |piece| <= n && slot == at + a
    ensures Splice(disk, at, Splice(disk[at..at + n], a, piece)) == Splice(disk, slot, piece)
  {
  }

  /** The group of inode `id`, and its number in the group. */
  function Group(sb: Super, id: nat): nat
    requires 0 < sb.perGroup && 1 <= id
  {
    (id - 1) / sb.perGroup
  }

  function Index(sb: Super, id: nat): nat
    requires 0 < sb.perGroup && 1 <= id
  {
    (id - 1) % sb.perGroup
  }

  /** The first byte of inode `id`. */
  function SlotOf(disk: Disk, sb: Super, id: nat): (at: nat)
    requires Layout(disk, sb) && Id(sb, id)
    ensures DescriptorAt(sb, sb.groups) <= at && at + sb.inodeSize <= |disk|
  {
    SlotOnDisk(disk, sb, Group(sb, id), Index(sb, id));
    SlotAt(disk, sb, Group(sb, id), Index(sb, id))
  }

  /** The 128 bytes of `struct ext2_inode` on disk. */
  function InodeOf(disk: Disk, sb: Super, id: nat): (inode: seq<byte>)
    requires Layout(disk, sb) && Id(sb, id)
    ensures |inode| == INODE_BYTES
  {
    disk[SlotOf(disk, sb, id)..SlotOf(disk, sb, id) + INODE_BYTES]
  }

  lemma SlotSector(disk: Disk, lba: nat, at: nat, slot: nat, sz: nat)
    requires |disk| % SECTOR == 0 && lba * SECTOR + at == slot && slot + sz <= |disk| && 0 < sz && at + sz <= SECTOR
    ensures lba * SECTOR + SECTOR <= |disk|
  {
    var n := |disk| / SECTOR;
    assert |disk| == n * SECTOR;
    assert lba * SECTOR < n * SECTOR;
    assert lba + 1 <= n;
  }

  /** The sector of an inode and the place in it, by way of the group's descriptor. */
  method FindInode(disk: Disk, faulty: bool, sb: Super, id: nat) returns (err: bool, lba: nat, at: nat)
    requires Layout(disk, sb) && Id(sb, id)
    ensures !err ==>
            lba * SECTOR + at == SlotOf(disk, sb, id) && at + sb.inodeSize <= SECTOR && lba * SECTOR + SECTOR <= |disk|
    ensures err ==> faulty
  {
    var group, idx := Group(sb, id), Index(sb, id);
    var d;
    err, d := ReadDescriptor(disk, faulty, sb, group);
    if err {
      return err, 0, 0;
    }
    SlotOnDisk(disk, sb, group, idx);
    var table := U32(d, 8);
    DescriptorWord(disk, DescriptorAt(sb, group), 8);
    lba, at := PlaceInode(disk, sb, group, idx, table);
    SlotSector(disk, lba, at, SlotOf(disk, sb, id), sb.inodeSize);
  }

  lemma DescriptorWord(disk: Disk, at: nat, off: nat)
    requires at + DESCRIPTOR <= |disk| && off + 4 <= DESCRIPTOR
    ensures U32(disk[at..at + DESCRIPTOR], off) == U32(disk, at + off)
  {
  }

  /** The address arithmetic of `inode_transfer`. */
  method PlaceInode(disk: Disk, sb: Super, group: nat, idx: nat, table: nat) returns (lba: nat, at: nat)
    requires Layout(disk, sb) && group < sb.groups && idx < sb.perGroup
             && DescriptorAt(sb, group) + DESCRIPTOR <= |disk|
    requires table == U32(disk, DescriptorAt(sb, group) + 8)
    ensures lba * SECTOR + at == SlotAt(disk, sb, group, idx) && at + sb.inodeSize <= SECTOR
  {
    InodeSector(sb.inodeSize, idx);
    StartSector(sb.bs, table);
    lba := idx * sb.inodeSize / SECTOR + table * sb.bs / SECTOR;
    at := idx % (SECTOR / sb.inodeSize) * sb.inodeSize;
  }

  /** `inode_transfer` for a read. */
  method ReadInode(disk: Disk, faulty: bool, sb: Super, id: nat) returns (err: bool, inode: seq<byte>)
    requires Layout(disk, sb) && Id(sb, id)
    ensures !err ==> inode == InodeOf(disk, sb, id)
    ensures err ==> faulty
  {
    var lba, at;
    err, lba, at := FindInode(disk, faulty, sb, id);
    inode := [];
    if !err {
      var sector;
      err, sector := ReadSectors(disk, faulty, lba, 1);
      SliceSlice(disk, lba * SECTOR, SECTOR, at, INODE_BYTES, SlotOf(disk, sb, id));
      inode := if err then [] else sector[at..at + INODE_BYTES];
    }
  }

  /** `inode_transfer` for a write. */
  method WriteInode(disk: Disk, faulty: bool, sb: Super, id: nat, inode: seq<byte>) returns (err: bool, out: Disk)
    requires Layout(disk, sb) && Id(sb, id) && |inode| == INODE_BYTES
    ensures out == if err then disk else Splice(disk, SlotOf(disk, sb, id), inode)
    ensures err ==> faulty
  {
    var lba, at;
    err, lba, at := FindInode(disk, faulty, sb, id);
    out := disk;
    if !err {
      var sector;
      err, sector := ReadSectors(disk, faulty, lba, 1);
      if !err {
        SpliceInside(disk, lba * SECTOR, SECTOR, at, inode, SlotOf(disk, sb, id));
        err, out := WriteSectors(disk, faulty, lba, 1, Splice(sector, at, inode));
      }
    }
  }

  // ---------------------------------------------------------------- what they mean

  /** The layout is a matter of the descriptors only. */
  lemma LayoutKept(disk: Disk, out: Disk, sb: Super)
    requires Layout(disk, sb) && |out| == |disk|
    requires forall k | DescriptorTable(sb.bs) <= k < DescriptorAt(sb, sb.groups) :: out[k] == disk[k]
    ensures Layout(out, sb)
    ensures forall id | Id(sb, id) :: SlotOf(out, sb, id) == SlotOf(disk, sb, id)
  {
    forall g | 0 <= g < sb.groups
      ensures DescriptorAt(sb, g) + DESCRIPTOR <= |disk| && TableStart(out, sb, g) == TableStart(disk, sb, g)
    {
      GroupFits(disk, sb, g);
      SameWord(disk, out, DescriptorAt(sb, g) + 8);
    }
    forall g | 0 <= g < sb.groups ensures OnDisk(out, sb, g) { assert OnDisk(disk, sb, g); }
    forall g, h | 0 <= g < h < sb.groups ensures TablesApart(out, sb, g, h) { assert TablesApart(disk, sb, g, h); }
  }

  lemma SameWord(disk: Disk, out: Disk, at: nat)
    requires at + 4 <= |disk| == |out| && forall k | at <= k < at + 4 :: out[k] == disk[k]
    ensures U32(out, at) == U32(disk, at)
  {
  }

  /** A write of an inode followed by a read gives the inode back, and every other inode is
      left alone. */
  lemma InodeRoundTrip(disk: Disk, sb: Super, id: nat, inode: seq<byte>, other: nat)
    requires Layout(disk, sb) && Id(sb, id) && Id(sb, other) && |inode| == INODE_BYTES
    ensures var out := Splice(disk, SlotOf(disk, sb, id), inode);
            Layout(out, sb) && InodeOf(out, sb, other) == if other == id then inode else InodeOf(disk, sb, other)
  {
    var at := SlotOf(disk, sb, id);
    var out := Splice(disk, at, inode);
    LayoutKept(disk, out, sb);
    if other == id {
      SpliceSame(disk, at, inode);
    } else {
      OtherSlot(disk, sb, id, other);
      SpliceApart(disk, at, inode, SlotOf(disk, sb, other), INODE_BYTES);
    }
  }

  lemma OtherSlot(disk: Disk, sb: Super, id: nat, other: nat)
    requires Layout(disk, sb) && Id(sb, id) && Id(sb, other) && other != id
    ensures Apart(SlotOf(disk, sb, id), SlotOf(disk, sb, other), sb.inodeSize)
  {
    SameId(id, other, sb.perGroup);
    SlotsApart(disk, sb, Group(sb, id), Index(sb, id), Group(sb, other), Index(sb, other));
  }

  lemma SameId(id: nat, other: nat, n: nat)
    requires 0 < n && 1 <= id && 1 <= other
    ensures (id - 1) / n == (other - 1) / n && (id - 1) % n == (other - 1) % n ==> id == other
  {
    assert id - 1 == (id - 1) / n * n + (id - 1) % n;
    assert other - 1 == (other - 1) / n * n + (other - 1) % n;
  }

  // ---------------------------------------------------------------- ext2_transfer

  /** The clamp at the start of `ext2_transfer`. */
  function Clamp(size: nat, offset: nat, len: nat): nat
    requires offset <= size
  {
    if (offset + len) % WORD > size then size - offset else len
  }

  lemma ClampIs(size: nat, offset: nat, len: nat)
    requires offset <= size && offset + len < WORD
    ensures Clamp(size, offset, len) == if offset + len > size then size - offset else len
  {
  }

  /** The clamp cuts the range off at the end of the file exactly when `offset + len` does not
      wrap around; otherwise the whole of `len` is transferred, past the end. */
  lemma ClampIff(size: nat, offset: nat, len: nat)
    requires offset <= size < WORD && len < WORD
    ensures Clamp(size, offset, len) == (if len < size - offset then len else size - offset) <==> offset + len < WORD
    ensures offset + len >= WORD ==> Clamp(size, offset, len) == len
  {
    if offset + len >= WORD {
      assert (offset + len) % WORD == offset + len - WORD;
    }
  }

  lemma Prefix(data: seq<byte>, n: nat, done: nat)
    requires done <= n <= |data|
    ensures data[..n][..done] == data[..done]
  {
  }

  /** A file that is as long as its inode says, with its blocks on disk. */
  ghost predicate File(disk: Disk, sb: Super, inode: seq<byte>, blocks: seq<nat>) {
    Layout(disk, sb) && FileMap(disk, sb.bs, inode, blocks) && SizeLo(inode) <= Start(sb.bs, |blocks|)
  }

  /** `ext2_transfer` for a read: the bytes of the range that are inside the file, or a prefix
      of them if a sector cannot be read. */
  method Ext2Read(disk: Disk, faulty: bool, sb: Super, inode: seq<byte>, offset: nat, len: nat, ghost blocks: seq<nat>)
    returns (data: seq<byte>, ghost failed: bool)
    requires File(disk, sb, inode, blocks) && offset <= SizeLo(inode) && offset / sb.bs < |blocks|
             && offset + len < WORD
    ensures ReadSoFar(Flat(disk, sb.bs, blocks, |blocks|), offset, data)
    ensures |data| <= Clamp(SizeLo(inode), offset, len) && (!failed ==> |data| == Clamp(SizeLo(inode), offset, len))
    ensures failed ==> faulty
  {
    var size := SizeLo(inode);
    ClampIs(size, offset, len);
    var err;
    err, data := ReadRange(disk, faulty, sb.bs, inode, offset, Clamp(size, offset, len), blocks);
    failed := err;
  }

  /** `size_lo` and `sector_count` after a write that reaches the end of the file. */
  function Resized(inode: seq<byte>, size: nat): (out: seq<byte>)
    requires |inode| == INODE_BYTES && size < WORD
    ensures |out| == INODE_BYTES
  {
    Splice(Splice(inode, 4, Bytes32(size)), 28, Bytes32((size + SECTOR - 1) % WORD / SECTOR))
  }

  /** `size_lo` is in bytes 4 to 7 and `sector_count` in bytes 28 to 31; every other byte of the
      inode is kept. */
  lemma ResizedFields(inode: seq<byte>, size: nat)
    requires |inode| == INODE_BYTES && size < WORD
    ensures var out := Resized(inode, size);
            && U32(out, 4) == size && U32(out, 28) == (size + 511) % WORD / 512
            && forall k | 0 <= k < 128 && !(4 <= k < 8) && !(28 <= k < 32) :: out[k] == inode[k]
  {
    var mid, sectors := Splice(inode, 4, Bytes32(size)), (size + SECTOR - 1) % WORD / SECTOR;
    U32Store(mid, 28, sectors, 28);
    U32Store(mid, 28, sectors, 4);
    U32Store(inode, 4, size, 4);
  }

  /** The inode with its size unchanged and the number of sectors that this size takes. */
  ghost predicate Refreshed(inode: seq<byte>, inode': seq<byte>) {
    && |inode| == |inode'| == 128 && U32(inode', 4) == U32(inode, 4)
    && U32(inode', 28) == (U32(inode, 4) + 511) % 0x1_0000_0000 / 512
    && forall k | 0 <= k < 128 && !(4 <= k < 8) && !(28 <= k < 32) :: inode'[k] == inode[k]
  }

  lemma Refresh(inode: seq<byte>, inode': seq<byte>)
    requires |inode| == INODE_BYTES && inode' == Resized(inode, SizeLo(inode))
    ensures Refreshed(inode, inode')
  {
    ResizedFields(inode, SizeLo(inode));
  }

  lemma ResizedMap(inode: seq<byte>, size: nat, i: nat)
    requires |inode| == INODE_BYTES && size < WORD && i < DIRECT
    ensures SizeLo(Resized(inode, size)) == size
    ensures IndirectBlock(Resized(inode, size)) == IndirectBlock(inode)
    ensures DirectBlock(Resized(inode, size), i) == DirectBlock(inode, i)
  {
    var mid, sectors := Splice(inode, 4, Bytes32(size)), (size + SECTOR - 1) % WORD / SECTOR;
    ResizedWord(inode, mid, size, sectors, 4);
    ResizedWord(inode, mid, size, sectors, 88);
    ResizedWord(inode, mid, size, sectors, 40 + 4 * i);
  }

  lemma ResizedWord(inode: seq<byte>, mid: seq<byte>, size: nat, sectors: nat, at: nat)
    requires |inode| == INODE_BYTES && size < WORD && sectors < WORD && mid == Splice(inode, 4, Bytes32(size))
    requires at == 4 || 32 <= at <= INODE_BYTES - 4
    ensures U32(Splice(mid, 28, Bytes32(sectors)), at) == if at == 4 then size else U32(inode, at)
  {
    U32Store(mid, 28, sectors, at);
    U32Store(inode, 4, size, at);
  }

  lemma ResizedFile(disk: Disk, bs: nat, inode: seq<byte>, blocks: seq<nat>, size: nat)
    requires FileMap(disk, bs, inode, blocks) && size < WORD
    ensures FileMap(disk, bs, Resized(inode, size), blocks) && SizeLo(Resized(inode, size)) == size
    ensures IndirectBlock(Resized(inode, size)) == IndirectBlock(inode)
  {
    var inode' := Resized(inode, size);
    ResizedMap(inode, size, 0);
    forall i | 0 <= i < |blocks| ensures blocks[i] == Address(disk, bs, inode', i) {
      assert blocks[i] == Address(disk, bs, inode, i);
      if i < DIRECT { ResizedMap(inode, size, i); }
    }
  }

  /** None of the blocks touches the bytes from `from` up to `to`. */
  ghost predicate Avoid(bs: nat, blocks: seq<nat>, from: nat, to: nat) {
    forall i | 0 <= i < |blocks| :: Start(bs, blocks[i]) + bs <= from || to <= Start(bs, blocks[i])
  }

  lemma AvoidKept(disk: Disk, out: Disk, bs: nat, blocks: seq<nat>, from: nat, to: nat)
    requires OthersKept(disk, out, bs, blocks) && Avoid(bs, blocks, from, to) && to <= |disk|
    ensures forall k | from <= k < to :: out[k] == disk[k]
  {
    forall k | from <= k < to ensures out[k] == disk[k] { assert !Within(bs, blocks, k); }
  }

  /** The file's blocks and its indirect block avoid the descriptors and all inodes. */
  ghost predicate AvoidMetadata(disk: Disk, sb: Super, all: seq<nat>)
    requires Layout(disk, sb)
  {
    && Avoid(sb.bs, all, DescriptorTable(sb.bs), DescriptorAt(sb, sb.groups))
    && forall id | Id(sb, id) :: Avoid(sb.bs, all, SlotOf(disk, sb, id), SlotOf(disk, sb, id) + INODE_BYTES)
  }

  function WithIndirect(inode: seq<byte>, blocks: seq<nat>): seq<nat>
    requires |inode| == INODE_BYTES
  {
    if DIRECT < |blocks| then blocks + [IndirectBlock(inode)] else blocks
  }

  /** Writing file data leaves the layout and all inodes alone. */
  lemma DataKeepsMetadata(disk: Disk, out: Disk, sb: Super, inode: seq<byte>, blocks: seq<nat>)
    requires Layout(disk, sb) && |inode| == INODE_BYTES && OthersKept(disk, out, sb.bs, blocks)
    requires AvoidMetadata(disk, sb, WithIndirect(inode, blocks))
    ensures Layout(out, sb)
    ensures forall id | Id(sb, id) ::
            SlotOf(out, sb, id) == SlotOf(disk, sb, id) && InodeOf(out, sb, id) == InodeOf(disk, sb, id)
  {
    var all := WithIndirect(inode, blocks);
    AvoidPart(sb.bs, blocks, all, DescriptorTable(sb.bs), DescriptorAt(sb, sb.groups));
    AvoidKept(disk, out, sb.bs, blocks, DescriptorTable(sb.bs), DescriptorAt(sb, sb.groups));
    LayoutKept(disk, out, sb);
    forall id | Id(sb, id)
      ensures SlotOf(out, sb, id) == SlotOf(disk, sb, id) && InodeOf(out, sb, id) == InodeOf(disk, sb, id)
    {
      var at := SlotOf(disk, sb, id);
      AvoidPart(sb.bs, blocks, all, at, at + INODE_BYTES);
      AvoidKept(disk, out, sb.bs, blocks, at, at + INODE_BYTES);
    }
  }

  lemma AvoidPart(bs: nat, blocks: seq<nat>, all: seq<nat>, from: nat, to: nat)
    requires Avoid(bs, all, from, to) && |blocks| <= |all| && forall i | 0 <= i < |blocks| :: all[i] == blocks[i]
    ensures Avoid(bs, blocks, from, to)
  {
  }

  /** Writing an inode leaves file data alone. */
  lemma InodeKeepsData(disk: Disk, out: Disk, bs: nat, inode: seq<byte>, blocks: seq<nat>, at: nat, data: seq<byte>)
    requires FileMap(disk, bs, inode, blocks) && at + |data| <= |disk| && out == Splice(disk, at, data)
    requires Avoid(bs, WithIndirect(inode, blocks), at, at + |data|)
    ensures FileMap(out, bs, inode, blocks) && Flat(out, bs, blocks, |blocks|) == Flat(disk, bs, blocks, |blocks|)
  {
    var all := WithIndirect(inode, blocks);
    forall i | 0 <= i < |all| ensures InDisk(disk, bs, all[i]) && Block(out, bs, all[i]) == Block(disk, bs, all[i]) {
      SpliceApart(disk, at, data, Start(bs, all[i]), bs);
    }
    if DIRECT < |blocks| { assert all[|blocks|] == IndirectBlock(inode); }
    forall i | 0 <= i < |blocks| ensures Block(out, bs, blocks[i]) == Block(disk, bs, blocks[i]) {
      assert all[i] == blocks[i];
    }
    FileMapKept(disk, out, bs, inode, blocks);
    FlatSame(disk, out, bs, blocks, |blocks|);
  }

  /** The file's contents are the old ones with the data written over them; map and size stay. */
  ghost predicate NewContents(disk: Disk, out: Disk, sb: Super, inode: seq<byte>, inode': seq<byte>, blocks: seq<nat>,
      offset: nat, data: seq<byte>) {
    && File(disk, sb, inode, blocks) && File(out, sb, inode', blocks)
    && SizeLo(inode') == SizeLo(inode) && IndirectBlock(inode') == IndirectBlock(inode)
    && offset + |data| <= Start(sb.bs, |blocks|)
    && Flat(out, sb.bs, blocks, |blocks|) == Splice(Flat(disk, sb.bs, blocks, |blocks|), offset, data)
  }

  ghost predicate OtherInodes(disk: Disk, out: Disk, sb: Super, id: nat)
    requires Layout(disk, sb) && Layout(out, sb) && Id(sb, id)
  {
    forall other | Id(sb, other) && other != id :: InodeOf(out, sb, other) == InodeOf(disk, sb, other)
  }

  /** Bytes outside the file's blocks and the 128 bytes from `slot` on are as before. */
  ghost predicate OutsideKept(disk: Disk, out: Disk, bs: nat, blocks: seq<nat>, slot: nat) {
    |out| == |disk| && forall k | 0 <= k < |disk| && !Within(bs, blocks, k)
        && !(slot <= k < slot + INODE_BYTES) :: out[k] == disk[k]
  }

  /** What a write of `data` at `offset` of file `id` does: the contents are the old ones with
      the data written over them, the block map stays, and so do all other inodes and all bytes
      that belong neither to the file nor to its inode. */
  ghost predicate FileWritten(disk: Disk, out: Disk, sb: Super, id: nat, inode: seq<byte>, inode': seq<byte>,
      blocks: seq<nat>, offset: nat, data: seq<byte>)
    requires Layout(disk, sb) && Id(sb, id)
  {
    && NewContents(disk, out, sb, inode, inode', blocks, offset, data)
    && OtherInodes(disk, out, sb, id)
    && OutsideKept(disk, out, sb.bs, blocks, SlotOf(disk, sb, id))
  }

  lemma WrittenFile(disk: Disk, out: Disk, sb: Super, id: nat, inode: seq<byte>, blocks: seq<nat>, offset: nat,
      data: seq<byte>)
    requires File(disk, sb, inode, blocks) && Id(sb, id) && AvoidMetadata(disk, sb, WithIndirect(inode, blocks))
    requires Written(disk, out, sb.bs, inode, blocks, offset, data)
    ensures FileWritten(disk, out, sb, id, inode, inode, blocks, offset, data)
    ensures SlotOf(out, sb, id) == SlotOf(disk, sb, id) && InodeOf(out, sb, id) == InodeOf(disk, sb, id)
  {
    DataKeepsMetadata(disk, out, sb, inode, blocks);
  }

  lemma OtherInodesKept(disk: Disk, mid: Disk, out: Disk, sb: Super, id: nat, inode': seq<byte>)
    requires Layout(disk, sb) && Layout(mid, sb) && Id(sb, id) && |inode'| == INODE_BYTES
    requires OtherInodes(disk, mid, sb, id) && out == Splice(mid, SlotOf(mid, sb, id), inode')
    ensures Layout(out, sb) && OtherInodes(disk, out, sb, id)
  {
    InodeRoundTrip(mid, sb, id, inode', id);
    forall other | Id(sb, other) && other != id ensures InodeOf(out, sb, other) == InodeOf(disk, sb, other) {
      InodeRoundTrip(mid, sb, id, inode', other);
    }
  }

  lemma ContentsKept(disk: Disk, mid: Disk, out: Disk, sb: Super, slot: nat, inode: seq<byte>, inode': seq<byte>,
      blocks: seq<nat>, offset: nat, data: seq<byte>)
    requires NewContents(disk, mid, sb, inode, inode, blocks, offset, data) && Layout(out, sb)
    requires Avoid(sb.bs, WithIndirect(inode, blocks), slot, slot + INODE_BYTES) && slot + INODE_BYTES <= |mid|
    requires inode' == Resized(inode, SizeLo(inode)) && out == Splice(mid, slot, inode')
    ensures NewContents(disk, out, sb, inode, inode', blocks, offset, data)
  {
    InodeKeepsData(mid, out, sb.bs, inode, blocks, slot, inode');
    ResizedFile(out, sb.bs, inode, blocks, SizeLo(inode));
  }

  lemma OutsideStill(disk: Disk, mid: Disk, out: Disk, bs: nat, blocks: seq<nat>, slot: nat, inode': seq<byte>)
    requires OutsideKept(disk, mid, bs, blocks, slot) && |inode'| == INODE_BYTES && slot + INODE_BYTES <= |mid|
    requires out == Splice(mid, slot, inode')
    ensures OutsideKept(disk, out, bs, blocks, slot)
  {
  }

  lemma InodeWritten(disk: Disk, mid: Disk, out: Disk, sb: Super, id: nat, slot: nat, inode: seq<byte>,
      inode': seq<byte>, blocks: seq<nat>, offset: nat, data: seq<byte>)
    requires Layout(disk, sb) && Id(sb, id) && |inode| == INODE_BYTES
             && AvoidMetadata(disk, sb, WithIndirect(inode, blocks))
    requires FileWritten(disk, mid, sb, id, inode, inode, blocks, offset, data)
             && slot == SlotOf(mid, sb, id) == SlotOf(disk, sb, id)
    requires inode' == Resized(inode, SizeLo(inode)) && out == Splice(mid, slot, inode')
    ensures FileWritten(disk, out, sb, id, inode, inode', blocks, offset, data)
  {
    OtherInodesKept(disk, mid, out, sb, id, inode');
    ContentsKept(disk, mid, out, sb, slot, inode, inode', blocks, offset, data);
    OutsideStill(disk, mid, out, sb.bs, blocks, slot, inode');
  }

  lemma SameSize(disk: Disk, out: Disk, sb: Super, id: nat, inode: seq<byte>, inode': seq<byte>, blocks: seq<nat>,
      offset: nat, data: seq<byte>)
    requires Layout(disk, sb) && Id(sb, id) && FileWritten(disk, out, sb, id, inode, inode, blocks, offset, data)
    requires inode' == Resized(inode, SizeLo(inode))
    ensures FileWritten(disk, out, sb, id, inode, inode', blocks, offset, data)
  {
    ResizedFile(out, sb.bs, inode, blocks, SizeLo(inode));
  }

  /** The end of `ext2_transfer`: the inode is written back.  The code does not notice if this
      fails. */
  method WriteBack(disk: Disk, faulty: bool, sb: Super, id: nat, inode: seq<byte>, size: nat, ghost before: Disk,
      ghost blocks: seq<nat>, ghost offset: nat, ghost data: seq<byte>)
    returns (out: Disk, inode': seq<byte>, ghost failed: bool)
    requires Layout(before, sb) && Id(sb, id) && |inode| == INODE_BYTES
             && AvoidMetadata(before, sb, WithIndirect(inode, blocks))
    requires FileWritten(before, disk, sb, id, inode, inode, blocks, offset, data)
             && SlotOf(disk, sb, id) == SlotOf(before, sb, id)
    requires size == SizeLo(inode)
    ensures FileWritten(before, out, sb, id, inode, inode', blocks, offset, data)
    ensures InodeOf(out, sb, id) == if failed then InodeOf(disk, sb, id) else inode'
    ensures inode' == Resized(inode, size)
    ensures failed ==> faulty
  {
    inode' := Resized(inode, size);
    var err;
    err, out := WriteInode(disk, faulty, sb, id, inode');
    failed := err;
    InodeRoundTrip(disk, sb, id, inode', id);
    if err {
      SameSize(before, disk, sb, id, inode, inode', blocks, offset, data);
    } else {
      InodeWritten(before, disk, out, sb, id, SlotOf(disk, sb, id), inode, inode', blocks, offset, data);
    }
  }

  /** The inode on disk after a write that ends at `end`: it is written back when the write
      reaches the end of the file, and left alone otherwise. */
  ghost predicate InodeStored(disk: Disk, out: Disk, sb: Super, id: nat, inode: seq<byte>, inode': seq<byte>,
      end: nat, failed: bool)
    requires Layout(disk, sb) && Layout(out, sb) && Id(sb, id) && |inode| == INODE_BYTES
  {
    if end < SizeLo(inode) then inode' == inode && InodeOf(out, sb, id) == InodeOf(disk, sb, id)
    else
      && Refreshed(inode, inode')
      && (InodeOf(out, sb, id) == inode' || (failed && InodeOf(out, sb, id) == InodeOf(disk, sb, id)))
  }

  /** What follows the loop of a write that ends at `end`. */
  method FinishWrite(disk: Disk, faulty: bool, sb: Super, id: nat, inode: seq<byte>, size: nat, end: nat,
                     ghost before: Disk, ghost blocks: seq<nat>, ghost offset: nat, ghost data: seq<byte>)
    returns (out: Disk, inode': seq<byte>, ghost failed: bool)
    requires Layout(before, sb) && Id(sb, id) && |inode| == INODE_BYTES
             && AvoidMetadata(before, sb, WithIndirect(inode, blocks))
    requires FileWritten(before, disk, sb, id, inode, inode, blocks, offset, data)
             && SlotOf(disk, sb, id) == SlotOf(before, sb, id)
    requires InodeOf(disk, sb, id) == InodeOf(before, sb, id) && end <= size == SizeLo(inode)
    ensures FileWritten(before, out, sb, id, inode, inode', blocks, offset, data)
    ensures InodeStored(before, out, sb, id, inode, inode', end, failed)
    ensures failed ==> faulty
  {
    out, inode', failed := disk, inode, false;
    if end >= size {
      out, inode', failed := WriteBack(disk, faulty, sb, id, inode, size, before, blocks, offset, data);
      Refresh(inode, inode');
    }
  }

  /** `ext2_transfer` for a write that does not reach beyond the end of the file. */
  method WriteInside(disk: Disk, faulty: bool, sb: Super, id: nat, inode: seq<byte>, offset: nat, data: seq<byte>,
      size: nat, ghost blocks: seq<nat>)
    returns (out: Disk, inode': seq<byte>, done: nat, ghost failed: bool)
    requires File(disk, sb, inode, blocks) && Id(sb, id) && AvoidMetadata(disk, sb, WithIndirect(inode, blocks))
    requires size == SizeLo(inode) && offset + |data| <= size && offset / sb.bs < |blocks|
    ensures done <= |data| && (!failed ==> done == |data|)
    ensures FileWritten(disk, out, sb, id, inode, inode', blocks, offset, data[..done])
    ensures InodeStored(disk, out, sb, id, inode, inode', offset + |data|, failed)
    ensures failed ==> faulty
  {
    var err;
    err, out, done := WriteRange(disk, faulty, sb.bs, inode, offset, data, blocks);
    ghost var written := data[..done];
    WrittenFile(disk, out, sb, id, inode, blocks, offset, written);
    out, inode', failed := FinishWrite(out, faulty, sb, id, inode, size, offset + |data|, disk, blocks, offset,
        written);
    failed := failed || err;
  }

  /** `ext2_transfer` for a write.  Bytes beyond the end of the file are dropped; fewer bytes
      are written if a sector cannot be read or written. */
  method Ext2Write(disk: Disk, faulty: bool, sb: Super, id: nat, inode: seq<byte>, offset: nat, len: nat,
      data: seq<byte>,
      ghost blocks: seq<nat>)
    returns (out: Disk, inode': seq<byte>, done: nat, ghost failed: bool)
    requires File(disk, sb, inode, blocks) && Id(sb, id) && AvoidMetadata(disk, sb, WithIndirect(inode, blocks))
    requires offset <= SizeLo(inode) && offset / sb.bs < |blocks| && offset + len < WORD && len <= |data|
    ensures done <= Clamp(SizeLo(inode), offset, len) <= len && (!failed ==> done == Clamp(SizeLo(inode), offset, len))
    ensures FileWritten(disk, out, sb, id, inode, inode', blocks, offset, data[..done])
    ensures InodeStored(disk, out, sb, id, inode, inode', offset + Clamp(SizeLo(inode), offset, len), failed)
    ensures failed ==> faulty
  {
    var size := SizeLo(inode);
    ClampIs(size, offset, len);
    var n := Clamp(size, offset, len);
    out, inode', done, failed := WriteInside(disk, faulty, sb, id, inode, offset, data[..n], size, blocks);
    Prefix(data, n, done);
  }

  /** A file whose blocks are none of the written file's, and avoid its inode, keeps its map and
      its contents. */
  lemma OtherFileKept(disk: Disk, out: Disk, bs: nat, blocks: seq<nat>, slot: nat, inode2: seq<byte>, blocks2: seq<nat>)
    requires OutsideKept(disk, out, bs, blocks, slot) && FileMap(disk, bs, inode2, blocks2)
    requires Avoid(bs, WithIndirect(inode2, blocks2), slot, slot + INODE_BYTES)
    requires forall b | b in WithIndirect(inode2, blocks2) :: b !in blocks
    ensures FileMap(out, bs, inode2, blocks2) && Flat(out, bs, blocks2, |blocks2|) == Flat(disk, bs, blocks2, |blocks2|)
  {
    var all := WithIndirect(inode2, blocks2);
    forall i | 0 <= i < |all| ensures InDisk(disk, bs, all[i]) && Block(out, bs, all[i]) == Block(disk, bs, all[i]) {
      OtherBlockKept(disk, out, bs, blocks, slot, all[i]);
    }
    if DIRECT < |blocks2| { assert all[|blocks2|] == IndirectBlock(inode2); }
    forall i | 0 <= i < |blocks2| ensures Block(out, bs, blocks2[i]) == Block(disk, bs, blocks2[i]) {
      assert all[i] == blocks2[i];
    }
    FileMapKept(disk, out, bs, inode2, blocks2);
    FlatSame(disk, out, bs, blocks2, |blocks2|);
  }

  lemma OtherBlockKept(disk: Disk, out: Disk, bs: nat, blocks: seq<nat>, slot: nat, b: nat)
    requires OutsideKept(disk, out, bs, blocks, slot) && InDisk(disk, bs, b) && b !in blocks
    requires Start(bs, b) + bs <= slot || slot + INODE_BYTES <= Start(bs, b)
    ensures Block(out, bs, b) == Block(disk, bs, b)
  {
    forall k | Start(bs, b) <= k < Start(bs, b) + bs ensures out[k] == disk[k] {
      forall i | 0 <= i < |blocks| ensures !(Start(bs, blocks[i]) <= k < Start(bs, blocks[i]) + bs) {
        if blocks[i] < b { BlocksApart(bs, blocks[i], b); } else { BlocksApart(bs, b, blocks[i]); }
      }
      assert !Within(bs, blocks, k);
    }
  }

  /** After a write the file still avoids the metadata. */
  lemma AvoidStill(disk: Disk, out: Disk, sb: Super, id: nat, inode: seq<byte>, inode': seq<byte>, blocks: seq<nat>,
      offset: nat, data: seq<byte>)
    requires Layout(disk, sb) && Id(sb, id) && |inode| == INODE_BYTES && |inode'| == INODE_BYTES
    requires AvoidMetadata(disk, sb, WithIndirect(inode, blocks))
    requires FileWritten(disk, out, sb, id, inode, inode', blocks, offset, data)
    ensures AvoidMetadata(out, sb, WithIndirect(inode', blocks))
  {
    var all := WithIndirect(inode, blocks);
    var from, to := DescriptorTable(sb.bs), DescriptorAt(sb, sb.groups);
    AvoidPart(sb.bs, blocks, all, from, to);
    forall k | from <= k < to ensures out[k] == disk[k] { assert !Within(sb.bs, blocks, k); }
    LayoutKept(disk, out, sb);
  }

  /** An open file: `payload->inode` and the disk behind it. */
  class OpenFile {
    const sb: Super
    const id: nat

    /** Transfers to and from the device may fail. */
    const faulty: bool

    var disk: Disk
    var inode: seq<byte>
    ghost const blocks: seq<nat>

    ghost predicate Valid()
      reads this
    {
      File(disk, sb, inode, blocks) && Id(sb, id) && AvoidMetadata(disk, sb, WithIndirect(inode, blocks))
    }

    ghost function Contents(): seq<byte>
      requires Valid()
      reads this
    {
      Flat(disk, sb.bs, blocks, |blocks|)
    }

    constructor (sb: Super, id: nat, faulty: bool, disk: Disk, inode: seq<byte>, ghost blocks: seq<nat>)
      requires File(disk, sb, inode, blocks) && Id(sb, id) && AvoidMetadata(disk, sb, WithIndirect(inode, blocks))
      ensures Valid() && this.disk == disk && this.inode == inode && this.blocks == blocks && this.sb == sb
              && this.id == id && this.faulty == faulty
    {
      this.sb, this.id, this.faulty, this.disk, this.inode, this.blocks := sb, id, faulty, disk, inode, blocks;
    }

    method Read(offset: nat, len: nat) returns (data: seq<byte>, ghost failed: bool)
      requires Valid() && offset <= SizeLo(inode) && offset / sb.bs < |blocks| && offset + len < WORD
      ensures ReadSoFar(Contents(), offset, data)
      ensures |data| <= Clamp(SizeLo(inode), offset, len) && (!failed ==> |data| == Clamp(SizeLo(inode), offset, len))
      ensures failed ==> faulty
    {
      data, failed := Ext2Read(disk, faulty, sb, inode, offset, len, blocks);
    }

    /** The contents become the old ones with the data written over them. */
    method Write(offset: nat, len: nat, data: seq<byte>) returns (done: nat, ghost failed: bool)
      requires Valid() && offset <= SizeLo(inode) && offset / sb.bs < |blocks| && offset + len < WORD && len <= |data|
      modifies this`disk, this`inode
      ensures Valid() && SizeLo(inode) == old(SizeLo(inode))
      ensures done <= Clamp(SizeLo(inode), offset, len) <= len
              && (!failed ==> done == Clamp(SizeLo(inode), offset, len))
      ensures offset + done <= |old(Contents())| && Contents() == Splice(old(Contents()), offset, data[..done])
      ensures OtherInodes(old(disk), disk, sb, id) && OutsideKept(old(disk), disk, sb.bs, blocks,
              SlotOf(old(disk), sb, id))
      ensures InodeStored(old(disk), disk, sb, id, old(inode), inode, offset + Clamp(SizeLo(inode), offset, len),
              failed)
      ensures failed ==> faulty
    {
      var out, inode';
      out, inode', done, failed := Ext2Write(disk, faulty, sb, id, inode, offset, len, data, blocks);
      AvoidStill(disk, out, sb, id, inode, inode', blocks, offset, data[..done]);
      disk, inode := out, inode';
    }
  }
}
