/**
 The records of include/muse/ext2.h as their bytes on disk, and what the offsets that the rest
 of the model uses stand for.
 */
module Ext2Records {
  import opened Common
  import opened Ext2Disk
  import opened Ext2File
  import opened Ext2Inodes
  import opened Ext2Alloc

  type Word = w: nat | w < 0x1_0000_0000
  type Half = h: nat | h < 0x1_0000

  /** Two 16-bit fields, the first one in the lower bytes. */
  function Pair(lo: Half, hi: Half): Word { lo + hi * 0x1_0000 }

  /** Words one after the other, the lowest byte of each first. */
  function Words(ws: seq<Word>): (s: seq<byte>)
    ensures |s| == 4 * |ws|
  {
    if ws == [] then [] else Words(ws[..|ws| - 1]) + Bytes32(ws[|ws| - 1])
  }

  lemma {:induction false} WordSlice(ws: seq<Word>, i: nat, at: nat)
    requires i < |ws| && at == 4 * i
    ensures Words(ws)[at..at + 4] == Bytes32(ws[i])
  {
    if i < |ws| - 1 { WordSlice(ws[..|ws| - 1], i, at); }
  }

  /** Word `i` stands at byte `4 * i`. */
  lemma WordAt(ws: seq<Word>, i: nat, at: nat)
    requires i < |ws| && at == 4 * i
    ensures U32(Words(ws), at) == ws[i]
  {
    WordSlice(ws, i, at);
    U32RoundTrip(ws[i]);
    WordOfSlice(Words(ws), at, Bytes32(ws[i]));
  }

  lemma WordOfSlice(s: seq<byte>, at: nat, w: seq<byte>)
    requires at + 4 <= |s| && w == s[at..at + 4]
    ensures U32(s, at) == U32(w, 0)
  {
  }

  /** Storing a word over another one. */
  lemma {:induction false} WordStored(ws: seq<Word>, i: nat, at: nat, w: Word)
    requires i < |ws| && at == 4 * i
    ensures Splice(Words(ws), at, Bytes32(w)) == Words(ws[i := w])
  {
    var first, more: seq<Word> := ws[..|ws| - 1], ws[i := w];
    if i < |ws| - 1 {
      WordStored(first, i, at, w);
      assert more[..|ws| - 1] == first[i := w];
      SpliceFirst(Words(first), Bytes32(ws[|ws| - 1]), at, Bytes32(w));
    } else {
      assert more[..|ws| - 1] == first;
    }
  }

  lemma SpliceFirst(a: seq<byte>, b: seq<byte>, at: nat, data: seq<byte>)
    requires at + |data| <= |a|
    ensures Splice(a + b, at, data) == Splice(a, at, data) + b
  {
  }

  // ---------------------------------------------------------------- struct ext2_inode

  datatype Inode = Inode(
    mode: Half, userId: Half, sizeLo: Word, accessTime: Word, creationTime: Word, modificationTime: Word,
    deletionTime: Word, groupId: Half, hardLinks: Half, sectorCount: Word, flags: Word, osSpecific0: Word,
    directBlocks: seq<Word>, indirectSingle: Word, indirectDouble: Word, indirectTriple: Word, generation: Word,
    extendedAttrs: Word, sizeHi: Word, fragAddr: Word, osSpecific1: seq<Word>)

  predicate InodeShape(r: Inode) { |r.directBlocks| == 12 && |r.osSpecific1| == 3 }

  function InodeHead(r: Inode): (ws: seq<Word>)
    ensures |ws| == 10
  {
    [Pair(r.mode, r.userId), r.sizeLo, r.accessTime, r.creationTime, r.modificationTime, r.deletionTime,
     Pair(r.groupId, r.hardLinks), r.sectorCount, r.flags, r.osSpecific0]
  }

  function InodeTail(r: Inode): (ws: seq<Word>)
    ensures |ws| == 7
  {
    [r.indirectSingle, r.indirectDouble, r.indirectTriple, r.generation, r.extendedAttrs, r.sizeHi, r.fragAddr]
  }

  /** The fields in the order of the struct. */
  function InodeWords(r: Inode): (ws: seq<Word>)
    requires InodeShape(r)
    ensures |ws| == 32
  {
    InodeHead(r) + r.directBlocks + InodeTail(r) + r.osSpecific1
  }

  function InodeBytes(r: Inode): (s: seq<byte>)
    requires InodeShape(r)
    ensures |s| == INODE_BYTES
  {
    Words(InodeWords(r))
  }

  /** The offsets of the code's fields. */
  lemma InodeFields(r: Inode)
    requires InodeShape(r)
    ensures SizeLo(InodeBytes(r)) == r.sizeLo && IndirectBlock(InodeBytes(r)) == r.indirectSingle
    ensures forall i | 0 <= i < 12 :: DirectBlock(InodeBytes(r), i) == r.directBlocks[i]
  {
    var ws := InodeWords(r);
    WordAt(ws, 1, 4);
    WordAt(ws, 22, 88);
    forall i | 0 <= i < 12 ensures DirectBlock(InodeBytes(r), i) == r.directBlocks[i] {
      DirectField(r, i, i + 10);
    }
  }

  lemma DirectField(r: Inode, i: nat, j: nat)
    requires InodeShape(r) && i < 12 && j == i + 10
    ensures DirectBlock(InodeBytes(r), i) == r.directBlocks[i]
  {
    var ws := InodeWords(r);
    assert ws[j] == r.directBlocks[i];
    WordAt(ws, j, 40 + 4 * i);
  }

  /** A write that reaches the end of the file sets `size_lo` and `sector_count` and keeps every
      other field. */
  lemma ResizedRecord(r: Inode, size: Word)
    requires InodeShape(r)
    ensures Resized(InodeBytes(r), size) ==
            InodeBytes(r.(sizeLo := size, sectorCount := (size + 511) % 0x1_0000_0000 / 512))
  {
    var sectors: Word := (size + 511) % 0x1_0000_0000 / 512;
    var ws: seq<Word> := InodeWords(r);
    var sized: seq<Word> := ws[1 := size];
    WordStored(ws, 1, 4, size);
    WordStored(sized, 7, 28, sectors);
    assert sized[7 := sectors] == InodeWords(r.(sizeLo := size, sectorCount := sectors));
  }

  // ---------------------------------------------------------------- struct ext2_block_group_descriptor

  datatype Descriptor = Descriptor(
    blockBitmap: Word, inodeBitmap: Word, inodeTable: Word, unallocatedBlocks: Half, unallocatedInodes: Half,
    directoryCount: Half, reserved: seq<Half>)

  function DescriptorWords(r: Descriptor): (ws: seq<Word>)
    requires |r.reserved| == 7
    ensures |ws| == 8
  {
    [r.blockBitmap, r.inodeBitmap, r.inodeTable, Pair(r.unallocatedBlocks, r.unallocatedInodes),
     Pair(r.directoryCount, r.reserved[0]), Pair(r.reserved[1], r.reserved[2]), Pair(r.reserved[3], r.reserved[4]),
     Pair(r.reserved[5], r.reserved[6])]
  }

  /** The descriptor of group `g` on disk, in the block after the one with the superblock. */
  ghost predicate HasDescriptor(disk: Disk, sb: Super, g: nat, r: Descriptor) {
    var at := (if sb.bs == 1024 then 2048 else sb.bs) + 32 * g;
    |r.reserved| == 7 && at + 32 <= |disk| && disk[at..at + 32] == Words(DescriptorWords(r))
  }

  lemma PairBytes(lo: Half, hi: Half)
    ensures var s := Bytes32(Pair(lo, hi));
            s[0] as nat + s[1] as nat * 0x100 == lo && s[2] as nat + s[3] as nat * 0x100 == hi
  {
    var w := Pair(lo, hi);
    var a := lo / 0x100;
    assert w / 0x100 == a + hi * 0x100;
    assert w / 0x1_0000 == hi;
    assert w / 0x100_0000 == hi / 0x100;
  }

  lemma DescriptorCounts(r: Descriptor)
    requires |r.reserved| == 7
    ensures FreeCount(Words(DescriptorWords(r)), false) == r.unallocatedBlocks
    ensures FreeCount(Words(DescriptorWords(r)), true) == r.unallocatedInodes
  {
    var d := Words(DescriptorWords(r));
    WordSlice(DescriptorWords(r), 3, 12);
    PairBytes(r.unallocatedBlocks, r.unallocatedInodes);
    assert d[12] == d[12..16][0] && d[13] == d[12..16][1] && d[14] == d[12..16][2] && d[15] == d[12..16][3];
  }

  lemma DescriptorAddresses(disk: Disk, at: nat, r: Descriptor)
    requires at + DESCRIPTOR <= |disk| && |r.reserved| == 7
             && disk[at..at + DESCRIPTOR] == Words(DescriptorWords(r))
    ensures U32(disk, at) == r.blockBitmap && U32(disk, at + 4) == r.inodeBitmap && U32(disk, at + 8) == r.inodeTable
  {
    WordAt(DescriptorWords(r), 0, 0);
    WordAt(DescriptorWords(r), 1, 4);
    WordAt(DescriptorWords(r), 2, 8);
    DescriptorWord(disk, at, 0);
    DescriptorWord(disk, at, 4);
    DescriptorWord(disk, at, 8);
  }

  lemma TablePlace(bs: nat)
    requires BlockSize(bs)
    ensures DescriptorTable(bs) == if bs == 1024 then 2048 else bs
  {
  }

  lemma FieldsAt(disk: Disk, sb: Super, g: nat, at: nat, r: Descriptor)
    requires at == DescriptorAt(sb, g) && at + DESCRIPTOR <= |disk| && |r.reserved| == 7
             && disk[at..at + DESCRIPTOR] == Words(DescriptorWords(r))
    ensures BitmapBlock(disk, sb, g, false) == r.blockBitmap && BitmapBlock(disk, sb, g, true) == r.inodeBitmap
    ensures FreeCount(disk[at..at + DESCRIPTOR], false) == r.unallocatedBlocks
    ensures FreeCount(disk[at..at + DESCRIPTOR], true) == r.unallocatedInodes
    ensures TableStart(disk, sb, g) == r.inodeTable * sb.bs
  {
    DescriptorCounts(r);
    DescriptorAddresses(disk, at, r);
    StartIs(sb.bs, r.inodeTable);
  }

  /** The bitmaps and counts that an allocation uses, and where the inode table of the group
      starts. */
  lemma DescriptorFields(disk: Disk, sb: Super, g: nat, r: Descriptor)
    requires Layout(disk, sb) && g < sb.groups && HasDescriptor(disk, sb, g, r)
    ensures DescriptorAt(sb, g) + DESCRIPTOR <= |disk|
    ensures BitmapBlock(disk, sb, g, false) == r.blockBitmap && BitmapBlock(disk, sb, g, true) == r.inodeBitmap
    ensures FreeCount(disk[DescriptorAt(sb, g)..DescriptorAt(sb, g) + DESCRIPTOR], false) == r.unallocatedBlocks
    ensures FreeCount(disk[DescriptorAt(sb, g)..DescriptorAt(sb, g) + DESCRIPTOR], true) == r.unallocatedInodes
    ensures TableStart(disk, sb, g) == r.inodeTable * sb.bs
  {
    TablePlace(sb.bs);
    FieldsAt(disk, sb, g, DescriptorAt(sb, g), r);
  }

  /** Inode `id` is slot `(id - 1) % inodes_per_group` of the table of group
      `(id - 1) / inodes_per_group`. */
  lemma SlotIs(disk: Disk, sb: Super, id: nat, g: nat, idx: nat, r: Descriptor)
    requires Layout(disk, sb) && Id(sb, id) && g == (id - 1) / sb.perGroup && idx == (id - 1) % sb.perGroup
    requires HasDescriptor(disk, sb, g, r)
    ensures SlotOf(disk, sb, id) == r.inodeTable * sb.bs + idx * sb.inodeSize
  {
    DescriptorFields(disk, sb, g, r);
    StartIs(sb.inodeSize, idx);
  }
}
