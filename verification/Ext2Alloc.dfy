/**
 `alloc_ext2_obj` of src/common/ext2.c: the first clear bit of a group's bitmap of blocks or of
 inodes is set, and its number is the id of a new object.
 */
module Ext2Alloc {
  import opened Common
  import opened Ext2Disk
  import opened Ext2Inodes
  import opened Ext2File

  // ---------------------------------------------------------------- bits of a byte

  function Pow(j: nat): (p: nat)
    ensures 1 <= p
  {
    if j == 0 then 1 else 2 * Pow(j - 1)
  }

  /** `(b >> j) & 1`. */
  predicate Bit(b: nat, j: nat) { if j == 0 then b % 2 == 1 else Bit(b / 2, j - 1) }

  /** `b | (1 << j)`. */
  function SetBit(b: nat, j: nat): nat { if Bit(b, j) then b else b + Pow(j) }

  lemma {:induction false} SetBitBits(b: nat, j: nat, k: nat)
    ensures Bit(SetBit(b, j), k) <==> k == j || Bit(b, k)
  {
    if j > 0 {
      Halve(b, Pow(j - 1), SetBit(b, j));
      if k > 0 { SetBitBits(b / 2, j - 1, k - 1); }
    } else if k > 0 && !Bit(b, 0) {
      assert SetBit(b, 0) / 2 == b / 2;
    }
  }

  /** Adding `2 * p` leaves the lowest bit alone and adds `p` to the rest. */
  lemma Halve(b: nat, p: nat, c: nat)
    ensures c == b + 2 * p ==> c / 2 == b / 2 + p && c % 2 == b % 2
  {
  }

  lemma {:induction false} SetBitRange(b: nat, j: nat, n: nat)
    requires b < Pow(n) && j < n
    ensures SetBit(b, j) < Pow(n)
  {
    var half := Pow(n - 1);
    assert Pow(n) == 2 * half;
    if j > 0 {
      var p := Pow(j - 1);
      SetBitRange(b / 2, j - 1, n - 1);
      assert b / 2 + p < half ==> b + 2 * p < 2 * half;
    }
  }

  lemma Pow8()
    ensures Pow(8) == 256
  {
    assert Pow(4) == 16;
  }

  lemma {:induction false} AllOnes(j: nat, n: nat)
    requires j < n
    ensures Bit(Pow(n) - 1, j)
  {
    assert Pow(n) - 1 == 2 * (Pow(n - 1) - 1) + 1;
    if j > 0 { AllOnes(j - 1, n - 1); }
  }

  // ---------------------------------------------------------------- bitmaps

  function Bits(bytes: seq<byte>): (bits: seq<bool>)
    ensures |bits| == 8 * |bytes|
    ensures forall k | 0 <= k < |bits| :: bits[k] == Bit(bytes[k / 8], k % 8)
  {
    seq(8 * |bytes|, k requires 0 <= k < 8 * |bytes| => Bit(bytes[k / 8], k % 8))
  }

  /** The first clear bit from `k` on. */
  function FirstClear(bits: seq<bool>, k: nat): (o: Option<nat>)
    requires k <= |bits|
    ensures o.Some? ==> k <= o.value < |bits|
    decreases |bits| - k
  {
    if k == |bits| then None else if !bits[k] then Some(k) else FirstClear(bits, k + 1)
  }

  lemma {:induction false} FirstClearFacts(bits: seq<bool>, k: nat)
    requires k <= |bits|
    ensures match FirstClear(bits, k)
            case Some(m) => !bits[m] && forall j | k <= j < m :: bits[j]
            case None => forall j | k <= j < |bits| :: bits[j]
    decreases |bits| - k
  {
    if k < |bits| && bits[k] { FirstClearFacts(bits, k + 1); }
  }

  lemma {:induction false} SkipSet(bits: seq<bool>, k: nat, n: nat)
    requires k <= n <= |bits| && forall j | k <= j < n :: bits[j]
    ensures FirstClear(bits, k) == FirstClear(bits, n)
    decreases n - k
  {
    if k < n { SkipSet(bits, k + 1, n); }
  }

  lemma ByteBits(bytes: seq<byte>, i: nat, j: nat, k: nat)
    requires i < |bytes| && j < 8 && k == i * 8 + j
    ensures k < 8 * |bytes| && Bits(bytes)[k] == Bit(bytes[i], j)
  {
    assert k / 8 == i && k % 8 == j;
  }

  lemma BitStep(bytes: seq<byte>, i: nat, j: nat, k: nat)
    requires i < |bytes| && j < 8 && k == i * 8 + j
    ensures k < 8 * |bytes| && FirstClear(Bits(bytes), k) == if Bit(bytes[i], j)
            then FirstClear(Bits(bytes), k + 1) else Some(k)
  {
    ByteBits(bytes, i, j, k);
  }

  lemma FullByte(bytes: seq<byte>, i: nat, start: nat)
    requires i < |bytes| && bytes[i] == 0xFF && start == i * 8
    ensures FirstClear(Bits(bytes), start) == FirstClear(Bits(bytes), start + 8)
  {
    Pow8();
    forall k | start <= k < start + 8 ensures Bits(bytes)[k] {
      AllOnes(k - start, 8);
      ByteBits(bytes, i, k - start, k);
    }
    SkipSet(Bits(bytes), start, start + 8);
  }

  /** The inner loop: the first clear bit of byte `i`, or 8. */
  method ScanByte(bytes: seq<byte>, i: nat, ghost start: nat) returns (j: nat, ghost k: nat)
    requires i < |bytes| && start == i * 8
    ensures j <= 8 && k == start + j && FirstClear(Bits(bytes), start) == FirstClear(Bits(bytes), k)
    ensures j < 8 ==> FirstClear(Bits(bytes), k) == Some(k)
  {
    ghost var bits := Bits(bytes);
    j, k := 0, start;
    var clear := false;
    while j < 8 && !clear
      invariant 0 <= j <= 8 && k == start + j && k <= |bits|
      invariant FirstClear(bits, start) == FirstClear(bits, k)
      invariant clear ==> j < 8 && FirstClear(bits, k) == Some(k)
      decreases 8 - j, !clear
    {
      BitStep(bytes, i, j, k);
      clear := !Bit(bytes[i], j);
      if !clear {
        j, k := j + 1, k + 1;
      }
    }
  }

  /** The scan for a clear bit; bytes with all bits set are passed over. */
  method ScanBitmap(bytes: seq<byte>) returns (found: bool, i: nat, j: nat)
    ensures found ==> i < |bytes| && j < 8 && FirstClear(Bits(bytes), 0) == Some(i * 8 + j)
    ensures !found ==> FirstClear(Bits(bytes), 0) == None
  {
    found, i, j := false, 0, 0;
    ghost var k := 0;
    while i < |bytes| && !found
      invariant 0 <= i <= |bytes|
      invariant found ==> i < |bytes| && j < 8 && k == i * 8 + j && FirstClear(Bits(bytes), 0) == Some(k)
      invariant !found ==> k == i * 8 && FirstClear(Bits(bytes), 0) == FirstClear(Bits(bytes), k)
      decreases |bytes| - i, !found
    {
      if bytes[i] == 0xFF {
        FullByte(bytes, i, k);
        i, k := i + 1, k + 8;
      } else {
        ghost var next;
        j, next := ScanByte(bytes, i, k);
        found, k := j < 8, next;
        if !found {
          i := i + 1;
        }
      }
    }
  }

  method MarkBit(bytes: seq<byte>, i: nat, j: nat, ghost k: nat) returns (out: seq<byte>)
    requires i < |bytes| && j < 8 && k == i * 8 + j
    ensures |out| == |bytes| && Bits(out) == Bits(bytes)[k := true]
  {
    Pow8();
    SetBitRange(bytes[i], j, 8);
    out := bytes[i := SetBit(bytes[i], j)];
    forall m | 0 <= m < 8 * |bytes| ensures Bits(out)[m] == Bits(bytes)[k := true][m] {
      SetBitBits(bytes[i], j, m % 8);
      assert m == k <==> m / 8 == i && m % 8 == j;
    }
  }

  // ---------------------------------------------------------------- the marks of all groups

  /** One bitmap per group, and the number of objects of a group.  Padding bits beyond that
      number are set. */
  ghost predicate Padded(marks: seq<seq<bool>>, per: nat) {
    forall g, k | 0 <= g < |marks| && per <= k < |marks[g]| :: marks[g][k]
  }

  /** What an allocation in group `g` takes, and the marks afterwards. */
  function Take(marks: seq<seq<bool>>, g: nat): (r: (Option<nat>, seq<seq<bool>>))
    requires g < |marks|
  {
    match FirstClear(marks[g], 0)
    case None => (None, marks)
    case Some(k) => (Some(k), marks[g := marks[g][k := true]])
  }

  /** The id of object `k` of group `g`: blocks are counted from 0, inodes from 1. */
  function ObjectId(per: nat, g: nat, k: nat, inode: bool): nat {
    g * per + k + if inode then 1 else 0
  }

  /** Different objects have different ids. */
  lemma IdsDiffer(per: nat, g: nat, k: nat, h: nat, m: nat, inode: bool)
    requires k < per && m < per && (g != h || k != m)
    ensures ObjectId(per, g, k, inode) != ObjectId(per, h, m, inode)
  {
    if g < h {
      assert (g + 1) * per <= h * per;
    } else if h < g {
      assert (h + 1) * per <= g * per;
    }
  }

  /** `later` has all the marks of `marks`. */
  ghost predicate Grows(marks: seq<seq<bool>>, later: seq<seq<bool>>) {
    && |later| == |marks|
    && forall g, k | 0 <= g < |marks| && 0 <= k < |marks[g]| ::
        |later[g]| == |marks[g]| && (marks[g][k] ==> later[g][k])
  }

  /** The marks after allocations in the groups `gs`. */
  ghost function Run(marks: seq<seq<bool>>, gs: seq<nat>): (later: seq<seq<bool>>)
    requires forall i | 0 <= i < |gs| :: gs[i] < |marks|
    ensures |later| == |marks| && forall g | 0 <= g < |marks| :: |later[g]| == |marks[g]|
    decreases |gs|
  {
    if gs == [] then marks else Run(Take(marks, gs[0]).1, gs[1..])
  }

  lemma {:induction false} RunGrows(marks: seq<seq<bool>>, gs: seq<nat>)
    requires forall i | 0 <= i < |gs| :: gs[i] < |marks|
    ensures Grows(marks, Run(marks, gs))
    decreases |gs|
  {
    if gs != [] {
      RunGrows(Take(marks, gs[0]).1, gs[1..]);
    }
  }

  /** Over any run, two allocations never give the same object: the later one gives an id that
      was still free, and it differs from the earlier one. */
  lemma NeverShared(marks: seq<seq<bool>>, per: nat, g: nat, between: seq<nat>, h: nat, inode: bool)
    requires Padded(marks, per) && g < |marks| && h < |marks| && forall i | 0 <= i < |between| :: between[i] < |marks|
    requires Take(marks, g).0.Some? && Take(Run(Take(marks, g).1, between), h).0.Some?
    ensures var k, m := Take(marks, g).0.value, Take(Run(Take(marks, g).1, between), h).0.value;
            && k < per && m < per && m < |marks[h]| && !marks[g][k] && !marks[h][m]
            && ObjectId(per, g, k, inode) != ObjectId(per, h, m, inode)
  {
    var mid := Take(marks, g).1;
    var later := Run(mid, between);
    var k, m := Take(marks, g).0.value, Take(later, h).0.value;
    RunGrows(mid, between);
    FirstClearFacts(marks[g], 0);
    FirstClearFacts(later[h], 0);
    assert !later[h][m] && mid[g][k];
    assert !mid[h][m] && !marks[h][m];
    IdsDiffer(per, g, k, h, m, inode);
  }

  /** No object has the id 0, which stands for failure, if block 0 is marked. */
  lemma NeverZero(marks: seq<seq<bool>>, per: nat, g: nat, inode: bool)
    requires Padded(marks, per) && g < |marks| && Take(marks, g).0.Some?
    requires inode || (|marks[0]| > 0 && marks[0][0])
    ensures ObjectId(per, g, Take(marks, g).0.value, inode) != 0
  {
    var k := Take(marks, g).0.value;
    FirstClearFacts(marks[g], 0);
    assert k < per;
    if g > 0 { assert g * per >= per; }
  }

  // ---------------------------------------------------------------- on disk

  /** Where a group's bitmap is, and how many free objects its descriptor claims. */
  function BitmapBlock(disk: Disk, sb: Super, g: nat, inode: bool): nat
    requires DescriptorAt(sb, g) + DESCRIPTOR <= |disk|
  {
    U32(disk, DescriptorAt(sb, g) + if inode then 4 else 0)
  }

  function FreeCount(d: seq<byte>, inode: bool): nat
    requires |d| == DESCRIPTOR
  {
    var at := if inode then 14 else 12;
    d[at] as nat + d[at + 1] as nat * 0x100
  }

  /** The bitmaps are distinct blocks that do not touch the descriptors. */
  ghost predicate Bitmaps(disk: Disk, sb: Super, inode: bool) {
    && Layout(disk, sb)
    && (forall g | 0 <= g < sb.groups :: BitmapAvoids(disk, sb, g, inode))
    && (forall g, h | 0 <= g < h < sb.groups :: BitmapsDiffer(disk, sb, g, h, inode))
  }

  ghost predicate BitmapAvoids(disk: Disk, sb: Super, g: nat, inode: bool)
    requires DescriptorAt(sb, g) + DESCRIPTOR <= |disk|
  {
    var b := BitmapBlock(disk, sb, g, inode);
    InDisk(disk, sb.bs, b) && (Start(sb.bs, b) + sb.bs <= DescriptorTable(sb.bs)
        || DescriptorAt(sb, sb.groups) <= Start(sb.bs, b))
  }

  ghost predicate BitmapsDiffer(disk: Disk, sb: Super, g: nat, h: nat, inode: bool)
    requires DescriptorAt(sb, g) + DESCRIPTOR <= |disk| && DescriptorAt(sb, h) + DESCRIPTOR <= |disk|
  {
    BitmapBlock(disk, sb, g, inode) != BitmapBlock(disk, sb, h, inode)
  }

  ghost function GroupMarks(disk: Disk, sb: Super, g: nat, inode: bool): seq<bool>
    requires Bitmaps(disk, sb, inode) && g < sb.groups
  {
    assert BitmapAvoids(disk, sb, g, inode);
    Bits(Block(disk, sb.bs, BitmapBlock(disk, sb, g, inode)))
  }

  /** The marks of all groups. */
  ghost function Marks(disk: Disk, sb: Super, inode: bool): (marks: seq<seq<bool>>)
    requires Bitmaps(disk, sb, inode)
    ensures |marks| == sb.groups && forall g | 0 <= g < sb.groups :: marks[g] == GroupMarks(disk, sb, g, inode)
  {
    seq(sb.groups, g requires 0 <= g < sb.groups => GroupMarks(disk, sb, g, inode))
  }

  /** Writing a bitmap changes no descriptor. */
  lemma BitmapWritten(disk: Disk, sb: Super, g: nat, inode: bool, bytes: seq<byte>, b: nat, out: Disk)
    requires Bitmaps(disk, sb, inode) && g < sb.groups && |bytes| == sb.bs
    requires BitmapAvoids(disk, sb, g, inode) && b == BitmapBlock(disk, sb, g, inode)
             && out == PutBlock(disk, sb.bs, b, bytes)
    ensures Layout(out, sb) && forall h | 0 <= h < sb.groups ::
            BitmapBlock(out, sb, h, inode) == BitmapBlock(disk, sb, h, inode)
  {
    LayoutKept(disk, out, sb);
    forall h | 0 <= h < sb.groups ensures BitmapBlock(out, sb, h, inode) == BitmapBlock(disk, sb, h, inode) {
      SameWord(disk, out, DescriptorAt(sb, h) + if inode then 4 else 0);
    }
  }

  lemma BitmapsKept(disk: Disk, sb: Super, g: nat, inode: bool, bytes: seq<byte>, b: nat, out: Disk)
    requires Bitmaps(disk, sb, inode) && g < sb.groups && |bytes| == sb.bs
    requires BitmapAvoids(disk, sb, g, inode) && b == BitmapBlock(disk, sb, g, inode)
             && out == PutBlock(disk, sb.bs, b, bytes)
    ensures Bitmaps(out, sb, inode)
    ensures forall h | 0 <= h < sb.groups ::
            GroupMarks(out, sb, h, inode) == if h == g then Bits(bytes) else GroupMarks(disk, sb, h, inode)
  {
    BitmapWritten(disk, sb, g, inode, bytes, b, out);
    forall h | 0 <= h < sb.groups ensures BitmapAvoids(out, sb, h, inode) { assert BitmapAvoids(disk, sb, h, inode); }
    forall h, m | 0 <= h < m < sb.groups ensures BitmapsDiffer(out, sb, h, m, inode) {
      assert BitmapsDiffer(disk, sb, h, m, inode);
    }
    forall h | 0 <= h < sb.groups
      ensures GroupMarks(out, sb, h, inode) == if h == g then Bits(bytes) else GroupMarks(disk, sb, h, inode)
    {
      assert BitmapAvoids(disk, sb, h, inode);
      if h < g { assert BitmapsDiffer(disk, sb, h, g, inode); }
      if g < h { assert BitmapsDiffer(disk, sb, g, h, inode); }
      PutBlockReads(disk, sb.bs, b, bytes, BitmapBlock(disk, sb, h, inode));
    }
  }

  lemma TakeMarks(disk: Disk, sb: Super, g: nat, inode: bool, bytes: seq<byte>, b: nat, k: nat, bytes': seq<byte>,
      out: Disk)
    requires Bitmaps(disk, sb, inode) && g < sb.groups && BitmapAvoids(disk, sb, g, inode)
             && b == BitmapBlock(disk, sb, g, inode)
    requires bytes == Block(disk, sb.bs, b) && FirstClear(Bits(bytes), 0) == Some(k)
    requires |bytes'| == sb.bs && Bits(bytes') == Bits(bytes)[k := true] && out == PutBlock(disk, sb.bs, b, bytes')
    ensures Bitmaps(out, sb, inode) && Take(Marks(disk, sb, inode), g) == (Some(k), Marks(out, sb, inode))
  {
    BitmapsKept(disk, sb, g, inode, bytes', b, out);
    assert GroupMarks(disk, sb, g, inode) == Bits(bytes);
    assert Marks(out, sb, inode) == Marks(disk, sb, inode)[g := Bits(bytes')];
  }

  /** What an allocation in group `g` that gives `id` has done. */
  ghost predicate Allocated(disk: Disk, sb: Super, per: nat, g: nat, inode: bool, id: nat, out: Disk)
    requires Bitmaps(disk, sb, inode) && g < sb.groups
  {
    && Bitmaps(out, sb, inode)
    && Take(Marks(disk, sb, inode), g).0.Some?
    && Take(Marks(disk, sb, inode), g).1 == Marks(out, sb, inode)
    && id == ObjectId(per, g, Take(Marks(disk, sb, inode), g).0.value, inode)
  }

  lemma Quotient(g: nat, per: nat, k: nat, id: nat)
    requires k < per && id == g * per + k
    ensures id / per == g && id % per == k
  {
    var q := id / per;
    Divide(id, per, q);
    Multiples(q, g, per);
    Multiples(g, q, per);
    assert id == q * per + id % per;
  }

  lemma Multiples(a: nat, b: nat, per: nat)
    ensures a < b ==> a * per + per <= b * per
  {
    if a < b { assert (a + 1) * per <= b * per; }
  }

  /** Exactly bit `k` of group `g` was set: the first one that was clear. */
  ghost predicate Flipped(disk: Disk, out: Disk, sb: Super, g: nat, inode: bool, k: nat)
    requires Bitmaps(disk, sb, inode) && Bitmaps(out, sb, inode) && g < sb.groups
  {
    var marks, later := GroupMarks(disk, sb, g, inode), GroupMarks(out, sb, g, inode);
    && k < |marks| == |later| && !marks[k] && later[k]
    && (forall j | 0 <= j < k :: marks[j])
    && (forall j | 0 <= j < |marks| && j != k :: later[j] == marks[j])
    && (forall h | 0 <= h < sb.groups && h != g :: GroupMarks(out, sb, h, inode) == GroupMarks(disk, sb, h, inode))
  }

  /** The object that an id names was free and is taken: block `id` is bit `id % per` of group
      `id / per`, and inode `id` is bit `(id - 1) % per` of group `(id - 1) / per`, where
      `inode_transfer` finds it. */
  ghost predicate Named(disk: Disk, out: Disk, sb: Super, per: nat, g: nat, inode: bool, id: nat)
    requires Bitmaps(disk, sb, inode) && g < sb.groups
  {
    && Bitmaps(out, sb, inode) && 0 < per
    && (!inode ==> id / per == g && Flipped(disk, out, sb, g, inode, id % per))
    && (inode ==> 1 <= id && (id - 1) / per == g && Flipped(disk, out, sb, g, inode, (id - 1) % per))
    && (inode && per == sb.perGroup ==>
        Id(sb, id) && Group(sb, id) == g && Flipped(disk, out, sb, g, inode, Index(sb, id)))
  }

  lemma AllocatedFlips(disk: Disk, sb: Super, per: nat, g: nat, inode: bool, id: nat, out: Disk, k: nat)
    requires Bitmaps(disk, sb, inode) && g < sb.groups && Allocated(disk, sb, per, g, inode, id, out)
             && Take(Marks(disk, sb, inode), g).0 == Some(k)
    ensures Flipped(disk, out, sb, g, inode, k)
  {
    var marks, later := Marks(disk, sb, inode), Marks(out, sb, inode);
    FirstClearFacts(marks[g], 0);
    assert later == marks[g := marks[g][k := true]];
    assert marks[g] == GroupMarks(disk, sb, g, inode) && later[g] == GroupMarks(out, sb, g, inode);
    forall h | 0 <= h < sb.groups && h != g
      ensures GroupMarks(out, sb, h, inode) == GroupMarks(disk, sb, h, inode)
    {
      assert later[h] == marks[h];
    }
  }

  /** The first clear bit is no padding. */
  lemma NoPadding(marks: seq<seq<bool>>, per: nat, g: nat)
    requires g < |marks| && Padded(marks, per) && Take(marks, g).0.Some?
    ensures Take(marks, g).0.value < per
  {
    FirstClearFacts(marks[g], 0);
  }

  /** Group and bit can be read off the id. */
  lemma Decoded(per: nat, g: nat, k: nat, inode: bool, id: nat)
    requires k < per && id == ObjectId(per, g, k, inode)
    ensures !inode ==> id / per == g && id % per == k
    ensures inode ==> 1 <= id && (id - 1) / per == g && (id - 1) % per == k
  {
    if inode {
      Quotient(g, per, k, id - 1);
    } else {
      Quotient(g, per, k, id);
    }
  }

  lemma AllocatedNames(disk: Disk, sb: Super, per: nat, g: nat, inode: bool, id: nat, out: Disk, k: nat)
    requires Bitmaps(disk, sb, inode) && g < sb.groups && Allocated(disk, sb, per, g, inode, id, out)
    requires Take(Marks(disk, sb, inode), g).0 == Some(k) && k < per
    ensures Named(disk, out, sb, per, g, inode, id)
  {
    AllocatedFlips(disk, sb, per, g, inode, id, out, k);
    Decoded(per, g, k, inode, id);
    if inode {
      NamesInode(disk, out, sb, per, g, k, id, id - 1);
    } else {
      NamesBlock(disk, out, sb, per, g, k, id);
    }
  }

  lemma NamesBlock(disk: Disk, out: Disk, sb: Super, per: nat, g: nat, k: nat, id: nat)
    requires Bitmaps(disk, sb, false) && g < sb.groups && Bitmaps(out, sb, false) && Flipped(disk, out, sb, g, false, k)
    requires 0 < per && id / per == g && id % per == k
    ensures Named(disk, out, sb, per, g, false, id)
  {
  }

  lemma NamesInode(disk: Disk, out: Disk, sb: Super, per: nat, g: nat, k: nat, id: nat, n: nat)
    requires Bitmaps(disk, sb, true) && g < sb.groups && Bitmaps(out, sb, true) && Flipped(disk, out, sb, g, true, k)
    requires 0 < per && id == n + 1 && n / per == g && n % per == k
    ensures Named(disk, out, sb, per, g, true, id)
  {
  }

  /** The bitmap part of `alloc_ext2_obj`. */
  method TakeObject(disk: Disk, faulty: bool, sb: Super, per: nat, g: nat, inode: bool, b: nat)
      returns (id: nat, out: Disk, ghost taken: bool, ghost failed: bool)
    requires Bitmaps(disk, sb, inode) && g < sb.groups && BitmapAvoids(disk, sb, g, inode)
             && b == BitmapBlock(disk, sb, g, inode)
    ensures Allocated(disk, sb, per, g, inode, id, out) || (id == 0 && out == disk)
    ensures taken ==> Allocated(disk, sb, per, g, inode, id, out)
    ensures !taken ==> id == 0 && out == disk && (failed || Take(Marks(disk, sb, inode), g).0 == None)
    ensures failed ==> faulty
  {
    var err, bytes := ReadBlock(disk, faulty, sb.bs, b);
    if err {
      return 0, disk, false, true;
    }
    var found, i, j := ScanBitmap(bytes);
    if !found {
      return 0, disk, false, false;
    }
    ghost var k := i * 8 + j;
    var bytes' := MarkBit(bytes, i, j, k);
    err, out := WriteBlock(disk, faulty, sb.bs, b, bytes');
    if err {
      return 0, disk, false, true;
    }
    TakeMarks(disk, sb, g, inode, bytes, b, k, bytes', out);
    return ObjectId(per, g, i * 8 + j, inode), out, true, false;
  }

  /** `alloc_ext2_obj`: the id of an object that was free and is taken now, or 0 if the
      descriptor or the bitmap knows of none or a sector cannot be read or written. */
  method AllocObject(disk: Disk, faulty: bool, sb: Super, per: nat, g: nat, inode: bool)
      returns (id: nat, out: Disk, ghost taken: bool, ghost failed: bool)
    requires Bitmaps(disk, sb, inode) && g < sb.groups
    ensures Allocated(disk, sb, per, g, inode, id, out) || (id == 0 && out == disk)
    ensures taken ==> Allocated(disk, sb, per, g, inode, id, out)
    ensures taken && Padded(Marks(disk, sb, inode), per) ==> Named(disk, out, sb, per, g, inode, id)
    ensures taken ==> FreeCount(disk[DescriptorAt(sb, g)..DescriptorAt(sb, g) + DESCRIPTOR], inode) > 0
    ensures !taken ==> id == 0 && out == disk
    ensures !taken && !failed ==>
            || (forall k | 0 <= k < |GroupMarks(disk, sb, g, inode)| :: GroupMarks(disk, sb, g, inode)[k])
            || FreeCount(disk[DescriptorAt(sb, g)..DescriptorAt(sb, g) + DESCRIPTOR], inode) == 0
    ensures failed ==> faulty
  {
    var err, d := ReadDescriptor(disk, faulty, sb, g);
    if err {
      return 0, disk, false, true;
    }
    if FreeCount(d, inode) == 0 {
      return 0, disk, false, false;
    }
    err, d := ReadDescriptor(disk, faulty, sb, g);
    if err {
      return 0, disk, false, true;
    }
    DescriptorWord(disk, DescriptorAt(sb, g), if inode then 4 else 0);
    assert BitmapAvoids(disk, sb, g, inode);
    id, out, taken, failed := TakeObject(disk, faulty, sb, per, g, inode, U32(d, if inode then 4 else 0));
    FirstClearFacts(Marks(disk, sb, inode)[g], 0);
    if taken && Padded(Marks(disk, sb, inode), per) {
      NoPadding(Marks(disk, sb, inode), per, g);
      AllocatedNames(disk, sb, per, g, inode, id, out, Take(Marks(disk, sb, inode), g).0.value);
    }
  }
}
