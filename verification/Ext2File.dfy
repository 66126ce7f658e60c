/**
 `inode_data_transfer` and `ext2_transfer` of src/common/ext2.c, for files without holes.
 */
module Ext2File {
  import opened Common
  import opened Ext2Disk

  const INODE_BYTES := 128
  const DIRECT := 12

  /** Fields of `struct ext2_inode`. */
  function SizeLo(inode: seq<byte>): nat
    requires |inode| == INODE_BYTES
  {
    U32(inode, 4)
  }

  function DirectBlock(inode: seq<byte>, i: nat): nat
    requires |inode| == INODE_BYTES && i < DIRECT
  {
    U32(inode, 40 + 4 * i)
  }

  function IndirectBlock(inode: seq<byte>): nat
    requires |inode| == INODE_BYTES
  {
    U32(inode, 88)
  }

  // ---------------------------------------------------------------- the block map

  /** The address of block `i` of a file. */
  function Address(disk: Disk, bs: nat, inode: seq<byte>, i: nat): nat
    requires |inode| == INODE_BYTES && i < DIRECT + bs / 4
    requires DIRECT <= i ==> InDisk(disk, bs, IndirectBlock(inode))
  {
    if i < DIRECT then DirectBlock(inode, i) else U32(Block(disk, bs, IndirectBlock(inode)), 4 * (i - DIRECT))
  }

  /** `blocks` are the addresses of the first blocks of a file; there is no hole, and the
      blocks and the indirect block are all different. */
  ghost predicate FileMap(disk: Disk, bs: nat, inode: seq<byte>, blocks: seq<nat>) {
    && |inode| == INODE_BYTES && |blocks| <= DIRECT + bs / 4
    && (DIRECT < |blocks| ==> IndirectBlock(inode) != 0 && InDisk(disk, bs, IndirectBlock(inode)))
    && (forall i | 0 <= i < |blocks| :: blocks[i] == Address(disk, bs, inode, i))
    && (forall i | 0 <= i < |blocks| :: blocks[i] != 0 && InDisk(disk, bs, blocks[i]))
    && (forall i | 0 <= i < |blocks| && DIRECT < |blocks| :: blocks[i] != IndirectBlock(inode))
    && (forall i, j | 0 <= i < j < |blocks| :: blocks[i] != blocks[j])
  }

  /** The block map does not depend on anything but the indirect block. */
  lemma FileMapKept(disk: Disk, out: Disk, bs: nat, inode: seq<byte>, blocks: seq<nat>)
    requires FileMap(disk, bs, inode, blocks) && |out| == |disk|
    requires DIRECT < |blocks| ==> Block(out, bs, IndirectBlock(inode)) == Block(disk, bs, IndirectBlock(inode))
    ensures FileMap(out, bs, inode, blocks)
  {
    forall i | 0 <= i < |blocks| ensures blocks[i] == Address(out, bs, inode, i) {
      assert blocks[i] == Address(disk, bs, inode, i);
    }
  }

  // ---------------------------------------------------------------- inode_data_transfer

  /** The part of `inode_data_transfer` that finds the block. */
  method FindBlock(disk: Disk, faulty: bool, bs: nat, inode: seq<byte>, idx: nat, ghost blocks: seq<nat>)
      returns (err: bool, b: nat)
    requires BlockSize(bs) && SmallDisk(disk) && FileMap(disk, bs, inode, blocks) && idx < |blocks|
    ensures !err ==> b == blocks[idx]
    ensures err ==> faulty
  {
    err := false;
    if idx < DIRECT {
      b := DirectBlock(inode, idx);
    } else {
      var table;
      err, table := ReadBlock(disk, faulty, bs, IndirectBlock(inode));
      b := if err then 0 else U32(table, 4 * (idx - DIRECT));
    }
  }

  method ReadData(disk: Disk, faulty: bool, bs: nat, inode: seq<byte>, idx: nat, ghost blocks: seq<nat>)
      returns (err: bool, data: seq<byte>)
    requires BlockSize(bs) && SmallDisk(disk) && FileMap(disk, bs, inode, blocks) && idx < |blocks|
    ensures !err ==> data == Block(disk, bs, blocks[idx])
    ensures err ==> faulty
  {
    var b;
    err, b := FindBlock(disk, faulty, bs, inode, idx, blocks);
    data := [];
    if !err {
      err, data := ReadBlock(disk, faulty, bs, b);
    }
  }

  method WriteData(disk: Disk, faulty: bool, bs: nat, inode: seq<byte>, idx: nat, data: seq<byte>,
      ghost blocks: seq<nat>)
      returns (err: bool, out: Disk)
    requires BlockSize(bs) && SmallDisk(disk) && FileMap(disk, bs, inode, blocks) && idx < |blocks| && |data| == bs
    ensures out == if err then disk else PutBlock(disk, bs, blocks[idx], data)
    ensures err ==> faulty
  {
    var b;
    err, b := FindBlock(disk, faulty, bs, inode, idx, blocks);
    out := disk;
    if !err {
      err, out := WriteBlock(disk, faulty, bs, b, data);
    }
  }

  // ---------------------------------------------------------------- flat contents

  ghost predicate AllIn(disk: Disk, bs: nat, blocks: seq<nat>) {
    forall i | 0 <= i < |blocks| :: InDisk(disk, bs, blocks[i])
  }

  /** The bytes of the first `n` blocks of a file, one after the other. */
  ghost function Flat(disk: Disk, bs: nat, blocks: seq<nat>, n: nat): (s: seq<byte>)
    requires n <= |blocks| && AllIn(disk, bs, blocks)
    ensures |s| == Start(bs, n)
  {
    if n == 0 then [] else
      assert Start(bs, n) == Start(bs, n - 1) + bs;
      Flat(disk, bs, blocks, n - 1) + Block(disk, bs, blocks[n - 1])
  }

  lemma {:induction false} FlatAt(disk: Disk, bs: nat, blocks: seq<nat>, n: nat, i: nat, j: nat, k: nat)
    requires i < n <= |blocks| && j < bs && AllIn(disk, bs, blocks) && k == Start(bs, i) + j
    ensures k < Start(bs, n) && Flat(disk, bs, blocks, n)[k] == Block(disk, bs, blocks[i])[j]
  {
    BlocksApart(bs, i, n);
    if i < n - 1 { FlatAt(disk, bs, blocks, n - 1, i, j, k); }
  }

  /** Every position is a byte of a block. */
  lemma Locate(bs: nat, n: nat, k: nat) returns (i: nat, j: nat)
    requires 0 < bs && k < Start(bs, n)
    ensures i < n && j < bs && k == Start(bs, i) + j
  {
    i, j := k / bs, k % bs;
    assert k == i * bs + j;
    StartIs(bs, i);
    Monotone(bs, n, i);
  }

  lemma Monotone(bs: nat, n: nat, i: nat)
    ensures n <= i ==> Start(bs, n) <= Start(bs, i)
  {
    if n < i { BlocksApart(bs, n, i); }
  }

  lemma FlatSlice(disk: Disk, bs: nat, blocks: seq<nat>, i: nat, a: nat, c: nat)
    requires i < |blocks| && a + c <= bs && AllIn(disk, bs, blocks)
    ensures Start(bs, i) + bs <= Start(bs, |blocks|)
    ensures var at := Start(bs, i) + a;
            Flat(disk, bs, blocks, |blocks|)[at..at + c] == Block(disk, bs, blocks[i])[a..a + c]
  {
    BlocksApart(bs, i, |blocks|);
    var at := Start(bs, i) + a;
    var part, piece := Flat(disk, bs, blocks, |blocks|)[at..at + c], Block(disk, bs, blocks[i])[a..a + c];
    forall k | 0 <= k < c ensures part[k] == piece[k] {
      FlatAt(disk, bs, blocks, |blocks|, i, a + k, at + k);
    }
    assert part == piece;
  }

  /** In the blocks of a file, exactly `piece` was written to block `i` from byte `a` on. */
  ghost predicate PieceWritten(disk: Disk, bs: nat, blocks: seq<nat>, i: nat, a: nat, piece: seq<byte>, out: Disk)
    requires AllIn(disk, bs, blocks) && AllIn(out, bs, blocks)
  {
    forall m, j | 0 <= m < |blocks| && 0 <= j < bs ::
      Block(out, bs, blocks[m])[j] == if m == i && a <= j < a + |piece|
          then piece[j - a] else Block(disk, bs, blocks[m])[j]
  }

  lemma PutPiece(disk: Disk, bs: nat, blocks: seq<nat>, i: nat, a: nat, piece: seq<byte>, out: Disk)
    requires i < |blocks| && a + |piece| <= bs && AllIn(disk, bs, blocks) && AllIn(out, bs, blocks)
    requires forall i, j | 0 <= i < j < |blocks| :: blocks[i] != blocks[j]
    requires out == PutBlock(disk, bs, blocks[i], Splice(Block(disk, bs, blocks[i]), a, piece))
    ensures PieceWritten(disk, bs, blocks, i, a, piece, out)
  {
    forall m, j | 0 <= m < |blocks| && 0 <= j < bs
      ensures Block(out, bs, blocks[m])[j] == if m == i && a <= j < a + |piece|
              then piece[j - a] else Block(disk, bs, blocks[m])[j]
    {
      PutBlockReads(disk, bs, blocks[i], Splice(Block(disk, bs, blocks[i]), a, piece), blocks[m]);
    }
  }

  lemma FlatPutAt(disk: Disk, bs: nat, blocks: seq<nat>, i: nat, a: nat, piece: seq<byte>, out: Disk, at: nat, k: nat)
    requires 0 < bs && a + |piece| <= bs && AllIn(disk, bs, blocks) && AllIn(out, bs, blocks)
    requires PieceWritten(disk, bs, blocks, i, a, piece, out) && at == Start(bs, i) + a && k < Start(bs, |blocks|)
    ensures Flat(out, bs, blocks, |blocks|)[k] == if at <= k < at + |piece|
            then piece[k - at] else Flat(disk, bs, blocks, |blocks|)[k]
  {
    var m, j := Locate(bs, |blocks|, k);
    FlatAt(disk, bs, blocks, |blocks|, m, j, k);
    FlatAt(out, bs, blocks, |blocks|, m, j, k);
    PiecePosition(bs, i, a, |piece|, m, j);
  }

  /** Changing part of one block changes that part of the file's contents and nothing else. */
  lemma FlatPut(disk: Disk, bs: nat, blocks: seq<nat>, i: nat, a: nat, piece: seq<byte>, out: Disk, at: nat)
    requires 0 < bs && i < |blocks| && a + |piece| <= bs && AllIn(disk, bs, blocks) && AllIn(out, bs, blocks)
    requires PieceWritten(disk, bs, blocks, i, a, piece, out) && at == Start(bs, i) + a
    ensures at + |piece| <= Start(bs, |blocks|)
    ensures Flat(out, bs, blocks, |blocks|) == Splice(Flat(disk, bs, blocks, |blocks|), at, piece)
  {
    BlocksApart(bs, i, |blocks|);
    var new_flat, spliced := Flat(out, bs, blocks, |blocks|), Splice(Flat(disk, bs, blocks, |blocks|), at, piece);
    forall k | 0 <= k < |spliced| ensures new_flat[k] == spliced[k] {
      FlatPutAt(disk, bs, blocks, i, a, piece, out, at, k);
    }
  }

  /** A position is in a piece of block `i` exactly when it is in block `i` and in the piece. */
  lemma PiecePosition(bs: nat, i: nat, a: nat, n: nat, m: nat, j: nat)
    requires a + n <= bs && j < bs
    ensures Start(bs, i) + a <= Start(bs, m) + j < Start(bs, i) + a + n <==> m == i && a <= j < a + n
  {
    if m < i { BlocksApart(bs, m, i); }
    if i < m { BlocksApart(bs, i, m); }
  }

  lemma SpliceSplice(s: seq<byte>, at: nat, data: seq<byte>, done: nat, next: nat)
    requires done <= next <= |data| && at + next <= |s|
    ensures Splice(Splice(s, at, data[..done]), at + done, data[done..next]) == Splice(s, at, data[..next])
  {
  }

  // ---------------------------------------------------------------- ext2_transfer

  /** The value of `cnt` in one round: the subtraction wraps around 0 and back. */
  function Count(bs: nat, skip: nat, offset: nat, len: nat, blockEnd: nat): nat
    requires skip <= bs
  {
    var c := bs - skip;
    if offset + len < blockEnd then (c + (offset + len - blockEnd) % WORD) % WORD else c
  }

  /** It is what is left of the range or of the block, whichever is less. */
  lemma CountIs(bs: nat, skip: nat, offset: nat, len: nat, start: nat, done: nat)
    requires skip < bs && bs <= 0x1_0000 && offset + len < WORD && done <= len && start + skip == offset + done
    ensures Count(bs, skip, offset, len, start + bs) == if len - done < bs - skip then len - done else bs - skip
  {
    var x := offset + len - (start + bs);
    if x < 0 {
      assert x % WORD == x + WORD;
      assert bs - skip + x == len - done;
    }
  }

  /** Where the loop stands: `done` bytes are transferred, and the next one is byte `skip` of
      block `block`. */
  ghost predicate Position(bs: nat, offset: nat, len: nat, n: nat, block: nat, skip: nat, done: nat) {
    && offset + len < WORD && offset + len <= Start(bs, n) && done <= len
    && block < n && skip < bs && Start(bs, block) + skip == offset + done
  }

  lemma NextBlock(bs: nat, offset: nat, len: nat, n: nat, block: nat, skip: nat, done: nat, cnt: nat)
    requires Position(bs, offset, len, n, block, skip, done) && 0 < bs
    requires cnt == (if len - done < bs - skip then len - done else bs - skip) && done + cnt != len
    ensures Position(bs, offset, len, n, block + 1, 0, done + cnt) && 0 < cnt
  {
    assert Start(bs, block + 1) == Start(bs, block) + bs;
    Monotone(bs, n, block + 1);
  }

  lemma FirstBlock(bs: nat, offset: nat, len: nat, n: nat)
    requires 0 < bs && offset + len < WORD && offset + len <= Start(bs, n) && offset / bs < n
    ensures offset / bs * bs == Start(bs, offset / bs) <= offset
    ensures Position(bs, offset, len, n, offset / bs, offset - offset / bs * bs, 0)
    ensures (offset / bs + 1) * bs == Start(bs, offset / bs) + bs
  {
    var block := offset / bs;
    Divide(offset, bs, block);
    StartIs(bs, block);
    StartIs(bs, block + 1);
  }

  lemma Divide(x: nat, bs: nat, q: nat)
    requires 0 < bs && q == x / bs
    ensures q * bs <= x < q * bs + bs
  {
    assert x == q * bs + x % bs;
  }

  /** One round of a read: `cnt` bytes from byte `skip` of block `block` on. */
  method ReadPiece(disk: Disk, faulty: bool, bs: nat, inode: seq<byte>, block: nat, skip: nat, cnt: nat,
      ghost blocks: seq<nat>,
      ghost at: nat)
    returns (err: bool, piece: seq<byte>)
    requires BlockSize(bs) && SmallDisk(disk) && FileMap(disk, bs, inode, blocks) && block < |blocks|
             && skip + cnt <= bs
    requires at == Start(bs, block) + skip
    ensures !err ==> at + cnt <= Start(bs, |blocks|) && piece == Flat(disk, bs, blocks, |blocks|)[at..at + cnt]
    ensures err ==> faulty
  {
    var bfr;
    err, bfr := ReadData(disk, faulty, bs, inode, block, blocks);
    FlatSlice(disk, bs, blocks, block, skip, cnt);
    piece := if err then [] else bfr[skip..skip + cnt];
  }

  /** The part of a file's contents from `offset` on that has been read. */
  ghost predicate ReadSoFar(flat: seq<byte>, offset: nat, data: seq<byte>) {
    offset + |data| <= |flat| && data == flat[offset..offset + |data|]
  }

  lemma ReadMore(flat: seq<byte>, offset: nat, data: seq<byte>, piece: seq<byte>, at: nat)
    requires ReadSoFar(flat, offset, data) && at == offset + |data| && at + |piece| <= |flat|
             && piece == flat[at..at + |piece|]
    ensures ReadSoFar(flat, offset, data + piece)
  {
  }

  /** One round of the loop for a read. */
  method ReadRound(disk: Disk, faulty: bool, bs: nat, inode: seq<byte>, offset: nat, len: nat, block: nat, skip: nat,
      data: seq<byte>, blockEnd: nat, ghost blocks: seq<nat>)
    returns (err: bool, data': seq<byte>)
    requires BlockSize(bs) && SmallDisk(disk) && FileMap(disk, bs, inode, blocks)
    requires Position(bs, offset, len, |blocks|, block, skip, |data|) && blockEnd == Start(bs, block) + bs
    requires ReadSoFar(Flat(disk, bs, blocks, |blocks|), offset, data)
    ensures ReadSoFar(Flat(disk, bs, blocks, |blocks|), offset, data')
    ensures err ==> data' == data
    ensures |data'| <= len && (!err && |data'| != len ==>
            |data| < |data'| && Position(bs, offset, len, |blocks|, block + 1, 0, |data'|))
    ensures err ==> faulty
  {
    ghost var at := offset + |data|;
    CountIs(bs, skip, offset, len, Start(bs, block), |data|);
    var cnt := Count(bs, skip, offset, len, blockEnd);
    var piece;
    err, piece := ReadPiece(disk, faulty, bs, inode, block, skip, cnt, blocks, at);
    data' := data;
    if !err {
      ReadMore(Flat(disk, bs, blocks, |blocks|), offset, data, piece, at);
      data' := data + piece;
      if |data'| != len {
        NextBlock(bs, offset, len, |blocks|, block, skip, |data|, cnt);
      }
    }
  }

  /** The loop of `ext2_transfer` for a read. */
  method ReadRange(disk: Disk, faulty: bool, bs: nat, inode: seq<byte>, offset: nat, len: nat, ghost blocks: seq<nat>)
    returns (err: bool, data: seq<byte>)
    requires BlockSize(bs) && SmallDisk(disk) && FileMap(disk, bs, inode, blocks)
    requires offset + len < WORD && offset + len <= Start(bs, |blocks|) && offset / bs < |blocks|
    ensures ReadSoFar(Flat(disk, bs, blocks, |blocks|), offset, data)
    ensures |data| <= len && (!err ==> |data| == len)
    ensures err ==> faulty
  {
    FirstBlock(bs, offset, len, |blocks|);
    var block: nat := offset / bs;
    var skip: nat := offset - block * bs;
    var blockEnd := (block + 1) * bs;
    err, data := false, [];
    var going := true;
    while going
      invariant ReadSoFar(Flat(disk, bs, blocks, |blocks|), offset, data) && |data| <= len
      invariant going ==>
                !err && Position(bs, offset, len, |blocks|, block, skip, |data|) && blockEnd == Start(bs, block) + bs
      invariant !going ==> err || |data| == len
      invariant err ==> faulty
      decreases going, len - |data|
    {
      err, data := ReadRound(disk, faulty, bs, inode, offset, len, block, skip, data, blockEnd, blocks);
      going := !err && |data| != len;
      block, blockEnd, skip := block + 1, blockEnd + bs, 0;
    }
  }

  /** Byte `k` of the disk is in one of the blocks. */
  ghost predicate Within(bs: nat, blocks: seq<nat>, k: nat) {
    exists i | 0 <= i < |blocks| :: Start(bs, blocks[i]) <= k < Start(bs, blocks[i]) + bs
  }

  /** Only bytes of the file's blocks have changed, so that all other blocks are as before. */
  ghost predicate OthersKept(disk: Disk, out: Disk, bs: nat, blocks: seq<nat>) {
    && |out| == |disk|
    && (forall c: nat | InDisk(disk, bs, c) && c !in blocks :: Block(out, bs, c) == Block(disk, bs, c))
    && (forall k | 0 <= k < |disk| && !Within(bs, blocks, k) :: out[k] == disk[k])
  }

  /** The file's contents with `data` written over them from `offset` on. */
  ghost predicate Written(disk: Disk, out: Disk, bs: nat, inode: seq<byte>, blocks: seq<nat>, offset: nat,
      data: seq<byte>) {
    && FileMap(disk, bs, inode, blocks) && FileMap(out, bs, inode, blocks) && OthersKept(disk, out, bs, blocks)
    && offset + |data| <= Start(bs, |blocks|)
    && Flat(out, bs, blocks, |blocks|) == Splice(Flat(disk, bs, blocks, |blocks|), offset, data)
  }

  lemma PutKeeps(disk: Disk, bs: nat, inode: seq<byte>, blocks: seq<nat>, i: nat, data: seq<byte>, out: Disk)
    requires FileMap(disk, bs, inode, blocks) && i < |blocks| && |data| == bs
             && out == PutBlock(disk, bs, blocks[i], data)
    ensures FileMap(out, bs, inode, blocks) && OthersKept(disk, out, bs, blocks)
  {
    forall c: nat | InDisk(disk, bs, c) && c !in blocks ensures Block(out, bs, c) == Block(disk, bs, c) {
      PutBlockReads(disk, bs, blocks[i], data, c);
    }
    if DIRECT < |blocks| {
      PutBlockReads(disk, bs, blocks[i], data, IndirectBlock(inode));
    }
    FileMapKept(disk, out, bs, inode, blocks);
  }

  lemma WrittenMore(disk: Disk, mid: Disk, out: Disk, bs: nat, inode: seq<byte>, blocks: seq<nat>, offset: nat,
      data: seq<byte>, done: nat, next: nat, i: nat, a: nat)
    requires 0 < bs && done <= next <= |data| && Written(disk, mid, bs, inode, blocks, offset, data[..done])
             && i < |blocks|
    requires Start(bs, i) + a == offset + done && a + (next - done) <= bs
    requires out == PutBlock(mid, bs, blocks[i], Splice(Block(mid, bs, blocks[i]), a, data[done..next]))
    ensures Written(disk, out, bs, inode, blocks, offset, data[..next])
  {
    var piece := data[done..next];
    PutKeeps(mid, bs, inode, blocks, i, Splice(Block(mid, bs, blocks[i]), a, piece), out);
    PutPiece(mid, bs, blocks, i, a, piece, out);
    FlatPut(mid, bs, blocks, i, a, piece, out, offset + done);
    SpliceSplice(Flat(disk, bs, blocks, |blocks|), offset, data, done, next);
  }

  /** One round of a write: the block is read, changed and written back. */
  method WritePiece(disk: Disk, faulty: bool, bs: nat, inode: seq<byte>, block: nat, skip: nat, piece: seq<byte>,
      ghost blocks: seq<nat>)
    returns (err: bool, out: Disk)
    requires BlockSize(bs) && SmallDisk(disk) && FileMap(disk, bs, inode, blocks) && block < |blocks|
             && skip + |piece| <= bs
    ensures out == if err then disk else PutBlock(disk, bs, blocks[block],
            Splice(Block(disk, bs, blocks[block]), skip, piece))
    ensures err ==> faulty
  {
    var bfr;
    err, bfr := ReadData(disk, faulty, bs, inode, block, blocks);
    out := disk;
    if !err {
      bfr := Splice(bfr, skip, piece);
      err, out := WriteData(disk, faulty, bs, inode, block, bfr, blocks);
    }
  }

  lemma NothingWritten(disk: Disk, bs: nat, inode: seq<byte>, blocks: seq<nat>, offset: nat)
    requires FileMap(disk, bs, inode, blocks) && offset <= Start(bs, |blocks|)
    ensures Written(disk, disk, bs, inode, blocks, offset, [])
  {
  }

  /** One round of the loop for a write. */
  method WriteRound(disk: Disk, faulty: bool, bs: nat, inode: seq<byte>, offset: nat, data: seq<byte>, block: nat,
      skip: nat, done: nat, blockEnd: nat, ghost before: Disk, ghost blocks: seq<nat>)
    returns (err: bool, out: Disk, next: nat)
    requires BlockSize(bs) && SmallDisk(disk) && Position(bs, offset, |data|, |blocks|, block, skip, done)
    requires Written(before, disk, bs, inode, blocks, offset, data[..done]) && blockEnd == Start(bs, block) + bs
    ensures done <= next <= |data| && Written(before, out, bs, inode, blocks, offset, data[..next])
    ensures err ==> next == done
    ensures !err && next != |data| ==> done < next && Position(bs, offset, |data|, |blocks|, block + 1, 0, next)
    ensures err ==> faulty
  {
    CountIs(bs, skip, offset, |data|, Start(bs, block), done);
    var cnt := Count(bs, skip, offset, |data|, blockEnd);
    next := done + cnt;
    err, out := WritePiece(disk, faulty, bs, inode, block, skip, data[done..next], blocks);
    if err {
      next := done;
    } else {
      WrittenMore(before, disk, out, bs, inode, blocks, offset, data, done, next, block, skip);
      if next != |data| {
        NextBlock(bs, offset, |data|, |blocks|, block, skip, done, cnt);
      }
    }
  }

  /** The loop of `ext2_transfer` for a write. */
  method WriteRange(disk: Disk, faulty: bool, bs: nat, inode: seq<byte>, offset: nat, data: seq<byte>,
      ghost blocks: seq<nat>)
    returns (err: bool, out: Disk, done: nat)
    requires BlockSize(bs) && SmallDisk(disk) && FileMap(disk, bs, inode, blocks)
    requires offset + |data| < WORD && offset + |data| <= Start(bs, |blocks|) && offset / bs < |blocks|
    ensures done <= |data| && (!err ==> done == |data|)
    ensures Written(disk, out, bs, inode, blocks, offset, data[..done])
    ensures err ==> faulty
  {
    FirstBlock(bs, offset, |data|, |blocks|);
    var block: nat := offset / bs;
    var skip: nat := offset - block * bs;
    var blockEnd := (block + 1) * bs;
    err, out, done := false, disk, 0;
    NothingWritten(disk, bs, inode, blocks, offset);
    var going := true;
    while going
      invariant done <= |data| && Written(disk, out, bs, inode, blocks, offset, data[..done])
      invariant going ==>
                !err && Position(bs, offset, |data|, |blocks|, block, skip, done) && blockEnd == Start(bs, block) + bs
      invariant !going ==> err || done == |data|
      invariant err ==> faulty
      decreases going, |data| - done
    {
      err, out, done := WriteRound(out, faulty, bs, inode, offset, data, block, skip, done, blockEnd, disk, blocks);
      going := !err && done != |data|;
      block, blockEnd, skip := block + 1, blockEnd + bs, 0;
    }
  }

  // ---------------------------------------------------------------- reading back

  /** A read after a write: the range that was written holds the data, and ranges before or
      after it are as they were. */
  lemma ReadBack(disk: Disk, out: Disk, bs: nat, inode: seq<byte>, blocks: seq<nat>, offset: nat, data: seq<byte>,
      from: nat, got: seq<byte>)
    requires Written(disk, out, bs, inode, blocks, offset, data)
    requires ReadSoFar(Flat(out, bs, blocks, |blocks|), from, got)
    ensures forall k | 0 <= k < |got| ::
              got[k] == if offset <= from + k < offset + |data|
                  then data[from + k - offset] else Flat(disk, bs, blocks, |blocks|)[from + k]
    ensures from == offset && |got| == |data| ==> got == data
  {
  }

  /** Another file, none of whose blocks belongs to the first, keeps its map and contents. */
  lemma OtherFile(disk: Disk, out: Disk, bs: nat, blocks: seq<nat>, inode2: seq<byte>, blocks2: seq<nat>)
    requires FileMap(disk, bs, inode2, blocks2) && OthersKept(disk, out, bs, blocks)
    requires forall i | 0 <= i < |blocks2| :: blocks2[i] !in blocks
    requires DIRECT < |blocks2| ==> IndirectBlock(inode2) !in blocks
    ensures FileMap(out, bs, inode2, blocks2) && Flat(out, bs, blocks2, |blocks2|) == Flat(disk, bs, blocks2, |blocks2|)
  {
    FileMapKept(disk, out, bs, inode2, blocks2);
    FlatSame(disk, out, bs, blocks2, |blocks2|);
  }

  lemma {:induction false} FlatSame(disk: Disk, out: Disk, bs: nat, blocks: seq<nat>, n: nat)
    requires n <= |blocks| && AllIn(disk, bs, blocks) && AllIn(out, bs, blocks)
    requires forall i | 0 <= i < |blocks| :: Block(out, bs, blocks[i]) == Block(disk, bs, blocks[i])
    ensures Flat(out, bs, blocks, n) == Flat(disk, bs, blocks, n)
  {
    if n > 0 { FlatSame(disk, out, bs, blocks, n - 1); }
  }
}
