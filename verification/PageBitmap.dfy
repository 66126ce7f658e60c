/**
 The loops of `kmalloc_aligned`, `kmalloc_aligned_multi` and `kfree` on the words of
 `page_bitmap`.
 */
module PageBitmap {
  import opened Common
  import opened WordBits
  import H = PageHeap

  /** The bits of a word from bit 0 up to bit `n - 1`. */
  function Marks(w: bv32, n: nat): (m: seq<bool>)
    requires n <= 32
    ensures |m| == n
  {
    if n == 0 then [] else Marks(w, n - 1) + [Bit(w, n - 1)]
  }

  lemma {:induction false} MarksBit(w: bv32, n: nat, k: nat)
    requires k < n <= 32
    ensures Marks(w, n)[k] == Bit(w, k)
  {
    if k < n - 1 { MarksBit(w, n - 1, k); }
  }

  /** The mark of page `k` is bit `k % 32` of word `k / 32`. */
  function View(words: seq<bv32>): (marks: seq<bool>)
    ensures |marks| == 32 * |words| && H.Sound(marks)
  {
    seq(32 * |words|, k requires 0 <= k < 32 * |words| => Marks(words[k / 32], 32)[k % 32])
  }

  lemma ViewBit(words: seq<bv32>, i: nat, j: nat)
    requires i < |words| && j < 32
    ensures View(words)[i * 32 + j] == Bit(words[i], j)
  {
    Split(i, j);
    MarksBit(words[i], 32, j);
  }

  lemma Split(i: nat, j: nat)
    requires j < 32
    ensures (i * 32 + j) / 32 == i && (i * 32 + j) % 32 == j
  {
  }

  lemma FitsZero(words: seq<bv32>, i: nat, j: nat, idx: nat)
    requires i < |words| && j < 32 && idx == i * 32 + j
    ensures H.Fits(View(words), idx) <==> Zero(words[i], j)
  {
    ShiftZero(words[i], j);
    var marks := View(words);
    Split(i, j);
    forall k | j <= k < 32 ensures Bit(words[i], k) == marks[i * 32 + k] { ViewBit(words, i, k); }
    assert forall k | idx <= k <= i * 32 + 31 :: marks[k] == Bit(words[i], k - i * 32);
    assert H.LastOfWord(idx) == i * 32 + 31;
  }

  /** `!(page_bitmap[i] >> j)`. */
  method TestFits(words: seq<bv32>, i: nat, j: nat, ghost idx: nat) returns (fits: bool)
    requires i < |words| && j < 32 && idx == i * 32 + j
    ensures fits == H.Fits(View(words), idx)
  {
    FitsZero(words, i, j, idx);
    fits := words[i] >> j == 0;
    assert fits == Zero(words[i], j);
  }

  lemma ZeroMark(words: seq<bv32>, k: nat)
    requires k < 32 * |words| && words[k / 32] == 0
    ensures !View(words)[k]
  {
    MarksBit(0, 32, k % 32);
    ZeroBit(k % 32);
  }

  lemma ZeroBit(k: nat)
    requires k < 32
    ensures !Bit(0, k)
  {
    assert Below32(k);
  }

  /** `(page_bitmap[i] >> j) & 1`. */
  method TestBit(words: seq<bv32>, i: nat, j: nat, ghost idx: nat) returns (taken: bool)
    requires i < |words| && j < 32 && idx == i * 32 + j
    ensures taken == View(words)[idx]
  {
    ViewBit(words, i, j);
    taken := (words[i] >> j) & 1 == 1;
  }

  lemma {:induction false} MarksSet(w: bv32, n: nat, j: nat)
    requires n <= 32 && j < 32
    ensures Marks(w | (1 << j), n) == if j < n then Marks(w, n)[j := true] else Marks(w, n)
  {
    if n > 0 {
      MarksSet(w, n - 1, j);
      SetBit(w, j, n - 1);
    }
  }

  /** `page_bitmap[idx / 32] |= 1 << (idx % 32)`. */
  method MarkPage(words: seq<bv32>, idx: nat) returns (out: seq<bv32>)
    requires idx < 32 * |words|
    ensures |out| == |words| && View(out) == View(words)[idx := true]
    ensures forall w | 0 <= w < |words| && w != idx / 32 :: out[w] == words[w]
  {
    var i, j := idx / 32, idx % 32;
    MarksSet(words[i], 32, j);
    out := words[i := words[i] | (1 << j)];
    ViewUpdate(words, i, out[i], j);
    assert idx == i * 32 + j;
  }

  lemma ViewUpdate(words: seq<bv32>, i: nat, w: bv32, j: nat)
    requires i < |words| && j < 32 && Marks(w, 32) == Marks(words[i], 32)[j := true]
    ensures View(words[i := w]) == View(words)[i * 32 + j := true]
  {
    var a, b := View(words[i := w]), View(words)[i * 32 + j := true];
    forall k | 0 <= k < 32 * |words| ensures a[k] == b[k] {
      SamePage(k, i * 32 + j);
      Split(i, j);
    }
  }

  lemma SamePage(k: nat, idx: nat)
    ensures k == idx <==> k / 32 == idx / 32 && k % 32 == idx % 32
  {
  }

  /** The inner loop of `kmalloc_aligned`: the first bit of word `i` that passes the test,
      or 32. */
  method FitInWord(words: seq<bv32>, i: nat, ghost start: nat) returns (j: nat, ghost idx: nat)
    requires i < |words| && start == i * 32
    ensures j <= 32 && idx == start + j
    ensures H.FirstFit(View(words), start) == H.FirstFit(View(words), idx)
    ensures j < 32 ==> H.FirstFit(View(words), idx) == Some(idx)
  {
    ghost var marks := View(words);
    j, idx := 0, start;
    while j < 32
      invariant 0 <= j <= 32 && idx == start + j
      invariant H.FirstFit(marks, start) == H.FirstFit(marks, idx)
    {
      var fits := TestFits(words, i, j, idx);
      FitStep(marks, idx);
      if fits {
        return;
      }
      j := j + 1;
      idx := idx + 1;
    }
  }

  lemma FitStep(marks: seq<bool>, idx: nat)
    requires H.Sound(marks) && idx < |marks|
    ensures H.FirstFit(marks, idx) == if H.Fits(marks, idx) then Some(idx) else H.FirstFit(marks, idx + 1)
  {
  }

  /** The scan of `kmalloc_aligned`. */
  method FindFit(words: seq<bv32>) returns (found: Option<nat>)
    ensures found == H.FirstFit(View(words), 0)
  {
    ghost var marks := View(words);
    var i := 0;
    ghost var at := 0;
    while i < |words|
      invariant 0 <= i <= |words| && at == i * 32
      invariant H.FirstFit(marks, 0) == H.FirstFit(marks, at)
    {
      var j, idx := FitInWord(words, i, at);
      if j < 32 {
        return Some(i * 32 + j);
      }
      i, at := i + 1, idx;
    }
    return None;
  }

  /** No run of `cnt` pages ends before or at `end`. */
  ghost predicate NoneUpTo(marks: seq<bool>, cnt: nat, end: int) {
    forall s: nat | s + cnt <= end :: !H.Free(marks, s, cnt)
  }

  /** `contig` is the length of the run of free pages that ends at `end`. */
  ghost predicate Trailing(marks: seq<bool>, contig: nat, end: nat) {
    && contig <= end <= |marks|
    && (forall k | end - contig <= k < end :: !marks[k])
    && (contig < end ==> marks[end - contig - 1])
  }

  /** What the scan knows after the first `end` bits. */
  ghost predicate Scanned(marks: seq<bool>, cnt: nat, contig: nat, end: nat) {
    && contig <= cnt && Trailing(marks, contig, end)
    && NoneUpTo(marks, cnt, if contig < cnt then end else end - 1)
  }

  lemma ScanStep(marks: seq<bool>, cnt: nat, contig: nat, end: nat)
    requires end < |marks| && contig < cnt && Scanned(marks, cnt, contig, end)
    ensures Scanned(marks, cnt, if marks[end] then 0 else contig + 1, end + 1)
  {
    forall s: nat | s + cnt <= end + 1 && (marks[end] || contig + 1 < cnt) ensures !H.Free(marks, s, cnt) {
      if s + cnt == end + 1 {
        if marks[end] {
          assert s <= end < s + cnt;
        } else {
          assert s <= end - contig - 1 < s + cnt;
        }
      }
    }
  }

  lemma RunFound(marks: seq<bool>, cnt: nat, end: nat)
    requires cnt >= 1 && Scanned(marks, cnt, cnt, end)
    ensures cnt <= end && H.Lowest(marks, end - cnt, cnt)
  {
  }

  lemma NoRunFound(marks: seq<bool>, cnt: nat, contig: nat)
    requires contig < cnt && Scanned(marks, cnt, contig, |marks|)
    ensures H.NoRun(marks, cnt)
  {
  }

  /** One word of the scan: stops in front of bit `j` when the run is complete. */
  method ScanWord(words: seq<bv32>, cnt: nat, i: nat, before: nat, ghost start: nat)
      returns (j: nat, contig: nat, ghost end: nat)
    requires i < |words| && start == i * 32 && Scanned(View(words), cnt, before, start)
    ensures j <= 32 && end == start + j && Scanned(View(words), cnt, contig, end)
    ensures j < 32 ==> contig == cnt
  {
    ghost var marks := View(words);
    contig, j, end := before, 0, start;
    while j < 32 && contig != cnt
      invariant 0 <= j <= 32 && end == start + j
      invariant Scanned(marks, cnt, contig, end)
    {
      var taken := TestBit(words, i, j, end);
      ScanStep(marks, cnt, contig, end);
      contig := if taken then 0 else contig + 1;
      j, end := j + 1, end + 1;
    }
  }

  lemma InsideReturns(marks: seq<bool>, cnt: nat, end: nat)
    requires cnt >= 1 && end < |marks| && Scanned(marks, cnt, cnt, end)
    ensures cnt <= end && H.Returns(marks, end - cnt, cnt) && !H.AtEnd(marks, cnt)
  {
    RunFound(marks, cnt, end);
  }

  lemma EndReturns(marks: seq<bool>, cnt: nat)
    requires cnt >= 1 && Scanned(marks, cnt, cnt, |marks|)
    ensures cnt <= |marks| && H.Returns(marks, |marks| + 32 - cnt, cnt) && H.AtEnd(marks, cnt)
  {
    RunFound(marks, cnt, |marks|);
  }

  /** The scan of `kmalloc_aligned_multi`: the values of `i`, `j` and `contig` when it stops.
      A run that ends at the last bit of the bitmap is only noticed after both loops, with `i`
      and `j` one word behind its end. */
  method ScanRun(words: seq<bv32>, cnt: nat) returns (i: nat, j: nat, contig: nat)
    requires cnt >= 1
    ensures i <= |words| && j <= 32 && contig <= cnt
    ensures contig < cnt ==> H.NoRun(View(words), cnt)
    ensures contig == cnt ==> cnt <= i * 32 + j && H.Returns(View(words), i * 32 + j - cnt, cnt)
    ensures contig == cnt ==> (i == |words| <==> H.AtEnd(View(words), cnt)) && (i < |words| ==> j < 32)
  {
    ghost var marks := View(words);
    contig, i, j := 0, 0, 0;
    var found := false;
    ghost var end := 0;
    while i < |words| && !found
      invariant 0 <= i <= |words| && j <= 32 && (i > 0 && !found ==> j == 32) && (i == 0 && !found ==> contig == 0)
      invariant Scanned(marks, cnt, contig, end)
      invariant !found ==> end == i * 32
      invariant found ==> i < |words| && j < 32 && contig == cnt && end == i * 32 + j
      decreases |words| - i, !found
    {
      j, contig, end := ScanWord(words, cnt, i, contig, end);
      found := j < 32;
      if !found {
        i := i + 1;
      }
    }
    if found {
      InsideReturns(marks, cnt, end);
    } else if contig == cnt {
      EndReturns(marks, cnt);
    } else {
      NoRunFound(marks, cnt, contig);
    }
  }

  /** The marking loop of `kmalloc_aligned_multi`. */
  method MarkRun(words: seq<bv32>, start: nat, cnt: nat) returns (out: seq<bv32>)
    requires start + cnt <= 32 * |words|
    ensures |out| == |words| && View(out) == H.Taken(View(words), start, cnt)
    ensures forall w | 0 <= w < |words| && start + cnt <= 32 * w :: out[w] == words[w]
  {
    out := words;
    var offset := start;
    while offset < start + cnt
      invariant start <= offset <= start + cnt
      invariant |out| == |words|
      invariant View(out) == H.Taken(View(words), start, offset - start)
      invariant forall w | 0 <= w < |words| && start + cnt <= 32 * w :: out[w] == words[w]
    {
      out := MarkPage(out, offset);
      offset := offset + 1;
    }
  }

  /** `kmalloc_aligned`: the index of the page and the bitmap afterwards. */
  method TakeFirst(words: seq<bv32>) returns (found: Option<nat>, out: seq<bv32>)
    ensures found == H.FirstFit(View(words), 0) && |out| == |words|
    ensures View(out) == if found.Some? then View(words)[found.value := true] else View(words)
  {
    found := FindFit(words);
    out := words;
    if found.Some? {
      out := MarkPage(words, found.value);
    }
  }

  /** The marks of a bitmap are the first marks of the bitmap with a word behind it. */
  lemma ViewPrefix(words: seq<bv32>, w: bv32, k: nat)
    requires k < 32 * |words|
    ensures View(words + [w])[k] == View(words)[k]
  {
  }

  lemma TakenPrefix(words: seq<bv32>, w: bv32, out: seq<bv32>, w': bv32, start: nat, cnt: nat)
    requires |out| == |words| && View(out + [w']) == H.Taken(View(words + [w]), start, cnt)
    ensures View(out) == H.Taken(View(words), start, cnt)
  {
    forall k | 0 <= k < 32 * |words| ensures View(out)[k] == H.Taken(View(words), start, cnt)[k] {
      ViewPrefix(words, w, k);
      ViewPrefix(out, w', k);
    }
  }

  /** `kmalloc_aligned_multi`: the index of the first page of the range that it returns, and the
      bitmap and the word behind it in memory afterwards.  That word changes only if the run
      ends at the last bit. */
  method TakeRun(words: seq<bv32>, behind: bv32, cnt: nat) returns (found: Option<nat>, out: seq<bv32>, behind': bv32)
    requires cnt >= 1 && 32 * |words| + 32 < WORD
    ensures |out| == |words|
    ensures found.None? ==> H.NoRun(View(words), cnt) && out == words && behind' == behind
    ensures found.Some? ==>
            H.Returns(View(words), found.value, cnt) && View(out) == H.Taken(View(words), found.value, cnt)
    ensures found.Some? ==> View(out + [behind']) == H.Taken(View(words + [behind]), found.value, cnt)
    ensures found.Some? && !H.AtEnd(View(words), cnt) ==> behind' == behind
  {
    var i, j, contig := ScanRun(words, cnt);
    if contig == cnt {
      var jOld := ((j - cnt) % WORD) % 32;
      var iOld := (i * 32 + j - cnt) / 32;
      H.SplitIndex(i, j, cnt);
      var start := i * 32 + j - cnt;
      var all := MarkRun(words + [behind], start, cnt);
      out, behind' := all[..|words|], all[|words|];
      assert all == out + [behind'];
      TakenPrefix(words, behind, out, behind', start, cnt);
      return Some(iOld * 32 + jOld), out, behind';
    }
    return None, words, behind;
  }

  /** The heap of one context, as far as whole pages go. */
  class AlignedHeap {
    var pageBitmap: seq<bv32>

    /** The word of memory behind the bitmap. */
    var behind: bv32
    const alignedStart: nat

    /** `init_heap`: the bitmap starts zeroed, so all pages are free. */
    constructor (bitmapCnt: nat, alignedStart: nat, behind: bv32)
      ensures |pageBitmap| == bitmapCnt && this.alignedStart == alignedStart && this.behind == behind
      ensures H.Free(View(pageBitmap), 0, 32 * bitmapCnt)
    {
      pageBitmap := seq(bitmapCnt, _ => 0);
      this.alignedStart := alignedStart;
      this.behind := behind;
      new;
      forall k | 0 <= k < 32 * bitmapCnt ensures !View(pageBitmap)[k] { ZeroMark(pageBitmap, k); }
    }

    method KmallocAligned() returns (page: Option<nat>)
      modifies this
      ensures |pageBitmap| == old(|pageBitmap|)
      ensures match H.FirstFit(old(View(pageBitmap)), 0)
              case None => page == None && pageBitmap == old(pageBitmap)
              case Some(k) =>
                  page == Some(alignedStart + k * PAGE_SIZE) && View(pageBitmap) == old(View(pageBitmap))[k := true]
    {
      var found, out := TakeFirst(pageBitmap);
      if found.None? {
        return None;
      }
      pageBitmap := out;
      return Some(alignedStart + found.value * PAGE_SIZE);
    }

    /** The range that `Returns` says, all of it marked and nothing else: the lowest run of
        `cnt` free pages, unless that ends at the last bit (`ReturnsIff`).  No result when there
        is no such run. */
    method KmallocAlignedMulti(cnt: nat) returns (region: Option<nat>, ghost s: nat)
      requires cnt >= 1 && 32 * |pageBitmap| + 32 < WORD
      modifies this
      ensures |pageBitmap| == old(|pageBitmap|)
      ensures region.None? ==> H.NoRun(View(pageBitmap), cnt) && pageBitmap == old(pageBitmap)
      ensures region.Some? ==> region.value == alignedStart + s * PAGE_SIZE && H.Returns(old(View(pageBitmap)), s, cnt)
      ensures region.Some? ==> View(pageBitmap + [behind]) == H.Taken(View(old(pageBitmap) + [old(behind)]), s, cnt)
      ensures region.None? || !H.AtEnd(old(View(pageBitmap)), cnt) ==> behind == old(behind)
    {
      var found;
      found, pageBitmap, behind := TakeRun(pageBitmap, behind, cnt);
      s := if found.Some? then found.value else 0;
      region := if found.Some? then Some(alignedStart + found.value * PAGE_SIZE) else None;
    }

    /** The page branch of `kfree`: it sets the mark of the page once more. */
    method KfreePage(ptr: nat) returns (aligned: bool)
      modifies this
      ensures aligned <==> alignedStart <= ptr < alignedStart + 32 * |pageBitmap| * PAGE_SIZE
      ensures |pageBitmap| == old(|pageBitmap|)
      ensures View(pageBitmap) == if aligned then old(View(pageBitmap))[(ptr - alignedStart) / PAGE_SIZE := true]
                                  else old(View(pageBitmap))
    {
      if ptr >= alignedStart {
        var offset := ptr - alignedStart;
        if offset < |pageBitmap| * 32 * PAGE_SIZE {
          assert offset / (32 * PAGE_SIZE) == offset / PAGE_SIZE / 32;
          pageBitmap := MarkPage(pageBitmap, offset / PAGE_SIZE);
          return true;
        }
      }
      return false;
    }
  }
}
