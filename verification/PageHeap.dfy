/**
 The allocator of virtual pages in src/common/alloc.c: `kmalloc_aligned`,
 `kmalloc_aligned_multi` and the page branch of `kfree`, on one mark per page of the heap's
 aligned range.  `PageBitmap` proves that the code on words does the same.
 */
module PageHeap {
  import opened Common

  predicate Sound(marks: seq<bool>) { |marks| % 32 == 0 }

  // ---------------------------------------------------------------- single pages

  /** The last page whose mark is in the same word as that of page `idx`. */
  function LastOfWord(idx: nat): nat { idx / 32 * 32 + 31 }

  /** The test of `kmalloc_aligned`: the page and all later pages of its word are free. */
  predicate Fits(marks: seq<bool>, idx: nat)
    requires Sound(marks) && idx < |marks|
  {
    forall k | idx <= k <= LastOfWord(idx) :: !marks[k]
  }

  function FirstFit(marks: seq<bool>, idx: nat): (o: Option<nat>)
    requires Sound(marks) && idx <= |marks|
    ensures o.Some? ==> idx <= o.value < |marks|
    decreases |marks| - idx
  {
    if idx == |marks| then None
    else if Fits(marks, idx) then Some(idx)
    else FirstFit(marks, idx + 1)
  }

  /** `kmalloc_aligned` takes the first page that passes the test and fails when none does. */
  lemma {:induction false} FirstFitFacts(marks: seq<bool>, idx: nat)
    requires Sound(marks) && idx <= |marks|
    ensures match FirstFit(marks, idx)
            case Some(k) => Fits(marks, k) && !marks[k] && forall j | idx <= j < k :: !Fits(marks, j)
            case None => forall j | idx <= j < |marks| :: !Fits(marks, j)
    decreases |marks| - idx
  {
    if idx < |marks| && !Fits(marks, idx) {
      FirstFitFacts(marks, idx + 1);
    }
  }

  // ---------------------------------------------------------------- runs of pages

  /** `cnt` free pages from `start` on. */
  predicate Free(marks: seq<bool>, start: nat, cnt: nat) {
    start + cnt <= |marks| && forall k | start <= k < start + cnt :: !marks[k]
  }

  /** The lowest run of `cnt` free pages. */
  ghost predicate Lowest(marks: seq<bool>, start: nat, cnt: nat) {
    Free(marks, start, cnt) && forall s | 0 <= s < start :: !Free(marks, s, cnt)
  }

  ghost predicate NoRun(marks: seq<bool>, cnt: nat) {
    forall s: nat :: !Free(marks, s, cnt)
  }

  /** `marks` with those of the `cnt` pages from `start` on taken that it has. */
  function Taken(marks: seq<bool>, start: nat, cnt: nat): (out: seq<bool>)
    ensures |out| == |marks|
    ensures forall k | 0 <= k < |marks| :: out[k] == (marks[k] || start <= k < start + cnt)
  {
    seq(|marks|, k requires 0 <= k < |marks| => marks[k] || start <= k < start + cnt)
  }

  lemma LowestUnique(marks: seq<bool>, s: nat, t: nat, cnt: nat)
    requires Lowest(marks, s, cnt) && Lowest(marks, t, cnt)
    ensures s == t
  {
  }

  /** The lowest run of `cnt` free pages ends at the last bit of the bitmap.  The scan of
      `kmalloc_aligned_multi` notices such a run only after both loops, where its indices stand
      one word too far. */
  ghost predicate AtEnd(marks: seq<bool>, cnt: nat) {
    cnt <= |marks| && Lowest(marks, |marks| - cnt, cnt)
  }

  /** The start of the range that `kmalloc_aligned_multi` returns and marks. */
  ghost predicate Returns(marks: seq<bool>, start: nat, cnt: nat) {
    if AtEnd(marks, cnt) then start == |marks| + 32 - cnt else Lowest(marks, start, cnt)
  }

  /** It is the lowest run if and only if that run does not end at the last bit. */
  lemma ReturnsIff(marks: seq<bool>, start: nat, cnt: nat)
    requires Returns(marks, start, cnt)
    ensures Lowest(marks, start, cnt) <==> !AtEnd(marks, cnt)
  {
  }

  lemma ReturnsUnique(marks: seq<bool>, s: nat, t: nat, cnt: nat)
    requires Returns(marks, s, cnt) && Returns(marks, t, cnt)
    ensures s == t
  {
    if !AtEnd(marks, cnt) { LowestUnique(marks, s, t, cnt); }
  }

  /** The index arithmetic at the end of `kmalloc_aligned_multi`, with 32-bit wrap-around:
      `i_old` and `j_old` split the start of the run that ends before bit `j` of word `i`. */
  lemma SplitIndex(i: nat, j: nat, cnt: nat)
    requires cnt <= i * 32 + j && j <= 32 && i * 32 + j < WORD
    ensures (i * 32 + j - cnt) / 32 * 32 + ((j - cnt) % WORD) % 32 == i * 32 + j - cnt
  {
    WrapMod(j - cnt);
    assert (j - cnt) % 32 == (i * 32 + j - cnt) % 32;
  }

  lemma WrapMod(x: int)
    ensures (x % WORD) % 32 == x % 32
  {
    assert x == x / WORD * WORD + x % WORD;
  }

  // ---------------------------------------------------------------- ownership over runs

  datatype Event = One | Multi(cnt: nat) | Kfree(idx: nat)

  /** The pages an event hands out, as start and count. */
  ghost predicate HandsOut(marks: seq<bool>, e: Event, start: nat, cnt: nat)
    requires Sound(marks)
  {
    match e
    case One => cnt == 1 && FirstFit(marks, 0) == Some(start)
    case Multi(n) => cnt == n && Returns(marks, start, n)
    case Kfree(_) => false
  }

  ghost function After(marks: seq<bool>, e: Event): (out: seq<bool>)
    requires Sound(marks)
    ensures |out| == |marks|
    ensures forall k | 0 <= k < |marks| :: marks[k] ==> out[k]
  {
    match e
    case One =>
      (match FirstFit(marks, 0)
       case Some(s) => marks[s := true]
       case None => marks)
    case Multi(n) =>
      if exists s: nat :: Returns(marks, s, n) then
        var s: nat :| Returns(marks, s, n);
        Taken(marks, s, n)
      else marks
    case Kfree(idx) => if idx < |marks| then marks[idx := true] else marks
  }

  ghost function Run(marks: seq<bool>, es: seq<Event>): (out: seq<bool>)
    requires Sound(marks)
    ensures |out| == |marks|
    ensures forall k | 0 <= k < |marks| :: marks[k] ==> out[k]
    decreases |es|
  {
    if es == [] then marks else Run(After(marks, es[0]), es[1..])
  }

  /** The two ranges share a page. */
  predicate Overlap(s: nat, c: nat, s': nat, c': nat) { 0 < c && 0 < c' && s < s' + c' && s' < s + c }

  /** The event finds its run at the last bit of the bitmap. */
  ghost predicate EndsAtLast(marks: seq<bool>, e: Event) { e.Multi? && AtEnd(marks, e.cnt) }

  /** Over any mix of the three calls, two page ranges that are handed out overlap if and only
      if both calls found their run at the last bit of the bitmap.  Whether the first range was
      freed in between makes no difference: `kfree` leaves the mark set. */
  lemma OverlapIff(marks: seq<bool>, e: Event, s: nat, c: nat, between: seq<Event>, e': Event, s': nat, c': nat)
    requires Sound(marks) && HandsOut(marks, e, s, c) && 1 <= c
    requires HandsOut(Run(After(marks, e), between), e', s', c') && 1 <= c'
    ensures Overlap(s, c, s', c') <==> EndsAtLast(marks, e) && EndsAtLast(Run(After(marks, e), between), e')
  {
    var after := After(marks, e);
    var later := Run(after, between);
    HandedMarks(marks, e, s, c);
    HandedFree(later, e', s', c');
    var k := if s <= s' then s' else s;
    assert s <= k < s + c && k < |marks| ==> later[k];
    assert s' <= k < s' + c' && k < |marks| ==> !later[k];
  }

  /** The pages of the bitmap that are handed out are marked afterwards ... */
  lemma HandedMarks(marks: seq<bool>, e: Event, s: nat, c: nat)
    requires Sound(marks) && HandsOut(marks, e, s, c)
    ensures forall k | s <= k < s + c && k < |marks| :: After(marks, e)[k]
    ensures !EndsAtLast(marks, e) ==> s + c <= |marks|
  {
    if e.Multi? {
      forall t: nat | Returns(marks, t, c) ensures t == s { ReturnsUnique(marks, s, t, c); }
    }
  }

  /** ... and were free before. */
  lemma HandedFree(marks: seq<bool>, e: Event, s: nat, c: nat)
    requires Sound(marks) && HandsOut(marks, e, s, c)
    ensures forall k | s <= k < s + c && k < |marks| :: !marks[k]
    ensures !EndsAtLast(marks, e) ==> s + c <= |marks|
  {
    FirstFitFacts(marks, 0);
  }

  /** So ranges never overlap as long as one of the two runs ends before the last bit. */
  lemma NeverOverlap(marks: seq<bool>, e: Event, s: nat, c: nat, between: seq<Event>, e': Event, s': nat, c': nat)
    requires Sound(marks) && HandsOut(marks, e, s, c)
    requires HandsOut(Run(After(marks, e), between), e', s', c')
    requires !EndsAtLast(marks, e) || !EndsAtLast(Run(After(marks, e), between), e')
    ensures !Overlap(s, c, s', c')
  {
    if 1 <= c && 1 <= c' {
      OverlapIff(marks, e, s, c, between, e', s', c');
    }
  }

  /** With only the last page free, two calls for one page both return page 63, which is past
      the bitmap, and leave the bitmap as it was. */
  lemma SamePageTwice()
    ensures var marks := seq(32, k => k < 31);
            && Sound(marks) && AtEnd(marks, 1) && After(marks, Multi(1)) == marks
            && HandsOut(marks, Multi(1), 63, 1) && HandsOut(After(marks, Multi(1)), Multi(1), 63, 1)
            && Overlap(63, 1, 63, 1)
  {
    var marks := seq(32, k => k < 31);
    forall s | 0 <= s < 31 ensures !Free(marks, s, 1) { assert marks[s]; }
    assert Free(marks, 31, 1);
    assert Lowest(marks, 31, 1);
    assert Returns(marks, 63, 1);
    var s: nat :| Returns(marks, s, 1);
    assert Taken(marks, 63, 1) == marks;
  }
}
