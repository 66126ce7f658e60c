/**
 Memory as the kernel uses it with paging on: virtual pages of the kernel heap, frames and
 the active directory together.  `kmalloc_page` (src/common/alloc.c) and `map_phys_obj`
 (src/common/paging.c).
 */
module KernelMemory {
  import opened Common
  import opened PageTables
  import opened Paging
  import opened ActivePaging
  import F = FrameAllocator
  import H = PageHeap
  import B = PageBitmap

  /** Physical memory, the page allocator, the bitmap of the heap's aligned range, the active
      directory's frame and the first page of the aligned range. */
  datatype Machine = Machine(mem: Mem, rs: seq<F.Region>, words: seq<bv32>, d: nat, first: nat)

  /** The heap's tables are there, and heap pages that are not taken are not mapped. */
  ghost predicate HeapReady(mem: Mem, d: nat, first: nat, marks: seq<bool>)
    requires MemOk(mem) && d < PAGES
  {
    && 0 < first && first + |marks| <= LOW_PAGES
    && forall q | first <= q < first + |marks| ::
         Present(mem[d][q / 1024]) && (marks[q - first] || Walk(mem, d, q) == None)
  }

  ghost predicate Valid(m: Machine) {
    Ok(m.mem, m.d, m.rs) && SelfMapped(m.mem, m.d) && HeapReady(m.mem, m.d, m.first, B.View(m.words))
  }

  // ---------------------------------------------------------------- one page

  /** Outcome of `kmalloc_page`: the machine halts, a scroll of type SCROLL_FAILED, or a page
      and its frame. */
  datatype PageResult = Halted | Failed | Got(page: nat, frame: nat)

  lemma MapPresent(mem: Mem, d: nat, rs: seq<F.Region>, p: nat, frame: nat)
    requires Ok(mem, d, rs) && p < LOW_PAGES && frame < PAGES && Present(mem[d][p / 1024])
    ensures MapPage(mem, d, rs, p, frame, true).Some?
    ensures var (out, rs') := MapPage(mem, d, rs, p, frame, true).value;
            rs' == rs && Ok(out, d, rs) && out[d] == mem[d] && Remaps(mem, out, d, p, Some(frame))
                && OthersKept(mem, out, d)
  {
    MapPageRefines(mem, d, rs, p, frame, true);
    PutWalk(mem, d, p, NewEntry(mem[FrameOf(mem[d][p / 1024])][p % 1024], frame, true));
  }

  /** `map_page` for a page whose table is there. */
  method MapThere(mem: Mem, d: nat, rs: seq<F.Region>, p: nat, frame: nat) returns (out: Mem)
    requires Ok(mem, d, rs) && SelfMapped(mem, d) && p < LOW_PAGES && frame < PAGES && Present(mem[d][p / 1024])
    ensures Ok(out, d, rs) && out[d] == mem[d] && Remaps(mem, out, d, p, Some(frame)) && OthersKept(mem, out, d)
  {
    MapPresent(mem, d, rs, p, frame);
    var r := MapReady(mem, d, rs, p, frame);
    out := r.value.0;
  }

  lemma HeapMapped(mem: Mem, out: Mem, d: nat, first: nat, marks: seq<bool>, k: nat, f: nat)
    requires MemOk(mem) && MemOk(out) && d < PAGES && HeapReady(mem, d, first, marks) && k < |marks|
    requires out[d] == mem[d] && Remaps(mem, out, d, first + k, Some(f))
    ensures HeapReady(out, d, first, marks[k := true])
  {
    var marks' := marks[k := true];
    forall q | first <= q < first + |marks'|
      ensures Present(out[d][q / 1024]) && (marks'[q - first] || Walk(out, d, q) == None)
    {
      assert Present(mem[d][q / 1024]) && (marks[q - first] || Walk(mem, d, q) == None);
    }
  }

  /** What a caller of `kmalloc_page` can rely on: heap page `v`, not mapped before, is now
      mapped to frame `f`, free before and not a paging structure.  Nothing else changed. */
  ghost predicate Acquired(m: Machine, m': Machine, v: nat, f: nat) {
    && Valid(m) && Valid(m')
    && m'.d == m.d && m'.first == m.first && |m'.words| == |m.words|
    && m.first <= v < m.first + 32 * |m.words|
    && Walk(m.mem, m.d, v) == None
    && f < PAGES && !F.Used(m.rs, f) && F.Changes(m.rs, m'.rs, f, true) && F.SameAreas(m.rs, m'.rs)
    && m'.mem[m.d] == m.mem[m.d]
    && Remaps(m.mem, m'.mem, m.d, v, Some(f))
    && OthersKept(m.mem, m'.mem, m.d)
    && B.View(m'.words) == B.View(m.words)[v - m.first := true]
  }

  lemma OwnedKept(dir: seq<Word>, d: nat, rs: seq<F.Region>, rs': seq<F.Region>, f: nat)
    requires |dir| == ENTRIES && Owned(dir, d, rs) && F.Changes(rs, rs', f, true)
    ensures Owned(dir, d, rs')
  {
  }

  /** Heap page number `k` is marked and nothing else but the page allocator has changed. */
  ghost predicate OnlyMarked(m: Machine, m': Machine, k: Option<nat>) {
    && m'.mem == m.mem && m'.d == m.d && m'.first == m.first
    && k.Some? && k.value < 32 * |m.words| && B.View(m'.words) == B.View(m.words)[k.value := true]
  }

  /** What a call of `kmalloc_page` has done.  It halts when no heap page or no frame is left,
      and fails when the allocator hands out frame 0, which it takes for a failure; the heap page
      is lost then, and in the second case the frame too. */
  ghost predicate PageOutcome(m: Machine, r: PageResult, m': Machine)
    requires Valid(m)
  {
    var k := H.FirstFit(B.View(m.words), 0);
    match r
    case Halted => if k.None? then m' == m else F.Full(m.rs) && OnlyMarked(m, m', k) && m'.rs == m.rs
    case Failed => F.Alloc(m.rs).0 == Some(0) && OnlyMarked(m, m', k) && m'.rs == F.Alloc(m.rs).1
    case Got(v, f) => Acquired(m, m', v, f) && F.Alloc(m.rs).0 == Some(f) && k == Some(v - m.first)
  }

  /** `kmalloc_page`. */
  method KmallocPage(m: Machine) returns (r: PageResult, m': Machine)
    requires Valid(m)
    ensures PageOutcome(m, r, m')
  {
    var k, words := B.TakeFirst(m.words);
    r, m' := Halted, m;
    if k.Some? {
      F.AllocFresh(m.rs);
      F.AllocFails(m.rs);
      var (f, rs) := F.Alloc(m.rs);
      m' := m.(words := words);
      if f.Some? && f.value == 0 {
        r, m' := Failed, m'.(rs := rs);
      } else if f.Some? {
        F.AllocSameAreas(m.rs);
        var page := m.first + k.value;
        m' := AcquirePage(m, k.value, page, words, f.value, rs);
        r := Got(page, f.value);
      }
    }
  }

  /** The rest of `kmalloc_page` once it has a heap page and a frame. */
  method AcquirePage(m: Machine, k: nat, page: nat, words: seq<bv32>, f: nat, rs: seq<F.Region>) returns (m': Machine)
    requires Valid(m) && H.FirstFit(B.View(m.words), 0) == Some(k) && page == m.first + k && f < PAGES
             && !F.Used(m.rs, f)
    requires |words| == |m.words| && B.View(words) == B.View(m.words)[k := true]
    requires F.Valid(rs) && F.Changes(m.rs, rs, f, true) && F.SameAreas(m.rs, rs)
    ensures Acquired(m, m', page, f) && m'.rs == rs
  {
    H.FirstFitFacts(B.View(m.words), 0);
    HeapFresh(m, k, page);
    OwnedKept(m.mem[m.d], m.d, m.rs, rs, f);
    var mem := MapThere(m.mem, m.d, rs, page, f);
    HeapMapped(m.mem, mem, m.d, m.first, B.View(m.words), k, f);
    m' := Machine(mem, rs, words, m.d, m.first);
  }

  lemma HeapFresh(m: Machine, k: nat, page: nat)
    requires Valid(m) && k < 32 * |m.words| && page == m.first + k && !B.View(m.words)[k]
    ensures Present(m.mem[m.d][page / 1024]) && Walk(m.mem, m.d, page) == None
  {
    assert B.View(m.words)[page - m.first] == false;
  }

  // ---------------------------------------------------------------- physical objects

  /** Where an address leads. */
  function Translate(mem: Mem, d: nat, addr: nat): Option<nat>
    requires MemOk(mem) && d < PAGES && addr < 0x1_0000_0000
  {
    match Walk(mem, d, addr / 4096)
    case None => None
    case Some(f) => Some(f * 4096 + addr % 4096)
  }

  function AlignDown(x: nat): nat { x - x % 4096 }

  function AlignUp(x: nat): nat { if x % 4096 > 0 then AlignDown(x) + 4096 else x }

  /** Pages `p` to `p + n - 1` are mapped to consecutive frames, all others as before. */
  ghost predicate RemapsRange(mem: Mem, out: Mem, d: nat, p: nat, frame: nat, n: nat)
    requires MemOk(mem) && MemOk(out) && d < PAGES
  {
    forall q | 0 <= q < LOW_PAGES ::
      Walk(out, d, q) == if p <= q < p + n then Some(frame + (q - p)) else Walk(mem, d, q)
  }

  ghost predicate TablesThere(dir: seq<Word>, p: nat, n: nat)
    requires |dir| == ENTRIES && p + n <= LOW_PAGES
  {
    forall q | p <= q < p + n :: Present(dir[q / 1024])
  }

  lemma RangeGrows(mem: Mem, mid: Mem, out: Mem, d: nat, p: nat, frame: nat, n: nat, q: nat)
    requires MemOk(mem) && MemOk(mid) && MemOk(out) && d < PAGES && q == p + n && q < LOW_PAGES
    requires RemapsRange(mem, mid, d, p, frame, n) && Remaps(mid, out, d, q, Some(frame + n))
    ensures RemapsRange(mem, out, d, p, frame, n + 1)
  {
  }

  /** The loop of `map_phys_obj`. */
  method MapRangeThere(mem: Mem, d: nat, rs: seq<F.Region>, p: nat, frame: nat, n: nat) returns (out: Mem)
    requires Ok(mem, d, rs) && SelfMapped(mem, d) && p + n <= LOW_PAGES && frame + n <= PAGES
             && TablesThere(mem[d], p, n)
    ensures Ok(out, d, rs) && out[d] == mem[d] && RemapsRange(mem, out, d, p, frame, n) && OthersKept(mem, out, d)
  {
    out := mem;
    var i := 0;
    while i < n
      invariant 0 <= i <= n && Ok(out, d, rs) && out[d] == mem[d]
      invariant RemapsRange(mem, out, d, p, frame, i) && OthersKept(mem, out, d)
    {
      var page := p + i;
      var next := MapThere(out, d, rs, page, frame + i);
      RangeGrows(mem, out, next, d, p, frame, i, page);
      out := next;
      i := i + 1;
    }
  }

  /** The pages `[p, p + n)` of the heap were free and unmapped, and are now taken and mapped
      to consecutive frames; nothing else changed. */
  ghost predicate Attached(m: Machine, m': Machine, p: nat, frame: nat, n: nat) {
    && Valid(m) && Valid(m') && m'.d == m.d && m'.first == m.first && m'.rs == m.rs
    && m.first <= p && p + n <= m.first + 32 * |m.words|
    && H.Lowest(B.View(m.words), p - m.first, n)
    && B.View(m'.words) == H.Taken(B.View(m.words), p - m.first, n)
    && (forall q | p <= q < p + n :: Walk(m.mem, m.d, q) == None)
    && RemapsRange(m.mem, m'.mem, m.d, p, frame, n)
    && OthersKept(m.mem, m'.mem, m.d)
  }

  lemma RunUnused(m: Machine, s: nat, p: nat, n: nat)
    requires Valid(m) && H.Free(B.View(m.words), s, n) && p == m.first + s
    ensures p + n <= LOW_PAGES && TablesThere(m.mem[m.d], p, n)
            && forall q | p <= q < p + n :: Walk(m.mem, m.d, q) == None
  {
    forall q | p <= q < p + n ensures Present(m.mem[m.d][q / 1024]) && Walk(m.mem, m.d, q) == None {
      assert !B.View(m.words)[q - m.first];
    }
  }

  lemma HeapAttached(mem: Mem, out: Mem, d: nat, first: nat, marks: seq<bool>, s: nat, p: nat, frame: nat, n: nat)
    requires MemOk(mem) && MemOk(out) && d < PAGES && HeapReady(mem, d, first, marks) && s + n <= |marks|
             && p == first + s
    requires out[d] == mem[d] && RemapsRange(mem, out, d, p, frame, n)
    ensures HeapReady(out, d, first, H.Taken(marks, s, n))
  {
    var marks' := H.Taken(marks, s, n);
    forall q | first <= q < first + |marks'|
      ensures Present(out[d][q / 1024]) && (marks'[q - first] || Walk(out, d, q) == None)
    {
      assert Present(mem[d][q / 1024]) && (marks[q - first] || Walk(mem, d, q) == None);
    }
  }

  method AttachRun(m: Machine, frame: nat, n: nat) returns (p: Option<nat>, m': Machine)
    requires Valid(m) && 0 < n && frame + n <= PAGES
    requires RunInside(m, n)
    ensures p.None? ==> m' == m && H.NoRun(B.View(m.words), n)
    ensures p.Some? ==> Attached(m, m', p.value, frame, n)
  {
    var s, words, _ := B.TakeRun(m.words, 0, n);
    if s.None? {
      return None, m;
    }
    var page := m.first + s.value;
    m' := AttachPages(m, s.value, page, words, frame, n);
    return Some(page), m';
  }

  /** The rest of `map_phys_obj` once it has a run of heap pages. */
  method AttachPages(m: Machine, s: nat, page: nat, words: seq<bv32>, frame: nat, n: nat) returns (m': Machine)
    requires Valid(m) && 0 < n && frame + n <= PAGES && H.Lowest(B.View(m.words), s, n) && page == m.first + s
    requires |words| == |m.words| && B.View(words) == H.Taken(B.View(m.words), s, n)
    ensures Attached(m, m', page, frame, n)
  {
    RunUnused(m, s, page, n);
    var mem := MapRangeThere(m.mem, m.d, m.rs, page, frame, n);
    HeapAttached(m.mem, mem, m.d, m.first, B.View(m.words), s, page, frame, n);
    m' := m.(mem := mem, words := words);
  }

  /** The pages that `map_phys_obj` needs for an object. */
  function PagesFor(obj: nat, size: nat): nat { (AlignUp(obj + size) - AlignDown(obj)) / 4096 }

  lemma AlignFacts(obj: nat, size: nat)
    requires 1 <= size && obj + size <= 0xFFFF_F000
    ensures AlignDown(obj) / 4096 == obj / 4096 && PagesFor(obj, size) >= 1
    ensures obj / 4096 + PagesFor(obj, size) <= PAGES
    ensures PagesFor(obj, size) == (obj + size - 1) / 4096 - obj / 4096 + 1
  {
  }

  /** Page and offset of an address. */
  lemma Address(p: nat, c: nat, x: nat)
    requires c < 4096 && x == p * 4096 + c
    ensures x / 4096 == p && x % 4096 == c
  {
  }

  lemma Later(x: nat, y: nat)
    requires x <= y
    ensures x / 4096 <= y / 4096
  {
  }

  /** Byte `k` behind `addr` has the same place in its page as byte `k` behind `obj`, and is as
      many pages further on. */
  lemma OffsetPage(obj: nat, p: nat, addr: nat, k: nat, a: nat, b: nat)
    requires addr == p * 4096 + obj % 4096 && a == addr + k && b == obj + k
    ensures a / 4096 - p == b / 4096 - obj / 4096 && a % 4096 == b % 4096 && a / 4096 >= p
  {
    var c := obj % 4096 + k;
    var n, r := c / 4096, c % 4096;
    Address(n, r, c);
    Address(p + n, r, a);
    Address(obj / 4096 + n, r, b);
  }

  /** The `size` bytes from `addr` on are the bytes of physical memory from `obj` on. */
  ghost predicate Shows(mem: Mem, d: nat, addr: nat, obj: nat, size: nat)
    requires MemOk(mem) && d < PAGES
  {
    addr + size <= 0x1_0000_0000 && forall a | addr <= a < addr + size :: Translate(mem, d, a) == Some(obj + (a - addr))
  }

  /** The pages `[p, p + n)` are mapped to consecutive frames. */
  ghost predicate Consecutive(mem: Mem, d: nat, p: nat, frame: nat, n: nat)
    requires MemOk(mem) && d < PAGES
  {
    p + n <= LOW_PAGES && forall q | p <= q < p + n :: Walk(mem, d, q) == Some(frame + (q - p))
  }

  lemma ObjectByte(mem: Mem, d: nat, p: nat, obj: nat, size: nat, n: nat, addr: nat, a: nat)
    requires MemOk(mem) && d < PAGES && obj + size <= 0xFFFF_F000 && addr <= a < addr + size
    requires Consecutive(mem, d, p, obj / 4096, n) && addr == p * 4096 + obj % 4096
    requires (obj + size - 1) / 4096 < obj / 4096 + n
    ensures a < 0x1_0000_0000 && Translate(mem, d, a) == Some(obj + (a - addr))
  {
    var b := obj + (a - addr);
    var q, last := a / 4096, obj + size - 1;
    OffsetPage(obj, p, addr, a - addr, a, b);
    Later(b, last);
    assert p <= q < p + n && q - p == b / 4096 - obj / 4096;
    assert Walk(mem, d, q) == Some(obj / 4096 + (q - p));
  }

  /** The mapped object: every byte of it is found behind the returned address. */
  lemma ObjectShown(mem: Mem, d: nat, p: nat, obj: nat, size: nat, n: nat, addr: nat)
    requires MemOk(mem) && d < PAGES && 1 <= size && obj + size <= 0xFFFF_F000
    requires n == PagesFor(obj, size) && Consecutive(mem, d, p, obj / 4096, n) && addr == p * 4096 + obj % 4096
    ensures Shows(mem, d, addr, obj, size)
  {
    AlignFacts(obj, size);
    ObjectByte(mem, d, p, obj, size, n, addr, addr + size - 1);
    forall a | addr <= a < addr + size ensures Translate(mem, d, a) == Some(obj + (a - addr)) {
      ObjectByte(mem, d, p, obj, size, n, addr, a);
    }
  }

  /** The run that `map_phys_obj` would take does not end at the last bit of the bitmap. */
  ghost predicate RunInside(m: Machine, n: nat) {
    !H.AtEnd(B.View(m.words), n)
  }

  lemma AttachedConsecutive(m: Machine, m': Machine, p: nat, frame: nat, n: nat)
    requires Attached(m, m', p, frame, n)
    ensures Consecutive(m'.mem, m.d, p, frame, n)
  {
  }

  /** `map_phys_obj`: the object appears at the returned address, byte by byte, in the heap
      pages from `page` on, which were not used before: as many as there are pages with a byte
      of the object, and no more.  Every other mapping is kept.  No result when
      the heap has no run of free pages that is long enough. */
  method MapPhysObj(m: Machine, obj: nat, size: nat) returns (r: Option<nat>, m': Machine, ghost page: nat)
    requires Valid(m) && 1 <= size && obj + size <= 0xFFFF_F000 && RunInside(m, PagesFor(obj, size))
    ensures r.None? ==> m' == m && H.NoRun(B.View(m.words), PagesFor(obj, size))
    ensures r.Some? ==> r.value == page * 4096 + obj % 4096
    ensures r.Some? ==> Attached(m, m', page, obj / 4096, PagesFor(obj, size))
    ensures r.Some? ==> Shows(m'.mem, m.d, r.value, obj, size)
    ensures PagesFor(obj, size) == (obj + size - 1) / 4096 - obj / 4096 + 1
  {
    AlignFacts(obj, size);
    var limit := obj + size;
    var firstPage, limitPage := AlignDown(obj), AlignUp(limit);
    var n := (limitPage - firstPage) / 4096;
    var region: Option<nat>;
    region, m' := AttachRun(m, firstPage / 4096, n);
    if region.None? {
      return None, m, 0;
    }
    page := region.value;
    var addr := region.value * 4096 + obj % 4096;
    AttachedConsecutive(m, m', page, firstPage / 4096, n);
    ObjectShown(m'.mem, m.d, page, obj, size, n, addr);
    r := Some(addr);
  }
}
