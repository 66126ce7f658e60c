/**
 `create_task_directory` and `bind_manuscript` of src/common/paging.c.  While a directory is
 being drafted, its slots hold the virtual pages of its tables and a mark; binding replaces
 them by the tables' frames.
 */
module TaskDirectory {
  import opened Common
  import opened PageTables
  import opened Paging
  import opened ActivePaging
  import opened KernelMemory
  import F = FrameAllocator
  import H = PageHeap
  import B = PageBitmap

  // ---------------------------------------------------------------- steps of the machine

  /** What all steps keep: the invariant, the active directory and frames in use. */
  ghost predicate Edits(m: Machine, m': Machine) {
    && Valid(m) && Valid(m')
    && m'.d == m.d && m'.first == m.first && |m'.words| == |m.words|
    && m'.mem[m.d] == m.mem[m.d]
    && F.SameAreas(m.rs, m'.rs)
    && (forall g: nat | F.Used(m.rs, g) :: F.Used(m'.rs, g))
  }

  /** A step that changes the mapping of `page` at most, and among the frames that are not
      paging structures at most `frame`. */
  ghost predicate Step(m: Machine, m': Machine, page: Option<nat>, frame: Option<nat>) {
    && Edits(m, m')
    && (forall q | 0 <= q < LOW_PAGES && Some(q) != page :: Walk(m'.mem, m.d, q) == Walk(m.mem, m.d, q))
    && (forall g | 0 <= g < PAGES && Some(g) != frame && !Structure(m.mem[m.d], m.d, g) :: m'.mem[g] == m.mem[g])
  }

  lemma AcquireStep(m: Machine, m': Machine, v: nat, f: nat)
    requires Acquired(m, m', v, f)
    ensures Step(m, m', Some(v), None) && Walk(m'.mem, m.d, v) == Some(f) && F.Used(m'.rs, f)
            && !Structure(m.mem[m.d], m.d, f)
  {
  }

  lemma HeapSame(mem: Mem, out: Mem, d: nat, first: nat, marks: seq<bool>)
    requires MemOk(mem) && MemOk(out) && d < PAGES && HeapReady(mem, d, first, marks) && out[d] == mem[d]
    requires forall q | 0 <= q < LOW_PAGES :: Walk(out, d, q) == Walk(mem, d, q) || Walk(out, d, q) == None
    ensures HeapReady(out, d, first, marks)
  {
    forall q | first <= q < first + |marks|
      ensures Present(out[d][q / 1024]) && (marks[q - first] || Walk(out, d, q) == None)
    {
      assert Present(mem[d][q / 1024]) && (marks[q - first] || Walk(mem, d, q) == None);
    }
  }

  /** Any change of a frame that is not a paging structure. */
  lemma WriteStep(m: Machine, f: nat, row: seq<Word>)
    requires Valid(m) && f < PAGES && |row| == ENTRIES && !Structure(m.mem[m.d], m.d, f)
    ensures Step(m, m.(mem := m.mem[f := row]), None, Some(f))
  {
    var out: Mem := m.mem[f := row];
    forall q | 0 <= q < LOW_PAGES ensures Walk(out, m.d, q) == Walk(m.mem, m.d, q) { WalkKept(m.mem, out, m.d, f, q); }
    HeapSame(m.mem, out, m.d, m.first, B.View(m.words));
  }

  lemma UnmapStep(m: Machine, v: nat)
    requires Valid(m) && v < LOW_PAGES
    ensures var m' := m.(mem := UnmapPage(m.mem, m.d, v));
            Step(m, m', Some(v), None) && Walk(m'.mem, m.d, v) == None
  {
    UnmapPageRefines(m.mem, m.d, m.rs, v);
    HeapSame(m.mem, UnmapPage(m.mem, m.d, v), m.d, m.first, B.View(m.words));
  }

  /** Storing through virtual page `v`, which is mapped to the private frame `f`. */
  method StoreAt(m: Machine, v: nat, i: nat, w: Word, ghost f: nat) returns (m': Machine)
    requires Valid(m) && v < LOW_PAGES && i < ENTRIES && Walk(m.mem, m.d, v) == Some(f)
             && !Structure(m.mem[m.d], m.d, f)
    ensures m' == m.(mem := Put(m.mem, f, i, w)) && Step(m, m', None, Some(f))
  {
    var mem := Store(m.mem, m.d, v, i, w);
    m' := m.(mem := mem);
    WriteStep(m, f, m.mem[f][i := w]);
  }

  method ZeroAt(m: Machine, v: nat, ghost f: nat) returns (m': Machine)
    requires Valid(m) && v < LOW_PAGES && Walk(m.mem, m.d, v) == Some(f) && !Structure(m.mem[m.d], m.d, f)
    ensures m' == m.(mem := m.mem[f := Zeros()]) && Step(m, m', None, Some(f))
  {
    var mem := ZeroThrough(m.mem, m.d, v, f);
    m' := m.(mem := mem);
    WriteStep(m, f, Zeros());
  }

  method UnmapAt(m: Machine, v: nat) returns (m': Machine)
    requires Valid(m) && v < LOW_PAGES
    ensures m' == m.(mem := UnmapPage(m.mem, m.d, v)) && Step(m, m', Some(v), None) && Walk(m'.mem, m.d, v) == None
  {
    UnmapStep(m, v);
    var mem := UnmapPageActive(m.mem, m.d, v);
    m' := m.(mem := mem);
  }

  lemma StepTrans(a: Machine, b: Machine, c: Machine, p1: Option<nat>, f1: Option<nat>, p2: Option<nat>,
      f2: Option<nat>, page: Option<nat>, frame: Option<nat>)
    requires Step(a, b, p1, f1) && Step(b, c, p2, f2)
    requires (p1.Some? ==> p1 == page) && (p2.Some? ==> p2 == page) && (f1.Some? ==> f1 == frame)
             && (f2.Some? ==> f2 == frame)
    ensures Step(a, c, page, frame)
  {
  }

  // ---------------------------------------------------------------- since the start

  /** From `m0` to `m` only the pages in `held`, unmapped before, changed their mapping, and no
      frame that was in use changed, apart from frame `own` and the active directory's tables. */
  ghost predicate Since(m0: Machine, m: Machine, held: set<nat>, own: nat) {
    && Edits(m0, m)
    && (forall q | 0 <= q < LOW_PAGES ::
          Walk(m.mem, m0.d, q) == Walk(m0.mem, m0.d, q) || (q in held && Walk(m0.mem, m0.d, q) == None))
    && (forall g | 0 <= g < PAGES && g != own && F.Used(m0.rs, g)
        && !Structure(m0.mem[m0.d], m0.d, g) :: m.mem[g] == m0.mem[g])
  }

  lemma SinceStep(m0: Machine, m: Machine, m': Machine, held: set<nat>, held': set<nat>, own: nat, page: Option<nat>,
      frame: Option<nat>)
    requires Since(m0, m, held, own) && Step(m, m', page, frame) && held <= held'
    requires page.Some? ==> page.value < LOW_PAGES && Walk(m0.mem, m0.d, page.value) == None && page.value in held'
    requires frame.Some? ==> frame.value == own || !F.Used(m0.rs, frame.value)
    ensures Since(m0, m', held', own)
  {
  }

  lemma SinceRelease(m0: Machine, m: Machine, held: set<nat>, own: nat, v: nat)
    requires Since(m0, m, held, own) && v < LOW_PAGES && Walk(m.mem, m.d, v) == None
    ensures Since(m0, m, held - {v}, own) && Walk(m0.mem, m0.d, v) == None
  {
  }

  lemma SinceReleaseTo(m0: Machine, m: Machine, held: set<nat>, held': set<nat>, own: nat, v: nat)
    requires Since(m0, m, held, own) && v < LOW_PAGES && Walk(m.mem, m.d, v) == None
             && forall q | q in held :: q == v || q in held'
    ensures Since(m0, m, held', own)
  {
  }

  lemma SinceAcquire(m0: Machine, m: Machine, m': Machine, held: set<nat>, held': set<nat>, own: nat, v: nat, f: nat)
    requires Since(m0, m, held, own) && Acquired(m, m', v, f) && held <= held' && v in held'
    ensures Since(m0, m', held', own) && !F.Used(m0.rs, f) && Vacant(m0, v)
  {
    AcquireStep(m, m', v, f);
    SinceRelease(m0, m, held, own, v);
    SinceStep(m0, m, m', held, held', own, Some(v), None);
  }

  predicate InHeap(m: Machine, v: nat) { m.first <= v < m.first + 32 * |m.words| }

  lemma HeapMarked(mem: Mem, d: nat, first: nat, marks: seq<bool>, k: nat)
    requires MemOk(mem) && d < PAGES && HeapReady(mem, d, first, marks) && k < |marks|
    ensures HeapReady(mem, d, first, marks[k := true])
  {
    forall q | first <= q < first + |marks|
      ensures Present(mem[d][q / 1024]) && (marks[k := true][q - first] || Walk(mem, d, q) == None)
    {
      assert Present(mem[d][q / 1024]) && (marks[q - first] || Walk(mem, d, q) == None);
    }
  }

  /** `kfree` of a page: it sets the page's mark, so the page is never handed out again. */
  method FreeAt(m: Machine, v: nat) returns (m': Machine)
    requires Valid(m) && InHeap(m, v)
    ensures Step(m, m', None, None) && m'.mem == m.mem
  {
    var words := B.MarkPage(m.words, v - m.first);
    m' := m.(words := words);
    HeapMarked(m.mem, m.d, m.first, B.View(m.words), v - m.first);
  }

  // ---------------------------------------------------------------- drafts

  /** A directory in the making: its page and frame, and page and frame of the table of each
      slot that has one. */
  datatype Draft = Draft(v: nat, f: nat, tabs: map<nat, (nat, nat)>)

  /** Frame `f` is in use and is no paging structure of the active directory. */
  ghost predicate Private(m: Machine, f: nat)
    requires Valid(m)
  {
    f < PAGES && F.Used(m.rs, f) && !Structure(m.mem[m.d], m.d, f)
  }

  ghost predicate At(m: Machine, v: nat, f: nat)
    requires Valid(m)
  {
    InHeap(m, v) && v < LOW_PAGES && Walk(m.mem, m.d, v) == Some(f)
  }

  /** The frames of a draft are private and distinct. */
  ghost predicate Frames(m: Machine, w: Draft)
    requires Valid(m)
  {
    && Private(m, w.f)
    && (forall i | i in w.tabs :: i < SELF && w.tabs[i].0 < PAGES && Private(m, w.tabs[i].1) && w.tabs[i].1 != w.f)
    && (forall i, j | i in w.tabs && j in w.tabs && i != j :: w.tabs[i].1 != w.tabs[j].1)
  }

  /** The directory's page and those of the tables of slots from `from` on are mapped. */
  ghost predicate Reach(m: Machine, w: Draft, from: nat)
    requires Valid(m)
  {
    At(m, w.v, w.f) && forall i | i in w.tabs && from <= i :: At(m, w.tabs[i].0, w.tabs[i].1)
  }

  /** Page `v` is not one of those. */
  ghost predicate Elsewhere(w: Draft, from: nat, page: Option<nat>) {
    page.Some? ==> page.value != w.v && forall i | i in w.tabs && from <= i :: w.tabs[i].0 != page.value
  }

  lemma PrivateStep(m: Machine, m': Machine, f: nat)
    requires Edits(m, m') && Private(m, f)
    ensures Private(m', f)
  {
  }

  lemma AtStep(m: Machine, m': Machine, v: nat, f: nat, page: Option<nat>, frame: Option<nat>)
    requires Step(m, m', page, frame) && At(m, v, f) && page != Some(v)
    ensures At(m', v, f)
  {
  }

  lemma RowStep(m: Machine, m': Machine, f: nat, page: Option<nat>, frame: Option<nat>)
    requires Step(m, m', page, frame) && Private(m, f) && frame != Some(f)
    ensures m'.mem[f] == m.mem[f]
  {
  }

  lemma FramesStep(m: Machine, m': Machine, w: Draft)
    requires Edits(m, m') && Frames(m, w)
    ensures Frames(m', w)
  {
    PrivateStep(m, m', w.f);
    forall i | i in w.tabs ensures Private(m', w.tabs[i].1) { PrivateStep(m, m', w.tabs[i].1); }
  }

  lemma ReachStep(m: Machine, m': Machine, w: Draft, from: nat, page: Option<nat>, frame: Option<nat>)
    requires Step(m, m', page, frame) && Reach(m, w, from) && Elsewhere(w, from, page)
    ensures Reach(m', w, from)
  {
    AtStep(m, m', w.v, w.f, page, frame);
    forall i | i in w.tabs && from <= i ensures At(m', w.tabs[i].0, w.tabs[i].1) {
      AtStep(m, m', w.tabs[i].0, w.tabs[i].1, page, frame);
    }
  }

  /** A page that is not mapped is not one of the draft's. */
  lemma UnmappedElsewhere(m: Machine, w: Draft, from: nat, v: nat)
    requires Valid(m) && Reach(m, w, from) && v < LOW_PAGES && Walk(m.mem, m.d, v) == None
    ensures Elsewhere(w, from, Some(v))
  {
    forall i | i in w.tabs && from <= i ensures w.tabs[i].0 != v { assert At(m, w.tabs[i].0, w.tabs[i].1); }
  }

  /** The entry that stands for a table while its slot is a draft: the table's page number and
      the mark `MANUSCRIPT_BIND`. */
  function DraftEntry(v: nat): (e: Word)
    requires v < PAGES
    ensures Bound(e) && FrameOf(e) == v
  {
    DraftBits(v);
    CreateEntry(v, true, true, true) + 1024
  }

  lemma DraftBits(v: nat)
    requires v < PAGES
    ensures CreateEntry(v, true, true, true) == v * 4096 + 7
    ensures v * 4096 + 1031 < 0x1_0000_0000 && (v * 4096 + 1031) / 4096 == v && (v * 4096 + 1031) % 2048 == 1031
  {
    PageDivision(v, 1031);
    HalfPage(v * 2, 1031);
  }

  lemma PageDivision(v: nat, low: nat)
    requires low < 4096
    ensures (v * 4096 + low) / 4096 == v && (v * 4096 + low) % 4096 == low
  {
  }

  lemma HalfPage(k: nat, low: nat)
    requires low < 2048
    ensures (k * 2048 + low) % 2048 == low
  {
  }

  /** The bit `MANUSCRIPT_BIND`. */
  predicate Bound(e: Word) { e % 2048 >= 1024 }

  /** What an untouched slot of the new directory in frame `f` holds: nothing in the lower
      half, the active directory's entry in the upper half, the directory itself in the last. */
  function Base(snap: seq<Word>, f: nat, i: nat): Word
    requires |snap| == ENTRIES && f < PAGES && i < ENTRIES
  {
    if i < 512 then 0 else if i < SELF then snap[i] else CreateEntry(f, true, true, false)
  }

  ghost predicate WellFormed(w: Draft) {
    w.f < PAGES && forall i | i in w.tabs :: i < SELF && w.tabs[i].0 < PAGES && w.tabs[i].1 < PAGES
  }

  /** Slot `i` when the slots below `from` are bound. */
  function Slot(w: Draft, snap: seq<Word>, i: nat, from: nat): Word
    requires WellFormed(w) && |snap| == ENTRIES && i < ENTRIES
  {
    if i !in w.tabs then Base(snap, w.f, i)
    else if i < from then CreateEntry(w.tabs[i].1, true, true, true)
    else DraftEntry(w.tabs[i].0)
  }

  ghost predicate Slots(row: seq<Word>, w: Draft, snap: seq<Word>, from: nat)
    requires |row| == ENTRIES && WellFormed(w) && |snap| == ENTRIES
  {
    forall i | 0 <= i < ENTRIES :: row[i] == Slot(w, snap, i, from)
  }

  /** The entry of page `q` after the first `n` pages of the plan. */
  function Leaf(plan: Plan, n: nat, q: nat): Word
    requires n <= |plan| && Fits(plan)
  {
    LastFits(plan, n, q);
    match Last(plan, n, q)
    case None => 0
    case Some(f) => CreateEntry(f, true, true, true)
  }

  lemma LastFits(plan: Plan, n: nat, q: nat)
    requires n <= |plan| && Fits(plan)
    ensures Last(plan, n, q).Some? ==> Last(plan, n, q).value < PAGES
  {
  }

  /** A page of slot `i` is among the first `n` pages of the plan. */
  predicate Touched(plan: Plan, n: nat, i: nat)
    requires n <= |plan|
  {
    n > 0 && (plan[n - 1].0 / 1024 == i || Touched(plan, n - 1, i))
  }

  /** The slots with a table are those that the first `n` pages of the plan touch. */
  ghost predicate Keys(w: Draft, plan: Plan, n: nat)
    requires n <= |plan|
  {
    forall i: nat :: i in w.tabs <==> Touched(plan, n, i)
  }

  /** The tables hold the first `n` pages of the plan and nothing else. */
  ghost predicate Leaves(mem: Mem, w: Draft, plan: Plan, n: nat)
    requires MemOk(mem) && WellFormed(w) && n <= |plan| && Fits(plan)
  {
    forall q | 0 <= q < PAGES && q / 1024 in w.tabs :: mem[w.tabs[q / 1024].1][q % 1024] == Leaf(plan, n, q)
  }

  ghost predicate Drawn(m: Machine, w: Draft, snap: seq<Word>, plan: Plan, n: nat, from: nat) {
    && Valid(m) && Frames(m, w) && |snap| == ENTRIES && n <= |plan| && Fits(plan)
    && Slots(m.mem[w.f], w, snap, from)
    && Leaves(m.mem, w, plan, n)
  }

  lemma LeavesSame(mem: Mem, out: Mem, w: Draft, plan: Plan, n: nat)
    requires MemOk(mem) && MemOk(out) && WellFormed(w) && n <= |plan| && Fits(plan) && Leaves(mem, w, plan, n)
    requires forall i | i in w.tabs :: out[w.tabs[i].1] == mem[w.tabs[i].1]
    ensures Leaves(out, w, plan, n)
  {
  }

  /** Steps elsewhere keep a draft as it is. */
  lemma DrawnStep(m: Machine, m': Machine, w: Draft, snap: seq<Word>, plan: Plan, n: nat, from: nat,
      page: Option<nat>, frame: Option<nat>)
    requires Drawn(m, w, snap, plan, n, from) && Step(m, m', page, frame)
    requires frame.Some? ==> frame.value != w.f && forall i | i in w.tabs :: w.tabs[i].1 != frame.value
    ensures Drawn(m', w, snap, plan, n, from)
  {
    FramesStep(m, m', w);
    RowStep(m, m', w.f, page, frame);
    forall i | i in w.tabs ensures m'.mem[w.tabs[i].1] == m.mem[w.tabs[i].1] {
      RowStep(m, m', w.tabs[i].1, page, frame);
    }
    LeavesSame(m.mem, m'.mem, w, plan, n);
  }

  // ---------------------------------------------------------------- adding a table

  lemma {:induction false} UntouchedLast(plan: Plan, n: nat, q: nat)
    requires n <= |plan| && !Touched(plan, n, q / 1024)
    ensures Last(plan, n, q) == None
  {
    if n > 0 { UntouchedLast(plan, n - 1, q); }
  }

  lemma FramesAdd(m: Machine, w: Draft, i: nat, v: nat, f: nat, w': Draft)
    requires Valid(m) && Frames(m, w) && i < SELF && v < PAGES && Private(m, f)
    requires f != w.f && forall k | k in w.tabs :: w.tabs[k].1 != f
    requires w' == w.(tabs := w.tabs[i := (v, f)])
    ensures Frames(m, w')
  {
  }

  /** A new table is a frame that no draft has. */
  lemma AcquiredNew(m: Machine, m': Machine, v: nat, f: nat, w: Draft)
    requires Acquired(m, m', v, f) && Frames(m, w)
    ensures f != w.f && forall k | k in w.tabs :: w.tabs[k].1 != f
    ensures Private(m', f)
  {
    AcquireStep(m, m', v, f);
    forall k | k in w.tabs ensures w.tabs[k].1 != f { assert Private(m, w.tabs[k].1); }
  }

  lemma SlotsAdd(row: seq<Word>, w: Draft, snap: seq<Word>, i: nat, v: nat, f: nat, w': Draft)
    requires |row| == ENTRIES && |snap| == ENTRIES && WellFormed(w) && Slots(row, w, snap, 0) && i < SELF && v < PAGES
             && f < PAGES
    requires w' == w.(tabs := w.tabs[i := (v, f)])
    ensures Slots(row[i := DraftEntry(v)], w', snap, 0)
  {
    var row' := row[i := DraftEntry(v)];
    forall k | 0 <= k < ENTRIES ensures row'[k] == Slot(w', snap, k, 0) {
      assert row[k] == Slot(w, snap, k, 0);
    }
  }

  lemma LeavesAdd(mem: Mem, w: Draft, plan: Plan, n: nat, i: nat, v: nat, f: nat, w': Draft)
    requires MemOk(mem) && WellFormed(w) && n <= |plan| && Fits(plan) && Leaves(mem, w, plan, n) && !Touched(plan, n, i)
    requires i < SELF && v < PAGES && f < PAGES && mem[f] == Zeros() && w' == w.(tabs := w.tabs[i := (v, f)])
    ensures WellFormed(w') && Leaves(mem, w', plan, n)
  {
    forall q | 0 <= q < PAGES && q / 1024 in w'.tabs ensures mem[w'.tabs[q / 1024].1][q % 1024] == Leaf(plan, n, q) {
      if q / 1024 == i { UntouchedLast(plan, n, q); }
    }
  }

  lemma InsertedFrames(m: Machine, m1: Machine, m2: Machine, m3: Machine, w: Draft, i: nat, v: nat, f: nat, w': Draft)
    requires Valid(m) && Frames(m, w) && i < SELF && v < PAGES
    requires Acquired(m, m1, v, f) && w' == w.(tabs := w.tabs[i := (v, f)]) && Edits(m1, m2) && Edits(m2, m3)
    ensures Frames(m3, w') && f != w.f && forall k | k in w.tabs :: w.tabs[k].1 != f
  {
    AcquireStep(m, m1, v, f);
    AcquiredNew(m, m1, v, f, w);
    FramesStep(m, m1, w);
    FramesStep(m1, m2, w);
    FramesStep(m2, m3, w);
    PrivateStep(m1, m2, f);
    PrivateStep(m2, m3, f);
    FramesAdd(m3, w, i, v, f, w');
  }

  lemma InsertedRows(mem: Mem, mid: Mem, out: Mem, w: Draft, snap: seq<Word>, plan: Plan, n: nat, i: nat, v: nat,
      f: nat, w': Draft)
    requires MemOk(mem) && WellFormed(w) && |snap| == ENTRIES && n <= |plan| && Fits(plan)
    requires Slots(mem[w.f], w, snap, 0) && Leaves(mem, w, plan, n) && i < SELF && !Touched(plan, n, i) && v < PAGES
             && f < PAGES
    requires f != w.f && (forall k | k in w.tabs :: w.tabs[k].1 != f && w.tabs[k].1 != w.f)
             && w' == w.(tabs := w.tabs[i := (v, f)])
    requires mid == Put(mem, w.f, i, DraftEntry(v)) && out == mid[f := Zeros()]
    ensures MemOk(out) && WellFormed(w') && Slots(out[w.f], w', snap, 0) && Leaves(out, w', plan, n)
  {
    SlotsAdd(mem[w.f], w, snap, i, v, f, w');
    LeavesSame(mem, out, w, plan, n);
    LeavesAdd(out, w, plan, n, i, v, f, w');
  }

  /** The directory slot and the table of a draft's new table. */
  lemma Inserted(m: Machine, m1: Machine, m2: Machine, m3: Machine, w: Draft, snap: seq<Word>, plan: Plan, n: nat,
      i: nat, v: nat, f: nat, w': Draft)
    requires Drawn(m, w, snap, plan, n, 0) && i < SELF && !Touched(plan, n, i)
    requires Acquired(m, m1, v, f) && w' == w.(tabs := w.tabs[i := (v, f)])
    requires v < PAGES && m2 == m1.(mem := Put(m1.mem, w.f, i, DraftEntry(v))) && Step(m1, m2, None, Some(w.f))
    requires m3 == m2.(mem := m2.mem[f := Zeros()]) && Step(m2, m3, None, Some(f))
    ensures Drawn(m3, w', snap, plan, n, 0)
  {
    AcquireStep(m, m1, v, f);
    DrawnStep(m, m1, w, snap, plan, n, 0, Some(v), None);
    InsertedFrames(m, m1, m2, m3, w, i, v, f, w');
    InsertedRows(m1.mem, m2.mem, m3.mem, w, snap, plan, n, i, v, f, w');
  }

  lemma ReachAdd(m: Machine, m1: Machine, m2: Machine, m3: Machine, w: Draft, i: nat, v: nat, f: nat, w': Draft)
    requires Valid(m) && Reach(m, w, 0) && Acquired(m, m1, v, f) && w' == w.(tabs := w.tabs[i := (v, f)])
    requires Step(m1, m2, None, Some(w.f)) && Step(m2, m3, None, Some(f))
    ensures Reach(m3, w', 0)
  {
    AcquireStep(m, m1, v, f);
    UnmappedElsewhere(m, w, 0, v);
    ReachStep(m, m1, w, 0, Some(v), None);
    ReachAfter(m1, m2, m3, w, v, f);
    ReachWith(m3, w, i, v, f, w');
  }

  lemma ReachAfter(m1: Machine, m2: Machine, m3: Machine, w: Draft, v: nat, f: nat)
    requires Valid(m1) && Reach(m1, w, 0) && At(m1, v, f)
    requires Step(m1, m2, None, Some(w.f)) && Step(m2, m3, None, Some(f))
    ensures Reach(m3, w, 0) && At(m3, v, f)
  {
    ReachStep(m1, m2, w, 0, None, Some(w.f));
    ReachStep(m2, m3, w, 0, None, Some(f));
    AtStep(m1, m2, v, f, None, Some(w.f));
    AtStep(m2, m3, v, f, None, Some(f));
  }

  lemma ReachWith(m: Machine, w: Draft, i: nat, v: nat, f: nat, w': Draft)
    requires Valid(m) && Reach(m, w, 0) && At(m, v, f) && w' == w.(tabs := w.tabs[i := (v, f)])
    ensures Reach(m, w', 0)
  {
  }

  /** No heap page or no frame is left. */
  ghost predicate Exhausted(m: Machine) {
    H.FirstFit(B.View(m.words), 0).None? || F.Full(m.rs)
  }

  /** The frames of physical memory are below the top 4 MB, and frame 0 is not one of them. */
  ghost predicate Frameable(rs: seq<F.Region>) {
    forall f: nat | F.Managed(rs, f) :: 0 < f < LOW_PAGES
  }

  lemma FrameableKept(rs: seq<F.Region>, rs': seq<F.Region>)
    requires Frameable(rs) && F.SameAreas(rs, rs')
    ensures Frameable(rs')
  {
    forall f: nat | F.Managed(rs', f) ensures F.Managed(rs, f) {
      var i :| 0 <= i < |rs'| && F.In(rs'[i], f);
      assert F.In(rs[i], f);
    }
  }

  /** `kmalloc_page` on such memory. */
  method GetPage(m: Machine) returns (ok: bool, v: nat, f: nat, m': Machine)
    requires Valid(m) && Frameable(m.rs)
    ensures ok ==> Acquired(m, m', v, f) && f < LOW_PAGES && v < LOW_PAGES && Frameable(m'.rs)
    ensures !ok ==> m' == m && Exhausted(m)
  {
    F.AllocFresh(m.rs);
    var r, m1 := KmallocPage(m);
    if r.Got? {
      FrameableKept(m.rs, m1.rs);
      return true, r.page, r.frame, m1;
    }
    return false, 0, 0, m;
  }

  /** The pages of a draft's tables from slot `from` on. */
  ghost function Held(w: Draft, from: nat): set<nat> {
    set i | i in w.tabs && from <= i :: w.tabs[i].0
  }

  lemma HeldAdd(w: Draft, i: nat, v: nat, f: nat, w': Draft)
    requires i !in w.tabs && w' == w.(tabs := w.tabs[i := (v, f)])
    ensures Held(w, 0) <= Held(w', 0) && v in Held(w', 0)
  {
    forall q | q in Held(w, 0) ensures q in Held(w', 0) {
      var k :| k in w.tabs && 0 <= k && w.tabs[k].0 == q;
      assert w'.tabs[k].0 == q;
    }
    assert w'.tabs[i].0 == v;
  }

  /** All there is to know while a draft is drawn, from state `m0` on. */
  ghost predicate Drawing(m0: Machine, m: Machine, w: Draft, plan: Plan, n: nat) {
    && Since(m0, m, Held(w, 0), w.f) && Frameable(m.rs)
    && Drawn(m, w, m0.mem[m0.d], plan, n, 0) && Reach(m, w, 0)
    && Unused(m0, w)
  }

  /** The frames of a draft's tables were free at the start, and their pages not mapped. */
  ghost predicate Unused(m0: Machine, w: Draft)
    requires Valid(m0)
  {
    forall i | i in w.tabs :: !F.Used(m0.rs, w.tabs[i].1) && Vacant(m0, w.tabs[i].0)
  }

  ghost predicate Vacant(m0: Machine, v: nat)
    requires Valid(m0)
  {
    v < LOW_PAGES && Walk(m0.mem, m0.d, v) == None
  }

  /** The branch of `create_task_directory` for a slot without a table: a page and a frame, an
      entry in the directory at page `dir`, and the zeroing of the table. */
  method AddTable(m: Machine, dir: nat, i: nat, ghost w: Draft)
    returns (ok: bool, v: nat, m': Machine, ghost f: nat, ghost m1: Machine, ghost m2: Machine)
    requires Valid(m) && Frameable(m.rs) && Frames(m, w) && Reach(m, w, 0) && dir == w.v && i < SELF
    ensures !ok ==> m' == m && Exhausted(m)
    ensures ok ==> TableAdded(m, w, i, v, f, m1, m2, m') && Frameable(m'.rs)
  {
    ghost var g := w.f;
    var frame;
    ok, v, frame, m' := GetPage(m);
    f, m1, m2 := frame, m', m';
    if !ok {
      return;
    }
    AcquireStep(m, m1, v, f);
    AtAfter(m, m1, w, v);
    AcquiredNew(m, m1, v, f, w);
    PrivateStep(m, m1, g);
    m' := StoreAt(m', dir, i, DraftEntry(v), g);
    m2 := m';
    AtStep(m1, m2, v, f, None, Some(g));
    m' := ZeroAt(m', v, f);
  }

  /** The states that this goes through. */
  ghost predicate TableAdded(m: Machine, w: Draft, i: nat, v: nat, f: nat, m1: Machine, m2: Machine, m3: Machine)
    requires i < ENTRIES && w.f < PAGES
  {
    && Acquired(m, m1, v, f) && v < PAGES && f < LOW_PAGES
    && m2 == m1.(mem := Put(m1.mem, w.f, i, DraftEntry(v))) && Step(m1, m2, None, Some(w.f))
    && m3 == m2.(mem := m2.mem[f := Zeros()]) && Step(m2, m3, None, Some(f))
  }

  lemma DrawnAdd(m0: Machine, m: Machine, m1: Machine, m2: Machine, m3: Machine, w: Draft, plan: Plan, n: nat, i: nat,
      v: nat, f: nat, w': Draft)
    requires Drawing(m0, m, w, plan, n) && i < SELF && i !in w.tabs && !Touched(plan, n, i)
    requires TableAdded(m, w, i, v, f, m1, m2, m3) && w' == w.(tabs := w.tabs[i := (v, f)])
    ensures Drawn(m3, w', m0.mem[m0.d], plan, n, 0) && Reach(m3, w', 0)
  {
    Inserted(m, m1, m2, m3, w, m0.mem[m0.d], plan, n, i, v, f, w');
    ReachAdd(m, m1, m2, m3, w, i, v, f, w');
  }

  lemma HeldSince(m0: Machine, m: Machine, m1: Machine, m2: Machine, m3: Machine, w: Draft, plan: Plan, n: nat,
      i: nat, v: nat, f: nat, w': Draft)
    requires Drawing(m0, m, w, plan, n) && i < SELF && i !in w.tabs && !Touched(plan, n, i)
    requires TableAdded(m, w, i, v, f, m1, m2, m3) && w' == w.(tabs := w.tabs[i := (v, f)])
    ensures Since(m0, m3, Held(w', 0), w.f) && Unused(m0, w')
  {
    HeldAdd(w, i, v, f, w');
    SinceAdd(m0, m, m1, m2, m3, Held(w, 0), Held(w', 0), w.f, v, f);
    UnusedAdd(m0, w, i, v, f, w');
  }

  lemma UnusedAdd(m0: Machine, w: Draft, i: nat, v: nat, f: nat, w': Draft)
    requires Valid(m0) && Unused(m0, w) && !F.Used(m0.rs, f) && Vacant(m0, v) && w' == w.(tabs := w.tabs[i := (v, f)])
    ensures Unused(m0, w')
  {
  }

  lemma DrawingAdd(m0: Machine, m: Machine, m1: Machine, m2: Machine, m3: Machine, w: Draft, plan: Plan, n: nat,
      i: nat, v: nat, f: nat, w': Draft)
    requires Drawing(m0, m, w, plan, n) && i < SELF && i !in w.tabs && !Touched(plan, n, i)
    requires TableAdded(m, w, i, v, f, m1, m2, m3) && w' == w.(tabs := w.tabs[i := (v, f)])
    requires Frameable(m3.rs)
    ensures Drawing(m0, m3, w', plan, n)
  {
    DrawnAdd(m0, m, m1, m2, m3, w, plan, n, i, v, f, w');
    HeldSince(m0, m, m1, m2, m3, w, plan, n, i, v, f, w');
  }

  lemma AtAfter(m: Machine, m1: Machine, w: Draft, v: nat)
    requires Valid(m) && Reach(m, w, 0) && Step(m, m1, Some(v), None) && v < LOW_PAGES && Walk(m.mem, m.d, v) == None
    ensures At(m1, w.v, w.f)
  {
    UnmappedElsewhere(m, w, 0, v);
    AtStep(m, m1, w.v, w.f, Some(v), None);
  }

  lemma SinceAdd(m0: Machine, m: Machine, m1: Machine, m2: Machine, m3: Machine, held: set<nat>, held': set<nat>,
      own: nat, v: nat, f: nat)
    requires Since(m0, m, held, own) && Acquired(m, m1, v, f) && held <= held' && v in held'
    requires Step(m1, m2, None, Some(own)) && Step(m2, m3, None, Some(f))
    ensures Since(m0, m3, held', own) && !F.Used(m0.rs, f) && Vacant(m0, v)
  {
    SinceAcquire(m0, m, m1, held, held', own, v, f);
    SinceStep(m0, m1, m2, held', held', own, None, Some(own));
    SinceStep(m0, m2, m3, held', held', own, None, Some(f));
  }

  // ---------------------------------------------------------------- entering a page

  lemma LeavesSet(mem: Mem, w: Draft, plan: Plan, n: nat, page: nat, frame: nat, t: nat, out: Mem)
    requires MemOk(mem) && WellFormed(w) && n < |plan| && Fits(plan) && Leaves(mem, w, plan, n)
    requires plan[n] == (page, frame) && page / 1024 in w.tabs && t == w.tabs[page / 1024].1
    requires forall i, j | i in w.tabs && j in w.tabs && i != j :: w.tabs[i].1 != w.tabs[j].1
    requires out == Put(mem, t, page % 1024, CreateEntry(frame, true, true, true))
    ensures Leaves(out, w, plan, n + 1)
  {
    forall q | 0 <= q < PAGES && q / 1024 in w.tabs ensures out[w.tabs[q / 1024].1][q % 1024] == Leaf(plan, n + 1, q) {
      assert mem[w.tabs[q / 1024].1][q % 1024] == Leaf(plan, n, q);
      if q / 1024 == page / 1024 {
        assert q == page <==> q % 1024 == page % 1024;
      } else {
        assert w.tabs[q / 1024].1 != t;
      }
    }
  }

  lemma DrawnSet(m: Machine, m': Machine, w: Draft, snap: seq<Word>, plan: Plan, n: nat, page: nat, frame: nat, t: nat)
    requires Drawn(m, w, snap, plan, n, 0) && n < |plan| && plan[n] == (page, frame)
    requires page / 1024 in w.tabs && t == w.tabs[page / 1024].1 && t < PAGES
    requires m' == m.(mem := Put(m.mem, t, page % 1024, CreateEntry(frame, true, true, true)))
             && Step(m, m', None, Some(t))
    ensures Drawn(m', w, snap, plan, n + 1, 0)
  {
    FramesStep(m, m', w);
    LeavesSet(m.mem, w, plan, n, page, frame, t, m'.mem);
  }

  lemma DrawingSet(m0: Machine, m: Machine, m': Machine, w: Draft, plan: Plan, n: nat, page: nat, frame: nat, t: nat)
    requires Drawing(m0, m, w, plan, n) && n < |plan| && plan[n] == (page, frame)
    requires page / 1024 in w.tabs && t == w.tabs[page / 1024].1 && t < PAGES
    requires m' == m.(mem := Put(m.mem, t, page % 1024, CreateEntry(frame, true, true, true)))
             && Step(m, m', None, Some(t))
    ensures Drawing(m0, m', w, plan, n + 1)
  {
    DrawnSet(m, m', w, m0.mem[m0.d], plan, n, page, frame, t);
    ReachStep(m, m', w, 0, None, Some(t));
    SinceStep(m0, m, m', Held(w, 0), Held(w, 0), w.f, None, Some(t));
  }

  /** No entry of the active directory's upper half carries the mark. */
  ghost predicate Unmarked(snap: seq<Word>) {
    |snap| == ENTRIES && forall i | 512 <= i < SELF :: !Bound(snap[i])
  }

  /** The mark tells whether a slot has a table. */
  lemma SlotBound(row: seq<Word>, w: Draft, snap: seq<Word>, i: nat, from: nat)
    requires |row| == ENTRIES && WellFormed(w) && Unmarked(snap) && Slots(row, w, snap, from) && from <= i < ENTRIES
    ensures Bound(row[i]) <==> i in w.tabs
    ensures i in w.tabs ==> row[i] == DraftEntry(w.tabs[i].0)
  {
    assert row[i] == Slot(w, snap, i, from);
    if i == SELF { EntryUnbound(w.f, false); }
  }

  lemma EntryUnbound(f: nat, user: bool)
    requires f < PAGES
    ensures !Bound(CreateEntry(f, true, true, user))
  {
    var low := if user then 7 else 3;
    assert CreateEntry(f, true, true, user) == (f * 2) * 2048 + low;
  }

  /** `w'` is the same draft, with a table in slot `i`. */
  ghost predicate Gains(w: Draft, w': Draft, i: nat) {
    w'.v == w.v && w'.f == w.f && i in w'.tabs && forall k: nat :: k in w'.tabs <==> k == i || k in w.tabs
  }

  lemma KeysAdd(w: Draft, w': Draft, plan: Plan, n: nat, i: nat)
    requires n < |plan| && plan[n].0 / 1024 == i && Keys(w, plan, n)
    requires Gains(w, w', i)
    ensures Keys(w', plan, n + 1)
  {
  }

  /** The entry of slot `i` in the draft at page `dir`. */
  method LoadSlot(m: Machine, dir: nat, i: nat, ghost w: Draft, ghost snap: seq<Word>, ghost from: nat)
      returns (e: Word)
    requires Valid(m) && Frames(m, w) && At(m, w.v, w.f) && Unmarked(snap) && Slots(m.mem[w.f], w, snap, from)
    requires dir == w.v && from <= i < ENTRIES
    ensures Bound(e) <==> i in w.tabs
    ensures i in w.tabs ==> e == DraftEntry(w.tabs[i].0)
  {
    e := Load(m.mem, m.d, dir, i);
    SlotBound(m.mem[w.f], w, snap, i, from);
  }

  /** The table of slot `i`: the one it has, or a new one. */
  method FindTable(m: Machine, dir: nat, i: nat, ghost m0: Machine, ghost w: Draft, ghost plan: Plan, ghost n: nat)
    returns (ok: bool, v: nat, m': Machine, ghost w': Draft)
    requires Drawing(m0, m, w, plan, n) && Keys(w, plan, n) && Unmarked(m0.mem[m0.d])
    requires dir == w.v && i < SELF
    ensures ok ==> Drawing(m0, m', w', plan, n) && Gains(w, w', i) && w'.tabs[i].0 == v
    ensures !ok ==> Exhausted(m')
  {
    var e := LoadSlot(m, dir, i, w, m0.mem[m0.d], 0);
    if Bound(e) {
      return true, FrameOf(e), m, w;
    }
    ghost var f, m1, m2;
    ok, v, m', f, m1, m2 := AddTable(m, dir, i, w);
    if !ok {
      return false, 0, m', w;
    }
    w' := w.(tabs := w.tabs[i := (v, f)]);
    DrawingAdd(m0, m, m1, m2, m', w, plan, n, i, v, f, w');
  }

  /** One round of the loop of `create_task_directory`: page `page` goes to `frame`. */
  method DrawPage(m: Machine, dir: nat, page: nat, frame: nat, ghost m0: Machine, ghost w: Draft, ghost plan: Plan,
      ghost n: nat)
    returns (ok: bool, m': Machine, ghost w': Draft)
    requires DrawnSoFar(m0, m, dir, w.f, w, plan, n) && Unmarked(m0.mem[m0.d])
    requires n < |plan| && plan[n] == (page, frame)
    ensures ok ==> DrawnSoFar(m0, m', dir, w.f, w', plan, n + 1)
    ensures !ok ==> Exhausted(m')
  {
    var v;
    ok, v, m', w' := FindTable(m, dir, page / 1024, m0, w, plan, n);
    if ok {
      m' := EnterPage(m', v, page, frame, m0, w', plan, n);
      KeysAdd(w, w', plan, n, page / 1024);
    }
  }

  /** The store into the table. */
  method EnterPage(m: Machine, v: nat, page: nat, frame: nat, ghost m0: Machine, ghost w: Draft, ghost plan: Plan,
      ghost n: nat)
    returns (m': Machine)
    requires Drawing(m0, m, w, plan, n) && n < |plan| && plan[n] == (page, frame)
    requires page / 1024 in w.tabs && v == w.tabs[page / 1024].0
    ensures Drawing(m0, m', w, plan, n + 1)
  {
    ghost var t := w.tabs[page / 1024].1;
    assert At(m, v, t) && Private(m, t);
    m' := StoreAt(m, v, page % 1024, CreateEntry(frame, true, true, true), t);
    DrawingSet(m0, m, m', w, plan, n, page, frame, t);
  }

  // ---------------------------------------------------------------- binding

  /** The entry of a slot between the two steps of binding: the frame and the mark. */
  function HalfBound(f: nat): (e: Word)
    requires f < PAGES
    ensures e == CreateEntry(f, true, true, true) + 1024
  {
    DraftBits(f);
    f * 4096 + 1031
  }

  lemma BindBits(v: nat)
    requires v < PAGES
    ensures DraftEntry(v) % 4096 == 1031
  {
    DraftBits(v);
  }

  lemma Overwrite(row: seq<Word>, i: nat, a: Word, b: Word)
    requires i < |row|
    ensures row[i := a][i := b] == row[i := b]
  {
  }

  /** A store to the draft's row `row[i := a]` that makes it `row[i := b]`. */
  method StoreOver(m: Machine, dir: nat, i: nat, b: Word, ghost g: nat, ghost row: seq<Word>, ghost a: Word)
      returns (m': Machine)
    requires Valid(m) && Private(m, g) && At(m, dir, g) && |row| == ENTRIES && i < ENTRIES && m.mem[g] == row[i := a]
    ensures Step(m, m', None, Some(g)) && m'.mem[g] == row[i := b] && At(m', dir, g) && Private(m', g)
  {
    m' := StoreAt(m, dir, i, b, g);
    AtStep(m, m', dir, g, None, Some(g));
    PrivateStep(m, m', g);
    Overwrite(row, i, a, b);
  }

  /** `manuscript[i]` gets the physical address of its table: the two stores before the table's
      page is given back. */
  method Rebind(m: Machine, dir: nat, i: nat, v: nat, ghost g: nat, ghost f: nat, ghost row: seq<Word>)
      returns (m': Machine)
    requires Valid(m) && Private(m, g) && At(m, dir, g) && At(m, v, f) && f < PAGES
    requires |row| == ENTRIES && i < ENTRIES && m.mem[g] == row && row[i] == DraftEntry(v)
    ensures Step(m, m', None, Some(g)) && m'.mem[g] == row[i := HalfBound(f)] && At(m', dir, g) && Private(m', g)
  {
    BindBits(v);
    var addr := GetPageMapping(m.mem, m.d, v);
    var e := Load(m.mem, m.d, dir, i);
    var low := e % 4096;
    var m1 := StoreOver(m, dir, i, low, g, row, e);
    e := Load(m1.mem, m1.d, dir, i);
    var full: Word := e + addr;
    assert full == HalfBound(f);
    m' := StoreOver(m1, dir, i, full, g, row, low);
    StepTrans(m, m1, m', None, Some(g), None, Some(g), None, Some(g));
  }

  /** `kfree` and `unmap_page` of a page. */
  method GiveBack(m: Machine, v: nat) returns (m': Machine)
    requires Valid(m) && InHeap(m, v) && v < LOW_PAGES
    ensures Step(m, m', Some(v), None) && Walk(m'.mem, m.d, v) == None
  {
    var m1 := FreeAt(m, v);
    m' := UnmapAt(m1, v);
    StepTrans(m, m1, m', None, None, Some(v), None, Some(v), None);
  }

  /** `manuscript[i] &= ~MANUSCRIPT_BIND`. */
  method ClearMark(m: Machine, dir: nat, i: nat, ghost g: nat, ghost f: nat, ghost row: seq<Word>) returns (m': Machine)
    requires Valid(m) && Private(m, g) && At(m, dir, g) && f < PAGES
    requires |row| == ENTRIES && i < ENTRIES && m.mem[g] == row[i := HalfBound(f)]
    ensures Step(m, m', None, Some(g)) && m'.mem[g] == row[i := CreateEntry(f, true, true, true)]
  {
    var e := Load(m.mem, m.d, dir, i);
    var clear: Word := e - 1024;
    assert clear == CreateEntry(f, true, true, true);
    m' := StoreOver(m, dir, i, clear, g, row, e);
  }

  lemma BindSteps(m: Machine, m1: Machine, m2: Machine, m3: Machine, v: nat, g: nat)
    requires Step(m, m1, None, Some(g)) && Step(m1, m2, Some(v), None) && Step(m2, m3, None, Some(g))
    ensures Step(m, m3, Some(v), Some(g))
  {
    StepTrans(m, m1, m2, None, Some(g), Some(v), None, Some(v), Some(g));
    StepTrans(m, m2, m3, Some(v), Some(g), None, Some(g), Some(v), Some(g));
  }

  lemma ReachThrough(m: Machine, m': Machine, dir: nat, g: nat, v: nat)
    requires Valid(m) && Private(m, g) && At(m, dir, g) && dir != v && Step(m, m', Some(v), None)
    ensures Private(m', g) && At(m', dir, g) && m'.mem[g] == m.mem[g]
  {
    RowStep(m, m', g, Some(v), None);
    PrivateStep(m, m', g);
    AtStep(m, m', dir, g, Some(v), None);
  }

  /** The body of the loop of `bind_manuscript`, for a slot `i` that carries the mark. */
  method BindEntry(m: Machine, dir: nat, i: nat, v: nat, ghost g: nat, ghost f: nat, ghost row: seq<Word>)
      returns (m': Machine)
    requires Valid(m) && Private(m, g) && At(m, dir, g) && At(m, v, f) && f < PAGES && v != dir
    requires |row| == ENTRIES && i < ENTRIES && m.mem[g] == row && row[i] == DraftEntry(v)
    ensures Step(m, m', Some(v), Some(g)) && Walk(m'.mem, m.d, v) == None
    ensures m'.mem[g] == row[i := CreateEntry(f, true, true, true)]
  {
    var m1 := Rebind(m, dir, i, v, g, f, row);
    var m2 := GiveBack(m1, v);
    ReachThrough(m1, m2, dir, g, v);
    m' := ClearMark(m2, dir, i, g, f, row);
    BindSteps(m, m1, m2, m', v, g);
  }

  /** All there is to know while the slots from `from` on are still to be bound. */
  ghost predicate Binding(m0: Machine, m: Machine, w: Draft, plan: Plan, from: nat) {
    && Since(m0, m, Held(w, from), w.f)
    && Drawn(m, w, m0.mem[m0.d], plan, |plan|, from) && Reach(m, w, from)
    && Unused(m0, w)
  }

  lemma SlotsBind(row: seq<Word>, row': seq<Word>, w: Draft, snap: seq<Word>, i: nat)
    requires |row| == ENTRIES && |snap| == ENTRIES && WellFormed(w) && Slots(row, w, snap, i) && i < ENTRIES
    requires row' == if i in w.tabs then row[i := CreateEntry(w.tabs[i].1, true, true, true)] else row
    ensures Slots(row', w, snap, i + 1)
  {
    forall k | 0 <= k < ENTRIES ensures row'[k] == Slot(w, snap, k, i + 1) {
      assert row[k] == Slot(w, snap, k, i);
    }
  }

  lemma HeldBind(w: Draft, i: nat)
    requires i in w.tabs
    ensures forall q | q in Held(w, i) :: q == w.tabs[i].0 || q in Held(w, i + 1)
  {
    forall q | q in Held(w, i) && q != w.tabs[i].0 ensures q in Held(w, i + 1) {
      var k :| k in w.tabs && i <= k && w.tabs[k].0 == q;
      assert k != i;
    }
  }

  lemma HeldSkip(w: Draft, i: nat)
    requires i !in w.tabs
    ensures Held(w, i) == Held(w, i + 1)
  {
  }

  /** Distinct frames have distinct pages. */
  lemma BindElsewhere(m: Machine, w: Draft, i: nat)
    requires Valid(m) && Frames(m, w) && Reach(m, w, i) && i in w.tabs
    ensures w.tabs[i].0 != w.v && Elsewhere(w, i + 1, Some(w.tabs[i].0)) && Reach(m, w, i + 1)
  {
    forall k | k in w.tabs && i + 1 <= k ensures w.tabs[k].0 != w.tabs[i].0 {
      assert At(m, w.tabs[k].0, w.tabs[k].1) && At(m, w.tabs[i].0, w.tabs[i].1);
    }
    assert At(m, w.tabs[i].0, w.tabs[i].1);
  }

  lemma DrawnBind(m: Machine, m': Machine, w: Draft, snap: seq<Word>, plan: Plan, i: nat, page: Option<nat>)
    requires Drawn(m, w, snap, plan, |plan|, i) && Step(m, m', page, Some(w.f)) && i in w.tabs
    requires m'.mem[w.f] == m.mem[w.f][i := CreateEntry(w.tabs[i].1, true, true, true)]
    ensures Drawn(m', w, snap, plan, |plan|, i + 1)
  {
    FramesStep(m, m', w);
    SlotsBind(m.mem[w.f], m'.mem[w.f], w, snap, i);
    forall k | k in w.tabs ensures m'.mem[w.tabs[k].1] == m.mem[w.tabs[k].1] {
      RowStep(m, m', w.tabs[k].1, page, Some(w.f));
    }
    LeavesSame(m.mem, m'.mem, w, plan, |plan|);
  }

  lemma SinceBind(m0: Machine, m: Machine, m': Machine, w: Draft, i: nat, v: nat)
    requires Since(m0, m, Held(w, i), w.f) && i in w.tabs && v == w.tabs[i].0 && Vacant(m0, v)
    requires Step(m, m', Some(v), Some(w.f)) && Walk(m'.mem, m.d, v) == None
    ensures Since(m0, m', Held(w, i + 1), w.f)
  {
    assert v in Held(w, i);
    SinceStep(m0, m, m', Held(w, i), Held(w, i), w.f, Some(v), Some(w.f));
    HeldBind(w, i);
    SinceReleaseTo(m0, m', Held(w, i), Held(w, i + 1), w.f, v);
  }

  /** One round of the loop of `bind_manuscript`. */
  method BindSlot(m: Machine, dir: nat, i: nat, ghost m0: Machine, ghost w: Draft, ghost plan: Plan)
      returns (m': Machine)
    requires Binding(m0, m, w, plan, i) && Unmarked(m0.mem[m0.d]) && dir == w.v && i < ENTRIES
    ensures Binding(m0, m', w, plan, i + 1)
  {
    var e := LoadSlot(m, dir, i, w, m0.mem[m0.d], i);
    if Bound(e) {
      BindElsewhere(m, w, i);
      assert At(m, w.tabs[i].0, w.tabs[i].1);
      SlotBound(m.mem[w.f], w, m0.mem[m0.d], i, i);
      m' := BindEntry(m, dir, i, FrameOf(e), w.f, w.tabs[i].1, m.mem[w.f]);
      BindingBound(m0, m, m', w, plan, i, w.tabs[i].0);
    } else {
      m' := m;
      BindingSkip(m0, m, w, plan, i);
    }
  }

  lemma BindingBound(m0: Machine, m: Machine, m': Machine, w: Draft, plan: Plan, i: nat, v: nat)
    requires Binding(m0, m, w, plan, i) && i in w.tabs && v == w.tabs[i].0
    requires Step(m, m', Some(v), Some(w.f)) && v < LOW_PAGES && Walk(m'.mem, m.d, v) == None
    requires m'.mem[w.f] == m.mem[w.f][i := CreateEntry(w.tabs[i].1, true, true, true)]
    ensures Binding(m0, m', w, plan, i + 1)
  {
    DrawnBind(m, m', w, m0.mem[m0.d], plan, i, Some(v));
    BindElsewhere(m, w, i);
    ReachStep(m, m', w, i + 1, Some(v), Some(w.f));
    SinceBind(m0, m, m', w, i, v);
  }

  lemma BindingSkip(m0: Machine, m: Machine, w: Draft, plan: Plan, i: nat)
    requires Binding(m0, m, w, plan, i) && i !in w.tabs && i < ENTRIES
    ensures Binding(m0, m, w, plan, i + 1)
  {
    HeldSkip(w, i);
    SlotsBind(m.mem[w.f], m.mem[w.f], w, m0.mem[m0.d], i);
  }

  // ---------------------------------------------------------------- what the new directory is

  /** The directory in frame `f`: its walk follows the plan in the slots that the plan touches
      (a later page of the plan wins), maps nothing in the rest of the lower half and follows
      the active directory `d` in the rest of the upper half.  It maps itself, no mark is left
      and its tables are as they have to be. */
  ghost predicate NewDirectory(mem: Mem, rs: seq<F.Region>, d: nat, f: nat, snap: seq<Word>, plan: Plan)
    requires MemOk(mem) && d < PAGES && f < PAGES && |snap| == ENTRIES
  {
    && Ok(mem, f, rs) && SelfMapped(mem, f)
    && (forall i | 0 <= i < ENTRIES :: !Bound(mem[f][i]))
    && (forall i | 0 <= i < ENTRIES && !Touched(plan, |plan|, i) :: mem[f][i] == Base(snap, f, i))
    && (forall q | 0 <= q < LOW_PAGES :: Walk(mem, f, q) == TaskWalk(mem, d, plan, q))
    && (forall q | 0 <= q < LOW_PAGES && Touched(plan, |plan|, q / 1024) :: UserEntry(mem, f, q))
  }

  /** The entries for page `q` are writeable and open to user code. */
  ghost predicate UserEntry(mem: Mem, f: nat, q: nat)
    requires MemOk(mem) && f < PAGES && q < PAGES
  {
    mem[f][q / 1024] % 4096 == 7 && (Entry(mem, f, q).Some? ==> Entry(mem, f, q).value % 4096 == 7)
  }

  function TaskWalk(mem: Mem, d: nat, plan: Plan, q: nat): Option<nat>
    requires MemOk(mem) && d < PAGES && q < PAGES
  {
    if Touched(plan, |plan|, q / 1024) then Last(plan, |plan|, q)
    else if q / 1024 < 512 then None
    else Walk(mem, d, q)
  }

  lemma SlotOf(m: Machine, w: Draft, snap: seq<Word>, plan: Plan, i: nat)
    requires Drawn(m, w, snap, plan, |plan|, ENTRIES) && Unmarked(snap) && i < ENTRIES
    ensures m.mem[w.f][i] == Slot(w, snap, i, ENTRIES)
    ensures !Bound(m.mem[w.f][i])
    ensures i in w.tabs ==> m.mem[w.f][i] == CreateEntry(w.tabs[i].1, true, true, true)
    ensures i !in w.tabs ==> m.mem[w.f][i] == Base(snap, w.f, i)
  {
    EntryUnbound(w.f, false);
    if i in w.tabs { EntryUnbound(w.tabs[i].1, true); }
  }

  lemma LeafWalk(plan: Plan, n: nat, q: nat, e: Word)
    requires n <= |plan| && Fits(plan) && e == Leaf(plan, n, q)
    ensures (if Present(e) then Some(FrameOf(e)) else None) == Last(plan, n, q)
  {
  }

  lemma FinalWalk(m: Machine, w: Draft, snap: seq<Word>, plan: Plan, q: nat)
    requires Drawn(m, w, snap, plan, |plan|, ENTRIES) && Keys(w, plan, |plan|) && Unmarked(snap)
    requires m.mem[m.d] == snap && q < LOW_PAGES
    ensures Walk(m.mem, w.f, q) == TaskWalk(m.mem, m.d, plan, q)
  {
    var i := q / 1024;
    SlotOf(m, w, snap, plan, i);
    if i in w.tabs {
      LeafWalk(plan, |plan|, q, m.mem[w.tabs[i].1][q % 1024]);
    }
  }

  /** Where the tables of the new directory come from. */
  lemma TableSource(m: Machine, w: Draft, snap: seq<Word>, plan: Plan, i: nat)
    requires Drawn(m, w, snap, plan, |plan|, ENTRIES) && Unmarked(snap) && m.mem[m.d] == snap
    requires i < SELF && Present(m.mem[w.f][i])
    ensures var t := FrameOf(m.mem[w.f][i]);
            if i in w.tabs then t == w.tabs[i].1
            else 512 <= i && Present(snap[i]) && t == FrameOf(snap[i]) && Structure(snap, m.d, t)
  {
    SlotOf(m, w, snap, plan, i);
  }

  lemma FinalOk(m: Machine, w: Draft, snap: seq<Word>, plan: Plan)
    requires Drawn(m, w, snap, plan, |plan|, ENTRIES) && Unmarked(snap) && m.mem[m.d] == snap
    ensures Ok(m.mem, w.f, m.rs)
  {
    var dir := m.mem[w.f];
    forall i | 0 <= i < SELF && Present(dir[i]) ensures FrameOf(dir[i]) != w.f && F.Used(m.rs, FrameOf(dir[i])) {
      TableSource(m, w, snap, plan, i);
      if i in w.tabs { assert Private(m, w.tabs[i].1); }
    }
    forall i, j | 0 <= i < j < SELF && Present(dir[i]) && Present(dir[j]) ensures FrameOf(dir[i]) != FrameOf(dir[j]) {
      TableSource(m, w, snap, plan, i);
      TableSource(m, w, snap, plan, j);
      if i in w.tabs { assert Private(m, w.tabs[i].1); }
      if j in w.tabs { assert Private(m, w.tabs[j].1); }
    }
  }

  lemma OpenEntry(f: nat)
    requires f < PAGES
    ensures CreateEntry(f, true, true, true) % 4096 == 7
  {
    assert CreateEntry(f, true, true, true) == f * 4096 + 7;
  }

  lemma FinalEntry(m: Machine, w: Draft, snap: seq<Word>, plan: Plan, q: nat)
    requires Drawn(m, w, snap, plan, |plan|, ENTRIES) && Unmarked(snap) && q < LOW_PAGES && q / 1024 in w.tabs
    ensures UserEntry(m.mem, w.f, q)
  {
    var i := q / 1024;
    var t := w.tabs[i].1;
    SlotOf(m, w, snap, plan, i);
    OpenEntry(t);
    var e := m.mem[t][q % 1024];
    assert e == Leaf(plan, |plan|, q);
    LastFits(plan, |plan|, q);
    if Present(e) { OpenEntry(Last(plan, |plan|, q).value); }
  }

  lemma FinalDirectory(m: Machine, w: Draft, snap: seq<Word>, plan: Plan)
    requires Drawn(m, w, snap, plan, |plan|, ENTRIES) && Keys(w, plan, |plan|) && Unmarked(snap) && m.mem[m.d] == snap
    ensures NewDirectory(m.mem, m.rs, m.d, w.f, snap, plan)
  {
    FinalOk(m, w, snap, plan);
    forall i | 0 <= i < ENTRIES
      ensures !Bound(m.mem[w.f][i]) && (!Touched(plan, |plan|, i) ==> m.mem[w.f][i] == Base(snap, w.f, i))
    {
      SlotOf(m, w, snap, plan, i);
    }
    assert SelfMapped(m.mem, w.f) by { SlotOf(m, w, snap, plan, SELF); assert SELF !in w.tabs; }
    forall q | 0 <= q < LOW_PAGES ensures Walk(m.mem, w.f, q) == TaskWalk(m.mem, m.d, plan, q) {
      FinalWalk(m, w, snap, plan, q);
    }
    forall q | 0 <= q < LOW_PAGES && Touched(plan, |plan|, q / 1024) ensures UserEntry(m.mem, w.f, q) {
      FinalEntry(m, w, snap, plan, q);
    }
  }

  // ---------------------------------------------------------------- the start

  /** The first `n` slots as the first two loops of `create_task_directory` leave them. */
  ghost predicate Filled(row: seq<Word>, snap: seq<Word>, n: nat)
    requires |snap| == ENTRIES
  {
    |row| == ENTRIES && n <= ENTRIES && forall k | 0 <= k < n :: row[k] == if k < 512 then 0 else snap[k]
  }

  /** One of their stores. */
  method FillSlot(m: Machine, dir: nat, i: nat, e: Word, ghost m0: Machine, ghost g: nat, ghost snap: seq<Word>)
      returns (m': Machine)
    requires Valid(m) && Private(m, g) && At(m, dir, g) && Step(m0, m, None, Some(g))
    requires |snap| == ENTRIES && i < ENTRIES && Filled(m.mem[g], snap, i) && e == if i < 512 then 0 else snap[i]
    ensures Step(m0, m', None, Some(g)) && Private(m', g) && At(m', dir, g) && Filled(m'.mem[g], snap, i + 1)
  {
    m' := StoreAt(m, dir, i, e, g);
    AtStep(m, m', dir, g, None, Some(g));
    PrivateStep(m, m', g);
    StepTrans(m0, m, m', None, Some(g), None, Some(g), None, Some(g));
  }

  method FillDirectory(m: Machine, dir: nat, frame: nat) returns (m': Machine)
    requires Valid(m) && Private(m, frame) && At(m, dir, frame)
    ensures Step(m, m', None, Some(frame)) && Private(m', frame) && At(m', dir, frame)
    ensures Slots(m'.mem[frame], Draft(dir, frame, map[]), m.mem[m.d], 0)
  {
    ghost var snap := m.mem[m.d];
    m' := m;
    var i := 0;
    while i < 512
      invariant 0 <= i <= 512 && Step(m, m', None, Some(frame)) && Private(m', frame) && At(m', dir, frame)
      invariant Filled(m'.mem[frame], snap, i)
    {
      m' := FillSlot(m', dir, i, 0, m, frame, snap);
      i := i + 1;
    }
    while i < 1024
      invariant 512 <= i <= 1024 && Step(m, m', None, Some(frame)) && Private(m', frame) && At(m', dir, frame)
      invariant Filled(m'.mem[frame], snap, i)
    {
      Loopback(m'.mem, m'.d, i);
      var e := Load(m'.mem, m'.d, LOOPBACK_DIR, i);
      m' := FillSlot(m', dir, i, e, m, frame, snap);
      i := i + 1;
    }
    m' := MapItself(m', dir, frame, m, snap);
  }

  /** The last slot. */
  method MapItself(m: Machine, dir: nat, frame: nat, ghost m0: Machine, ghost snap: seq<Word>) returns (m': Machine)
    requires Valid(m) && Private(m, frame) && At(m, dir, frame) && Step(m0, m, None, Some(frame))
    requires |snap| == ENTRIES && Filled(m.mem[frame], snap, ENTRIES)
    ensures Step(m0, m', None, Some(frame)) && Private(m', frame) && At(m', dir, frame)
    ensures Slots(m'.mem[frame], Draft(dir, frame, map[]), snap, 0)
  {
    m' := StoreAt(m, dir, 1023, CreateEntry(frame, true, true, false), frame);
    AtStep(m, m', dir, frame, None, Some(frame));
    PrivateStep(m, m', frame);
    StepTrans(m0, m, m', None, Some(frame), None, Some(frame), None, Some(frame));
  }

  // ---------------------------------------------------------------- the stack

  /** The kernel stack of the new task: a page and a frame, the words that the entry point and
      the saved registers take up, and the page given back. */
  method MakeStack(m: Machine, image: seq<Word>) returns (ok: bool, frame: nat, m': Machine, ghost v: nat,
      ghost m1: Machine, ghost m2: Machine)
    requires Valid(m) && Frameable(m.rs) && |image| == 6
    ensures ok ==> Acquired(m, m1, v, frame) && Step(m1, m2, None, Some(frame)) && Step(m2, m', Some(v), None)
    ensures ok ==> Walk(m'.mem, m.d, v) == None && v < LOW_PAGES && Frameable(m'.rs)
    ensures ok ==> Private(m', frame) && Imprinted(m'.mem[frame], image, 6)
    ensures !ok ==> m' == m && Exhausted(m)
  {
    var page;
    ok, page, frame, m' := GetPage(m);
    v, m1, m2 := page, m', m';
    if !ok {
      return;
    }
    AcquireStep(m, m1, v, frame);
    AcquiredPrivate(m, m1, v, frame);
    m' := FillStack(m', page, image, frame);
    m2 := m';
    m' := GiveBack(m', page);
    RowStep(m2, m', frame, Some(v), None);
    PrivateStep(m2, m', frame);
    FrameableKept(m1.rs, m2.rs);
    FrameableKept(m2.rs, m'.rs);
  }

  lemma AcquiredPrivate(m: Machine, m': Machine, v: nat, f: nat)
    requires Acquired(m, m', v, f)
    ensures Private(m', f) && At(m', v, f) && f < PAGES
  {
    AcquireStep(m, m', v, f);
  }

  /** The first `n` words of the image are in place. */
  ghost predicate Imprinted(row: seq<Word>, image: seq<Word>, n: nat) {
    |row| == ENTRIES && n <= |image| <= 6 && forall i | 1018 <= i < 1018 + n :: row[i] == image[i - 1018]
  }

  method FillWord(m: Machine, page: nat, image: seq<Word>, k: nat, ghost m0: Machine, ghost g: nat)
      returns (m': Machine)
    requires Valid(m) && Private(m, g) && At(m, page, g) && Step(m0, m, None, Some(g)) && k < |image|
             && Imprinted(m.mem[g], image, k)
    ensures Step(m0, m', None, Some(g)) && Private(m', g) && At(m', page, g) && Imprinted(m'.mem[g], image, k + 1)
  {
    var i := 1018 + k;
    m' := StoreAt(m, page, i, image[k], g);
    AtStep(m, m', page, g, None, Some(g));
    PrivateStep(m, m', g);
    StepTrans(m0, m, m', None, Some(g), None, Some(g), None, Some(g));
  }

  method FillStack(m: Machine, page: nat, image: seq<Word>, ghost g: nat) returns (m': Machine)
    requires Valid(m) && Private(m, g) && At(m, page, g) && |image| == 6
    ensures Step(m, m', None, Some(g)) && At(m', page, g) && Private(m', g) && Imprinted(m'.mem[g], image, 6)
  {
    m' := m;
    var k := 0;
    while k < 6
      invariant 0 <= k <= 6 && Step(m, m', None, Some(g)) && Private(m', g) && At(m', page, g)
      invariant Imprinted(m'.mem[g], image, k)
    {
      m' := FillWord(m', page, image, k, m, g);
      k := k + 1;
    }
  }

  // ---------------------------------------------------------------- before the plan

  /** The new directory in frame `f` is reachable at page `dir`, its slots are filled, and since
      `m0` nothing else happened to the frames in use and to the page map. */
  ghost predicate Prepared(m0: Machine, m: Machine, dir: nat, f: nat)
    requires Valid(m0)
  {
    && Since(m0, m, {dir}, f) && Frameable(m.rs) && Vacant(m0, dir) && !F.Used(m0.rs, f) && f < LOW_PAGES
    && Private(m, f) && At(m, dir, f)
    && Slots(m.mem[f], Draft(dir, f, map[]), m0.mem[m0.d], 0)
  }

  lemma SinceStart(m: Machine, own: nat)
    requires Valid(m)
    ensures Since(m, m, {}, own)
  {
  }

  /** A step elsewhere. */
  lemma DirStep(m: Machine, m': Machine, dir: nat, f: nat, page: Option<nat>, frame: Option<nat>)
    requires Step(m, m', page, frame) && Private(m, f) && At(m, dir, f) && page != Some(dir) && frame != Some(f)
    ensures Private(m', f) && At(m', dir, f) && m'.mem[f] == m.mem[f]
  {
    RowStep(m, m', f, page, frame);
    PrivateStep(m, m', f);
    AtStep(m, m', dir, f, page, frame);
  }

  lemma PreparedStart(m: Machine, m1: Machine, m2: Machine, dir: nat, f: nat)
    requires Acquired(m, m1, dir, f) && Step(m1, m2, None, Some(f)) && f < LOW_PAGES && Frameable(m2.rs)
    requires Private(m2, f) && At(m2, dir, f) && Slots(m2.mem[f], Draft(dir, f, map[]), m.mem[m.d], 0)
    ensures Prepared(m, m2, dir, f)
  {
    SinceStart(m, f);
    SinceAcquire(m, m, m1, {}, {dir}, f, dir, f);
    SinceStep(m, m1, m2, {dir}, {dir}, f, None, Some(f));
  }

  /** The page and the frame of the new directory, and its slots. */
  method PrepareDirectory(m: Machine) returns (ok: bool, dir: nat, f: nat, m': Machine)
    requires Valid(m) && Frameable(m.rs)
    ensures ok ==> Prepared(m, m', dir, f)
    ensures !ok ==> m' == m && Exhausted(m)
  {
    var m1;
    ok, dir, f, m1 := GetPage(m);
    if !ok {
      return false, 0, 0, m;
    }
    AcquiredPrivate(m, m1, dir, f);
    m' := FillDirectory(m1, dir, f);
    FrameableKept(m1.rs, m'.rs);
    PreparedStart(m, m1, m', dir, f);
  }

  lemma AcquireApart(m: Machine, m1: Machine, dir: nat, f: nat, v: nat, g: nat)
    requires Valid(m) && Private(m, f) && At(m, dir, f) && Acquired(m, m1, v, g)
    ensures v != dir && g != f && Private(m1, f) && At(m1, dir, f) && m1.mem[f] == m.mem[f]
  {
    AcquireStep(m, m1, v, g);
    DirStep(m, m1, dir, f, Some(v), None);
  }

  lemma SinceStack(m0: Machine, m: Machine, m1: Machine, m2: Machine, m3: Machine, dir: nat, own: nat, v: nat, g: nat)
    requires Since(m0, m, {dir}, own) && Acquired(m, m1, v, g) && v != dir
    requires Step(m1, m2, None, Some(g)) && Step(m2, m3, Some(v), None) && Walk(m3.mem, m.d, v) == None
    ensures Since(m0, m3, {dir}, own) && !F.Used(m0.rs, g)
  {
    var held := {dir, v};
    SinceAcquire(m0, m, m1, {dir}, held, own, v, g);
    SinceStep(m0, m1, m2, held, held, own, None, Some(g));
    SinceStep(m0, m2, m3, held, held, own, Some(v), None);
    SinceReleaseTo(m0, m3, held, {dir}, own, v);
  }

  lemma PreparedStack(m0: Machine, m: Machine, m1: Machine, m2: Machine, m3: Machine, dir: nat, f: nat, v: nat, g: nat)
    requires Valid(m0) && Prepared(m0, m, dir, f) && Acquired(m, m1, v, g) && Frameable(m3.rs)
    requires Step(m1, m2, None, Some(g)) && Step(m2, m3, Some(v), None) && Walk(m3.mem, m.d, v) == None
    ensures Prepared(m0, m3, dir, f) && !F.Used(m0.rs, g) && g != f
  {
    AcquireApart(m, m1, dir, f, v, g);
    DirStep(m1, m2, dir, f, None, Some(g));
    DirStep(m2, m3, dir, f, Some(v), None);
    SinceStack(m0, m, m1, m2, m3, dir, f, v, g);
  }

  /** A frame that was free at the start and is in use now. */
  ghost predicate Given(m0: Machine, m: Machine, g: nat)
    requires Valid(m)
  {
    !F.Used(m0.rs, g) && Private(m, g)
  }

  method PrepareStack(m: Machine, image: seq<Word>, ghost m0: Machine, ghost dir: nat, ghost f: nat)
    returns (ok: bool, stack: nat, m': Machine)
    requires Valid(m0) && Prepared(m0, m, dir, f) && |image| == 6
    ensures ok ==> Prepared(m0, m', dir, f) && Given(m0, m', stack) && stack != f && Imprinted(m'.mem[stack], image, 6)
    ensures !ok ==> Exhausted(m')
  {
    ghost var v, m1, m2;
    ok, stack, m', v, m1, m2 := MakeStack(m, image);
    if ok {
      PreparedStack(m0, m, m1, m2, m', dir, f, v, stack);
    }
  }

  lemma AllocStep(m: Machine, g: nat, rs: seq<F.Region>)
    requires Valid(m) && g < PAGES && !F.Used(m.rs, g) && F.Valid(rs) && F.Changes(m.rs, rs, g, true)
             && F.SameAreas(m.rs, rs)
    ensures Step(m, m.(rs := rs), None, None) && Private(m.(rs := rs), g)
  {
    OwnedKept(m.mem[m.d], m.d, m.rs, rs, g);
  }

  /** `kpage_alloc`. */
  method GetFrame(m: Machine) returns (ok: bool, g: nat, m': Machine)
    requires Valid(m) && Frameable(m.rs)
    ensures ok ==> Step(m, m', None, None) && Private(m', g) && !F.Used(m.rs, g) && Frameable(m'.rs)
    ensures !ok ==> m' == m && Exhausted(m)
  {
    F.AllocFresh(m.rs);
    F.AllocFails(m.rs);
    F.AllocSameAreas(m.rs);
    var (f, rs) := F.Alloc(m.rs);
    if f.None? {
      return false, 0, m;
    }
    AllocStep(m, f.value, rs);
    FrameableKept(m.rs, rs);
    return true, f.value, m.(rs := rs);
  }

  lemma PreparedStep(m0: Machine, m: Machine, m': Machine, dir: nat, f: nat)
    requires Valid(m0) && Prepared(m0, m, dir, f) && Step(m, m', None, None) && Frameable(m'.rs)
    ensures Prepared(m0, m', dir, f)
  {
    DirStep(m, m', dir, f, None, None);
    SinceStep(m0, m, m', {dir}, {dir}, f, None, None);
  }

  // ---------------------------------------------------------------- create_task_directory

  /** `TASK_STACK_BASE` and `USER_STACK_BASE` lie in these pages. */
  const TASK_STACK_PAGE := 0xF_F8FF
  const USER_STACK_PAGE := 0x1FF

  /** The pages of the new task in the order they are entered. */
  function TaskPlan(user: bool, userStack: nat, stack: nat, scrolls: Plan): Plan {
    (if user then [(USER_STACK_PAGE, userStack)] else []) + [(TASK_STACK_PAGE, stack)] + scrolls
  }

  lemma PlanFits(user: bool, userStack: nat, stack: nat, scrolls: Plan)
    requires Fits(scrolls) && stack < PAGES && (user ==> userStack < PAGES)
    ensures Fits(TaskPlan(user, userStack, stack, scrolls))
  {
  }

  lemma DrawingStart(m0: Machine, m: Machine, dir: nat, f: nat, plan: Plan, w: Draft)
    requires Valid(m0) && Prepared(m0, m, dir, f) && Fits(plan) && w == Draft(dir, f, map[])
    ensures Drawing(m, m, w, plan, 0) && Keys(w, plan, 0)
  {
    SinceStart(m, f);
    assert Held(w, 0) == {};
  }

  /** The loop of `create_task_directory`. */
  method DrawPlan(m: Machine, dir: nat, plan: Plan, ghost m0: Machine, ghost w: Draft)
      returns (ok: bool, m': Machine, ghost w': Draft)
    requires DrawnSoFar(m0, m, dir, w.f, w, plan, 0) && Unmarked(m0.mem[m0.d])
    ensures Progress(ok, m0, m', dir, w.f, w', plan, |plan|)
  {
    ok, m', w' := true, m, w;
    var n := 0;
    while n < |plan| && ok
      invariant 0 <= n <= |plan|
      invariant Progress(ok, m0, m', dir, w.f, w', plan, n)
    {
      ok, m', w' := DrawNext(m', dir, plan, n, m0, w', w.f);
      n := n + 1;
    }
    if ok {
      assert n == |plan|;
    }
  }

  /** The draft has come to page `n` of the plan, or the machine has halted. */
  ghost predicate Progress(ok: bool, m0: Machine, m: Machine, dir: nat, f: nat, w: Draft, plan: Plan, n: nat) {
    if ok then DrawnSoFar(m0, m, dir, f, w, plan, n) else Exhausted(m)
  }

  method DrawNext(m: Machine, dir: nat, plan: Plan, n: nat, ghost m0: Machine, ghost w: Draft, ghost f: nat)
    returns (ok: bool, m': Machine, ghost w': Draft)
    requires Progress(true, m0, m, dir, f, w, plan, n) && Unmarked(m0.mem[m0.d]) && n < |plan|
    ensures Progress(ok, m0, m', dir, f, w', plan, n + 1)
  {
    var (page, frame) := plan[n];
    ok, m', w' := DrawPage(m, dir, page, frame, m0, w, plan, n);
  }

  ghost predicate DrawnSoFar(m0: Machine, m: Machine, dir: nat, f: nat, w: Draft, plan: Plan, n: nat) {
    Drawing(m0, m, w, plan, n) && Keys(w, plan, n) && w.v == dir && w.f == f
  }

  /** The loop of `bind_manuscript`. */
  method BindAll(m: Machine, dir: nat, ghost m0: Machine, ghost w: Draft, ghost plan: Plan) returns (m': Machine)
    requires Binding(m0, m, w, plan, 0) && Unmarked(m0.mem[m0.d]) && dir == w.v
    ensures Binding(m0, m', w, plan, ENTRIES)
  {
    m' := m;
    var i := 0;
    while i < 1024
      invariant 0 <= i <= 1024 && Binding(m0, m', w, plan, i)
    {
      m' := BindSlot(m', dir, i, m0, w, plan);
      i := i + 1;
    }
  }

  /** The end of `bind_manuscript` and `scroll_unmap`, which unmaps the page that has the
      number of the directory's frame. */
  method Release(m: Machine, dir: nat, f: nat) returns (m': Machine, ghost mid: Machine)
    requires Valid(m) && InHeap(m, dir) && dir < LOW_PAGES && f < LOW_PAGES
    ensures Step(m, mid, Some(dir), None) && Walk(mid.mem, m.d, dir) == None
    ensures Step(mid, m', Some(f), None) && Walk(m'.mem, m.d, f) == None
  {
    var m1 := UnmapAt(m, dir);
    var m2 := FreeAt(m1, dir);
    var m3 := FreeAt(m2, dir);
    StepTrans(m, m1, m2, Some(dir), None, None, None, Some(dir), None);
    StepTrans(m, m2, m3, Some(dir), None, None, None, Some(dir), None);
    mid := m3;
    m' := UnmapAt(m3, f);
  }

  /** What is left of the active directory and of memory: page `f` is not mapped any more, every
      other page is mapped as before, and frames in use are as before. */
  ghost predicate Settled(m0: Machine, m: Machine, f: nat) {
    && Edits(m0, m)
    && (forall q | 0 <= q < LOW_PAGES :: Walk(m.mem, m0.d, q) == if q == f then None else Walk(m0.mem, m0.d, q))
    && (forall g | 0 <= g < PAGES && F.Used(m0.rs, g) && !Structure(m0.mem[m0.d], m0.d, g) :: m.mem[g] == m0.mem[g])
  }

  lemma SinceTrans(m0: Machine, ms: Machine, m: Machine, held: set<nat>, own: nat)
    requires Since(m0, ms, held, own) && Since(ms, m, {}, own)
    ensures Since(m0, m, held, own)
  {
    forall g | 0 <= g < PAGES && g != own && F.Used(m0.rs, g) && !Structure(m0.mem[m0.d], m0.d, g)
      ensures m.mem[g] == m0.mem[g]
    {
      assert ms.mem[g] == m0.mem[g];
    }
  }

  lemma SettledStep(m0: Machine, m: Machine, m': Machine, f: nat)
    requires Since(m0, m, {}, f) && !F.Used(m0.rs, f) && Step(m, m', Some(f), None) && f < LOW_PAGES
             && Walk(m'.mem, m.d, f) == None
    ensures Settled(m0, m', f)
  {
  }

  lemma SettledAfter(m0: Machine, ms: Machine, m: Machine, mid: Machine, m': Machine, dir: nat, f: nat)
    requires Valid(m0) && Prepared(m0, ms, dir, f) && Since(ms, m, {}, f)
    requires Step(m, mid, Some(dir), None) && Walk(mid.mem, m.d, dir) == None
    requires Step(mid, m', Some(f), None) && Walk(m'.mem, m.d, f) == None
    ensures Settled(m0, m', f)
  {
    SinceTrans(m0, ms, m, {dir}, f);
    SinceStep(m0, m, mid, {dir}, {dir}, f, Some(dir), None);
    SinceReleaseTo(m0, mid, {dir}, {}, f, dir);
    SettledStep(m0, mid, m', f);
  }

  lemma DrawnEnd(m: Machine, mid: Machine, m': Machine, w: Draft, snap: seq<Word>, plan: Plan, dir: nat, f: nat)
    requires Drawn(m, w, snap, plan, |plan|, ENTRIES) && Step(m, mid, Some(dir), None) && Step(mid, m', Some(f), None)
    ensures Drawn(m', w, snap, plan, |plan|, ENTRIES)
  {
    DrawnStep(m, mid, w, snap, plan, |plan|, ENTRIES, Some(dir), None);
    DrawnStep(mid, m', w, snap, plan, |plan|, ENTRIES, Some(f), None);
  }

  lemma BindingStart(m0: Machine, m: Machine, w: Draft, plan: Plan)
    requires Drawing(m0, m, w, plan, |plan|)
    ensures Binding(m0, m, w, plan, 0)
  {
  }

  lemma BindingEnd(m0: Machine, m: Machine, w: Draft, plan: Plan)
    requires Binding(m0, m, w, plan, ENTRIES)
    ensures Since(m0, m, {}, w.f) && Drawn(m, w, m0.mem[m0.d], plan, |plan|, ENTRIES) && At(m, w.v, w.f)
  {
    assert Held(w, ENTRIES) == {};
  }

  /** A frame in use keeps its contents to the end. */
  lemma RowKept(ms: Machine, m: Machine, mid: Machine, m': Machine, g: nat, dir: nat, f: nat)
    requires Valid(ms) && Private(ms, g) && g != f && Since(ms, m, {}, f)
    requires Step(m, mid, Some(dir), None) && Step(mid, m', Some(f), None)
    ensures m'.mem[g] == ms.mem[g] && Private(m', g)
  {
    PrivateStep(ms, m, g);
    RowStep(m, mid, g, Some(dir), None);
    PrivateStep(m, mid, g);
    RowStep(mid, m', g, Some(f), None);
    PrivateStep(mid, m', g);
  }

  /** From the prepared state `ms` on: the plan is drawn, bound and released. */
  method Complete(ms: Machine, dir: nat, f: nat, plan: Plan, ghost m0: Machine)
    returns (ok: bool, m': Machine, ghost m: Machine, ghost mid: Machine, ghost w: Draft)
    requires Valid(m0) && Prepared(m0, ms, dir, f) && Fits(plan) && Unmarked(ms.mem[ms.d])
    ensures !ok ==> Exhausted(m')
    ensures ok ==> Completed(ms, m, mid, m', dir, f, w, plan)
  {
    w := Draft(dir, f, map[]);
    DrawingStart(m0, ms, dir, f, plan, w);
    ok, m', w := DrawPlan(ms, dir, plan, ms, w);
    m, mid := m', m';
    if !ok {
      return;
    }
    BindingStart(ms, m', w, plan);
    m' := BindAll(m', dir, ms, w, plan);
    BindingEnd(ms, m', w, plan);
    m := m';
    m', mid := Release(m', dir, f);
    DrawnEnd(m, mid, m', w, ms.mem[ms.d], plan, dir, f);
  }

  ghost predicate Completed(ms: Machine, m: Machine, mid: Machine, m': Machine, dir: nat, f: nat, w: Draft,
      plan: Plan) {
    && Since(ms, m, {}, f) && dir < LOW_PAGES && f < LOW_PAGES
    && Step(m, mid, Some(dir), None) && Walk(mid.mem, m.d, dir) == None
    && Step(mid, m', Some(f), None) && Walk(m'.mem, m.d, f) == None
    && Drawn(m', w, ms.mem[ms.d], plan, |plan|, ENTRIES) && Keys(w, plan, |plan|) && w.f == f
  }

  /** What `create_task_directory` gives its caller: frame `f` holds the new directory for the
      listed pages, the stack is filled in, and nothing else has changed. */
  ghost predicate Created(m0: Machine, m: Machine, f: nat, user: bool, userStack: nat, stack: nat, image: seq<Word>,
      scrolls: Plan) {
    && Settled(m0, m, f) && Given(m0, m, f)
    && Given(m0, m, stack) && stack != f && Imprinted(m.mem[stack], image, 6)
    && (user ==> Given(m0, m, userStack) && userStack != f && userStack != stack)
    && NewDirectory(m.mem, m.rs, m.d, f, m0.mem[m0.d], TaskPlan(user, userStack, stack, scrolls))
    && TaskMapped(m.mem, f, m0.mem[m0.d], user, userStack, stack, scrolls)
  }

  /** None of the scrolls lists page `q`. */
  ghost predicate Unlisted(scrolls: Plan, q: nat) {
    forall k | 0 <= k < |scrolls| :: scrolls[k].0 != q
  }

  /** Page `q` is mapped to `frame`, for user code too. */
  ghost predicate Opens(mem: Mem, f: nat, q: nat, frame: nat)
    requires MemOk(mem) && f < PAGES && q < PAGES
  {
    Walk(mem, f, q) == Some(frame) && Entry(mem, f, q) == Some(frame * 4096 + 7) && mem[f][q / 1024] % 4096 == 7
  }

  /** The new address space, page by page.  The last scroll that lists a page decides it.  Page
      0xFF8FF goes to the kernel stack and page 0x1FF to the user stack of a user task, unless a
      scroll lists them; the rest of the lower half is absent.  Upper slots without a listed page
      are those of the active directory, and slot 1023 is the directory, closed to user code. */
  ghost predicate TaskMapped(mem: Mem, f: nat, snap: seq<Word>, user: bool, userStack: nat, stack: nat, scrolls: Plan)
    requires MemOk(mem) && f < PAGES && |snap| == 1024
  {
    && Fits(scrolls)
    && (forall k | 0 <= k < |scrolls| && (forall j | k < j < |scrolls| :: scrolls[j].0 != scrolls[k].0) ::
          Opens(mem, f, scrolls[k].0, scrolls[k].1))
    && (Unlisted(scrolls, 0xF_F8FF) ==> Opens(mem, f, 0xF_F8FF, stack))
    && (Unlisted(scrolls, 0x1FF) && user ==> Opens(mem, f, 0x1FF, userStack))
    && (forall q | 0 <= q < 0x8_0000 && Unlisted(scrolls, q) && !(user && q == 0x1FF) :: Walk(mem, f, q) == None)
    && (forall i | 512 <= i < 1022 && (forall k | 0 <= k < |scrolls| :: scrolls[k].0 / 1024 != i) ::
        mem[f][i] == snap[i])
    && mem[f][1023] == f * 4096 + 3
  }

  lemma CreatedFacts(m0: Machine, ms: Machine, m: Machine, mid: Machine, m': Machine, dir: nat, f: nat, w: Draft,
      plan: Plan)
    requires Valid(m0) && Prepared(m0, ms, dir, f) && Completed(ms, m, mid, m', dir, f, w, plan)
             && Unmarked(m0.mem[m0.d])
    ensures Settled(m0, m', f) && Given(m0, m', f) && NewDirectory(m'.mem, m'.rs, m'.d, f, m0.mem[m0.d], plan)
  {
    SettledAfter(m0, ms, m, mid, m', dir, f);
    FinalDirectory(m', w, m0.mem[m0.d], plan);
  }

  method CreateTaskDirectory(m: Machine, user: bool, image: seq<Word>, scrolls: Plan)
    returns (r: Option<nat>, m': Machine, ghost userStack: nat, ghost stack: nat)
    requires Valid(m) && Frameable(m.rs) && Unmarked(m.mem[m.d]) && |image| == 6 && Fits(scrolls)
    ensures r.None? ==> Exhausted(m')
    ensures r.Some? ==> Created(m, m', r.value, user, userStack, stack, image, scrolls)
  {
    userStack, stack := 0, 0;
    var ok, dir, f, m1 := PrepareDirectory(m);
    if !ok {
      return None, m1, 0, 0;
    }
    var s, m2;
    ok, s, m2 := PrepareStack(m1, image, m, dir, f);
    stack := s;
    if !ok {
      return None, m2, 0, 0;
    }
    var u, ms := 0, m2;
    if user {
      ok, u, ms := GetFrame(m2);
      if !ok {
        return None, ms, 0, 0;
      }
      PreparedUser(m, m2, ms, dir, f, s, u);
    }
    userStack := u;
    PlanFits(user, u, s, scrolls);
    var plan := TaskPlan(user, u, s, scrolls);
    ghost var m3, mid, w;
    ok, m', m3, mid, w := Complete(ms, dir, f, plan, m);
    if !ok {
      return None, m', 0, 0;
    }
    CreatedAll(m, ms, m3, mid, m', dir, f, w, plan, user, u, s, image, scrolls);
    r := Some(f);
  }

  lemma CreatedAll(m: Machine, ms: Machine, m3: Machine, mid: Machine, m': Machine, dir: nat, f: nat, w: Draft,
      plan: Plan,
      user: bool, u: nat, s: nat, image: seq<Word>, scrolls: Plan)
    requires Valid(m) && Prepared(m, ms, dir, f) && Completed(ms, m3, mid, m', dir, f, w, plan) && Unmarked(m.mem[m.d])
    requires plan == TaskPlan(user, u, s, scrolls) && Fits(plan) && Fits(scrolls)
    requires Given(m, ms, s) && s != f && Imprinted(ms.mem[s], image, 6)
    requires user ==> Given(m, ms, u) && u != f && u != s
    ensures Created(m, m', f, user, u, s, image, scrolls)
  {
    CreatedFacts(m, ms, m3, mid, m', dir, f, w, plan);
    TaskMappedFacts(m'.mem, m'.rs, m'.d, f, m.mem[m.d], user, u, s, scrolls, plan);
    RowKept(ms, m3, mid, m', s, dir, f);
    if user {
      RowKept(ms, m3, mid, m', u, dir, f);
    }
  }

  lemma PreparedUser(m0: Machine, m: Machine, ms: Machine, dir: nat, f: nat, stack: nat, u: nat)
    requires Valid(m0) && Prepared(m0, m, dir, f) && Given(m0, m, stack) && stack != f
    requires Step(m, ms, None, None) && Private(ms, u) && !F.Used(m.rs, u) && Frameable(ms.rs)
    ensures Prepared(m0, ms, dir, f) && Given(m0, ms, stack) && ms.mem[stack] == m.mem[stack]
    ensures Given(m0, ms, u) && u != f && u != stack
  {
    PreparedStep(m0, m, ms, dir, f);
    PrivateStep(m, ms, stack);
    RowStep(m, ms, stack, None, None);
  }

  // ---------------------------------------------------------------- what that means

  lemma {:induction false} LastWins(plan: Plan, n: nat, k: nat)
    requires k < n <= |plan| && forall j | k < j < n :: plan[j].0 != plan[k].0
    ensures Last(plan, n, plan[k].0) == Some(plan[k].1) && Touched(plan, n, plan[k].0 / 1024)
  {
    if k < n - 1 { LastWins(plan, n - 1, k); }
  }

  lemma {:induction false} LastNone(plan: Plan, n: nat, q: nat)
    requires n <= |plan| && forall j | 0 <= j < n :: plan[j].0 != q
    ensures Last(plan, n, q) == None
  {
    if n > 0 { LastNone(plan, n - 1, q); }
  }

  lemma {:induction false} TouchedIff(plan: Plan, n: nat, i: nat)
    requires n <= |plan|
    ensures Touched(plan, n, i) <==> exists k | 0 <= k < n :: plan[k].0 / 1024 == i
  {
    if n > 0 { TouchedIff(plan, n - 1, i); }
  }

  /** The last entry for a page decides where it goes. */
  lemma PlannedPage(mem: Mem, rs: seq<F.Region>, d: nat, f: nat, snap: seq<Word>, plan: Plan, k: nat)
    requires MemOk(mem) && d < PAGES && f < PAGES && |snap| == ENTRIES && NewDirectory(mem, rs, d, f, snap, plan)
    requires Fits(plan) && k < |plan| && forall j | k < j < |plan| :: plan[j].0 != plan[k].0
    ensures Opens(mem, f, plan[k].0, plan[k].1)
  {
    var q := plan[k].0;
    LastWins(plan, |plan|, k);
    assert Walk(mem, f, q) == TaskWalk(mem, d, plan, q);
    assert UserEntry(mem, f, q);
    EntryWalk(mem, f, q);
  }

  /** Pages of the lower half that are not in the plan are not mapped. */
  lemma UnplannedPage(mem: Mem, rs: seq<F.Region>, d: nat, f: nat, snap: seq<Word>, plan: Plan, q: nat)
    requires MemOk(mem) && d < PAGES && f < PAGES && |snap| == ENTRIES && NewDirectory(mem, rs, d, f, snap, plan)
    requires q < 0x8_0000 && Unlisted(plan, q)
    ensures Walk(mem, f, q) == None
  {
    LastNone(plan, |plan|, q);
    assert Walk(mem, f, q) == TaskWalk(mem, d, plan, q);
  }

  /** Slots of the upper half without a page of the plan are those of the active directory. */
  lemma UnplannedSlot(mem: Mem, rs: seq<F.Region>, d: nat, f: nat, snap: seq<Word>, plan: Plan, i: nat)
    requires MemOk(mem) && d < PAGES && f < PAGES && |snap| == ENTRIES && NewDirectory(mem, rs, d, f, snap, plan)
    requires 512 <= i < ENTRIES && forall k | 0 <= k < |plan| :: plan[k].0 / 1024 != i
    ensures mem[f][i] == if i == 1023 then f * 4096 + 3 else snap[i]
  {
    TouchedIff(plan, |plan|, i);
  }

  /** Where entry `k` of the scrolls stands in the plan. */
  lemma PlanAt(user: bool, userStack: nat, stack: nat, scrolls: Plan, plan: Plan, at: nat)
    requires plan == TaskPlan(user, userStack, stack, scrolls) && at == if user then 2 else 1
    ensures |plan| == at + |scrolls| && forall k | at <= k < |plan| :: plan[k] == scrolls[k - at]
    ensures plan[at - 1] == (0xF_F8FF, stack) && (user ==> plan[0] == (0x1FF, userStack))
  {
  }

  lemma TaskScroll(mem: Mem, rs: seq<F.Region>, d: nat, f: nat, snap: seq<Word>, plan: Plan, scrolls: Plan, at: nat,
      k: nat)
    requires MemOk(mem) && d < PAGES && f < PAGES && |snap| == ENTRIES && NewDirectory(mem, rs, d, f, snap, plan)
    requires Fits(plan) && |plan| == at + |scrolls| && forall k | at <= k < |plan| :: plan[k] == scrolls[k - at]
    requires k < |scrolls| && forall j | k < j < |scrolls| :: scrolls[j].0 != scrolls[k].0
    ensures scrolls[k].0 < PAGES && Opens(mem, f, scrolls[k].0, scrolls[k].1)
  {
    var n := at + k;
    assert plan[n] == scrolls[k];
    forall j | n < j < |plan| ensures plan[j].0 != plan[n].0 { assert plan[j] == scrolls[j - at]; }
    PlannedPage(mem, rs, d, f, snap, plan, n);
  }

  lemma TaskStacks(mem: Mem, rs: seq<F.Region>, d: nat, f: nat, snap: seq<Word>, user: bool, userStack: nat, stack: nat,
      scrolls: Plan, plan: Plan, at: nat)
    requires MemOk(mem) && d < PAGES && f < PAGES && |snap| == ENTRIES && NewDirectory(mem, rs, d, f, snap, plan)
    requires Fits(plan) && plan == TaskPlan(user, userStack, stack, scrolls) && at == if user then 2 else 1
    ensures Unlisted(scrolls, 0xF_F8FF) ==> Opens(mem, f, 0xF_F8FF, stack)
    ensures Unlisted(scrolls, 0x1FF) && user ==> Opens(mem, f, 0x1FF, userStack)
  {
    PlanAt(user, userStack, stack, scrolls, plan, at);
    if Unlisted(scrolls, 0xF_F8FF) {
      forall j | at - 1 < j < |plan| ensures plan[j].0 != 0xF_F8FF { assert plan[j] == scrolls[j - at]; }
      PlannedPage(mem, rs, d, f, snap, plan, at - 1);
    }
    if Unlisted(scrolls, 0x1FF) && user {
      forall j | 0 < j < |plan| ensures plan[j].0 != 0x1FF { if j >= at { assert plan[j] == scrolls[j - at]; } }
      PlannedPage(mem, rs, d, f, snap, plan, 0);
    }
  }

  lemma TaskRest(mem: Mem, rs: seq<F.Region>, d: nat, f: nat, snap: seq<Word>, user: bool, userStack: nat, stack: nat,
      scrolls: Plan, plan: Plan, at: nat)
    requires MemOk(mem) && d < PAGES && f < PAGES && |snap| == ENTRIES && NewDirectory(mem, rs, d, f, snap, plan)
    requires Fits(plan) && plan == TaskPlan(user, userStack, stack, scrolls) && at == if user then 2 else 1
    ensures forall q | 0 <= q < 0x8_0000 && Unlisted(scrolls, q) && !(user && q == 0x1FF) :: Walk(mem, f, q) == None
    ensures forall i | 512 <= i < 1022 && (forall k | 0 <= k < |scrolls| :: scrolls[k].0 / 1024 != i) ::
            mem[f][i] == snap[i]
    ensures mem[f][1023] == f * 4096 + 3
  {
    PlanAt(user, userStack, stack, scrolls, plan, at);
    forall q | 0 <= q < 0x8_0000 && Unlisted(scrolls, q) && !(user && q == 0x1FF) ensures Walk(mem, f, q) == None {
      forall k | 0 <= k < |plan| ensures plan[k].0 != q { if k >= at { assert plan[k] == scrolls[k - at]; } }
      UnplannedPage(mem, rs, d, f, snap, plan, q);
    }
    forall i | 512 <= i < 1022 && (forall k | 0 <= k < |scrolls| :: scrolls[k].0 / 1024 != i)
      ensures mem[f][i] == snap[i]
    {
      forall k | 0 <= k < |plan| ensures plan[k].0 / 1024 != i { if k >= at { assert plan[k] == scrolls[k - at]; } }
      UnplannedSlot(mem, rs, d, f, snap, plan, i);
    }
    UnplannedSlot(mem, rs, d, f, snap, plan, 1023);
  }

  lemma TaskMappedFacts(mem: Mem, rs: seq<F.Region>, d: nat, f: nat, snap: seq<Word>, user: bool, userStack: nat,
      stack: nat, scrolls: Plan, plan: Plan)
    requires MemOk(mem) && d < PAGES && f < PAGES && |snap| == ENTRIES && NewDirectory(mem, rs, d, f, snap, plan)
    requires Fits(plan) && Fits(scrolls) && plan == TaskPlan(user, userStack, stack, scrolls)
    ensures TaskMapped(mem, f, snap, user, userStack, stack, scrolls)
  {
    var at := if user then 2 else 1;
    PlanAt(user, userStack, stack, scrolls, plan, at);
    forall k | 0 <= k < |scrolls| && (forall j | k < j < |scrolls| :: scrolls[j].0 != scrolls[k].0)
      ensures Opens(mem, f, scrolls[k].0, scrolls[k].1)
    {
      TaskScroll(mem, rs, d, f, snap, plan, scrolls, at, k);
    }
    TaskStacks(mem, rs, d, f, snap, user, userStack, stack, scrolls, plan, at);
    TaskRest(mem, rs, d, f, snap, user, userStack, stack, scrolls, plan, at);
  }

  /** What the caller gets, said without the list that the code builds: the kernel stack's page
      leads to the frame that holds the six words of the image, and a user task's page 0x1FF to
      another new frame, unless a scroll lists these pages. */
  lemma StacksMapped(m0: Machine, m: Machine, f: nat, user: bool, userStack: nat, stack: nat, image: seq<Word>,
      scrolls: Plan)
    requires Created(m0, m, f, user, userStack, stack, image, scrolls) && |image| == 6
    ensures Unlisted(scrolls, 0xF_F8FF) ==>
              && Walk(m.mem, f, 0xF_F8FF) == Some(stack) && !F.Used(m0.rs, stack) && F.Used(m.rs, stack)
              && forall i | 1018 <= i < 1024 :: m.mem[stack][i] == image[i - 1018]
    ensures Unlisted(scrolls, 0x1FF) ==>
              if user then
                && Walk(m.mem, f, 0x1FF) == Some(userStack) && userStack != stack
                && !F.Used(m0.rs, userStack) && F.Used(m.rs, userStack)
              else Walk(m.mem, f, 0x1FF) == None
  {
  }
}
