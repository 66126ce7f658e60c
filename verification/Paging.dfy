/**
 src/common/paging.c on a machine with physical memory, a page allocator and an active
 directory.  With paging on, every access to a table goes through the walk of the active
 directory, as it does in the kernel: a pointer to a table is the number of a virtual page.
 */
module Paging {
  import opened Common
  import opened PageTables
  import F = FrameAllocator

  /** `LOOPBACK_DIR` and `LOOPBACK_TBL(i)` as page numbers. */
  const LOOPBACK_DIR := 0xF_FFFF

  function LoopbackTable(i: nat): nat { 0xF_FC00 + i }

  /** Slot 1023 of the directory maps the directory. */
  ghost predicate SelfMapped(mem: Mem, d: nat)
    requires MemOk(mem) && d < PAGES
  {
    Present(mem[d][SELF]) && FrameOf(mem[d][SELF]) == d
  }

  /** The recursive mapping: the loopback addresses walk to the directory and to its tables. */
  lemma Loopback(mem: Mem, d: nat, i: nat)
    requires MemOk(mem) && d < PAGES && SelfMapped(mem, d) && i < ENTRIES
    ensures Walk(mem, d, LOOPBACK_DIR) == Some(d)
    ensures Walk(mem, d, LoopbackTable(i)) == if Present(mem[d][i]) then Some(FrameOf(mem[d][i])) else None
  {
    assert LoopbackTable(i) / 1024 == SELF && LoopbackTable(i) % 1024 == i;
    assert LOOPBACK_DIR / 1024 == SELF && LOOPBACK_DIR % 1024 == SELF;
  }

  // ---------------------------------------------------------------- accesses

  /** A load through virtual page `page`; an unmapped page would fault. */
  method Load(mem: Mem, d: nat, page: nat, i: nat) returns (w: Word)
    requires MemOk(mem) && d < PAGES && page < PAGES && i < ENTRIES
    requires Walk(mem, d, page).Some?
    ensures w == mem[Walk(mem, d, page).value][i]
  {
    var frame := Walk(mem, d, page).value;
    w := mem[frame][i];
  }

  method Store(mem: Mem, d: nat, page: nat, i: nat, w: Word) returns (out: Mem)
    requires MemOk(mem) && d < PAGES && page < PAGES && i < ENTRIES
    requires Walk(mem, d, page).Some?
    ensures out == Put(mem, Walk(mem, d, page).value, i, w)
  {
    var frame := Walk(mem, d, page).value;
    out := Put(mem, frame, i, w);
  }

  /** Frame `f` with its first `n` words cleared. */
  ghost predicate Cleared(mem: Mem, out: Mem, f: nat, n: nat)
    requires MemOk(mem) && MemOk(out) && f < PAGES && n <= ENTRIES
  {
    && (forall g | 0 <= g < PAGES && g != f :: out[g] == mem[g])
    && (forall i | 0 <= i < ENTRIES :: out[f][i] == if i < n then 0 else mem[f][i])
  }

  lemma ClearedAll(mem: Mem, out: Mem, f: nat)
    requires MemOk(mem) && MemOk(out) && f < PAGES && Cleared(mem, out, f, ENTRIES)
    ensures out == mem[f := Zeros()]
  {
    assert out[f] == Zeros();
  }

  /** The zeroing loop with paging off. */
  method ZeroFrame(mem: Mem, f: nat) returns (out: Mem)
    requires MemOk(mem) && f < PAGES
    ensures out == mem[f := Zeros()]
  {
    out := mem;
    var i := 0;
    while i < ENTRIES
      invariant 0 <= i <= ENTRIES && MemOk(out) && Cleared(mem, out, f, i)
    {
      out := Put(out, f, i, 0);
      i := i + 1;
    }
    ClearedAll(mem, out, f);
  }

  /** Writing a frame that holds no paging structure changes no mapping. */
  lemma WalkKept(mem: Mem, out: Mem, d: nat, f: nat, p: nat)
    requires MemOk(mem) && MemOk(out) && d < PAGES && f < PAGES && p < LOW_PAGES
    requires !Structure(mem[d], d, f) && forall g | 0 <= g < PAGES && g != f :: out[g] == mem[g]
    ensures Walk(out, d, p) == Walk(mem, d, p)
  {
    var i := p / 1024;
    assert i < SELF;
    if Present(mem[d][i]) { assert FrameOf(mem[d][i]) != f; }
  }

  /** The zeroing loop with paging on: it writes through the virtual page `page`, whatever
      frame `f` that page is mapped to. */
  method ZeroThrough(mem: Mem, d: nat, page: nat, ghost f: nat) returns (out: Mem)
    requires MemOk(mem) && d < PAGES && page < LOW_PAGES
    requires Walk(mem, d, page) == Some(f) && !Structure(mem[d], d, f)
    ensures out == mem[f := Zeros()]
  {
    out := mem;
    var i := 0;
    while i < ENTRIES
      invariant 0 <= i <= ENTRIES && MemOk(out) && Cleared(mem, out, f, i)
    {
      WalkKept(mem, out, d, f, page);
      out := Store(out, d, page, i, 0);
      i := i + 1;
    }
    ClearedAll(mem, out, f);
  }

  // ---------------------------------------------------------------- paging off

  /** `map_page_inactive`: the tables are reached by their physical address. */
  method MapPageInactive(mem: Mem, d: nat, rs: seq<F.Region>, p: nat, frame: nat) returns (r: Outcome)
    requires MemOk(mem) && d < PAGES && p < PAGES && frame < PAGES && F.Valid(rs)
    ensures r == MapPage(mem, d, rs, p, frame, false)
  {
    var i, j := p / 1024, p % 1024;
    var out, out_rs := mem, rs;
    if !Present(mem[d][i]) {
      F.AllocFresh(rs);
      var (f, rs') := F.Alloc(rs);
      if f.None? {
        return None;
      }
      out := ZeroFrame(mem, f.value);
      out := Put(out, d, i, CreateEntry(f.value, true, true, true));
      out_rs := rs';
    }
    var t := FrameOf(out[d][i]);
    var e := out[t][j];
    if Present(e) {
      out := Put(out, t, j, SetAddr(e, frame));
    } else {
      out := Put(out, t, j, CreateEntry(frame, true, true, false));
    }
    return Some((out, out_rs));
  }

  // ---------------------------------------------------------------- lists of pages

  /** One more page, unless the machine has halted. */
  function Then(r: Outcome, d: nat, p: nat, frame: nat, user: bool): (r': Outcome)
    requires d < PAGES && p < PAGES && frame < PAGES
    requires r.Some? ==> MemOk(r.value.0) && F.Valid(r.value.1)
    ensures r'.Some? ==> MemOk(r'.value.0) && F.Valid(r'.value.1)
  {
    if r.None? then None else MapPage(r.value.0, d, r.value.1, p, frame, user)
  }

  /** Pages and the frames they go to. */
  type Plan = seq<(nat, nat)>

  predicate Fits(plan: Plan) {
    forall k | 0 <= k < |plan| :: plan[k].0 < LOW_PAGES && plan[k].1 < PAGES
  }

  /** The first `n` pages of a plan, mapped in order. */
  function MapAll(mem: Mem, d: nat, rs: seq<F.Region>, plan: Plan, n: nat, user: bool): (r: Outcome)
    requires MemOk(mem) && d < PAGES && F.Valid(rs) && Fits(plan) && n <= |plan|
    ensures r.Some? ==> MemOk(r.value.0) && F.Valid(r.value.1)
  {
    if n == 0 then Some((mem, rs))
    else Then(MapAll(mem, d, rs, plan, n - 1, user), d, plan[n - 1].0, plan[n - 1].1, user)
  }

  /** Where the first `n` pairs of a plan send page `q`: the last pair wins. */
  function Last(plan: Plan, n: nat, q: nat): Option<nat>
    requires n <= |plan|
  {
    if n == 0 then None
    else if plan[n - 1].0 == q then Some(plan[n - 1].1)
    else Last(plan, n - 1, q)
  }

  function Or(first: Option<nat>, second: Option<nat>): Option<nat> {
    if first.Some? then first else second
  }

  /** The walk after the first `n` pages of a plan are mapped. */
  ghost predicate Follows(mem: Mem, out: Mem, d: nat, plan: Plan, n: nat)
    requires MemOk(mem) && MemOk(out) && d < PAGES && n <= |plan|
  {
    forall q | 0 <= q < LOW_PAGES :: Walk(out, d, q) == Or(Last(plan, n, q), Walk(mem, d, q))
  }

  ghost predicate PlanMapped(mem: Mem, d: nat, rs: seq<F.Region>, plan: Plan, n: nat, r: Outcome)
    requires MemOk(mem) && d < PAGES && n <= |plan|
  {
    r.Some? ==>
      && Extends(mem, d, rs, r.value.0, r.value.1)
      && Follows(mem, r.value.0, d, plan, n)
      && OnlyTables(rs, r.value.1, r.value.0, d)
  }

  ghost predicate AllOk(d: nat, r: Outcome) {
    r.Some? ==> Ok(r.value.0, d, r.value.1)
  }

  /** From `r` to `r'` page `p` was mapped to `frame`, or there was no frame for its table. */
  ghost predicate ThenMapped(r: Outcome, d: nat, p: nat, frame: nat, r': Outcome)
    requires d < PAGES && p < PAGES && AllOk(d, r)
  {
    if r.None? then r'.None? else MapResult(r.value.0, d, r.value.1, p, frame, r')
  }

  lemma ThenRefines(r: Outcome, d: nat, p: nat, frame: nat, user: bool)
    requires d < PAGES && p < LOW_PAGES && frame < PAGES && AllOk(d, r)
    ensures ThenMapped(r, d, p, frame, Then(r, d, p, frame, user))
  {
    if r.Some? { MapPageRefines(r.value.0, d, r.value.1, p, frame, user); }
  }

  lemma StructureKept(mem: Mem, d: nat, rs: seq<F.Region>, out: Mem, rs': seq<F.Region>)
    requires MemOk(mem) && d < PAGES && Extends(mem, d, rs, out, rs')
    ensures forall g | Structure(mem[d], d, g) :: Structure(out[d], d, g)
  {
  }

  lemma PlanOk(mem: Mem, d: nat, rs: seq<F.Region>, plan: Plan, n: nat, r: Outcome)
    requires MemOk(mem) && d < PAGES && n <= |plan| && PlanMapped(mem, d, rs, plan, n, r)
    ensures AllOk(d, r)
  {
  }

  lemma PlanStep(mem: Mem, d: nat, rs: seq<F.Region>, plan: Plan, n: nat, r: Outcome, r': Outcome)
    requires MemOk(mem) && d < PAGES && Fits(plan) && n < |plan|
    requires PlanMapped(mem, d, rs, plan, n, r) && AllOk(d, r)
    requires ThenMapped(r, d, plan[n].0, plan[n].1, r')
    ensures PlanMapped(mem, d, rs, plan, n + 1, r')
  {
    if r'.Some? {
      ExtendsTrans(mem, d, rs, r.value.0, r.value.1, r'.value.0, r'.value.1);
      StructureKept(r.value.0, d, r.value.1, r'.value.0, r'.value.1);
    }
  }

  /** Mapping the pages of a plan one by one makes the walk the plan's map, the last pair of
      a page winning, and changes nothing else. */
  lemma {:induction false} MapAllRefines(mem: Mem, d: nat, rs: seq<F.Region>, plan: Plan, n: nat, user: bool)
    requires Ok(mem, d, rs) && Fits(plan) && n <= |plan|
    ensures PlanMapped(mem, d, rs, plan, n, MapAll(mem, d, rs, plan, n, user))
  {
    if n > 0 {
      var (page, frame) := plan[n - 1];
      MapAllRefines(mem, d, rs, plan, n - 1, user);
      PlanOne(mem, d, rs, plan, n - 1, n, page, frame, user, MapAll(mem, d, rs, plan, n - 1, user));
    }
  }

  lemma PlanOne(mem: Mem, d: nat, rs: seq<F.Region>, plan: Plan, k: nat, n: nat, page: nat, frame: nat, user: bool,
      r: Outcome)
    requires MemOk(mem) && d < PAGES && Fits(plan) && n == k + 1 <= |plan| && plan[k] == (page, frame)
    requires PlanMapped(mem, d, rs, plan, k, r)
    ensures AllOk(d, r) && PlanMapped(mem, d, rs, plan, n, Then(r, d, page, frame, user))
  {
    PlanOk(mem, d, rs, plan, k, r);
    ThenRefines(r, d, page, frame, user);
    PlanStep(mem, d, rs, plan, k, r, Then(r, d, page, frame, user));
  }

  /** In the state `r`, page `p` has no table and there is no frame for one. */
  ghost predicate Stuck(r: Outcome, d: nat, p: nat)
    requires d < PAGES && p < PAGES
  {
    r.Some? && MemOk(r.value.0) && F.Full(r.value.1) && !Present(r.value.0[d][p / 1024])
  }

  lemma ThenStuck(r: Outcome, d: nat, p: nat, frame: nat, user: bool)
    requires d < PAGES && p < LOW_PAGES && frame < PAGES && AllOk(d, r)
    requires r.Some? && Then(r, d, p, frame, user).None?
    ensures Stuck(r, d, p)
  {
    ThenRefines(r, d, p, frame, user);
  }

  /** The machine halts only where a table is missing and no frame is left for it. */
  lemma {:induction false} MapAllFails(mem: Mem, d: nat, rs: seq<F.Region>, plan: Plan, n: nat, user: bool)
      returns (k: nat)
    requires Ok(mem, d, rs) && Fits(plan) && n <= |plan|
    requires MapAll(mem, d, rs, plan, n, user).None?
    ensures k < n && Stuck(MapAll(mem, d, rs, plan, k, user), d, plan[k].0)
  {
    k := n - 1;
    var r := MapAll(mem, d, rs, plan, k, user);
    if r.None? {
      k := MapAllFails(mem, d, rs, plan, k, user);
    } else {
      MapAllRefines(mem, d, rs, plan, k, user);
      PlanOk(mem, d, rs, plan, k, r);
      ThenStuck(r, d, plan[k].0, plan[k].1, user);
    }
  }

  lemma {:induction false} MapAllStops(mem: Mem, d: nat, rs: seq<F.Region>, plan: Plan, k: nat, n: nat, user: bool)
    requires MemOk(mem) && d < PAGES && F.Valid(rs) && Fits(plan) && k <= n <= |plan|
    requires MapAll(mem, d, rs, plan, k, user).None?
    ensures MapAll(mem, d, rs, plan, n, user).None?
  {
    if k < n { MapAllStops(mem, d, rs, plan, k, n - 1, user); }
  }

  // ---------------------------------------------------------------- init_paging

  /** `struct scroll`: `pages` pages from page `page` on, backed by frames from `frame` on. */
  datatype Scroll = Scroll(page: nat, frame: nat, pages: nat)

  predicate InRange(s: Scroll) {
    s.page + s.pages <= LOW_PAGES && s.frame + s.pages <= PAGES
  }

  predicate AllInRange(scrolls: seq<Scroll>) {
    forall k | 0 <= k < |scrolls| :: InRange(scrolls[k])
  }

  predicate Covers(s: Scroll, q: nat) { s.page <= q < s.page + s.pages }

  /** The page map that the first `n` scrolls ask for: the last one that covers a page wins. */
  function Cover(scrolls: seq<Scroll>, n: nat, q: nat): Option<nat>
    requires n <= |scrolls|
  {
    if n == 0 then None
    else if Covers(scrolls[n - 1], q) then Some(scrolls[n - 1].frame + (q - scrolls[n - 1].page))
    else Cover(scrolls, n - 1, q)
  }

  /** Which frame that is: the one as far into the scroll as the page, for the last scroll that
      covers the page; none exactly if no scroll does. */
  lemma {:induction false} CoverMeans(scrolls: seq<Scroll>, n: nat, q: nat)
    requires n <= |scrolls|
    ensures match Cover(scrolls, n, q)
            case None => forall k | 0 <= k < n :: !(scrolls[k].page <= q < scrolls[k].page + scrolls[k].pages)
            case Some(f) =>
              exists k | 0 <= k < n ::
                && scrolls[k].page <= q < scrolls[k].page + scrolls[k].pages
                && f - scrolls[k].frame == q - scrolls[k].page
                && forall j | k < j < n :: !(scrolls[j].page <= q < scrolls[j].page + scrolls[j].pages)
  {
    if n > 0 && !Covers(scrolls[n - 1], q) { CoverMeans(scrolls, n - 1, q); }
  }

  function ScrollPlan(s: Scroll): (plan: Plan)
    requires InRange(s)
    ensures |plan| == s.pages && Fits(plan)
    ensures forall i | 0 <= i < s.pages :: plan[i] == (s.page + i, s.frame + i)
  {
    seq(s.pages, i requires 0 <= i < s.pages => (s.page + i, s.frame + i))
  }

  /** The pages of the first `n` scrolls in the order `init_paging` maps them. */
  function Pages(scrolls: seq<Scroll>, n: nat): (plan: Plan)
    requires AllInRange(scrolls) && n <= |scrolls|
    ensures Fits(plan)
  {
    if n == 0 then [] else Pages(scrolls, n - 1) + ScrollPlan(scrolls[n - 1])
  }

  lemma {:induction false} LastAppend(a: Plan, b: Plan, both: Plan, n: nat, total: nat, q: nat)
    requires both == a + b && n <= |b| && total == |a| + n
    ensures Last(both, total, q) == Or(Last(b, n, q), Last(a, |a|, q))
  {
    if n > 0 {
      LastAppend(a, b, both, n - 1, total - 1, q);
    } else {
      LastPrefix(a, both, |a|, q);
    }
  }

  lemma {:induction false} LastPrefix(a: Plan, b: Plan, n: nat, q: nat)
    requires n <= |a| && n <= |b| && forall k | 0 <= k < n :: a[k] == b[k]
    ensures Last(a, n, q) == Last(b, n, q)
  {
    if n > 0 { LastPrefix(a, b, n - 1, q); }
  }

  lemma {:induction false} LastOfScroll(s: Scroll, n: nat, q: nat)
    requires InRange(s) && n <= s.pages
    ensures Last(ScrollPlan(s), n, q) == if s.page <= q < s.page + n then Some(s.frame + (q - s.page)) else None
  {
    if n > 0 { LastOfScroll(s, n - 1, q); }
  }

  lemma {:induction false} LastIsCover(scrolls: seq<Scroll>, n: nat, q: nat)
    requires AllInRange(scrolls) && n <= |scrolls|
    ensures Last(Pages(scrolls, n), |Pages(scrolls, n)|, q) == Cover(scrolls, n, q)
  {
    if n > 0 {
      var s := scrolls[n - 1];
      var before, plan, all := Pages(scrolls, n - 1), ScrollPlan(s), Pages(scrolls, n);
      LastIsCover(scrolls, n - 1, q);
      LastAppend(before, plan, all, s.pages, |all|, q);
      LastOfScroll(s, s.pages, q);
    }
  }

  lemma {:induction false} PagesPrefix(scrolls: seq<Scroll>, k: nat, n: nat, i: nat)
    requires AllInRange(scrolls) && k <= n <= |scrolls| && i < |Pages(scrolls, k)|
    ensures i < |Pages(scrolls, n)| && Pages(scrolls, n)[i] == Pages(scrolls, k)[i]
  {
    if k < n { PagesPrefix(scrolls, k, n - 1, i); }
  }

  lemma MapAllStep(mem: Mem, d: nat, rs: seq<F.Region>, plan: Plan, n: nat, page: nat, frame: nat, user: bool)
    requires MemOk(mem) && d < PAGES && F.Valid(rs) && Fits(plan) && n < |plan| && plan[n] == (page, frame)
    ensures MapAll(mem, d, rs, plan, n + 1, user) == Then(MapAll(mem, d, rs, plan, n, user), d, page, frame, user)
  {
  }

  /** The pairs of `plan` from `at` up to `end` are the pages of `s`. */
  ghost predicate Lists(plan: Plan, at: nat, end: nat, s: Scroll) {
    && InRange(s) && end == at + s.pages && end <= |plan|
    && forall k | at <= k < end :: plan[k] == (s.page + (k - at), s.frame + (k - at))
  }

  method MapNextInactive(mem: Mem, d: nat, rs: seq<F.Region>, page: nat, frame: nat,
                         ghost mem0: Mem, ghost rs0: seq<F.Region>, ghost plan: Plan, ghost k: nat)
    returns (r: Outcome)
    requires MemOk(mem) && d < PAGES && F.Valid(rs) && MemOk(mem0) && F.Valid(rs0)
    requires Fits(plan) && k < |plan| && plan[k] == (page, frame)
    requires MapAll(mem0, d, rs0, plan, k, false) == Some((mem, rs))
    ensures r == MapAll(mem0, d, rs0, plan, k + 1, false)
  {
    MapAllStep(mem0, d, rs0, plan, k, page, frame, false);
    r := MapPageInactive(mem, d, rs, page, frame);
  }

  /** `map_page_range_inactive`, carrying on with a plan whose next pairs are the pages of
      `scroll`. */
  method MapPageRangeInactive(mem: Mem, d: nat, rs: seq<F.Region>, scroll: Scroll,
                              ghost mem0: Mem, ghost rs0: seq<F.Region>, ghost plan: Plan, ghost at: nat,
                                  ghost end: nat)
    returns (r: Outcome)
    requires MemOk(mem) && d < PAGES && F.Valid(rs) && MemOk(mem0) && F.Valid(rs0)
    requires Fits(plan) && Lists(plan, at, end, scroll)
    requires MapAll(mem0, d, rs0, plan, at, false) == Some((mem, rs))
    ensures r == MapAll(mem0, d, rs0, plan, end, false)
  {
    r := Some((mem, rs));
    var i := 0;
    ghost var k := at;
    while i < scroll.pages && r.Some?
      invariant 0 <= i <= scroll.pages && k == at + i
      invariant r == MapAll(mem0, d, rs0, plan, k, false)
    {
      r := MapNextInactive(r.value.0, d, r.value.1, scroll.page + i, scroll.frame + i, mem0, rs0, plan, k);
      i, k := i + 1, k + 1;
    }
    if r.None? {
      MapAllStops(mem0, d, rs0, plan, k, end, false);
    } else {
      assert k == end;
    }
  }

  lemma PagesList(scrolls: seq<Scroll>, n: nat)
    requires AllInRange(scrolls) && n < |scrolls|
    ensures var plan := Pages(scrolls, |scrolls|);
            Lists(plan, |Pages(scrolls, n)|, |Pages(scrolls, n + 1)|, scrolls[n])
  {
    var plan := Pages(scrolls, |scrolls|);
    var at, next := |Pages(scrolls, n)|, Pages(scrolls, n + 1);
    forall k | 0 <= k < |next| ensures k < |plan| && plan[k] == next[k] { PagesPrefix(scrolls, n + 1, |scrolls|, k); }
    assert |next| <= |plan| by { PagesGrow(scrolls, n + 1, |scrolls|); }
    assert forall k | at <= k < |next| :: next[k] == ScrollPlan(scrolls[n])[k - at];
  }

  lemma {:induction false} PagesGrow(scrolls: seq<Scroll>, k: nat, n: nat)
    requires AllInRange(scrolls) && k <= n <= |scrolls|
    ensures |Pages(scrolls, k)| <= |Pages(scrolls, n)|
  {
    if k < n { PagesGrow(scrolls, k, n - 1); }
  }

  lemma EmptyDirectory(mem: Mem, d: nat, rs: seq<F.Region>)
    requires MemOk(mem) && d < PAGES && mem[d] == Zeros() && F.Valid(rs) && F.Used(rs, d)
    ensures Ok(mem, d, rs) && forall q | 0 <= q < LOW_PAGES :: Walk(mem, d, q) == None
  {
  }

  lemma EmptyClosed(mem: Mem, d: nat)
    requires MemOk(mem) && d < PAGES && mem[d] == Zeros()
    ensures Closed(mem, d)
  {
  }

  /** Pages that `map_page_inactive` maps are closed to user code. */
  lemma {:induction false} MapAllClosed(mem: Mem, d: nat, rs: seq<F.Region>, plan: Plan, n: nat)
    requires Ok(mem, d, rs) && Closed(mem, d) && Fits(plan) && n <= |plan|
    ensures var r := MapAll(mem, d, rs, plan, n, false); r.Some? ==> Closed(r.value.0, d)
  {
    if n > 0 {
      var r := MapAll(mem, d, rs, plan, n - 1, false);
      MapAllClosed(mem, d, rs, plan, n - 1);
      MapAllRefines(mem, d, rs, plan, n - 1, false);
      if r.Some? {
        ThenClosed(r.value.0, d, r.value.1, plan[n - 1].0, plan[n - 1].1);
      }
    }
  }

  lemma ThenClosed(mem: Mem, d: nat, rs: seq<F.Region>, p: nat, frame: nat)
    requires Ok(mem, d, rs) && Closed(mem, d) && p < LOW_PAGES && frame < PAGES
    ensures var r := MapPage(mem, d, rs, p, frame, false); r.Some? ==> Closed(r.value.0, d)
  {
    MapPageRights(mem, d, rs, p, frame, false);
    var r := MapPage(mem, d, rs, p, frame, false);
    if r.Some? { RightsClosed(mem, r.value.0, d, p, frame); }
  }

  lemma SelfClosed(mem: Mem, d: nat)
    requires MemOk(mem) && d < PAGES && DirOk(mem[d], d) && Closed(mem, d)
    ensures var out := Put(mem, d, SELF, CreateEntry(d, true, true, true));
            Closed(out, d) && out[d][1023] == d * 4096 + 7
  {
    var out := Put(mem, d, SELF, CreateEntry(d, true, true, true));
    assert forall i | 0 <= i < SELF :: out[d][i] == mem[d][i];
    forall q | 0 <= q < LOW_PAGES ensures Entry(out, d, q) == Entry(mem, d, q) {
      assert q / 1024 < SELF;
    }
  }

  /** The walk of `mem` below the top 4 MB is the map of `scrolls`. */
  ghost predicate Implements(mem: Mem, d: nat, scrolls: seq<Scroll>)
    requires MemOk(mem) && d < PAGES
  {
    forall q | 0 <= q < LOW_PAGES :: Walk(mem, d, q) == Cover(scrolls, |scrolls|, q)
  }

  lemma PlanImplements(mem: Mem, out: Mem, d: nat, scrolls: seq<Scroll>)
    requires MemOk(mem) && MemOk(out) && d < PAGES && AllInRange(scrolls)
    requires forall q | 0 <= q < LOW_PAGES :: Walk(mem, d, q) == None
    requires Follows(mem, out, d, Pages(scrolls, |scrolls|), |Pages(scrolls, |scrolls|)|)
    ensures Implements(out, d, scrolls)
  {
    forall q | 0 <= q < LOW_PAGES ensures Walk(out, d, q) == Cover(scrolls, |scrolls|, q) {
      LastIsCover(scrolls, |scrolls|, q);
    }
  }

  lemma SelfEntry(mem: Mem, d: nat, rs: seq<F.Region>, scrolls: seq<Scroll>)
    requires Ok(mem, d, rs) && Implements(mem, d, scrolls)
    ensures var out := Put(mem, d, SELF, CreateEntry(d, true, true, true));
            Ok(out, d, rs) && Implements(out, d, scrolls) && SelfMapped(out, d)
  {
    var out := Put(mem, d, SELF, CreateEntry(d, true, true, true));
    assert forall i | 0 <= i < SELF :: out[d][i] == mem[d][i];
    forall q | 0 <= q < LOW_PAGES ensures Walk(out, d, q) == Walk(mem, d, q) {
      assert q / 1024 < SELF;
    }
  }

  /** The loop of `init_paging` over the scrolls. */
  method MapScrolls(mem: Mem, d: nat, rs: seq<F.Region>, scrolls: seq<Scroll>) returns (r: Outcome)
    requires MemOk(mem) && d < PAGES && F.Valid(rs) && AllInRange(scrolls)
    ensures r == MapAll(mem, d, rs, Pages(scrolls, |scrolls|), |Pages(scrolls, |scrolls|)|, false)
  {
    ghost var plan := Pages(scrolls, |scrolls|);
    r := Some((mem, rs));
    ghost var at := 0;
    var k := 0;
    while k < |scrolls|
      invariant 0 <= k <= |scrolls| && r.Some? && at == |Pages(scrolls, k)| && at <= |plan|
      invariant r == MapAll(mem, d, rs, plan, at, false)
    {
      PagesList(scrolls, k);
      ghost var end := |Pages(scrolls, k + 1)|;
      r := MapPageRangeInactive(r.value.0, d, r.value.1, scrolls[k], mem, rs, plan, at, end);
      k := k + 1;
      at := end;
      if r.None? {
        MapAllStops(mem, d, rs, plan, at, |plan|, false);
        return;
      }
    }
  }

  /** Everything `init_paging` has to achieve. */
  ghost predicate Initialised(rs: seq<F.Region>, scrolls: seq<Scroll>, d: nat, out: Mem, rs': seq<F.Region>) {
    && d < PAGES && !F.Used(rs, d)
    && Ok(out, d, rs')
    && Implements(out, d, scrolls)
    && SelfMapped(out, d)
    && OnlyTables(rs, rs', out, d)
    && Closed(out, d) && out[d][1023] == d * 4096 + 7
  }

  lemma PlanBuilt(mem: Mem, d: nat, rs: seq<F.Region>, plan: Plan, n: nat, out: Mem, rs': seq<F.Region>)
    requires Ok(mem, d, rs) && Fits(plan) && n <= |plan| && MapAll(mem, d, rs, plan, n, false) == Some((out, rs'))
    requires PlanMapped(mem, d, rs, plan, n, MapAll(mem, d, rs, plan, n, false))
    ensures PlanMapped(mem, d, rs, plan, n, Some((out, rs')))
  {
  }

  lemma BuildRefines(mem: Mem, d: nat, rs: seq<F.Region>, rs1: seq<F.Region>, scrolls: seq<Scroll>, out: Mem,
      rs2: seq<F.Region>, plan: Plan, n: nat)
    requires MemOk(mem) && d < PAGES && mem[d] == Zeros() && !F.Used(rs, d) && F.Valid(rs1)
             && F.Changes(rs, rs1, d, true)
    requires AllInRange(scrolls) && plan == Pages(scrolls, |scrolls|) && n == |plan|
    requires MapAll(mem, d, rs1, plan, n, false) == Some((out, rs2))
    ensures Initialised(rs, scrolls, d, Put(out, d, SELF, CreateEntry(d, true, true, true)), rs2)
  {
    EmptyDirectory(mem, d, rs1);
    MapAllRefines(mem, d, rs1, plan, n, false);
    EmptyClosed(mem, d);
    MapAllClosed(mem, d, rs1, plan, n);
    PlanBuilt(mem, d, rs1, plan, n, out, rs2);
    BuildFacts(mem, d, rs, rs1, scrolls, out, rs2);
  }

  lemma BuildFacts(mem: Mem, d: nat, rs: seq<F.Region>, rs1: seq<F.Region>, scrolls: seq<Scroll>, out: Mem,
      rs2: seq<F.Region>)
    requires Ok(mem, d, rs1) && !F.Used(rs, d) && F.Changes(rs, rs1, d, true) && AllInRange(scrolls)
    requires forall q | 0 <= q < LOW_PAGES :: Walk(mem, d, q) == None
    requires PlanMapped(mem, d, rs1, Pages(scrolls, |scrolls|), |Pages(scrolls, |scrolls|)|, Some((out, rs2)))
    requires Closed(out, d)
    ensures Initialised(rs, scrolls, d, Put(out, d, SELF, CreateEntry(d, true, true, true)), rs2)
  {
    PlanImplements(mem, out, d, scrolls);
    SelfEntry(out, d, rs2, scrolls);
    SelfClosed(out, d);
    var self := Put(out, d, SELF, CreateEntry(d, true, true, true));
    forall q: nat | F.Used(rs2, q) && !F.Used(rs, q) ensures Structure(self[d], d, q) {
      if q != d {
        assert Structure(out[d], d, q);
        var i :| 0 <= i < SELF && Present(out[d][i]) && FrameOf(out[d][i]) == q;
        assert self[d][i] == out[d][i];
      }
    }
  }

  /** `init_paging`: the directory's walk is "the last covering scroll wins", the tables are
      pairwise distinct frames that were free and are now in use, no other frame was taken,
      the directory maps itself,
          and every page is closed to user code.  The machine halts exactly when there is no frame for
      the directory or for a table. */
  method InitPaging(mem: Mem, rs: seq<F.Region>, scrolls: seq<Scroll>) returns (r: Option<(nat, Mem, seq<F.Region>)>)
    requires MemOk(mem) && F.Valid(rs) && AllInRange(scrolls)
    ensures r.Some? ==> Initialised(rs, scrolls, r.value.0, r.value.1, r.value.2)
    ensures r.None? <==> Halts(mem, rs, scrolls)
  {
    F.AllocFresh(rs);
    var (f, rs') := F.Alloc(rs);
    if f.None? {
      return None;
    }
    var d := f.value;
    var zeroed := ZeroFrame(mem, d);
    var built := MapScrolls(zeroed, d, rs', scrolls);
    if built.None? {
      return None;
    }
    ghost var plan := Pages(scrolls, |scrolls|);
    BuildRefines(zeroed, d, rs, rs', scrolls, built.value.0, built.value.1, plan, |plan|);
    r := Some((d, Put(built.value.0, d, SELF, CreateEntry(d, true, true, true)), built.value.1));
  }

  /** `init_paging` finds no frame for the directory or for one of the tables. */
  predicate Halts(mem: Mem, rs: seq<F.Region>, scrolls: seq<Scroll>)
    requires MemOk(mem) && F.Valid(rs) && AllInRange(scrolls)
  {
    F.AllocFresh(rs);
    match F.Alloc(rs)
    case (None, _) => true
    case (Some(d), rs') =>
      MapAll(mem[d := Zeros()], d, rs', Pages(scrolls, |scrolls|), |Pages(scrolls, |scrolls|)|, false).None?
  }
}
