/**
 `syscall_sbrk` of src/kernel/syscall.c with increments that are not negative.
 */
module UserHeap {
  import opened Common
  import opened PageTables
  import opened Paging
  import opened ActivePaging
  import F = FrameAllocator

  // ---------------------------------------------------------------- a list of new pages

  /** Memory and allocator after some pages were added, and the frames they got in order. */
  datatype Grown = Grown(mem: Mem, rs: seq<F.Region>, frames: seq<nat>)

  ghost predicate Sound(g: Option<Grown>) {
    g.Some? ==> MemOk(g.value.mem) && F.Valid(g.value.rs)
  }

  /** One page more: `map_page(page, kpage_alloc())`. */
  function GrowOne(g: Option<Grown>, d: nat, p: nat): (g': Option<Grown>)
    requires Sound(g) && d < PAGES && p < PAGES
    ensures Sound(g')
  {
    if g.None? then None
    else
      F.AllocFresh(g.value.rs);
      match F.Alloc(g.value.rs)
      case (None, _) => None
      case (Some(f), rs) =>
        match MapPage(g.value.mem, d, rs, p, f, true)
        case None => None
        case Some((mem, rs')) => Some(Grown(mem, rs', g.value.frames + [f]))
  }

  predicate Low(pages: seq<nat>) { forall k | 0 <= k < |pages| :: pages[k] < LOW_PAGES }

  predicate Distinct(s: seq<nat>) { forall j, k | 0 <= j < k < |s| :: s[j] != s[k] }

  /** The first `n` of `pages`, each mapped to a frame of its own. */
  function Grow(mem: Mem, d: nat, rs: seq<F.Region>, pages: seq<nat>, n: nat): (g: Option<Grown>)
    requires MemOk(mem) && d < PAGES && F.Valid(rs) && Low(pages) && n <= |pages|
    ensures Sound(g)
  {
    if n == 0 then Some(Grown(mem, rs, []))
    else GrowOne(Grow(mem, d, rs, pages, n - 1), d, pages[n - 1])
  }

  /** The frames given out were free, are in use now, and hold no paging structure. */
  ghost predicate Fresh(rs: seq<F.Region>, d: nat, g: Grown)
    requires MemOk(g.mem) && d < PAGES
  {
    && Distinct(g.frames)
    && forall k | 0 <= k < |g.frames| ::
         g.frames[k] < PAGES && !F.Used(rs, g.frames[k]) && F.Used(g.rs, g.frames[k])
             && !Structure(g.mem[d], d, g.frames[k])
  }

  /** Exactly the first `n` of `pages` got new frames. */
  ghost predicate WalksNew(mem: Mem, d: nat, pages: seq<nat>, n: nat, g: Grown)
    requires MemOk(mem) && MemOk(g.mem) && d < PAGES && Low(pages) && n <= |pages|
  {
    && |g.frames| == n
    && (forall k | 0 <= k < n :: Walk(g.mem, d, pages[k]) == Some(g.frames[k]))
    && (forall q | 0 <= q < LOW_PAGES && q !in pages[..n] :: Walk(g.mem, d, q) == Walk(mem, d, q))
  }

  ghost predicate Added(mem: Mem, d: nat, rs: seq<F.Region>, pages: seq<nat>, n: nat, g: Option<Grown>)
    requires MemOk(mem) && d < PAGES && Low(pages) && n <= |pages|
  {
    g.Some? ==>
      Extends(mem, d, rs, g.value.mem, g.value.rs) && Fresh(rs, d, g.value) && WalksNew(mem, d, pages, n, g.value)
  }

  /** What one more page does. */
  ghost predicate OneMore(g: Grown, d: nat, p: nat, g': Grown)
    requires MemOk(g.mem) && d < PAGES && p < PAGES
  {
    && |g'.frames| == |g.frames| + 1 && g'.frames[..|g.frames|] == g.frames
    && Extends(g.mem, d, g.rs, g'.mem, g'.rs)
    && var f := g'.frames[|g.frames|];
       && f < PAGES && !F.Used(g.rs, f) && F.Used(g'.rs, f) && !Structure(g'.mem[d], d, f)
       && Remaps(g.mem, g'.mem, d, p, Some(f))
  }

  lemma OneMoreFrame(mem: Mem, d: nat, rs: seq<F.Region>, rs1: seq<F.Region>, f: nat)
    requires Ok(mem, d, rs) && f < PAGES && !F.Used(rs, f) && F.Valid(rs1) && F.Changes(rs, rs1, f, true)
    ensures Extends(mem, d, rs, mem, rs1) && F.Used(rs1, f) && !Structure(mem[d], d, f)
  {
  }

  ghost predicate AllOk(d: nat, g: Option<Grown>) {
    g.Some? ==> Ok(g.value.mem, d, g.value.rs)
  }

  ghost predicate MaybeMore(g: Option<Grown>, d: nat, p: nat, g': Option<Grown>)
    requires AllOk(d, g) && d < PAGES && p < PAGES
  {
    g'.Some? ==> g.Some? && OneMore(g.value, d, p, g'.value)
  }

  lemma GrowOneRefines(g: Option<Grown>, d: nat, p: nat)
    requires AllOk(d, g) && d < PAGES && p < LOW_PAGES
    ensures MaybeMore(g, d, p, GrowOne(g, d, p))
  {
    if g.Some? {
      F.AllocFresh(g.value.rs);
      match F.Alloc(g.value.rs)
      case (None, _) =>
      case (Some(f), rs1) =>
        OneMoreFrame(g.value.mem, d, g.value.rs, rs1, f);
        MapPageRefines(g.value.mem, d, rs1, p, f, true);
        GrowMapped(g.value, d, p, f, rs1, MapPage(g.value.mem, d, rs1, p, f, true));
    }
  }

  lemma GrowMapped(g: Grown, d: nat, p: nat, f: nat, rs1: seq<F.Region>, r: Outcome)
    requires Ok(g.mem, d, g.rs) && p < LOW_PAGES && f < PAGES && !F.Used(g.rs, f)
    requires Extends(g.mem, d, g.rs, g.mem, rs1) && F.Used(rs1, f) && !Structure(g.mem[d], d, f)
    requires MapResult(g.mem, d, rs1, p, f, r)
    ensures r.Some? ==> OneMore(g, d, p, Grown(r.value.0, r.value.1, g.frames + [f]))
  {
    if r.Some? {
      ExtendsTrans(g.mem, d, g.rs, g.mem, rs1, r.value.0, r.value.1);
    }
  }

  lemma FreshKept(rs: seq<F.Region>, d: nat, g: Grown, p: nat, g': Grown)
    requires MemOk(g.mem) && d < PAGES && p < PAGES && Fresh(rs, d, g) && OneMore(g, d, p, g')
    requires forall q: nat | F.Used(rs, q) :: F.Used(g.rs, q)
    ensures Fresh(rs, d, g')
  {
    forall k | 0 <= k < |g.frames| ensures g'.frames[k] == g.frames[k] {
      assert g'.frames[..|g.frames|][k] == g.frames[k];
    }
    forall k | 0 <= k < |g.frames|
      ensures F.Used(g'.rs, g.frames[k]) && !Structure(g'.mem[d], d, g.frames[k])
    {
      assert F.Used(g.rs, g.frames[k]);
    }
  }

  lemma WalksKept(mem: Mem, d: nat, pages: seq<nat>, n: nat, g: Grown, g': Grown)
    requires MemOk(mem) && MemOk(g.mem) && d < PAGES && Low(pages) && Distinct(pages) && n < |pages|
    requires WalksNew(mem, d, pages, n, g) && OneMore(g, d, pages[n], g')
    ensures WalksNew(mem, d, pages, n + 1, g')
  {
    forall k | 0 <= k < n ensures Walk(g'.mem, d, pages[k]) == Some(g'.frames[k]) {
      assert g'.frames[..n][k] == g.frames[k];
    }
    forall q | 0 <= q < LOW_PAGES && q !in pages[..n + 1] ensures Walk(g'.mem, d, q) == Walk(mem, d, q) {
      assert pages[..n + 1] == pages[..n] + [pages[n]];
    }
  }

  lemma AddedOk(mem: Mem, d: nat, rs: seq<F.Region>, pages: seq<nat>, n: nat, g: Option<Grown>)
    requires MemOk(mem) && d < PAGES && Low(pages) && n <= |pages| && Added(mem, d, rs, pages, n, g)
    ensures AllOk(d, g)
  {
  }

  lemma AddedStep(mem: Mem, d: nat, rs: seq<F.Region>, pages: seq<nat>, n: nat, g: Option<Grown>, g': Option<Grown>)
    requires MemOk(mem) && d < PAGES && Low(pages) && Distinct(pages) && n < |pages|
    requires Added(mem, d, rs, pages, n, g) && AllOk(d, g) && MaybeMore(g, d, pages[n], g')
    ensures Added(mem, d, rs, pages, n + 1, g')
  {
    if g'.Some? {
      ExtendsTrans(mem, d, rs, g.value.mem, g.value.rs, g'.value.mem, g'.value.rs);
      FreshKept(rs, d, g.value, pages[n], g'.value);
      WalksKept(mem, d, pages, n, g.value, g'.value);
    }
  }

  /** Growing by a list of pages maps exactly those pages, to distinct frames that were free,
      and keeps every other mapping. */
  lemma {:induction false} GrowRefines(mem: Mem, d: nat, rs: seq<F.Region>, pages: seq<nat>, n: nat)
    requires Ok(mem, d, rs) && Low(pages) && Distinct(pages) && n <= |pages|
    ensures Added(mem, d, rs, pages, n, Grow(mem, d, rs, pages, n))
  {
    if n > 0 {
      GrowRefines(mem, d, rs, pages, n - 1);
      AddedOne(mem, d, rs, pages, n - 1, n, pages[n - 1], Grow(mem, d, rs, pages, n - 1));
    }
  }

  lemma AddedOne(mem: Mem, d: nat, rs: seq<F.Region>, pages: seq<nat>, k: nat, n: nat, p: nat, g: Option<Grown>)
    requires MemOk(mem) && d < PAGES && Low(pages) && Distinct(pages) && n == k + 1 <= |pages| && p == pages[k]
    requires Added(mem, d, rs, pages, k, g)
    ensures AllOk(d, g) && Added(mem, d, rs, pages, n, GrowOne(g, d, p))
  {
    AddedOk(mem, d, rs, pages, k, g);
    GrowOneRefines(g, d, p);
    AddedStep(mem, d, rs, pages, k, g, GrowOne(g, d, p));
  }

  // ---------------------------------------------------------------- syscall_sbrk

  /** `map_page` can be used for the next page: see `TableReady`. */
  ghost predicate StepReady(g: Option<Grown>, d: nat, p: nat)
    requires Sound(g) && d < PAGES && p < PAGES
  {
    g.Some? && F.Alloc(g.value.rs).0.Some? ==>
      F.Valid(F.Alloc(g.value.rs).1) && TableReady(g.value.mem, d, F.Alloc(g.value.rs).1, p)
  }

  ghost predicate Ready(mem: Mem, d: nat, rs: seq<F.Region>, pages: seq<nat>)
    requires MemOk(mem) && d < PAGES && F.Valid(rs) && Low(pages)
  {
    forall n | 0 <= n < |pages| :: StepReady(Grow(mem, d, rs, pages, n), d, pages[n])
  }

  /** The page of the last byte below the break. */
  function TopPage(limit: nat): nat
    requires limit >= 1
  {
    (limit - 1) / 4096
  }

  /** The pages past the old break's page, through the new break's page. */
  function NewPages(limit: nat, inc: nat): (pages: seq<nat>)
    requires limit >= 1
    ensures |pages| == TopPage(limit + inc) - TopPage(limit)
    ensures forall k | 0 <= k < |pages| :: pages[k] == TopPage(limit) + 1 + k
    ensures Distinct(pages)
  {
    TopGrows(limit, inc);
    seq(TopPage(limit + inc) - TopPage(limit), k requires 0 <= k => TopPage(limit) + 1 + k)
  }

  /** These are the pages that start in the bytes added: they hold such a byte, and not the last
      byte below the old break. */
  lemma NewPagesAre(limit: nat, inc: nat, q: nat)
    requires limit >= 1
    ensures q in NewPages(limit, inc) <==> limit <= q * 4096 < limit + inc
  {
    StartsIn(limit, inc, q);
    var pages := NewPages(limit, inc);
    if TopPage(limit) < q <= TopPage(limit + inc) { assert pages[q - TopPage(limit) - 1] == q; }
  }

  lemma StartsIn(limit: nat, inc: nat, q: nat)
    requires limit >= 1
    ensures TopPage(limit) < q <= TopPage(limit + inc) <==> limit <= q * 4096 < limit + inc
  {
    Below(limit, q);
    Below(limit + inc, q);
  }

  lemma Below(limit: nat, q: nat)
    requires limit >= 1
    ensures TopPage(limit) < q <==> limit <= q * 4096
  {
  }

  lemma TopGrows(limit: nat, inc: nat)
    requires limit >= 1
    ensures TopPage(limit) <= TopPage(limit + inc)
  {
  }

  /** One round of the loop. */
  method GrowOnce(g: Grown, d: nat, p: nat) returns (g': Option<Grown>)
    requires Ok(g.mem, d, g.rs) && SelfMapped(g.mem, d) && p < LOW_PAGES && StepReady(Some(g), d, p)
    ensures g' == GrowOne(Some(g), d, p)
  {
    F.AllocFresh(g.rs);
    var (f, rs) := F.Alloc(g.rs);
    if f.None? {
      return None;
    }
    OneMoreFrame(g.mem, d, g.rs, rs, f.value);
    var r := MapReady(g.mem, d, rs, p, f.value);
    if r.None? {
      return None;
    }
    return Some(Grown(r.value.0, r.value.1, g.frames + [f.value]));
  }

  lemma {:induction false} GrowStops(mem: Mem, d: nat, rs: seq<F.Region>, pages: seq<nat>, k: nat, n: nat)
    requires MemOk(mem) && d < PAGES && F.Valid(rs) && Low(pages) && k <= n <= |pages|
    requires Grow(mem, d, rs, pages, k).None?
    ensures Grow(mem, d, rs, pages, n).None?
  {
    if k < n {
      GrowStops(mem, d, rs, pages, k, n - 1);
      assert GrowOne(None, d, pages[n - 1]) == None;
    }
  }

  /** In the state `g` there is no frame for page `p`, or only one and that would be needed for
      its table. */
  ghost predicate OutOfFrames(g: Option<Grown>, d: nat, p: nat)
    requires Sound(g) && d < PAGES && p < PAGES
  {
    g.Some? && (F.Full(g.value.rs) || (F.Full(F.Alloc(g.value.rs).1) && !Present(g.value.mem[d][p / 1024])))
  }

  lemma GrowOneFails(g: Option<Grown>, d: nat, p: nat)
    requires AllOk(d, g) && d < PAGES && p < LOW_PAGES
    ensures GrowOne(g, d, p).None? <==> g.None? || OutOfFrames(g, d, p)
  {
    if g.Some? {
      F.AllocFresh(g.value.rs);
      F.AllocFails(g.value.rs);
      F.AllocFails(F.Alloc(g.value.rs).1);
    }
  }

  /** At one of the first `n` pages it runs out of frames. */
  ghost predicate Starved(mem: Mem, d: nat, rs: seq<F.Region>, pages: seq<nat>, n: nat)
    requires MemOk(mem) && d < PAGES && F.Valid(rs) && Low(pages) && n <= |pages|
  {
    n > 0 && (Starved(mem, d, rs, pages, n - 1) || OutOfFrames(Grow(mem, d, rs, pages, n - 1), d, pages[n - 1]))
  }

  /** Growing stops exactly when that is so. */
  lemma {:induction false} GrowFails(mem: Mem, d: nat, rs: seq<F.Region>, pages: seq<nat>, n: nat)
    requires Ok(mem, d, rs) && Low(pages) && Distinct(pages) && n <= |pages|
    ensures Grow(mem, d, rs, pages, n).None? <==> Starved(mem, d, rs, pages, n)
  {
    if n > 0 {
      GrowFails(mem, d, rs, pages, n - 1);
      GrownFails(mem, d, rs, pages, n - 1, pages[n - 1], Grow(mem, d, rs, pages, n - 1));
    }
  }

  lemma GrownFails(mem: Mem, d: nat, rs: seq<F.Region>, pages: seq<nat>, k: nat, p: nat, g: Option<Grown>)
    requires Ok(mem, d, rs) && Low(pages) && Distinct(pages) && k < |pages| && p == pages[k]
    requires g == Grow(mem, d, rs, pages, k)
    ensures GrowOne(g, d, p).None? <==> g.None? || OutOfFrames(g, d, p)
  {
    GrowRefines(mem, d, rs, pages, k);
    AddedOk(mem, d, rs, pages, k, g);
    GrowOneFails(g, d, p);
  }

  lemma GrowNext(mem: Mem, d: nat, rs: seq<F.Region>, pages: seq<nat>, n: nat, p: nat)
    requires MemOk(mem) && d < PAGES && F.Valid(rs) && Low(pages) && n < |pages| && p == pages[n]
    ensures Grow(mem, d, rs, pages, n + 1) == GrowOne(Grow(mem, d, rs, pages, n), d, p)
  {
  }

  lemma GrowOk(mem: Mem, d: nat, rs: seq<F.Region>, pages: seq<nat>, n: nat, g: Option<Grown>)
    requires Ok(mem, d, rs) && SelfMapped(mem, d) && Low(pages) && Distinct(pages) && n <= |pages|
    requires g == Grow(mem, d, rs, pages, n)
    ensures g.Some? ==> Ok(g.value.mem, d, g.value.rs) && SelfMapped(g.value.mem, d)
  {
    GrowRefines(mem, d, rs, pages, n);
  }

  /** Exactly the pages whose first byte is in the range. */
  ghost predicate StartBetween(pages: seq<nat>, from: nat, to: nat) {
    forall q: nat :: q in pages <==> from <= q * 4096 < to
  }

  lemma AllStartBetween(limit: nat, inc: nat, pages: seq<nat>)
    requires 1 <= limit && pages == NewPages(limit, inc)
    ensures StartBetween(pages, limit, limit + inc)
  {
    forall q: nat ensures q in pages <==> limit <= q * 4096 < limit + inc { NewPagesAre(limit, inc, q); }
  }

  /** The first loop of `syscall_sbrk`.  The distance between the two pages falls by one in
      every round. */
  method GrowTo(mem: Mem, d: nat, rs: seq<F.Region>, limit: nat, inc: nat, ghost pages: seq<nat>, ghost total: nat)
      returns (g: Option<Grown>)
    requires Ok(mem, d, rs) && SelfMapped(mem, d) && 1 <= limit && TopPage(limit + inc) < LOW_PAGES
    requires pages == NewPages(limit, inc) && total == |pages| && Ready(mem, d, rs, pages)
    ensures g == Grow(mem, d, rs, pages, total)
    ensures StartBetween(pages, limit, limit + inc)
  {
    g := Some(Grown(mem, rs, []));
    var now := limit;
    ghost var n := 0;
    while TopPage(now) < TopPage(limit + inc) && g.Some?
      invariant now == limit + n * 4096 && TopPage(now) == TopPage(limit) + n && n <= |pages|
      invariant g == Grow(mem, d, rs, pages, n)
      decreases TopPage(limit + inc) - TopPage(now)
    {
      now := now + 4096;
      var page := TopPage(now);
      GrowOk(mem, d, rs, pages, n, g);
      GrowNext(mem, d, rs, pages, n, page);
      g := GrowOnce(g.value, d, page);
      n := n + 1;
    }
    if g.None? {
      GrowStops(mem, d, rs, pages, n, total);
    } else {
      assert n == total;
    }
    AllStartBetween(limit, inc, pages);
  }

  /** A task: memory, frames and the break. */
  datatype Task = Task(mem: Mem, rs: seq<F.Region>, limit: nat)

  ghost predicate Good(t: Task, d: nat) {
    Ok(t.mem, d, t.rs) && SelfMapped(t.mem, d) && t.limit >= 1
  }

  /** `sbrk` by `inc` is within reach: the break stays below the top 4 MB. */
  ghost predicate InReach(t: Task, d: nat, inc: nat)
    requires Good(t, d)
  {
    t.limit + inc <= LOW_PAGES * 4096 && Ready(t.mem, d, t.rs, NewPages(t.limit, inc))
  }

  /** `syscall_sbrk`: the old break and the state afterwards, or nothing when the machine halts,
      which it does exactly when it runs out of frames at one of the new pages. */
  method SyscallSbrk(t: Task, d: nat, inc: nat) returns (r: Option<(nat, Task)>)
    requires Good(t, d) && InReach(t, d, inc)
    ensures r.None? <==> Starved(t.mem, d, t.rs, NewPages(t.limit, inc), |NewPages(t.limit, inc)|)
    ensures r.Some? ==> r.value.0 == t.limit && Sbrk(t, d, inc, r.value.1)
    ensures r.Some? && Walk(t.mem, d, (t.limit - 1) / 4096).Some? ==>
            BytesMapped(r.value.1.mem, d, t.limit, t.limit + inc)
  {
    var prevLimit := t.limit;
    ghost var pages := NewPages(t.limit, inc);
    var g := GrowTo(t.mem, d, t.rs, t.limit, inc, pages, |pages|);
    SbrkRefines(t, d, inc, pages, |pages|, g);
    GrowFails(t.mem, d, t.rs, pages, |pages|);
    if g.None? {
      return None;
    }
    var t' := Task(g.value.mem, g.value.rs, prevLimit + inc);
    SbrkBytes(t, d, inc, t');
    return Some((prevLimit, t'));
  }

  /** Exactly the pages past `lo` through `hi` got frames, which are distinct, were free and
      hold no paging structure. */
  ghost predicate Stretched(mem: Mem, d: nat, rs: seq<F.Region>, out: Mem, rs': seq<F.Region>, lo: nat, hi: nat)
    requires MemOk(mem) && d < PAGES && hi < LOW_PAGES
  {
    && Extends(mem, d, rs, out, rs')
    && (forall q | 0 <= q < LOW_PAGES && !(lo < q <= hi) :: Walk(out, d, q) == Walk(mem, d, q))
    && (forall q | lo < q <= hi :: NewFrame(rs, out, d, rs', Walk(out, d, q)))
    && (forall p, q | lo < p < q <= hi :: Walk(out, d, p) != Walk(out, d, q))
  }

  ghost predicate NewFrame(rs: seq<F.Region>, out: Mem, d: nat, rs': seq<F.Region>, w: Option<nat>)
    requires MemOk(out) && d < PAGES
  {
    w.Some? && !F.Used(rs, w.value) && F.Used(rs', w.value) && !Structure(out[d], d, w.value)
  }

  lemma StretchedFacts(mem: Mem, d: nat, rs: seq<F.Region>, pages: seq<nat>, g: Grown, lo: nat, hi: nat)
    requires MemOk(mem) && d < PAGES && Low(pages) && lo <= hi < LOW_PAGES && |pages| == hi - lo
    requires forall k | 0 <= k < |pages| :: pages[k] == lo + 1 + k
    requires Added(mem, d, rs, pages, |pages|, Some(g))
    ensures Stretched(mem, d, rs, g.mem, g.rs, lo, hi)
  {
    assert pages[..|pages|] == pages;
    forall q | lo < q <= hi ensures Walk(g.mem, d, q) == Some(g.frames[q - lo - 1]) {
      assert pages[q - lo - 1] == q;
    }
  }

  /** What `sbrk` does: the break moves, and exactly the pages that start in the bytes added get
      frames, which are distinct, were free and hold no paging structure. */
  ghost predicate Sbrk(t: Task, d: nat, inc: nat, t': Task)
    requires Good(t, d)
  {
    && Good(t', d) && t'.limit == t.limit + inc && t'.limit <= LOW_PAGES * 4096
    && Extends(t.mem, d, t.rs, t'.mem, t'.rs)
    && (forall q | 0 <= q < LOW_PAGES && !(t.limit <= q * 4096 < t'.limit) :: Walk(t'.mem, d, q) == Walk(t.mem, d, q))
    && (forall q | 0 <= q < LOW_PAGES && t.limit <= q * 4096 < t'.limit ::
          NewFrame(t.rs, t'.mem, d, t'.rs, Walk(t'.mem, d, q)))
    && (forall p, q | 0 <= p < q < LOW_PAGES && t.limit <= p * 4096 && q * 4096 < t'.limit ::
          Walk(t'.mem, d, p) != Walk(t'.mem, d, q))
  }

  lemma StretchedSbrk(t: Task, d: nat, t': Task, inc: nat)
    requires Good(t, d) && Good(t', d) && t'.limit == t.limit + inc && t'.limit <= LOW_PAGES * 4096
    requires TopPage(t'.limit) < LOW_PAGES
    requires Stretched(t.mem, d, t.rs, t'.mem, t'.rs, TopPage(t.limit), TopPage(t'.limit))
    ensures Sbrk(t, d, inc, t')
  {
    forall q: nat ensures TopPage(t.limit) < q <= TopPage(t'.limit) <==> t.limit <= q * 4096 < t'.limit {
      StartsIn(t.limit, inc, q);
    }
    forall p, q | 0 <= p < q < LOW_PAGES && t.limit <= p * 4096 && q * 4096 < t'.limit
      ensures Walk(t'.mem, d, p) != Walk(t'.mem, d, q)
    {
      assert p * 4096 < t'.limit && t.limit <= q * 4096;
      StartsIn(t.limit, inc, p);
      StartsIn(t.limit, inc, q);
    }
  }

  lemma SbrkFacts(t: Task, d: nat, t': Task, pages: seq<nat>, g: Grown, lo: nat, hi: nat)
    requires Good(t, d) && t'.mem == g.mem && t'.rs == g.rs && t.limit <= t'.limit
    requires lo == TopPage(t.limit) && hi == TopPage(t'.limit) && lo <= hi < LOW_PAGES
    requires Low(pages) && |pages| == hi - lo && forall k | 0 <= k < |pages| :: pages[k] == lo + 1 + k
    requires Added(t.mem, d, t.rs, pages, |pages|, Some(g)) && t'.limit <= LOW_PAGES * 4096
    ensures Sbrk(t, d, t'.limit - t.limit, t')
  {
    StretchedFacts(t.mem, d, t.rs, pages, g, lo, hi);
    StretchedSbrk(t, d, t', t'.limit - t.limit);
  }

  lemma SbrkRefines(t: Task, d: nat, inc: nat, pages: seq<nat>, n: nat, g: Option<Grown>)
    requires Good(t, d) && t.limit + inc <= LOW_PAGES * 4096 && pages == NewPages(t.limit, inc) && n == |pages|
    requires Low(pages)
    requires g == Grow(t.mem, d, t.rs, pages, n)
    ensures g.Some? ==> Sbrk(t, d, inc, Task(g.value.mem, g.value.rs, t.limit + inc))
  {
    GrowRefines(t.mem, d, t.rs, pages, n);
    if g.Some? {
      Below(t.limit + inc, LOW_PAGES);
      TopGrows(t.limit, inc);
      var t' := Task(g.value.mem, g.value.rs, t.limit + inc);
      SbrkFacts(t, d, t', pages, g.value, TopPage(t.limit), TopPage(t'.limit));
    }
  }

  /** Every byte from `from` up to `to` is mapped. */
  ghost predicate BytesMapped(mem: Mem, d: nat, from: nat, to: nat)
    requires MemOk(mem) && d < PAGES && to <= LOW_PAGES * 4096
  {
    forall b | from <= b < to :: Walk(mem, d, b / 4096).Some?
  }

  /** After `sbrk` every byte added is mapped, provided that the last byte below the old break
      was; bytes that were mapped keep their frames. */
  lemma SbrkBytes(t: Task, d: nat, inc: nat, t': Task)
    requires Good(t, d) && Sbrk(t, d, inc, t')
    ensures Walk(t.mem, d, (t.limit - 1) / 4096).Some? ==> BytesMapped(t'.mem, d, t.limit, t.limit + inc)
    ensures forall b | 0 <= b < t.limit :: Walk(t'.mem, d, b / 4096) == Walk(t.mem, d, b / 4096)
  {
    forall b | 0 <= b < t.limit ensures Walk(t'.mem, d, b / 4096) == Walk(t.mem, d, b / 4096) { PageStart(b); }
    if Walk(t.mem, d, (t.limit - 1) / 4096).Some? {
      forall b | t.limit <= b < t.limit + inc ensures Walk(t'.mem, d, b / 4096).Some? { ByteAdded(t, d, inc, t', b); }
    }
  }

  lemma PageStart(b: nat)
    ensures b / 4096 * 4096 <= b < b / 4096 * 4096 + 4096
  {
  }

  lemma ByteAdded(t: Task, d: nat, inc: nat, t': Task, b: nat)
    requires Good(t, d) && Sbrk(t, d, inc, t') && t.limit <= b < t.limit + inc
    requires b / 4096 * 4096 < t.limit ==> Walk(t.mem, d, (t.limit - 1) / 4096).Some?
    ensures Walk(t'.mem, d, b / 4096).Some?
  {
    var q := b / 4096;
    PageStart(b);
    PageStart(t.limit - 1);
    if t.limit <= q * 4096 {
      assert NewFrame(t.rs, t'.mem, d, t'.rs, Walk(t'.mem, d, q));
    } else {
      assert (t.limit - 1) / 4096 == q;
    }
  }

  /** A run of `sbrk` calls. */
  ghost predicate Run(d: nat, incs: seq<nat>, tasks: seq<Task>) {
    && |tasks| == |incs| + 1
    && (forall k | 0 <= k < |tasks| :: Good(tasks[k], d) && tasks[k].limit <= LOW_PAGES * 4096)
    && (forall k | 0 <= k < |incs| :: Sbrk(tasks[k], d, incs[k], tasks[k + 1]))
  }

  /** Over any run of `sbrk` calls, if every byte of the heap from page `base` up to the break is
      mapped at first, that stays so, and bytes that were mapped keep their frames. */
  lemma {:induction false} RunBacked(d: nat, incs: seq<nat>, tasks: seq<Task>, base: nat, n: nat)
    requires Run(d, incs, tasks) && n < |tasks| && BytesMapped(tasks[0].mem, d, base * 4096, tasks[0].limit)
    ensures tasks[0].limit <= tasks[n].limit && BytesMapped(tasks[n].mem, d, base * 4096, tasks[n].limit)
    ensures forall b | base * 4096 <= b < tasks[0].limit ::
            Walk(tasks[n].mem, d, b / 4096) == Walk(tasks[0].mem, d, b / 4096)
  {
    if n > 0 {
      RunBacked(d, incs, tasks, base, n - 1);
      SbrkBacked(tasks[n - 1], d, incs[n - 1], tasks[n], base);
      SbrkBytes(tasks[n - 1], d, incs[n - 1], tasks[n]);
    }
  }

  lemma SbrkBacked(t: Task, d: nat, inc: nat, t': Task, base: nat)
    requires Good(t, d) && t.limit <= LOW_PAGES * 4096 && Sbrk(t, d, inc, t')
             && BytesMapped(t.mem, d, base * 4096, t.limit)
    ensures BytesMapped(t'.mem, d, base * 4096, t'.limit)
  {
    SbrkBytes(t, d, inc, t');
    forall b | base * 4096 <= b < t'.limit ensures Walk(t'.mem, d, b / 4096).Some? {
      if t.limit <= b {
        BaseBelow(base, b, t.limit);
        ByteAdded(t, d, inc, t', b);
      }
    }
  }

  /** The page of a byte does not start before the page of an earlier one. */
  lemma BaseBelow(base: nat, b: nat, limit: nat)
    requires base * 4096 <= b && 1 <= limit
    ensures base * 4096 <= b / 4096 * 4096
    ensures b / 4096 * 4096 < limit ==> base * 4096 <= limit - 1
  {
    assert base <= b / 4096;
  }

  /** `Ready` holds whenever the tables of all the pages are there. */
  lemma TablesReady(mem: Mem, d: nat, rs: seq<F.Region>, pages: seq<nat>)
    requires Ok(mem, d, rs) && Low(pages) && Distinct(pages)
    requires forall k | 0 <= k < |pages| :: Present(mem[d][pages[k] / 1024])
    ensures Ready(mem, d, rs, pages)
  {
    forall n | 0 <= n < |pages| ensures StepReady(Grow(mem, d, rs, pages, n), d, pages[n]) {
      var g := Grow(mem, d, rs, pages, n);
      GrowRefines(mem, d, rs, pages, n);
      if g.Some? {
        F.AllocFresh(g.value.rs);
      }
    }
  }
}
