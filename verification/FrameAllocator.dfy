/**
 The physical page allocator of src/common/memory.c: one bitmap per free region of memory.
 Regions are page aligned, so pages are counted by number (address / 4096), and a bitmap is
 read as one mark per page; `FrameBitmaps` proves that the code on bytes does the same.
 */
module FrameAllocator {
  import opened Common

  /** A region that starts at page number `first`. */
  datatype Region = Region(first: nat, marks: seq<bool>) {
    function Count(): nat { |marks| }
    function End(): nat { first + |marks| }
  }

  /** The bitmap has `pg_cnt / 8` bytes, so page counts are multiples of 8. */
  ghost predicate Sound(r: Region) {
    r.Count() % 8 == 0 && r.End() < PAGES
  }

  ghost predicate Apart(r: Region, q: Region) {
    r.End() <= q.first || q.End() <= r.first
  }

  ghost predicate Valid(rs: seq<Region>) {
    && (forall i | 0 <= i < |rs| :: Sound(rs[i]))
    && (forall i, j | 0 <= i < j < |rs| :: Apart(rs[i], rs[j]))
  }

  /** Page `p` lies in region `r`. */
  predicate In(r: Region, p: nat) { r.first <= p < r.End() }

  /** Page `p` is managed and marked. */
  predicate Used(rs: seq<Region>, p: nat) {
    exists i | 0 <= i < |rs| :: In(rs[i], p) && rs[i].marks[p - rs[i].first]
  }

  predicate Managed(rs: seq<Region>, p: nat) {
    exists i | 0 <= i < |rs| :: In(rs[i], p)
  }

  // ---------------------------------------------------------------- what the code computes

  /** The last page whose mark is in the same byte as that of page `idx`. */
  function LastOfByte(idx: nat): nat { idx / 8 * 8 + 7 }

  /** The test of `kpage_alloc`: the page and all later pages of its byte are free. */
  predicate Fits(r: Region, idx: nat)
    requires r.Count() % 8 == 0 && idx < r.Count()
  {
    forall k | idx <= k <= LastOfByte(idx) :: !r.marks[k]
  }

  function Mark(r: Region, idx: nat, on: bool): Region
    requires idx < r.Count()
  {
    r.(marks := r.marks[idx := on])
  }

  /** The first index of a region, from `idx` on, that passes the test. */
  function FirstFit(r: Region, idx: nat): (o: Option<nat>)
    requires r.Count() % 8 == 0 && idx <= r.Count()
    ensures o.Some? ==> idx <= o.value < r.Count() && Fits(r, o.value)
    ensures o.Some? ==> forall k | idx <= k < o.value :: !Fits(r, k)
    ensures o.None? ==> forall k | idx <= k < r.Count() :: !Fits(r, k)
    decreases r.Count() - idx
  {
    if idx == r.Count() then None
    else if Fits(r, idx) then Some(idx)
    else FirstFit(r, idx + 1)
  }

  /** The region and index that `kpage_alloc` takes, from region `i` and index `idx` on. */
  function Find(rs: seq<Region>, i: nat, idx: nat): (o: Option<(nat, nat)>)
    requires Valid(rs) && i <= |rs| && (if i < |rs| then idx <= rs[i].Count() else idx == 0)
    ensures o.Some? ==> i <= o.value.0 < |rs| && o.value.1 < rs[o.value.0].Count()
    decreases |rs| - i
  {
    if i == |rs| then None
    else
      match FirstFit(rs[i], idx)
      case Some(k) => Some((i, k))
      case None => Find(rs, i + 1, 0)
  }

  /** `kpage_alloc`: the page handed out and the bitmaps afterwards. */
  function Alloc(rs: seq<Region>): (r: (Option<nat>, seq<Region>))
    requires Valid(rs)
  {
    match Find(rs, 0, 0)
    case None => (None, rs)
    case Some((i, k)) => (Some(rs[i].first + k), rs[i := Mark(rs[i], k, true)])
  }

  /** The mark that bit 0 of the byte behind a bitmap is: `init_memory` puts the bitmaps one
      behind the other, so it is the first mark of the next region that has any.  Behind the
      last bitmap there is none. */
  function Behind(rs: seq<Region>, i: nat): (o: Option<(nat, nat)>)
    requires i <= |rs|
    ensures o.Some? ==> i <= o.value.0 < |rs| && o.value.1 < rs[o.value.0].Count()
    decreases |rs| - i
  {
    if i == |rs| then None else if rs[i].Count() > 0 then Some((i, 0)) else Behind(rs, i + 1)
  }

  /** The region and index whose mark `kpage_set_status` changes.  The test takes the end of a
      region for a part of it, and its mark is then looked for behind the bitmap. */
  function TargetFrom(rs: seq<Region>, i: nat, addr: nat): (o: Option<(nat, nat)>)
    requires i <= |rs|
    ensures o.Some? ==> i <= o.value.0 < |rs| && o.value.1 < rs[o.value.0].Count()
    decreases |rs| - i
  {
    if i == |rs| then None
    else if rs[i].first * PAGE_SIZE <= addr <= rs[i].End() * PAGE_SIZE then
      var idx := (addr - rs[i].first * PAGE_SIZE) / PAGE_SIZE;
      if idx < rs[i].Count() then Some((i, idx)) else Behind(rs, i + 1)
    else TargetFrom(rs, i + 1, addr)
  }

  /** The page whose status `kpage_set_status` changes. */
  function Target(rs: seq<Region>, addr: nat): Option<nat> {
    match TargetFrom(rs, 0, addr)
    case None => None
    case Some((i, k)) => Some(rs[i].first + k)
  }

  /** `kpage_set_status`. */
  function SetStatus(rs: seq<Region>, addr: nat, free: bool): seq<Region> {
    match TargetFrom(rs, 0, addr)
    case None => rs
    case Some((i, k)) => rs[i := Mark(rs[i], k, !free)]
  }

  // ---------------------------------------------------------------- what it means

  /** A page in one region is in no other. */
  lemma OneRegion(rs: seq<Region>, i: nat, j: nat, p: nat)
    requires Valid(rs) && i < |rs| && j < |rs|
    ensures In(rs[i], p) && In(rs[j], p) ==> i == j
  {
    if i < j { assert Apart(rs[i], rs[j]); }
    if j < i { assert Apart(rs[j], rs[i]); }
  }

  lemma UsedInRegion(rs: seq<Region>, i: nat, p: nat)
    requires Valid(rs) && i < |rs| && In(rs[i], p)
    ensures Used(rs, p) <==> rs[i].marks[p - rs[i].first]
  {
    forall j | 0 <= j < |rs| && In(rs[j], p) ensures j == i { OneRegion(rs, i, j, p); }
  }

  /** From `rs` to `out` page `p` got the status `on`, and no other page changed. */
  ghost predicate Changes(rs: seq<Region>, out: seq<Region>, p: nat, on: bool) {
    forall q: nat :: Used(out, q) <==> if q == p then on else Used(rs, q)
  }

  lemma UpdateValid(rs: seq<Region>, i: nat, idx: nat, on: bool)
    requires Valid(rs) && i < |rs| && idx < rs[i].Count()
    ensures Valid(rs[i := Mark(rs[i], idx, on)])
  {
    var out := rs[i := Mark(rs[i], idx, on)];
    forall k, j | 0 <= k < j < |out| ensures Apart(out[k], out[j]) { assert Apart(rs[k], rs[j]); }
  }

  /** Changing one mark of one region changes the status of exactly one page. */
  lemma UpdateUsed(rs: seq<Region>, i: nat, idx: nat, on: bool)
    requires Valid(rs) && i < |rs| && idx < rs[i].Count()
    ensures Changes(rs, rs[i := Mark(rs[i], idx, on)], rs[i].first + idx, on)
  {
    var out := rs[i := Mark(rs[i], idx, on)];
    UpdateValid(rs, i, idx, on);
    forall p: nat ensures Used(out, p) <==> if p == rs[i].first + idx then on else Used(rs, p) {
      if In(rs[i], p) {
        UsedInRegion(rs, i, p);
        UsedInRegion(out, i, p);
      } else {
        UpdateElsewhere(rs, out, i, p);
      }
    }
  }

  lemma UpdateElsewhere(rs: seq<Region>, out: seq<Region>, i: nat, p: nat)
    requires |out| == |rs| && i < |rs|
    requires forall k | 0 <= k < |rs| && k != i :: out[k] == rs[k]
    requires !In(rs[i], p) && !In(out[i], p)
    ensures Used(out, p) <==> Used(rs, p)
  {
  }

  lemma AllocValid(rs: seq<Region>)
    requires Valid(rs)
    ensures Valid(Alloc(rs).1)
  {
    match Find(rs, 0, 0)
    case None =>
    case Some((i, k)) => UpdateValid(rs, i, k, true);
  }

  lemma {:induction false} FindFacts(rs: seq<Region>, i: nat)
    requires Valid(rs) && i <= |rs|
    ensures match Find(rs, i, 0)
            case Some((j, k)) => Fits(rs[j], k)
            case None => forall j, k | i <= j < |rs| && 0 <= k < rs[j].Count() :: !Fits(rs[j], k)
    decreases |rs| - i
  {
    if i < |rs| && FirstFit(rs[i], 0).None? {
      FindFacts(rs, i + 1);
    }
  }

  /** What `kpage_alloc` gives its caller: a page that was not in use, now in use, with every
      other page as before. */
  lemma AllocFresh(rs: seq<Region>)
    requires Valid(rs)
    ensures Valid(Alloc(rs).1)
    ensures match Alloc(rs).0
            case None => Alloc(rs).1 == rs
            case Some(p) =>
              && p < PAGES && Managed(rs, p) && !Used(rs, p)
              && Changes(rs, Alloc(rs).1, p, true)
  {
    FindFacts(rs, 0);
    AllocValid(rs);
    match Find(rs, 0, 0)
    case None =>
    case Some((i, k)) =>
      assert In(rs[i], rs[i].first + k);
      UpdateUsed(rs, i, k, true);
      UsedInRegion(rs, i, rs[i].first + k);
  }

  /** The top bit of every bitmap byte is set. */
  ghost predicate Full(rs: seq<Region>) {
    forall i, k | 0 <= i < |rs| && 0 <= k < rs[i].Count() && k % 8 == 7 :: rs[i].marks[k]
  }

  /** Allocation fails exactly when every bitmap byte has its top bit set, which may be long
      before every page is in use. */
  lemma AllocFails(rs: seq<Region>)
    requires Valid(rs)
    ensures Alloc(rs).0.None? <==> Full(rs)
  {
    FindFacts(rs, 0);
    match Find(rs, 0, 0)
    case Some((i, k)) =>
      assert !rs[i].marks[LastOfByte(k)] && LastOfByte(k) % 8 == 7;
    case None =>
      forall i, k | 0 <= i < |rs| && 0 <= k < rs[i].Count() && k % 8 == 7 ensures rs[i].marks[k] {
        assert LastOfByte(k) == k;
        assert !Fits(rs[i], k);
      }
  }

  /** Free pages can go unused: here allocation fails although seven of eight pages are free,
      because the last page of their byte is taken. */
  lemma FailsEarly()
    ensures var rs := [Region(0, seq(8, k => k == 7))];
            Valid(rs) && Alloc(rs).0.None? && Managed(rs, 0) && !Used(rs, 0)
  {
    var rs := [Region(0, seq(8, k => k == 7))];
    AllocFails(rs);
    assert In(rs[0], 0);
  }

  /** `kpage_set_status` changes the status of its target and of no other page. */
  lemma SetStatusFacts(rs: seq<Region>, addr: nat, free: bool)
    requires Valid(rs)
    ensures Valid(SetStatus(rs, addr, free)) && SameAreas(rs, SetStatus(rs, addr, free))
    ensures match Target(rs, addr)
            case None => SetStatus(rs, addr, free) == rs
            case Some(q) => Managed(rs, q) && Changes(rs, SetStatus(rs, addr, free), q, !free)
  {
    match TargetFrom(rs, 0, addr)
    case None =>
    case Some((i, k)) =>
      assert In(rs[i], rs[i].first + k);
      UpdateValid(rs, i, k, !free);
      UpdateUsed(rs, i, k, !free);
  }

  /** What a caller expects of it: the page of the address gets the status, if it is managed. */
  ghost predicate StatusRight(rs: seq<Region>, addr: nat, free: bool) {
    var out := SetStatus(rs, addr, free);
    if Managed(rs, addr / PAGE_SIZE) then Changes(rs, out, addr / PAGE_SIZE, !free) else out == rs
  }

  /** The target is the page of the address. */
  predicate Aimed(rs: seq<Region>, addr: nat) {
    Target(rs, addr) == if Managed(rs, addr / PAGE_SIZE) then Some(addr / PAGE_SIZE) else None
  }

  /** `kpage_set_status` does what is expected, for both statuses, if and only if its target is
      the page of the address. */
  lemma AimedIff(rs: seq<Region>, addr: nat)
    requires Valid(rs)
    ensures (forall free :: StatusRight(rs, addr, free)) <==> Aimed(rs, addr)
  {
    var p := addr / PAGE_SIZE;
    SetStatusFacts(rs, addr, true);
    SetStatusFacts(rs, addr, false);
    match Target(rs, addr)
    case None =>
      if Managed(rs, p) { assert !StatusRight(rs, addr, Used(rs, p)); }
    case Some(q) =>
      if q != p { assert !StatusRight(rs, addr, Used(rs, q)); }
  }

  /** That is the case for every address that is not the end of a region. */
  lemma InsideAimed(rs: seq<Region>, addr: nat)
    requires Valid(rs) && forall i | 0 <= i < |rs| :: addr != rs[i].End() * PAGE_SIZE
    ensures Aimed(rs, addr)
  {
    TargetInside(rs, 0, addr);
    match TargetFrom(rs, 0, addr)
    case None =>
    case Some((i, k)) => assert In(rs[i], addr / PAGE_SIZE);
  }

  lemma {:induction false} TargetInside(rs: seq<Region>, i: nat, addr: nat)
    requires i <= |rs| && forall j | 0 <= j < |rs| :: addr != rs[j].End() * PAGE_SIZE
    ensures match TargetFrom(rs, i, addr)
            case None => forall j | i <= j < |rs| :: !In(rs[j], addr / PAGE_SIZE)
            case Some((j, k)) => In(rs[j], addr / PAGE_SIZE) && rs[j].first + k == addr / PAGE_SIZE
    decreases |rs| - i
  {
    if i < |rs| {
      InRange(rs[i], addr);
      TargetInside(rs, i + 1, addr);
    }
  }

  lemma InRange(r: Region, addr: nat)
    ensures In(r, addr / PAGE_SIZE) <==> r.first * PAGE_SIZE <= addr < r.End() * PAGE_SIZE
    ensures r.first * PAGE_SIZE <= addr ==> (addr - r.first * PAGE_SIZE) / PAGE_SIZE == addr / PAGE_SIZE - r.first
  {
  }

  // ---------------------------------------------------------------- ownership over runs

  datatype Event = AllocPage | Status(addr: nat, free: bool)

  /** Along a run, no page that is still owned is handed out again.  A page is owned from
      the allocation that returns it to the call that frees it. */
  ghost predicate NeverTwice(rs: seq<Region>, owned: set<nat>, es: seq<Event>)
    requires Valid(rs)
    decreases |es|
  {
    es == [] ||
    match es[0]
    case AllocPage =>
      AllocValid(rs);
      var (o, rs') := Alloc(rs);
      && (o.Some? ==> o.value !in owned)
      && NeverTwice(rs', if o.Some? then owned + {o.value} else owned, es[1..])
    case Status(addr, free) =>
      SetStatusFacts(rs, addr, free);
      NeverTwice(SetStatus(rs, addr, free), if free then owned - {addr / PAGE_SIZE} else owned, es[1..])
  }

  /** All calls that free a page hit the page they name. */
  ghost predicate AllAimed(rs: seq<Region>, es: seq<Event>) {
    forall k | 0 <= k < |es| && es[k].Status? && es[k].free :: Aimed(rs, es[k].addr)
  }

  /** Aiming is a matter of the areas, not of the marks. */
  lemma AimedSame(rs: seq<Region>, out: seq<Region>, addr: nat)
    requires SameAreas(rs, out)
    ensures Target(out, addr) == Target(rs, addr) && (Aimed(out, addr) <==> Aimed(rs, addr))
  {
    TargetSame(rs, out, 0, addr);
    var p := addr / PAGE_SIZE;
    assert forall i | 0 <= i < |rs| :: In(out[i], p) <==> In(rs[i], p);
  }

  lemma {:induction false} TargetSame(rs: seq<Region>, out: seq<Region>, i: nat, addr: nat)
    requires SameAreas(rs, out) && i <= |rs|
    ensures TargetFrom(out, i, addr) == TargetFrom(rs, i, addr) && Behind(out, i) == Behind(rs, i)
    decreases |rs| - i
  {
    if i < |rs| { TargetSame(rs, out, i + 1, addr); }
  }

  lemma AllAimedNext(rs: seq<Region>, out: seq<Region>, es: seq<Event>)
    requires SameAreas(rs, out) && es != [] && AllAimed(rs, es)
    ensures AllAimed(out, es[1..])
  {
    forall k | 0 <= k < |es[1..]| && es[1..][k].Status? && es[1..][k].free ensures Aimed(out, es[1..][k].addr) {
      assert es[1..][k] == es[k + 1];
      AimedSame(rs, out, es[k + 1].addr);
    }
  }

  /** Frame ownership over every run of `kpage_alloc` and `kpage_set_status` whose freeing calls
      hit the page they name. */
  lemma {:induction false} Ownership(rs: seq<Region>, owned: set<nat>, es: seq<Event>)
    requires Valid(rs) && AllAimed(rs, es)
    requires forall p | p in owned :: Used(rs, p)
    ensures NeverTwice(rs, owned, es)
    decreases |es|
  {
    if es != [] {
      match es[0]
      case AllocPage =>
        AllocFresh(rs);
        AllocSameAreas(rs);
        var (o, rs') := Alloc(rs);
        AllAimedNext(rs, rs', es);
        Ownership(rs', if o.Some? then owned + {o.value} else owned, es[1..]);
      case Status(addr, free) =>
        SetStatusFacts(rs, addr, free);
        var rs' := SetStatus(rs, addr, free);
        AllAimedNext(rs, rs', es);
        Ownership(rs', if free then owned - {addr / PAGE_SIZE} else owned, es[1..]);
    }
  }

  /** A full region of eight pages, and one at page 100 whose first page is in use. */
  function TwoRegions(): (rs: seq<Region>)
    ensures |rs| == 2 && Valid(rs) && rs[0].first == 0 && rs[0].Count() == 8 && rs[1].first == 100 && rs[1].Count() == 8
    ensures (forall k | 0 <= k < 8 :: rs[0].marks[k]) && (forall k | 0 <= k < 8 :: rs[1].marks[k] <==> k == 0)
  {
    [Region(0, seq(8, _ => true)), Region(100, seq(8, k => k == 0))]
  }

  lemma TwoRegionsAlloc(out: seq<Region>)
    requires out == SetStatus(TwoRegions(), 8 * PAGE_SIZE, true)
    ensures Target(TwoRegions(), 8 * PAGE_SIZE) == Some(100) && Valid(out) && Alloc(out).0 == Some(100)
  {
    var rs := TwoRegions();
    assert TargetFrom(rs, 0, 8 * PAGE_SIZE) == Behind(rs, 1) == Some((1, 0));
    SetStatusFacts(rs, 8 * PAGE_SIZE, true);
    assert out[0] == rs[0] && out[1] == Mark(rs[1], 0, false);
    forall k | 0 <= k < 8 ensures !Fits(out[0], k) { assert out[0].marks[k]; }
    assert Fits(out[1], 0);
    assert Find(out, 0, 0) == Find(out, 1, 0) == Some((1, 0));
  }

  /** Freeing the address at the end of a region frees the first page of the next one: here
      page 100, which is owned, is handed out again. */
  lemma EndFreesNeighbour()
    ensures var rs, es := TwoRegions(), [Status(8 * PAGE_SIZE, true), AllocPage];
            && Used(rs, 100) && !Managed(rs, 8) && Target(rs, 8 * PAGE_SIZE) == Some(100)
            && !AllAimed(rs, es) && !NeverTwice(rs, {100}, es)
  {
    var rs, es := TwoRegions(), [Status(8 * PAGE_SIZE, true), AllocPage];
    assert In(rs[1], 100) && rs[1].marks[0];
    TwoRegionsAlloc(SetStatus(rs, 8 * PAGE_SIZE, true));
    assert es[1..] == [AllocPage];
    assert !AllAimed(rs, es) by { assert es[0].free; }
  }

  // ---------------------------------------------------------------- allocation-only runs

  /** Pages in regions `i` to `j - 1`. */
  function Before(rs: seq<Region>, i: nat, j: nat): nat
    requires i <= j <= |rs|
    decreases j - i
  {
    if i == j then 0 else rs[i].Count() + Before(rs, i + 1, j)
  }

  /** Region and index of page `n`, counting in region order from region `i` on. */
  function Locate(rs: seq<Region>, i: nat, n: nat): (p: (nat, nat))
    requires i <= |rs| && n < Before(rs, i, |rs|)
    ensures i <= p.0 < |rs| && p.1 < rs[p.0].Count() && Before(rs, i, p.0) + p.1 == n
    decreases |rs| - i
  {
    if n < rs[i].Count() then (i, n) else Locate(rs, i + 1, n - rs[i].Count())
  }

  function PageNumber(rs: seq<Region>, n: nat): nat
    requires n < Before(rs, 0, |rs|)
  {
    var (j, k) := Locate(rs, 0, n);
    rs[j].first + k
  }

  function Minus(n: nat, m: nat): nat { if n < m then 0 else n - m }

  /** From region `i` on, exactly the first `n` pages are marked. */
  ghost predicate FilledTo(rs: seq<Region>, i: nat, n: nat)
    requires Valid(rs) && i <= |rs|
    decreases |rs| - i
  {
    i == |rs| ||
    (&& Prefilled(rs[i], n)
     && FilledTo(rs, i + 1, Minus(n, rs[i].Count())))
  }

  /** The first `n` pages of a region, as far as it has them, and no others are marked. */
  ghost predicate Prefilled(r: Region, n: nat) {
    forall k | 0 <= k < r.Count() :: r.marks[k] <==> k < n
  }

  lemma MarkPrefilled(r: Region, n: nat)
    requires Prefilled(r, n) && n < r.Count()
    ensures Prefilled(Mark(r, n, true), n + 1)
  {
  }

  lemma FirstFitFilled(r: Region, n: nat)
    requires r.Count() % 8 == 0
    requires Prefilled(r, n)
    ensures FirstFit(r, 0) == if n < r.Count() then Some(n) else None
  {
    forall k | 0 <= k < r.Count() && k < n ensures !Fits(r, k) {
      assert r.marks[k];
    }
    if n < r.Count() {
      assert Fits(r, n);
    }
  }

  lemma {:induction false} FindFilled(rs: seq<Region>, i: nat, n: nat)
    requires Valid(rs) && i <= |rs| && FilledTo(rs, i, n)
    ensures Find(rs, i, 0) == if n < Before(rs, i, |rs|) then Some(Locate(rs, i, n)) else None
    decreases |rs| - i
  {
    if i < |rs| {
      FirstFitFilled(rs[i], n);
      if n >= rs[i].Count() {
        FindFilled(rs, i + 1, n - rs[i].Count());
      }
    }
  }

  lemma {:induction false} MarkFilled(rs: seq<Region>, i: nat, n: nat, j: nat, k: nat, out: seq<Region>)
    requires Valid(rs) && Valid(out) && i <= |rs| && FilledTo(rs, i, n) && n < Before(rs, i, |rs|)
    requires Locate(rs, i, n) == (j, k) && out == rs[j := Mark(rs[j], k, true)]
    ensures FilledTo(out, i, n + 1)
    decreases |rs| - i
  {
    if n < rs[i].Count() {
      assert out[i] == Mark(rs[i], n, true);
      MarkPrefilled(rs[i], n);
      FilledSame(rs, out, i + 1, 0);
      assert Minus(n + 1, out[i].Count()) == 0;
    } else {
      var m := n - rs[i].Count();
      assert Locate(rs, i, n) == Locate(rs, i + 1, m);
      assert out[i] == rs[i];
      MarkFilled(rs, i + 1, m, j, k, out);
      assert Minus(n + 1, out[i].Count()) == m + 1;
    }
  }

  lemma {:induction false} FilledSame(rs: seq<Region>, out: seq<Region>, i: nat, n: nat)
    requires Valid(rs) && Valid(out) && i <= |rs| == |out| && FilledTo(rs, i, n)
    requires forall k | i <= k < |rs| :: out[k] == rs[k]
    ensures FilledTo(out, i, n)
    decreases |rs| - i
  {
    if i < |rs| { FilledSame(rs, out, i + 1, Minus(n, rs[i].Count())); }
  }

  lemma {:induction false} ZeroedFilled(rs: seq<Region>, i: nat)
    requires Valid(rs) && i <= |rs|
    requires forall j, k | 0 <= j < |rs| && 0 <= k < rs[j].Count() :: !rs[j].marks[k]
    ensures FilledTo(rs, i, 0)
    decreases |rs| - i
  {
    if i < |rs| {
      ZeroedFilled(rs, i + 1);
    }
  }

  /** Same regions, whatever their bitmaps. */
  ghost predicate SameAreas(rs: seq<Region>, out: seq<Region>) {
    |rs| == |out| && forall k | 0 <= k < |rs| :: out[k].Count() == rs[k].Count() && out[k].first == rs[k].first
  }

  lemma AllocSameAreas(rs: seq<Region>)
    requires Valid(rs)
    ensures SameAreas(rs, Alloc(rs).1)
  {
  }

  lemma AllocKeeps(rs: seq<Region>)
    requires Valid(rs)
    ensures Valid(Alloc(rs).1) && SameAreas(rs, Alloc(rs).1)
  {
    AllocValid(rs);
    AllocSameAreas(rs);
  }

  /** The bitmaps after `n` allocations. */
  ghost function After(rs: seq<Region>, n: nat): (out: seq<Region>)
    requires Valid(rs)
    ensures Valid(out) && SameAreas(rs, out)
    decreases n
  {
    if n == 0 then rs else AllocKeeps(rs); After(Alloc(rs).1, n - 1)
  }

  lemma {:induction false} BeforeSame(rs: seq<Region>, out: seq<Region>, i: nat, n: nat)
    requires |rs| == |out| && i <= |rs|
    requires forall k | 0 <= k < |rs| :: out[k].Count() == rs[k].Count()
    ensures Before(out, i, |out|) == Before(rs, i, |rs|)
    ensures n < Before(rs, i, |rs|) ==> Locate(out, i, n) == Locate(rs, i, n)
    decreases |rs| - i
  {
    if i < |rs| { BeforeSame(rs, out, i + 1, Minus(n, rs[i].Count())); }
  }

  /** One allocation from bitmaps filled in order. */
  lemma AllocFilled(rs: seq<Region>, n: nat)
    requires Valid(rs) && FilledTo(rs, 0, n)
    ensures Alloc(rs).0 == if n < Before(rs, 0, |rs|) then Some(PageNumber(rs, n)) else None
    ensures Valid(Alloc(rs).1)
    ensures n < Before(rs, 0, |rs|) ==> FilledTo(Alloc(rs).1, 0, n + 1)
  {
    FindFilled(rs, 0, n);
    AllocValid(rs);
    if n < Before(rs, 0, |rs|) {
      var (j, k) := Locate(rs, 0, n);
      MarkFilled(rs, 0, n, j, k, Alloc(rs).1);
    }
  }

  lemma PageNumberSame(rs: seq<Region>, out: seq<Region>, n: nat)
    requires SameAreas(rs, out)
    ensures Before(out, 0, |out|) == Before(rs, 0, |rs|)
    ensures n < Before(rs, 0, |rs|) ==> PageNumber(out, n) == PageNumber(rs, n)
  {
    BeforeSame(rs, out, 0, n);
  }

  lemma {:induction false} AfterFilled(rs: seq<Region>, m: nat, n: nat)
    requires Valid(rs) && FilledTo(rs, 0, m)
    requires m + n <= Before(rs, 0, |rs|)
    ensures FilledTo(After(rs, n), 0, m + n)
    decreases n
  {
    if n > 0 {
      var next := Alloc(rs).1;
      AllocKeeps(rs);
      assert FilledTo(next, 0, m + 1) by { AllocFilled(rs, m); }
      assert Before(next, 0, |next|) == Before(rs, 0, |rs|) by { PageNumberSame(rs, next, 0); }
      AfterFilled(next, m + 1, n - 1);
    }
  }

  /** From zeroed bitmaps, allocation returns every page in region order, then fails. */
  lemma AllocInOrder(rs: seq<Region>, n: nat)
    requires Valid(rs)
    requires forall j, k | 0 <= j < |rs| && 0 <= k < rs[j].Count() :: !rs[j].marks[k]
    requires n <= Before(rs, 0, |rs|)
    ensures Alloc(After(rs, n)).0 == if n < Before(rs, 0, |rs|) then Some(PageNumber(rs, n)) else None
  {
    var out := After(rs, n);
    assert FilledTo(out, 0, n) by {
      ZeroedFilled(rs, 0);
      AfterFilled(rs, 0, n);
    }
    AllocFilled(out, n);
    PageNumberSame(rs, out, n);
  }

  lemma {:induction false} LocateBefore(rs: seq<Region>, i: nat, j: nat, k: nat, n: nat)
    requires i <= j < |rs| && k < rs[j].Count() && n == Before(rs, i, j) + k
    ensures n < Before(rs, i, |rs|) && Locate(rs, i, n) == (j, k)
    decreases j - i
  {
    if i < j { LocateBefore(rs, i + 1, j, k, n - rs[i].Count()); }
  }

  /** "Every page exactly once": no page has two numbers ... */
  lemma EveryPageOnce(rs: seq<Region>, n: nat, m: nat)
    requires Valid(rs) && n < Before(rs, 0, |rs|) && m < Before(rs, 0, |rs|)
    requires PageNumber(rs, n) == PageNumber(rs, m)
    ensures n == m
  {
    var (j, k) := Locate(rs, 0, n);
    var (j', k') := Locate(rs, 0, m);
    assert In(rs[j], rs[j].first + k) && In(rs[j'], rs[j'].first + k');
    OneRegion(rs, j, j', PageNumber(rs, n));
  }

  /** ... and every managed page has one. */
  lemma EveryPageNumbered(rs: seq<Region>, p: nat) returns (n: nat)
    requires Valid(rs) && Managed(rs, p)
    ensures n < Before(rs, 0, |rs|) && PageNumber(rs, n) == p
  {
    var i :| 0 <= i < |rs| && In(rs[i], p);
    var k: nat := p - rs[i].first;
    n := Before(rs, 0, i) + k;
    LocateBefore(rs, 0, i, k, n);
  }
}
