/**
 The loops of `kpage_alloc` and `kpage_set_status` on the bytes of the bitmaps.
 */
module FrameBitmaps {
  import opened Common
  import opened Bits
  import F = FrameAllocator

  /** `struct trampoline_region`. */
  datatype Region = Region(addr: nat, pgCnt: nat, bitmap: seq<bv8>)

  ghost predicate Sound(r: Region) {
    r.addr % PAGE_SIZE == 0 && r.pgCnt == 8 * |r.bitmap|
  }

  /** The mark that bit `idx % 8` of byte `idx / 8` is. */
  function View(r: Region): (v: F.Region)
    ensures v.Count() == 8 * |r.bitmap| && v.first == r.addr / PAGE_SIZE
    ensures forall k | 0 <= k < v.Count() :: v.marks[k] == Bit(r.bitmap[k / 8], k % 8)
  {
    F.Region(r.addr / PAGE_SIZE,
             seq(8 * |r.bitmap|, k requires 0 <= k < 8 * |r.bitmap| => Bit(r.bitmap[k / 8], k % 8)))
  }

  function Views(rs: seq<Region>): (vs: seq<F.Region>)
    ensures |vs| == |rs| && forall i | 0 <= i < |rs| :: vs[i] == View(rs[i])
  {
    seq(|rs|, i requires 0 <= i < |rs| => View(rs[i]))
  }

  ghost predicate Valid(rs: seq<Region>) {
    (forall i | 0 <= i < |rs| :: Sound(rs[i])) && F.Valid(Views(rs))
  }

  /** `bitmap[idx / 8] >> (idx % 8)` is zero exactly when the page and all later ones of its
      byte are free. */
  lemma ShiftTest(r: Region, idx: nat)
    requires idx < 8 * |r.bitmap|
    ensures r.bitmap[idx / 8] >> (idx % 8) == 0 <==> F.Fits(View(r), idx)
  {
    var b := idx / 8;
    ShiftZero(r.bitmap[b], idx % 8);
    assert forall k | b * 8 <= k < b * 8 + 8 :: k / 8 == b && k % 8 == k - b * 8;
    if F.Fits(View(r), idx) {
      forall j | idx % 8 <= j < 8 ensures !Bit(r.bitmap[b], j) {
        assert !View(r).marks[b * 8 + j];
      }
    }
  }

  lemma SameBit(k: nat, idx: nat)
    ensures k == idx <==> k / 8 == idx / 8 && k % 8 == idx % 8
  {
  }

  lemma SetAt(bm: seq<bv8>, idx: nat, k: nat)
    requires idx / 8 < |bm| && k / 8 < |bm|
    ensures Bit(bm[idx / 8 := bm[idx / 8] | (1 << (idx % 8))][k / 8], k % 8) <==> k == idx || Bit(bm[k / 8], k % 8)
  {
    SameBit(k, idx);
    SetBit(bm[idx / 8], idx % 8, k % 8);
  }

  lemma ClearAt(bm: seq<bv8>, idx: nat, k: nat)
    requires idx / 8 < |bm| && k / 8 < |bm|
    ensures Bit(bm[idx / 8 := bm[idx / 8] & !(1 << (idx % 8))][k / 8], k % 8) <==> k != idx && Bit(bm[k / 8], k % 8)
  {
    SameBit(k, idx);
    ClearBit(bm[idx / 8], idx % 8, k % 8);
  }

  /** The test that `kpage_alloc` applies to page `idx` of a region. */
  method TestPage(r: Region, idx: nat) returns (fits: bool)
    requires idx < 8 * |r.bitmap|
    ensures fits == F.Fits(View(r), idx)
  {
    ShiftTest(r, idx);
    fits := r.bitmap[idx / 8] >> (idx % 8) == 0;
  }

  lemma SetView(r: Region, idx: nat, r': Region)
    requires idx < 8 * |r.bitmap| && r' == r.(bitmap := r.bitmap[idx / 8 := r.bitmap[idx / 8] | (1 << (idx % 8))])
    ensures View(r') == F.Mark(View(r), idx, true)
  {
    forall k | 0 <= k < 8 * |r.bitmap| ensures View(r').marks[k] <==> k == idx || View(r).marks[k] {
      SetAt(r.bitmap, idx, k);
    }
    assert View(r').marks == F.Mark(View(r), idx, true).marks;
  }

  lemma ClearView(r: Region, idx: nat, r': Region)
    requires idx < 8 * |r.bitmap| && r' == r.(bitmap := r.bitmap[idx / 8 := r.bitmap[idx / 8] & !(1 << (idx % 8))])
    ensures View(r') == F.Mark(View(r), idx, false)
  {
    forall k | 0 <= k < 8 * |r.bitmap| ensures View(r').marks[k] <==> k != idx && View(r).marks[k] {
      ClearAt(r.bitmap, idx, k);
    }
    assert View(r').marks == F.Mark(View(r), idx, false).marks;
  }

  /** The byte updates of `kpage_alloc` and `kpage_set_status`. */
  method MarkPage(r: Region, idx: nat, on: bool) returns (r': Region)
    requires idx < 8 * |r.bitmap|
    ensures View(r') == F.Mark(View(r), idx, on) && r'.addr == r.addr && r'.pgCnt == r.pgCnt
  {
    if on {
      r' := r.(bitmap := r.bitmap[idx / 8 := r.bitmap[idx / 8] | (1 << (idx % 8))]);
      SetView(r, idx, r');
    } else {
      r' := r.(bitmap := r.bitmap[idx / 8 := r.bitmap[idx / 8] & !(1 << (idx % 8))]);
      ClearView(r, idx, r');
    }
  }

  function ToAddress(page: Option<nat>): Option<nat> {
    match page
    case None => None
    case Some(p) => Some(p * PAGE_SIZE)
  }

  /** The inner loop of `kpage_alloc`: the first page of a region that passes the test. */
  method ScanRegion(r: Region) returns (found: Option<nat>)
    requires Sound(r)
    ensures found == F.FirstFit(View(r), 0)
  {
    ghost var v := View(r);
    var addr := r.addr;
    var idx := 0;
    while addr < r.addr + r.pgCnt * PAGE_SIZE
      invariant 0 <= idx <= v.Count()
      invariant addr == r.addr + idx * PAGE_SIZE
      invariant F.FirstFit(v, 0) == F.FirstFit(v, idx)
      decreases v.Count() - idx
    {
      var fits := TestPage(r, idx);
      if fits {
        return Some(idx);
      }
      idx := idx + 1;
      addr := addr + PAGE_SIZE;
    }
    return None;
  }

  lemma ViewsUpdate(rs: seq<Region>, i: nat, r: Region)
    requires i < |rs|
    ensures Views(rs[i := r]) == Views(rs)[i := View(r)]
  {
  }

  /** The `<=` of `kpage_set_status` lets the end of a region in; the byte it then touches is
      inside the bitmap exactly when the address is inside the region. */
  lemma StatusInBounds(r: Region, addr: nat)
    requires Sound(r) && r.addr <= addr <= r.addr + r.pgCnt * PAGE_SIZE
    ensures (addr - r.addr) / PAGE_SIZE / 8 < |r.bitmap| <==> F.In(View(r), addr / PAGE_SIZE)
  {
  }

  /** Marking page `idx` of region `i` and computing its address. */
  method TakePage(rs: seq<Region>, i: nat, idx: nat, ghost p: nat) returns (addr: nat, out: seq<Region>)
    requires i < |rs| && Sound(rs[i]) && idx < 8 * |rs[i].bitmap| && p == Views(rs)[i].first + idx
    ensures addr == p * PAGE_SIZE
    ensures Views(out) == Views(rs)[i := F.Mark(Views(rs)[i], idx, true)]
    ensures SameAreas(rs, out)
  {
    PageAddress(rs[i], idx);
    var r := MarkPage(rs[i], idx, true);
    ViewsUpdate(rs, i, r);
    addr, out := rs[i].addr + idx * PAGE_SIZE, rs[i := r];
  }

  ghost predicate SameAreas(rs: seq<Region>, out: seq<Region>) {
    |out| == |rs| && forall k | 0 <= k < |rs| :: out[k].addr == rs[k].addr && out[k].pgCnt == rs[k].pgCnt
  }

  lemma FindStep(vs: seq<F.Region>, i: nat)
    requires F.Valid(vs) && i < |vs|
    ensures match F.FirstFit(vs[i], 0)
            case Some(k) => F.Find(vs, i, 0) == Some((i, k))
            case None => F.Find(vs, i, 0) == F.Find(vs, i + 1, 0)
  {
  }

  /** The loops of `kpage_alloc`, up to the page they stop at. */
  method FindPage(rs: seq<Region>) returns (found: Option<(nat, nat)>)
    requires Valid(rs)
    ensures found == F.Find(Views(rs), 0, 0)
  {
    ghost var vs := Views(rs);
    var i := 0;
    while i < |rs|
      invariant 0 <= i <= |rs|
      invariant F.Find(vs, 0, 0) == F.Find(vs, i, 0)
    {
      var idx := ScanRegion(rs[i]);
      FindStep(vs, i);
      if idx.Some? {
        return Some((i, idx.value));
      }
      i := i + 1;
    }
    return None;
  }

  /** `kpage_alloc`, giving the page and the bitmaps afterwards. */
  method AllocPage(rs: seq<Region>) returns (page: Option<nat>, out: seq<Region>)
    requires Valid(rs)
    ensures Views(out) == F.Alloc(Views(rs)).1
    ensures page == ToAddress(F.Alloc(Views(rs)).0)
    ensures SameAreas(rs, out)
  {
    var found := FindPage(rs);
    page, out := TakeFound(rs, found, Views(rs));
  }

  /** The end of `kpage_alloc`. */
  method TakeFound(rs: seq<Region>, found: Option<(nat, nat)>, ghost vs: seq<F.Region>)
    returns (page: Option<nat>, out: seq<Region>)
    requires vs == Views(rs) && F.Valid(vs) && found == F.Find(vs, 0, 0) && forall i | 0 <= i < |rs| :: Sound(rs[i])
    ensures Views(out) == F.Alloc(vs).1 && page == ToAddress(F.Alloc(vs).0) && SameAreas(rs, out)
  {
    AllocIs(vs, found);
    page, out := None, rs;
    if found.Some? {
      var (i, idx) := found.value;
      ghost var p := vs[i].first + idx;
      assert F.Alloc(vs).0 == Some(p);
      var addr;
      addr, out := TakePage(rs, i, idx, p);
      page := Some(addr);
    }
  }

  lemma AllocIs(vs: seq<F.Region>, found: Option<(nat, nat)>)
    requires F.Valid(vs) && found == F.Find(vs, 0, 0)
    ensures found.None? ==> F.Alloc(vs) == (None, vs)
    ensures found.Some? ==>
              var (i, k) := found.value;
              F.Alloc(vs) == (Some(vs[i].first + k), vs[i := F.Mark(vs[i], k, true)])
  {
  }

  /** The test of `kpage_set_status`, which takes the end of a region for a part of it. */
  predicate Takes(r: Region, addr: nat) { r.addr <= addr <= r.addr + r.pgCnt * PAGE_SIZE }

  lemma TakesView(r: Region, addr: nat)
    requires Sound(r)
    ensures Takes(r, addr) <==> View(r).first * PAGE_SIZE <= addr <= View(r).End() * PAGE_SIZE
    ensures r.addr == View(r).first * PAGE_SIZE
  {
  }

  /** The search of `kpage_set_status` for the region of an address. */
  method FindRegion(rs: seq<Region>, addr: nat) returns (i: nat)
    requires forall k | 0 <= k < |rs| :: Sound(rs[k])
    ensures i <= |rs| && (i < |rs| ==> Takes(rs[i], addr)) && forall k | 0 <= k < i :: !Takes(rs[k], addr)
  {
    i := 0;
    while i < |rs| && !(rs[i].addr <= addr && addr <= rs[i].addr + rs[i].pgCnt * PAGE_SIZE)
      invariant 0 <= i <= |rs|
      invariant forall k | 0 <= k < i :: !Takes(rs[k], addr)
    {
      i := i + 1;
    }
  }

  lemma {:induction false} TargetSkips(rs: seq<Region>, vs: seq<F.Region>, i: nat, k: nat, addr: nat)
    requires vs == Views(rs) && i <= k <= |rs|
    requires forall j | i <= j < k :: Sound(rs[j]) && !Takes(rs[j], addr)
    ensures F.TargetFrom(vs, i, addr) == F.TargetFrom(vs, k, addr)
    decreases k - i
  {
    if i < k {
      TakesView(rs[i], addr);
      TargetSkips(rs, vs, i + 1, k, addr);
    }
  }

  /** The region whose bitmap holds the byte behind that of the region before `i`: the bitmaps
      lie one behind the other. */
  function NextBitmap(rs: seq<Region>, i: nat): (k: nat)
    requires i <= |rs|
    ensures i <= k <= |rs| && (k < |rs| ==> |rs[k].bitmap| > 0)
    decreases |rs| - i
  {
    if i == |rs| || |rs[i].bitmap| > 0 then i else NextBitmap(rs, i + 1)
  }

  lemma {:induction false} NextIsBehind(rs: seq<Region>, vs: seq<F.Region>, i: nat)
    requires vs == Views(rs) && i <= |rs|
    ensures F.Behind(vs, i) == if NextBitmap(rs, i) < |rs| then Some((NextBitmap(rs, i), 0)) else None
    decreases |rs| - i
  {
    if i < |rs| { NextIsBehind(rs, vs, i + 1); }
  }

  /** The byte and bit that the code writes once it has found region `i`. */
  method WriteStatus(rs: seq<Region>, i: nat, addr: nat, free: bool, ghost vs: seq<F.Region>,
      ghost target: Option<(nat, nat)>)
    returns (out: seq<Region>)
    requires i < |rs| && Sound(rs[i]) && Takes(rs[i], addr) && vs == Views(rs) && target == F.TargetFrom(vs, i, addr)
    ensures Views(out) == if target.None? then vs else vs[target.value.0 :=
            F.Mark(vs[target.value.0], target.value.1, !free)]
    ensures SameAreas(rs, out)
  {
    TakesView(rs[i], addr);
    var idx := (addr - rs[i].addr) / PAGE_SIZE;
    var k := i;
    out := rs;
    if idx >= 8 * |rs[i].bitmap| {
      NextIsBehind(rs, vs, i + 1);
      k, idx := NextBitmap(rs, i + 1), 0;
    }
    if k < |rs| {
      var r := MarkPage(rs[k], idx, !free);
      ViewsUpdate(rs, k, r);
      out := rs[k := r];
    }
  }

  /** `kpage_set_status`. */
  method SetPageStatus(rs: seq<Region>, addr: nat, free: bool) returns (out: seq<Region>)
    requires Valid(rs)
    ensures Views(out) == F.SetStatus(Views(rs), addr, free)
    ensures SameAreas(rs, out)
  {
    var i := FindRegion(rs, addr);
    ghost var vs := Views(rs);
    TargetSkips(rs, vs, 0, i, addr);
    out := rs;
    if i < |rs| {
      out := WriteStatus(rs, i, addr, free, vs, F.TargetFrom(vs, i, addr));
    }
  }

  lemma StillValid(rs: seq<Region>, out: seq<Region>)
    requires Valid(rs) && SameAreas(rs, out)
    requires F.Valid(Views(out)) && forall k | 0 <= k < |rs| :: View(out[k]).Count() == View(rs[k]).Count()
    ensures Valid(out)
  {
  }

  class PageAllocator {
    var regions: seq<Region>

    /** The bitmaps as `init_memory` leaves them: if the areas are page aligned and disjoint and
        their counts multiples of 8, the allocator is valid, manages exactly their pages, and
        every page is free. */
    constructor (areas: seq<(nat, nat)>)
      ensures |regions| == |areas|
      ensures forall i | 0 <= i < |areas| :: regions[i].addr == areas[i].0 && regions[i].pgCnt == areas[i].1
      ensures AllFree(Views(regions))
      ensures GoodAreas(areas) ==>
              Valid(regions) && forall p: nat :: F.Managed(Views(regions), p) <==> InAreas(areas, p)
    {
      regions := Zeroed(areas);
      new;
      ZeroedFree(areas);
      if GoodAreas(areas) {
        ZeroedValid(areas);
      }
    }

    method KpageAlloc() returns (page: Option<nat>)
      requires Valid(regions)
      modifies this
      ensures Valid(regions)
      ensures Views(regions) == F.Alloc(old(Views(regions))).1
      ensures page == ToAddress(F.Alloc(old(Views(regions))).0)
    {
      page, regions := AllocPage(regions);
      F.AllocKeeps(old(Views(regions)));
      StillValid(old(regions), regions);
    }

    method KpageSetStatus(addr: nat, free: bool)
      requires Valid(regions)
      modifies this
      ensures Valid(regions)
      ensures Views(regions) == F.SetStatus(old(Views(regions)), addr, free)
    {
      regions := SetPageStatus(regions, addr, free);
      F.SetStatusFacts(old(Views(regions)), addr, free);
      StillValid(old(regions), regions);
    }
  }

  lemma PageAddress(r: Region, idx: nat)
    requires Sound(r)
    ensures r.addr + idx * PAGE_SIZE == (View(r).first + idx) * PAGE_SIZE
  {
  }

  // ---------------------------------------------------------------- init_memory

  function Zeroed(areas: seq<(nat, nat)>): (rs: seq<Region>)
    ensures |rs| == |areas|
    ensures forall i | 0 <= i < |areas| :: rs[i] == Region(areas[i].0, areas[i].1, seq(areas[i].1 / 8, _ => 0))
  {
    seq(|areas|, i requires 0 <= i < |areas| => Region(areas[i].0, areas[i].1, seq(areas[i].1 / 8, _ => 0)))
  }

  ghost predicate AllFree(vs: seq<F.Region>) {
    forall i, k | 0 <= i < |vs| && 0 <= k < vs[i].Count() :: !vs[i].marks[k]
  }

  /** Page aligned, disjoint areas below 4 GB whose page counts are multiples of 8. */
  ghost predicate GoodAreas(areas: seq<(nat, nat)>) {
    && (forall i | 0 <= i < |areas| :: GoodArea(areas[i].0, areas[i].1))
    && (forall i, j | 0 <= i < j < |areas| :: AreasApart(areas[i], areas[j]))
  }

  predicate GoodArea(addr: nat, pages: nat) {
    addr % PAGE_SIZE == 0 && pages % 8 == 0 && addr / PAGE_SIZE + pages < PAGES
  }

  predicate AreasApart(a: (nat, nat), b: (nat, nat)) {
    a.0 / PAGE_SIZE + a.1 <= b.0 / PAGE_SIZE || b.0 / PAGE_SIZE + b.1 <= a.0 / PAGE_SIZE
  }

  ghost predicate InAreas(areas: seq<(nat, nat)>, p: nat) {
    exists i | 0 <= i < |areas| :: areas[i].0 / PAGE_SIZE <= p < areas[i].0 / PAGE_SIZE + areas[i].1
  }

  lemma ZeroBits(k: nat)
    requires k < 8
    ensures !Bit(0, k)
  {
  }

  lemma ZeroedFree(areas: seq<(nat, nat)>)
    ensures AllFree(Views(Zeroed(areas)))
  {
    var vs := Views(Zeroed(areas));
    forall i, k | 0 <= i < |vs| && 0 <= k < vs[i].Count() ensures !vs[i].marks[k] { ZeroBits(k % 8); }
  }

  lemma ZeroedValid(areas: seq<(nat, nat)>)
    requires GoodAreas(areas)
    ensures Valid(Zeroed(areas)) && forall p: nat :: F.Managed(Views(Zeroed(areas)), p) <==> InAreas(areas, p)
  {
    var rs := Zeroed(areas);
    var vs := Views(rs);
    forall i | 0 <= i < |rs| ensures Sound(rs[i]) && F.Sound(vs[i]) { assert GoodArea(areas[i].0, areas[i].1); }
    forall i, j | 0 <= i < j < |rs| ensures F.Apart(vs[i], vs[j]) { assert AreasApart(areas[i], areas[j]); }
    forall p: nat ensures F.Managed(vs, p) <==> InAreas(areas, p) {
      assert forall i | 0 <= i < |areas| ::
          F.In(vs[i], p) <==> areas[i].0 / PAGE_SIZE <= p < areas[i].0 / PAGE_SIZE + areas[i].1;
    }
  }
}
