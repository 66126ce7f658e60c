/**
 Two-level page tables in physical memory, the walk of the processor over them ("32-Bit
 Paging", section 4.3 of volume 3A of the Intel SDM) and the updates that
 src/common/paging.c makes, as functions on memory.
 */
module PageTables {
  import opened Common
  import F = FrameAllocator

  /** Memory and page allocator after a step, or nothing once the machine has halted. */
  type Outcome = Option<(Mem, seq<F.Region>)>

  const ENTRIES := 1024

  /** The directory slot that maps the directory itself. */
  const SELF := 1023

  /** Pages below the top 4 MB. */
  const LOW_PAGES := 0xF_FC00

  type Word = w: nat | w < 0x1_0000_0000

  /** Physical memory: frames of 1024 words. */
  type Mem = seq<seq<Word>>

  ghost predicate MemOk(mem: Mem) {
    |mem| == PAGES && forall f | 0 <= f < PAGES :: |mem[f]| == ENTRIES
  }

  // ---------------------------------------------------------------- entries

  /** `entry | 1` and `entry & ~1`, and so on for the other bits: the old bit is taken out
      and the new one put in. */
  function SetPresent(e: Word, on: bool): Word {
    e - e % 2 + if on then 1 else 0
  }

  function SetWriteable(e: Word, on: bool): Word {
    e - e / 2 % 2 * 2 + if on then 2 else 0
  }

  function SetUser(e: Word, on: bool): Word {
    e - e / 4 % 2 * 4 + if on then 4 else 0
  }

  /** `set_addr` for the address of frame `f`. */
  function SetAddr(e: Word, f: nat): (r: Word)
    requires f < PAGES
    ensures r / 4096 == f && r % 4096 == e % 4096 && r % 2 == e % 2
  {
    LowBits(e, f, e % 4096);
    f * 4096 + e % 4096
  }

  lemma LowBits(e: nat, f: nat, low: nat)
    requires low == e % 4096
    ensures (f * 4096 + low) % 2 == e % 2
  {
    Parity(f * 2048, low);
    Parity(e / 4096 * 2048, low);
  }

  lemma Parity(k: nat, x: nat)
    ensures (2 * k + x) % 2 == x % 2
  {
  }

  /** `create_paging_entry`; `CreateEntryBits` is the composition the code writes. */
  function CreateEntry(f: nat, present: bool, writeable: bool, user: bool): (e: Word)
    requires f < PAGES
    ensures e / 4096 == f && (e % 2 == 1 <==> present)
  {
    f * 4096 + (if present then 1 else 0) + (if writeable then 2 else 0) + (if user then 4 else 0)
  }

  lemma CreateEntryBits(f: nat, present: bool, writeable: bool, user: bool)
    requires f < PAGES
    ensures CreateEntry(f, present, writeable, user) ==
            SetUser(SetWriteable(SetPresent(SetAddr(0, f), present), writeable), user)
  {
    var a := SetPresent(SetAddr(0, f), present);
    assert a == f * 4096 + (if present then 1 else 0) && a / 2 == f * 2048;
    var b := SetWriteable(a, writeable);
    assert b == a + (if writeable then 2 else 0) && b / 4 == f * 1024;
  }

  predicate Present(e: Word) { e % 2 == 1 }

  function FrameOf(e: Word): (f: nat)
    ensures f < PAGES
  {
    e / 4096
  }

  // ---------------------------------------------------------------- memory and the walk

  function Put(mem: Mem, f: nat, i: nat, w: Word): (out: Mem)
    requires MemOk(mem) && f < PAGES && i < ENTRIES
    ensures MemOk(out)
  {
    var row: seq<Word> := mem[f][i := w];
    mem[f := row]
  }

  function Zeros(): (z: seq<Word>)
    ensures |z| == ENTRIES && forall i | 0 <= i < ENTRIES :: z[i] == 0
  {
    seq(ENTRIES, _ => 0)
  }

  /** The frame that page `p` is mapped to under directory frame `d`. */
  function Walk(mem: Mem, d: nat, p: nat): (f: Option<nat>)
    requires MemOk(mem) && d < PAGES && p < PAGES
    ensures f.Some? ==> f.value < PAGES
  {
    var pde := mem[d][p / 1024];
    if !Present(pde) then None
    else
      var pte := mem[FrameOf(pde)][p % 1024];
      if !Present(pte) then None else Some(FrameOf(pte))
  }

  /** The entry that maps page `p`, with its access rights. */
  function Entry(mem: Mem, d: nat, p: nat): Option<Word>
    requires MemOk(mem) && d < PAGES && p < PAGES
  {
    var pde := mem[d][p / 1024];
    if !Present(pde) then None
    else
      var pte := mem[FrameOf(pde)][p % 1024];
      if !Present(pte) then None else Some(pte)
  }

  lemma EntryWalk(mem: Mem, d: nat, p: nat)
    requires MemOk(mem) && d < PAGES && p < PAGES
    ensures Walk(mem, d, p) == match Entry(mem, d, p) case None => None case Some(e) => Some(e / 4096)
  {
  }

  // ---------------------------------------------------------------- well-formed directories

  /** The tables of slots 0 to 1022 are pairwise distinct frames, none of them the directory. */
  ghost predicate DirOk(dir: seq<Word>, d: nat)
    requires |dir| == ENTRIES
  {
    && (forall i | 0 <= i < SELF && Present(dir[i]) :: FrameOf(dir[i]) != d)
    && (forall i, j | 0 <= i < j < SELF && Present(dir[i]) && Present(dir[j]) :: FrameOf(dir[i]) != FrameOf(dir[j]))
  }

  /** Frame `f` holds the directory or one of its tables. */
  ghost predicate Structure(dir: seq<Word>, d: nat, f: nat)
    requires |dir| == ENTRIES
  {
    f == d || exists i | 0 <= i < SELF :: Present(dir[i]) && FrameOf(dir[i]) == f
  }

  /** All paging structures are marked as used. */
  ghost predicate Owned(dir: seq<Word>, d: nat, rs: seq<F.Region>)
    requires |dir| == ENTRIES
  {
    F.Used(rs, d) && forall i | 0 <= i < SELF && Present(dir[i]) :: F.Used(rs, FrameOf(dir[i]))
  }

  ghost predicate Ok(mem: Mem, d: nat, rs: seq<F.Region>) {
    MemOk(mem) && d < PAGES && DirOk(mem[d], d) && F.Valid(rs) && Owned(mem[d], d, rs)
  }

  // ---------------------------------------------------------------- mapping one page

  /** The entry that `modify_or_insert_page_structure` leaves where `e` was. */
  function NewEntry(e: Word, frame: nat, user: bool): (w: Word)
    requires frame < PAGES
    ensures Present(w) && FrameOf(w) == frame
  {
    if Present(e) then SetAddr(e, frame) else CreateEntry(frame, true, true, user)
  }

  /** `modify_or_insert_page_structure` on entry `j` of table `t`. */
  function MapEntry(mem: Mem, t: nat, j: nat, frame: nat, user: bool): (out: Mem)
    requires MemOk(mem) && t < PAGES && j < ENTRIES && frame < PAGES
    ensures MemOk(out)
  {
    Put(mem, t, j, NewEntry(mem[t][j], frame, user))
  }

  /** The insertion of `check_or_insert_table_structure`: frame `f` becomes an empty table. */
  function InsertTable(mem: Mem, d: nat, i: nat, f: nat): (out: Mem)
    requires MemOk(mem) && d < PAGES && i < ENTRIES && f < PAGES
    ensures MemOk(out)
  {
    Put(mem[f := Zeros()], d, i, CreateEntry(f, true, true, true))
  }

  /** `map_page` and `map_page_inactive`; no result when no frame is left for a table. */
  function MapPage(mem: Mem, d: nat, rs: seq<F.Region>, p: nat, frame: nat, user: bool): (r: Outcome)
    requires MemOk(mem) && d < PAGES && p < PAGES && frame < PAGES && F.Valid(rs)
    ensures r.Some? ==> MemOk(r.value.0) && F.Valid(r.value.1)
  {
    var i := p / 1024;
    if Present(mem[d][i]) then
      Some((MapEntry(mem, FrameOf(mem[d][i]), p % 1024, frame, user), rs))
    else
      F.AllocFresh(rs);
      match F.Alloc(rs)
      case (None, _) => None
      case (Some(f), rs') => Some((MapEntry(InsertTable(mem, d, i, f), f, p % 1024, frame, user), rs'))
  }

  /** `unmap_page`. */
  function UnmapPage(mem: Mem, d: nat, p: nat): (out: Mem)
    requires MemOk(mem) && d < PAGES && p < PAGES
    ensures MemOk(out)
  {
    var pde := mem[d][p / 1024];
    if Present(pde) then Put(mem, FrameOf(pde), p % 1024, 0) else mem
  }

  /** Only paging structures of `d` change. */
  ghost predicate OthersKept(mem: Mem, out: Mem, d: nat)
    requires MemOk(mem) && MemOk(out) && d < PAGES
  {
    forall g | 0 <= g < PAGES && !Structure(out[d], d, g) :: out[g] == mem[g]
  }

  /** Below the top 4 MB, `out` maps page `p` to `to` and every other page as `mem` does. */
  ghost predicate Remaps(mem: Mem, out: Mem, d: nat, p: nat, to: Option<nat>)
    requires MemOk(mem) && MemOk(out) && d < PAGES && p < PAGES
  {
    forall q | 0 <= q < LOW_PAGES :: Walk(out, d, q) == if q == p then to else Walk(mem, d, q)
  }

  lemma PutWalk(mem: Mem, d: nat, p: nat, w: Word)
    requires MemOk(mem) && d < PAGES && DirOk(mem[d], d) && p < LOW_PAGES && Present(mem[d][p / 1024])
    ensures var out := Put(mem, FrameOf(mem[d][p / 1024]), p % 1024, w);
            && out[d] == mem[d]
            && Remaps(mem, out, d, p, if Present(w) then Some(FrameOf(w)) else None)
            && OthersKept(mem, out, d)
  {
    var i, j := p / 1024, p % 1024;
    var t := FrameOf(mem[d][i]);
    var out := Put(mem, t, j, w);
    assert t != d;
    forall q | 0 <= q < LOW_PAGES
      ensures Walk(out, d, q) == if q == p then (if Present(w) then Some(FrameOf(w)) else None) else Walk(mem, d, q)
    {
      var i' := q / 1024;
      if i' != i && Present(mem[d][i']) {
        assert FrameOf(mem[d][i']) != t;
      } else if i' == i {
        assert q == p <==> q % 1024 == j;
      }
    }
    assert Structure(mem[d], d, t);
  }

  /** What every edit of the tables of `d` keeps: the invariant, slot 1023 and all entries
      that were present, frames outside the paging structures, and frames in use.  New tables
      are frames that were free. */
  ghost predicate Extends(mem: Mem, d: nat, rs: seq<F.Region>, out: Mem, rs': seq<F.Region>)
    requires MemOk(mem) && d < PAGES
  {
    && Ok(out, d, rs')
    && (forall i | 0 <= i < ENTRIES && (i == SELF || Present(mem[d][i])) :: out[d][i] == mem[d][i])
    && OthersKept(mem, out, d)
    && (forall q: nat | F.Used(rs, q) :: F.Used(rs', q))
    && (forall g: nat | F.Used(rs, g) && Structure(out[d], d, g) :: Structure(mem[d], d, g))
  }

  lemma ExtendsTrans(a: Mem, d: nat, ra: seq<F.Region>, b: Mem, rb: seq<F.Region>, c: Mem, rc: seq<F.Region>)
    requires MemOk(a) && d < PAGES && Extends(a, d, ra, b, rb) && Extends(b, d, rb, c, rc)
    ensures Extends(a, d, ra, c, rc)
  {
    forall g | 0 <= g < PAGES && !Structure(c[d], d, g) ensures c[g] == a[g] {
      assert !Structure(b[d], d, g);
    }
  }

  /** The frames that went into use are new paging structures. */
  ghost predicate OnlyTables(rs: seq<F.Region>, rs': seq<F.Region>, out: Mem, d: nat)
    requires MemOk(out) && d < PAGES
  {
    forall q: nat | F.Used(rs', q) && !F.Used(rs, q) :: Structure(out[d], d, q)
  }

  /** What mapping page `p` to `frame` has to achieve. */
  ghost predicate Mapped(mem: Mem, d: nat, rs: seq<F.Region>, out: Mem, rs': seq<F.Region>, p: nat, frame: nat)
    requires MemOk(mem) && d < PAGES && p < PAGES
  {
    && Extends(mem, d, rs, out, rs')
    && Remaps(mem, out, d, p, Some(frame))
    && OnlyTables(rs, rs', out, d)
  }

  lemma MapExisting(mem: Mem, d: nat, rs: seq<F.Region>, p: nat, frame: nat, user: bool)
    requires Ok(mem, d, rs) && p < LOW_PAGES && frame < PAGES && Present(mem[d][p / 1024])
    ensures Mapped(mem, d, rs, MapEntry(mem, FrameOf(mem[d][p / 1024]), p % 1024, frame, user), rs, p, frame)
  {
    var t := FrameOf(mem[d][p / 1024]);
    var w := NewEntry(mem[t][p % 1024], frame, user);
    PutWalk(mem, d, p, w);
    var out := Put(mem, t, p % 1024, w);
    assert MapEntry(mem, t, p % 1024, frame, user) == out;
    assert Ok(out, d, rs);
  }

  lemma MapFresh(mem: Mem, d: nat, rs: seq<F.Region>, rs': seq<F.Region>, p: nat, frame: nat, user: bool, f: nat)
    requires Ok(mem, d, rs) && p < LOW_PAGES && frame < PAGES && !Present(mem[d][p / 1024])
    requires f < PAGES && !F.Used(rs, f) && F.Valid(rs') && F.Changes(rs, rs', f, true)
    ensures Mapped(mem, d, rs, MapEntry(InsertTable(mem, d, p / 1024, f), f, p % 1024, frame, user), rs', p, frame)
  {
    InsertRefines(mem, d, rs, rs', p / 1024, f);
    var mid := InsertTable(mem, d, p / 1024, f);
    assert Present(mid[d][p / 1024]) && FrameOf(mid[d][p / 1024]) == f;
    MapExisting(mid, d, rs', p, frame, user);
    InsertThenMap(mem, mid, MapEntry(mid, f, p % 1024, frame, user), d, p, frame);
  }

  /** Mapping a page works out, or a table is missing and there is no frame for it. */
  ghost predicate MapResult(mem: Mem, d: nat, rs: seq<F.Region>, p: nat, frame: nat, r: Outcome)
    requires MemOk(mem) && d < PAGES && p < PAGES
  {
    match r
    case None => F.Full(rs) && !Present(mem[d][p / 1024])
    case Some((out, rs')) => Mapped(mem, d, rs, out, rs', p, frame)
  }

  /** Mapping a page changes exactly that page of the page map; the tables stay distinct
      frames, all marked as used, and slot 1023 is not touched. */
  lemma MapPageRefines(mem: Mem, d: nat, rs: seq<F.Region>, p: nat, frame: nat, user: bool)
    requires Ok(mem, d, rs) && p < LOW_PAGES && frame < PAGES
    ensures MapResult(mem, d, rs, p, frame, MapPage(mem, d, rs, p, frame, user))
  {
    if Present(mem[d][p / 1024]) {
      MapExisting(mem, d, rs, p, frame, user);
    } else {
      F.AllocFresh(rs);
      F.AllocFails(rs);
      match F.Alloc(rs)
      case (None, _) =>
      case (Some(f), rs') => MapFresh(mem, d, rs, rs', p, frame, user, f);
    }
  }

  /** A fresh empty table maps nothing, so the page map does not change. */
  lemma InsertRefines(mem: Mem, d: nat, rs: seq<F.Region>, rs': seq<F.Region>, i: nat, f: nat)
    requires Ok(mem, d, rs) && i < SELF && !Present(mem[d][i])
    requires f < PAGES && !F.Used(rs, f) && F.Valid(rs') && F.Changes(rs, rs', f, true)
    ensures var out := InsertTable(mem, d, i, f);
            && Ok(out, d, rs')
            && out[d] == mem[d][i := CreateEntry(f, true, true, true)]
            && out[f] == Zeros()
            && (forall q | 0 <= q < LOW_PAGES :: Walk(out, d, q) == Walk(mem, d, q))
            && (forall g | 0 <= g < PAGES && g != d && g != f :: out[g] == mem[g])
  {
    var out := InsertTable(mem, d, i, f);
    var dir, dir' := mem[d], out[d];
    assert f != d;
    forall k | 0 <= k < SELF && Present(dir[k]) ensures FrameOf(dir[k]) != f { assert F.Used(rs, FrameOf(dir[k])); }
    assert forall k | 0 <= k < SELF && k != i :: dir'[k] == dir[k];
    forall q | 0 <= q < LOW_PAGES ensures Walk(out, d, q) == Walk(mem, d, q) {
      if q / 1024 == i {
        assert out[f][q % 1024] == 0;
      }
    }
  }

  lemma InsertThenMap(mem: Mem, mid: Mem, out: Mem, d: nat, p: nat, frame: nat)
    requires MemOk(mem) && MemOk(mid) && MemOk(out) && d < PAGES && p < LOW_PAGES && frame < PAGES
    requires forall q | 0 <= q < LOW_PAGES :: Walk(mid, d, q) == Walk(mem, d, q)
    requires Remaps(mid, out, d, p, Some(frame)) && OthersKept(mid, out, d)
    requires OthersKept(mem, mid, d) && forall g | 0 <= g < PAGES && Structure(mid[d], d, g) :: Structure(out[d], d, g)
    ensures Remaps(mem, out, d, p, Some(frame)) && OthersKept(mem, out, d)
  {
  }

  // ---------------------------------------------------------------- access rights

  /** What mapping page `p` to `frame` does to the entries: an entry that was present keeps its
      low bits, a new one is present and writeable, and open to user code if `user`; no other
      page's entry changes, and a new table is present, writeable and open. */
  ghost predicate Rights(mem: Mem, out: Mem, d: nat, p: nat, frame: nat, user: bool)
    requires MemOk(mem) && MemOk(out) && d < PAGES && p < LOW_PAGES
  {
    && Entry(out, d, p) == (match Entry(mem, d, p)
                            case Some(e) => Some(frame * 4096 + e % 4096)
                            case None => Some(frame * 4096 + if user then 7 else 3))
    && (forall q | 0 <= q < LOW_PAGES && q != p :: Entry(out, d, q) == Entry(mem, d, q))
    && (forall i | 0 <= i < SELF && Present(out[d][i]) :: out[d][i] == mem[d][i] || out[d][i] % 4096 == 7)
  }

  lemma PutEntry(mem: Mem, d: nat, p: nat, w: Word)
    requires MemOk(mem) && d < PAGES && DirOk(mem[d], d) && p < LOW_PAGES && Present(mem[d][p / 1024])
    ensures var out := Put(mem, FrameOf(mem[d][p / 1024]), p % 1024, w);
            && Entry(out, d, p) == (if Present(w) then Some(w) else None)
            && forall q | 0 <= q < LOW_PAGES && q != p :: Entry(out, d, q) == Entry(mem, d, q)
  {
    var i, j := p / 1024, p % 1024;
    var t := FrameOf(mem[d][i]);
    var out := Put(mem, t, j, w);
    assert t != d;
    forall q | 0 <= q < LOW_PAGES && q != p ensures Entry(out, d, q) == Entry(mem, d, q) {
      var i' := q / 1024;
      if i' != i && Present(mem[d][i']) {
        assert FrameOf(mem[d][i']) != t;
      } else if i' == i {
        assert q % 1024 != j;
      }
    }
  }

  lemma InsertEntries(mem: Mem, d: nat, rs: seq<F.Region>, i: nat, f: nat)
    requires Ok(mem, d, rs) && i < SELF && !Present(mem[d][i]) && f < PAGES && !F.Used(rs, f)
    ensures var out := InsertTable(mem, d, i, f);
            && out[d] == mem[d][i := f * 4096 + 7]
            && forall q | 0 <= q < LOW_PAGES :: Entry(out, d, q) == Entry(mem, d, q)
  {
    var out := InsertTable(mem, d, i, f);
    var dir := mem[d];
    assert f != d;
    forall k | 0 <= k < SELF && Present(dir[k]) ensures FrameOf(dir[k]) != f { assert F.Used(rs, FrameOf(dir[k])); }
    forall q | 0 <= q < LOW_PAGES ensures Entry(out, d, q) == Entry(mem, d, q) {
      if q / 1024 == i {
        assert out[f][q % 1024] == 0;
      }
    }
  }

  lemma MapEntryRights(mem: Mem, d: nat, p: nat, frame: nat, user: bool)
    requires MemOk(mem) && d < PAGES && DirOk(mem[d], d) && p < LOW_PAGES && frame < PAGES
             && Present(mem[d][p / 1024])
    ensures var out := MapEntry(mem, FrameOf(mem[d][p / 1024]), p % 1024, frame, user);
            Rights(mem, out, d, p, frame, user) && out[d] == mem[d]
  {
    var t := FrameOf(mem[d][p / 1024]);
    PutEntry(mem, d, p, NewEntry(mem[t][p % 1024], frame, user));
  }

  lemma RightsAfter(mem: Mem, mid: Mem, out: Mem, d: nat, p: nat, frame: nat, user: bool)
    requires MemOk(mem) && MemOk(mid) && MemOk(out) && d < PAGES && p < LOW_PAGES
    requires forall q | 0 <= q < LOW_PAGES :: Entry(mid, d, q) == Entry(mem, d, q)
    requires forall i | 0 <= i < SELF :: mid[d][i] == mem[d][i] || mid[d][i] % 4096 == 7
    requires Rights(mid, out, d, p, frame, user) && out[d] == mid[d]
    ensures Rights(mem, out, d, p, frame, user)
  {
  }

  lemma MapPageRights(mem: Mem, d: nat, rs: seq<F.Region>, p: nat, frame: nat, user: bool)
    requires Ok(mem, d, rs) && p < LOW_PAGES && frame < PAGES
    ensures var r := MapPage(mem, d, rs, p, frame, user);
            r.Some? ==> Rights(mem, r.value.0, d, p, frame, user)
  {
    if Present(mem[d][p / 1024]) {
      MapEntryRights(mem, d, p, frame, user);
    } else {
      F.AllocFresh(rs);
      match F.Alloc(rs)
      case (None, _) =>
      case (Some(f), rs') =>
        InsertRefines(mem, d, rs, rs', p / 1024, f);
        InsertEntries(mem, d, rs, p / 1024, f);
        var mid := InsertTable(mem, d, p / 1024, f);
        MapEntryRights(mid, d, p, frame, user);
        RightsAfter(mem, mid, MapEntry(mid, f, p % 1024, frame, user), d, p, frame, user);
    }
  }

  /** Every page is closed to user code: its entry is present and writeable and nothing else;
      the tables are open, so that the entries decide. */
  ghost predicate Closed(mem: Mem, d: nat)
    requires MemOk(mem) && d < PAGES
  {
    && (forall q | 0 <= q < LOW_PAGES && Entry(mem, d, q).Some? :: Entry(mem, d, q).value % 4096 == 3)
    && (forall i | 0 <= i < SELF && Present(mem[d][i]) :: mem[d][i] % 4096 == 7)
  }

  lemma RightsClosed(mem: Mem, out: Mem, d: nat, p: nat, frame: nat)
    requires MemOk(mem) && MemOk(out) && d < PAGES && p < LOW_PAGES
    requires Closed(mem, d) && Rights(mem, out, d, p, frame, false)
    ensures Closed(out, d)
  {
    forall q | 0 <= q < LOW_PAGES && Entry(out, d, q).Some? ensures Entry(out, d, q).value % 4096 == 3 {
      if q != p { assert Entry(out, d, q) == Entry(mem, d, q); }
    }
  }

  lemma UnmapPageRefines(mem: Mem, d: nat, rs: seq<F.Region>, p: nat)
    requires Ok(mem, d, rs) && p < LOW_PAGES
    ensures var out := UnmapPage(mem, d, p);
            Extends(mem, d, rs, out, rs) && out[d] == mem[d] && Remaps(mem, out, d, p, None)
  {
    if Present(mem[d][p / 1024]) {
      PutWalk(mem, d, p, 0);
    }
  }
}
