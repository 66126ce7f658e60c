/**
 `map_page`, `unmap_page` and `get_page_mapping` of src/common/paging.c with paging on.
 Every load and store goes through a virtual page of the active directory `d`: the tables
 are reached through the loopback addresses, and a new table is zeroed through the page that
 has the number of its frame.
 */
module ActivePaging {
  import opened Common
  import opened PageTables
  import opened Paging
  import F = FrameAllocator

  // ---------------------------------------------------------------- what map_page does

  /** The machine after `map_page`, if it has neither taken a page fault, which stops the
      kernel, nor halted for lack of a frame. */
  datatype Result = Fault | Halt | Done(mem: Mem, rs: seq<F.Region>)

  /** A store through a virtual page; nothing if it faults. */
  function VStore(mem: Mem, d: nat, page: nat, i: nat, w: Word): (out: Option<Mem>)
    requires MemOk(mem) && d < PAGES && page < PAGES && i < ENTRIES
    ensures out.Some? ==> MemOk(out.value)
  {
    match Walk(mem, d, page)
    case None => None
    case Some(g) => Some(Put(mem, g, i, w))
  }

  /** The zeroing loop from word `i` on; each store goes where the page is mapped by then. */
  function ZeroLoop(mem: Mem, d: nat, page: nat, i: nat): (out: Option<Mem>)
    requires MemOk(mem) && d < PAGES && page < PAGES && i <= ENTRIES
    ensures out.Some? ==> MemOk(out.value)
    decreases ENTRIES - i
  {
    if i == ENTRIES then Some(mem)
    else
      match VStore(mem, d, page, i, 0)
      case None => None
      case Some(next) => ZeroLoop(next, d, page, i + 1)
  }

  /** `modify_or_insert_page_structure` through `LOOPBACK_TBL(i)`. */
  function EnterThrough(mem: Mem, d: nat, rs: seq<F.Region>, i: nat, j: nat, frame: nat): Result
    requires MemOk(mem) && d < PAGES && i < SELF && j < ENTRIES && frame < PAGES
  {
    match Walk(mem, d, LoopbackTable(i))
    case None => Fault
    case Some(t) => Done(MapEntry(mem, t, j, frame, true), rs)
  }

  /** The rest of `map_page` once frame `f` is to become the table of slot `i`. */
  function InsertThrough(mem: Mem, d: nat, rs: seq<F.Region>, i: nat, j: nat, frame: nat, f: nat): Result
    requires MemOk(mem) && d < PAGES && i < SELF && j < ENTRIES && frame < PAGES && f < PAGES
  {
    match ZeroLoop(mem, d, f, 0)
    case None => Fault
    case Some(zeroed) =>
      match VStore(zeroed, d, LOOPBACK_DIR, i, CreateEntry(f, true, true, true))
      case None => Fault
      case Some(linked) => EnterThrough(linked, d, rs, i, j, frame)
  }

  /** `map_page`. */
  function MapActive(mem: Mem, d: nat, rs: seq<F.Region>, p: nat, frame: nat): Result
    requires MemOk(mem) && d < PAGES && SelfMapped(mem, d) && p < LOW_PAGES && frame < PAGES && F.Valid(rs)
  {
    if Present(mem[d][p / 1024]) then EnterThrough(mem, d, rs, p / 1024, p % 1024, frame)
    else
      F.AllocFresh(rs);
      match F.Alloc(rs)
      case (None, _) => Halt
      case (Some(f), rs') => InsertThrough(mem, d, rs', p / 1024, p % 1024, frame, f)
  }

  /** The zeroing loop. */
  method ZeroPage(mem: Mem, d: nat, page: nat) returns (out: Option<Mem>)
    requires MemOk(mem) && d < PAGES && page < PAGES
    ensures out == ZeroLoop(mem, d, page, 0)
  {
    out := Some(mem);
    var i := 0;
    while i < ENTRIES && out.Some?
      invariant 0 <= i <= ENTRIES && (out.Some? ==> MemOk(out.value))
      invariant ZeroLoop(mem, d, page, 0) == if out.Some? then ZeroLoop(out.value, d, page, i) else None
    {
      out := VStore(out.value, d, page, i, 0);
      i := i + 1;
    }
  }

  method EnterPage(mem: Mem, d: nat, rs: seq<F.Region>, i: nat, j: nat, frame: nat) returns (r: Result)
    requires MemOk(mem) && d < PAGES && i < SELF && j < ENTRIES && frame < PAGES
    ensures r == EnterThrough(mem, d, rs, i, j, frame)
  {
    if Walk(mem, d, LoopbackTable(i)).None? {
      return Fault;
    }
    var e := Load(mem, d, LoopbackTable(i), j);
    var out: Mem;
    if Present(e) {
      out := Store(mem, d, LoopbackTable(i), j, SetAddr(e, frame));
    } else {
      out := Store(mem, d, LoopbackTable(i), j, CreateEntry(frame, true, true, true));
    }
    return Done(out, rs);
  }

  method InsertTablePage(mem: Mem, d: nat, rs: seq<F.Region>, i: nat, j: nat, frame: nat, f: nat) returns (r: Result)
    requires MemOk(mem) && d < PAGES && i < SELF && j < ENTRIES && frame < PAGES && f < PAGES
    ensures r == InsertThrough(mem, d, rs, i, j, frame, f)
  {
    var zeroed := ZeroPage(mem, d, f);
    if zeroed.None? {
      return Fault;
    }
    var linked := VStore(zeroed.value, d, LOOPBACK_DIR, i, CreateEntry(f, true, true, true));
    if linked.None? {
      return Fault;
    }
    r := EnterPage(linked.value, d, rs, i, j, frame);
  }

  method MapPageActive(mem: Mem, d: nat, rs: seq<F.Region>, p: nat, frame: nat) returns (r: Result)
    requires MemOk(mem) && d < PAGES && SelfMapped(mem, d) && F.Valid(rs) && p < LOW_PAGES && frame < PAGES
    ensures r == MapActive(mem, d, rs, p, frame)
  {
    var i, j := p / 1024, p % 1024;
    Loopback(mem, d, i);
    var pde := Load(mem, d, LOOPBACK_DIR, i);
    if Present(pde) {
      r := EnterPage(mem, d, rs, i, j, frame);
    } else {
      F.AllocFresh(rs);
      var (f, rs') := F.Alloc(rs);
      if f.None? {
        return Halt;
      }
      r := InsertTablePage(mem, d, rs', i, j, frame, f.value);
    }
  }

  // ---------------------------------------------------------------- what the zeroing does

  /** The frame of the table that maps `page`. */
  function TableOf(mem: Mem, d: nat, page: nat): nat
    requires MemOk(mem) && d < PAGES && page < PAGES
  {
    FrameOf(mem[d][page / 1024])
  }

  /** Clearing words of the frame behind a page leaves the page mapped to it, or unmaps it if
      the frame is one of the two that map it. */
  lemma WalkCleared(mem: Mem, cur: Mem, d: nat, page: nat, g: nat, n: nat)
    requires MemOk(mem) && MemOk(cur) && d < PAGES && page < PAGES && n <= ENTRIES
    requires Walk(mem, d, page) == Some(g) && Cleared(mem, cur, g, n) && !(g == d && TableOf(mem, d, page) == d)
    ensures Walk(cur, d, page) == Some(g) || Walk(cur, d, page) == None
    ensures g != d && g != TableOf(mem, d, page) ==> Walk(cur, d, page) == Some(g)
  {
    var i, j, t := page / 1024, page % 1024, TableOf(mem, d, page);
    if g == d {
      assert cur[d][i] == mem[d][i] || cur[d][i] == 0;
      assert cur[t] == mem[t];
    } else {
      assert cur[d] == mem[d];
      assert cur[t][j] == mem[t][j] || (g == t && cur[t][j] == 0);
    }
  }

  /** The loop clears the frame behind the page, or faults because it has unmapped the page. */
  lemma {:induction false} ZeroFrom(mem: Mem, cur: Mem, d: nat, page: nat, g: nat, n: nat)
    requires MemOk(mem) && MemOk(cur) && d < PAGES && page < PAGES && n <= ENTRIES
    requires Walk(mem, d, page) == Some(g) && Cleared(mem, cur, g, n) && !(g == d && TableOf(mem, d, page) == d)
    ensures ZeroLoop(cur, d, page, n) == None || ZeroLoop(cur, d, page, n) == Some(mem[g := Zeros()])
    ensures g != d && g != TableOf(mem, d, page) ==> ZeroLoop(cur, d, page, n) != None
    decreases ENTRIES - n
  {
    if n == ENTRIES {
      ClearedAll(mem, cur, g);
    } else {
      WalkCleared(mem, cur, d, page, g, n);
      if Walk(cur, d, page) == Some(g) {
        ZeroFrom(mem, Put(cur, g, n, 0), d, page, g, n + 1);
      }
    }
  }

  /** After the loop has cleared frame `g`, the entries are made as they should be. */
  function Cleaned(mem: Mem, d: nat, i: nat, j: nat, frame: nat, f: nat, g: nat): (out: Mem)
    requires MemOk(mem) && d < PAGES && i < ENTRIES && j < ENTRIES && frame < PAGES && f < PAGES && g < PAGES
    ensures MemOk(out)
  {
    MapEntry(Put(mem[g := Zeros()], d, i, CreateEntry(f, true, true, true)), f, j, frame, true)
  }

  lemma InsertOutcome(mem: Mem, d: nat, rs: seq<F.Region>, i: nat, j: nat, frame: nat, f: nat, g: nat)
    requires MemOk(mem) && d < PAGES && SelfMapped(mem, d) && i < SELF && j < ENTRIES && frame < PAGES && f < PAGES
    requires Walk(mem, d, f) == Some(g) && !(g == d && TableOf(mem, d, f) == d)
    ensures var r := InsertThrough(mem, d, rs, i, j, frame, f);
            if g == d then r == Fault
            else if g == TableOf(mem, d, f) then r == Fault || r == Done(Cleaned(mem, d, i, j, frame, f, g), rs)
            else r == Done(Cleaned(mem, d, i, j, frame, f, g), rs)
  {
    ZeroFrom(mem, mem, d, f, g, 0);
    var zeroed: Mem := mem[g := Zeros()];
    if g == d {
      assert Walk(zeroed, d, LOOPBACK_DIR) == None;
    } else {
      Loopback(zeroed, d, i);
      Loopback(Put(zeroed, d, i, CreateEntry(f, true, true, true)), d, i);
    }
  }

  // ---------------------------------------------------------------- when that is right

  /** A row of words that works as an empty table for mapping entry `j`. */
  predicate AsIfEmpty(row: seq<Word>, j: nat)
    requires |row| == ENTRIES && j < ENTRIES
  {
    (forall k | 0 <= k < ENTRIES && k != j :: row[k] == 0) && (Present(row[j]) ==> row[j] % 4096 == 7)
  }

  /** The page with the number of the new frame `f` is mapped to that frame, or to an empty one
      while `f` is as good as empty. */
  predicate Zeroable(mem: Mem, d: nat, f: nat, j: nat)
    requires MemOk(mem) && d < PAGES && f < PAGES && j < ENTRIES
  {
    match Walk(mem, d, f)
    case None => false
    case Some(g) => g == f || (mem[g] == Zeros() && AsIfEmpty(mem[f], j))
  }

  /** What `map_page` should do. */
  function Expected(r: Outcome): Result {
    match r
    case None => Halt
    case Some((mem, rs)) => Done(mem, rs)
  }

  lemma NotZeros(row: seq<Word>, k: nat)
    requires |row| == ENTRIES && k < ENTRIES && Present(row[k])
    ensures row != Zeros()
  {
    assert row[k] != Zeros()[k];
  }

  /** A new frame is neither the directory nor its last page number, so that the walk of its
      page does not pass the directory twice. */
  lemma NewFrame(mem: Mem, d: nat, rs: seq<F.Region>, f: nat)
    requires Ok(mem, d, rs) && F.Alloc(rs).0 == Some(f)
    ensures f < PAGES && !Structure(mem[d], d, f)
    ensures Walk(mem, d, f) == Some(d) ==> TableOf(mem, d, f) != d
  {
    F.AllocFresh(rs);
    assert f + 1 < PAGES by {
      var i :| 0 <= i < |rs| && F.In(rs[i], f);
      assert F.Sound(rs[i]);
    }
  }

  /** The frames that map the page of `f` are in use and not empty. */
  lemma StructuresInUse(mem: Mem, d: nat, rs: seq<F.Region>, f: nat, g: nat)
    requires Ok(mem, d, rs) && SelfMapped(mem, d) && f < PAGES && !Structure(mem[d], d, f) && Walk(mem, d, f) == Some(g)
    requires g == d || g == TableOf(mem, d, f)
    ensures g != f && mem[g] != Zeros()
  {
    if g == d {
      NotZeros(mem[d], SELF);
    } else {
      NotZeros(mem[g], f % 1024);
      if f / 1024 < SELF { assert Structure(mem[d], d, g); }
    }
  }

  /** With a new table, `map_page` maps the page and nothing else if and only if `Zeroable`; in
      particular it faults if the page with the number of the new frame is not mapped. */
  lemma MapActiveIff(mem: Mem, d: nat, rs: seq<F.Region>, p: nat, frame: nat, f: nat)
    requires Ok(mem, d, rs) && SelfMapped(mem, d) && p < LOW_PAGES && frame < PAGES
    requires !Present(mem[d][p / 1024]) && F.Alloc(rs).0 == Some(f)
    ensures f < PAGES
    ensures MapActive(mem, d, rs, p, frame) == Expected(MapPage(mem, d, rs, p, frame, true)) <==>
            Zeroable(mem, d, f, p % 1024)
    ensures Walk(mem, d, f) == None ==> MapActive(mem, d, rs, p, frame) == Fault
  {
    NewFrame(mem, d, rs, f);
    var i, j, rs' := p / 1024, p % 1024, F.Alloc(rs).1;
    ExpectedInsert(mem, d, rs, p, frame, f);
    if Walk(mem, d, f).Some? {
      var g := Walk(mem, d, f).value;
      InsertOutcome(mem, d, rs', i, j, frame, f, g);
      if g == d || g == TableOf(mem, d, f) { StructuresInUse(mem, d, rs, f, g); }
      if g != d { InsertSame(mem, d, i, j, frame, f, g); }
    }
  }

  lemma ExpectedInsert(mem: Mem, d: nat, rs: seq<F.Region>, p: nat, frame: nat, f: nat)
    requires Ok(mem, d, rs) && SelfMapped(mem, d) && p < LOW_PAGES && frame < PAGES && f < PAGES
    requires !Present(mem[d][p / 1024]) && F.Alloc(rs).0 == Some(f)
    ensures MapActive(mem, d, rs, p, frame) == InsertThrough(mem, d, F.Alloc(rs).1, p / 1024, p % 1024, frame, f)
    ensures Expected(MapPage(mem, d, rs, p, frame, true)) ==
            Done(Cleaned(mem, d, p / 1024, p % 1024, frame, f, f), F.Alloc(rs).1)
  {
  }

  lemma InsertSame(mem: Mem, d: nat, i: nat, j: nat, frame: nat, f: nat, g: nat)
    requires MemOk(mem) && d < PAGES && i < ENTRIES && j < ENTRIES && frame < PAGES && f < PAGES && g < PAGES
             && f != d && g != d
    ensures Cleaned(mem, d, i, j, frame, f, g) == Cleaned(mem, d, i, j, frame, f, f) <==>
            g == f || (mem[g] == Zeros() && AsIfEmpty(mem[f], j))
  {
    if g != f {
      var a, b := Cleaned(mem, d, i, j, frame, f, g), Cleaned(mem, d, i, j, frame, f, f);
      CleanedRows(mem, d, i, j, frame, f, g);
      CleanedRows(mem, d, i, j, frame, f, f);
      SameRow(mem[f], Zeros(), j, frame);
      assert a[g] == Zeros() && b[g] == mem[g];
      if mem[g] == Zeros() && a[f] == b[f] {
        assert a == b;
      }
    }
  }

  lemma CleanedRows(mem: Mem, d: nat, i: nat, j: nat, frame: nat, f: nat, g: nat)
    requires MemOk(mem) && d < PAGES && i < ENTRIES && j < ENTRIES && frame < PAGES && f < PAGES && g < PAGES
             && f != d && g != d
    ensures var out := Cleaned(mem, d, i, j, frame, f, g);
            && out[d] == mem[d][i := CreateEntry(f, true, true, true)]
            && (forall h | 0 <= h < PAGES && h != d && h != f :: out[h] == if h == g then Zeros() else mem[h])
            && var row := if g == f then Zeros() else mem[f];
               out[f] == row[j := NewEntry(row[j], frame, true)]
  {
  }

  lemma SameRow(row: seq<Word>, zeros: seq<Word>, j: nat, frame: nat)
    requires |row| == ENTRIES && zeros == Zeros() && j < ENTRIES && frame < PAGES
    ensures row[j := NewEntry(row[j], frame, true)] == zeros[j := NewEntry(zeros[j], frame, true)] <==>
            AsIfEmpty(row, j)
  {
    var a, b := row[j := NewEntry(row[j], frame, true)], zeros[j := NewEntry(zeros[j], frame, true)];
    assert b[j] == frame * 4096 + 7;
    if AsIfEmpty(row, j) {
      assert a == b;
    }
    if a == b {
      assert a[j] == b[j];
      forall k | 0 <= k < ENTRIES && k != j ensures row[k] == 0 { assert a[k] == b[k]; }
    }
  }

  /** A machine with directory frame 1 and one table, frame 2, that maps page 8 to frame 9;
      frame 9 holds data, and frame 8 is the next free frame. */
  function Unlucky(): (m: (Mem, seq<F.Region>))
    ensures MemOk(m.0) && F.Valid(m.1)
    ensures m.0[1] == Zeros()[0 := CreateEntry(2, true, true, true)][SELF := CreateEntry(1, true, true, true)]
    ensures m.0[2] == Zeros()[8 := CreateEntry(9, true, true, true)] && m.0[9] == Zeros()[0 := 5]
    ensures m.1 == [F.Region(0, seq(16, k => k < 8))]
  {
    var dir: seq<Word> := Zeros()[0 := CreateEntry(2, true, true, true)][SELF := CreateEntry(1, true, true, true)];
    var table: seq<Word> := Zeros()[8 := CreateEntry(9, true, true, true)];
    var data: seq<Word> := Zeros()[0 := 5];
    (seq(PAGES, g => if g == 1 then dir else if g == 2 then table else if g == 9 then data else Zeros()),
     [F.Region(0, seq(16, k => k < 8))])
  }

  lemma UnluckyState()
    ensures var (mem, rs) := Unlucky();
            && Ok(mem, 1, rs) && SelfMapped(mem, 1) && F.Alloc(rs).0 == Some(8)
            && Walk(mem, 1, 8) == Some(9) && !Present(mem[1][1])
  {
    var (mem, rs) := Unlucky();
    assert F.In(rs[0], 1) && F.In(rs[0], 2);
    forall k | 0 <= k < 8 ensures !F.Fits(rs[0], k) { assert rs[0].marks[k]; }
    assert F.Fits(rs[0], 8);
  }

  /** There, mapping page 1024, whose table is missing, clears the data in frame 9. */
  lemma WrongFrameCleared()
    ensures var (mem, rs) := Unlucky();
            && Ok(mem, 1, rs) && SelfMapped(mem, 1) && mem[9] != Zeros()
            && MapActive(mem, 1, rs, 1024, 10).Done? && MapActive(mem, 1, rs, 1024, 10).mem[9] == Zeros()
            && MapActive(mem, 1, rs, 1024, 10) != Expected(MapPage(mem, 1, rs, 1024, 10, true))
  {
    var (mem, rs) := Unlucky();
    UnluckyState();
    assert mem[9][0] != Zeros()[0];
    MapActiveIff(mem, 1, rs, 1024, 10, 8);
    ExpectedInsert(mem, 1, rs, 1024, 10, 8);
    InsertOutcome(mem, 1, F.Alloc(rs).1, 1, 0, 10, 8, 9);
    CleanedRows(mem, 1, 1, 0, 10, 8, 9);
  }

  /** The page's table is there, or the next free frame can be made one. */
  ghost predicate TableReady(mem: Mem, d: nat, rs: seq<F.Region>, p: nat)
    requires MemOk(mem) && d < PAGES && F.Valid(rs) && p < PAGES
  {
    Present(mem[d][p / 1024]) || forall f | F.Alloc(rs).0 == Some(f) :: f < PAGES && Zeroable(mem, d, f, p % 1024)
  }

  /** `map_page` does what it should if and only if `TableReady`, whatever the state. */
  lemma ReadyIff(mem: Mem, d: nat, rs: seq<F.Region>, p: nat, frame: nat)
    requires Ok(mem, d, rs) && SelfMapped(mem, d) && p < LOW_PAGES && frame < PAGES
    ensures MapActive(mem, d, rs, p, frame) == Expected(MapPage(mem, d, rs, p, frame, true)) <==>
            TableReady(mem, d, rs, p)
  {
    if Present(mem[d][p / 1024]) {
      Loopback(mem, d, p / 1024);
    } else if F.Alloc(rs).0.Some? {
      MapActiveIff(mem, d, rs, p, frame, F.Alloc(rs).0.value);
    }
  }

  /** `map_page`, where that is so. */
  method MapReady(mem: Mem, d: nat, rs: seq<F.Region>, p: nat, frame: nat) returns (r: Outcome)
    requires Ok(mem, d, rs) && SelfMapped(mem, d) && p < LOW_PAGES && frame < PAGES && TableReady(mem, d, rs, p)
    ensures r == MapPage(mem, d, rs, p, frame, true)
  {
    ReadyIff(mem, d, rs, p, frame);
    var result := MapPageActive(mem, d, rs, p, frame);
    r := if result.Done? then Some((result.mem, result.rs)) else None;
  }

  /** `unmap_page`. */
  method UnmapPageActive(mem: Mem, d: nat, p: nat) returns (out: Mem)
    requires MemOk(mem) && d < PAGES && SelfMapped(mem, d) && p < LOW_PAGES
    ensures out == UnmapPage(mem, d, p)
  {
    var i := p / 1024;
    Loopback(mem, d, i);
    var pde := Load(mem, d, LOOPBACK_DIR, i);
    if !Present(pde) {
      return mem;
    }
    out := Store(mem, d, LoopbackTable(i), p % 1024, 0);
  }

  /** `get_page_mapping`: the address that the page is mapped to, and 0 if it is not mapped. */
  method GetPageMapping(mem: Mem, d: nat, p: nat) returns (addr: nat)
    requires MemOk(mem) && d < PAGES && SelfMapped(mem, d) && p < LOW_PAGES
    ensures addr == match Walk(mem, d, p) case Some(f) => f * 4096 case None => 0
  {
    var i := p / 1024;
    Loopback(mem, d, i);
    var pde := Load(mem, d, LOOPBACK_DIR, i);
    if !Present(pde) {
      return 0;
    }
    var e := Load(mem, d, LoopbackTable(i), p % 1024);
    if !Present(e) {
      return 0;
    }
    return e - e % 4096;
  }

  // ---------------------------------------------------------------- every reachable state

  /** What can happen to memory and frames once paging is on. */
  datatype Op =
    | Map(page: nat, frame: nat)
    | Unmap(page: nat)
    | Alloc
    | Status(addr: nat, free: bool)
    | Write(frame: nat, index: nat, word: Word)

  ghost predicate Allowed(mem: Mem, d: nat, rs: seq<F.Region>, op: Op)
    requires MemOk(mem) && d < PAGES && F.Valid(rs)
  {
    match op
    case Map(p, frame) => p < LOW_PAGES && frame < PAGES && TableReady(mem, d, rs, p)
    case Unmap(p) => p < LOW_PAGES
    case Alloc => true
    case Status(addr, free) => free ==> forall q | F.Target(rs, addr) == Some(q) :: !Structure(mem[d], d, q)
    case Write(frame, index, _) => frame < PAGES && index < ENTRIES && !Structure(mem[d], d, frame)
  }

  ghost function Apply(mem: Mem, d: nat, rs: seq<F.Region>, op: Op): (r: Outcome)
    requires MemOk(mem) && d < PAGES && F.Valid(rs) && Allowed(mem, d, rs, op)
  {
    match op
    case Map(p, frame) => MapPage(mem, d, rs, p, frame, true)
    case Unmap(p) => Some((UnmapPage(mem, d, p), rs))
    case Alloc => if F.Alloc(rs).0.None? then None else Some((mem, F.Alloc(rs).1))
    case Status(addr, free) => Some((mem, F.SetStatus(rs, addr, free)))
    case Write(frame, index, word) => Some((Put(mem, frame, index, word), rs))
  }

  ghost predicate Recursive(d: nat, r: Outcome) {
    r.Some? ==> Ok(r.value.0, d, r.value.1) && SelfMapped(r.value.0, d)
  }

  lemma MapKeeps(mem: Mem, d: nat, rs: seq<F.Region>, p: nat, frame: nat)
    requires Ok(mem, d, rs) && SelfMapped(mem, d) && p < LOW_PAGES && frame < PAGES
    ensures Recursive(d, MapPage(mem, d, rs, p, frame, true))
  {
    MapPageRefines(mem, d, rs, p, frame, true);
  }

  lemma AllocKeeps(mem: Mem, d: nat, rs: seq<F.Region>)
    requires Ok(mem, d, rs)
    ensures Ok(mem, d, F.Alloc(rs).1)
  {
    F.AllocFresh(rs);
  }

  lemma StatusKeeps(mem: Mem, d: nat, rs: seq<F.Region>, addr: nat, free: bool)
    requires Ok(mem, d, rs) && (free ==> forall q | F.Target(rs, addr) == Some(q) :: !Structure(mem[d], d, q))
    ensures Ok(mem, d, F.SetStatus(rs, addr, free))
  {
    F.SetStatusFacts(rs, addr, free);
  }

  /** A store to a frame that is no paging structure changes no mapping. */
  lemma WriteKeeps(mem: Mem, d: nat, rs: seq<F.Region>, f: nat, i: nat, w: Word)
    requires Ok(mem, d, rs) && f < PAGES && i < ENTRIES && !Structure(mem[d], d, f)
    ensures var out := Put(mem, f, i, w);
            Ok(out, d, rs) && out[d] == mem[d] && forall q | 0 <= q < LOW_PAGES :: Walk(out, d, q) == Walk(mem, d, q)
  {
    var out := Put(mem, f, i, w);
    forall q | 0 <= q < LOW_PAGES ensures Walk(out, d, q) == Walk(mem, d, q) { WalkKept(mem, out, d, f, q); }
  }

  lemma ApplyKeeps(mem: Mem, d: nat, rs: seq<F.Region>, op: Op)
    requires Ok(mem, d, rs) && SelfMapped(mem, d) && Allowed(mem, d, rs, op)
    ensures Recursive(d, Apply(mem, d, rs, op))
  {
    match op
    case Map(p, frame) => MapKeeps(mem, d, rs, p, frame);
    case Unmap(p) => UnmapPageRefines(mem, d, rs, p);
    case Alloc => AllocKeeps(mem, d, rs);
    case Status(addr, free) => StatusKeeps(mem, d, rs, addr, free);
    case Write(frame, index, word) => WriteKeeps(mem, d, rs, frame, index, word);
  }

  /** `states` is a run that starts as `init_paging` leaves things. */
  ghost predicate Run(d: nat, ops: seq<Op>, states: seq<(Mem, seq<F.Region>)>) {
    && |states| == |ops| + 1 && d < PAGES
    && (forall k | 0 <= k < |states| :: MemOk(states[k].0) && F.Valid(states[k].1))
    && (exists rs, scrolls :: Initialised(rs, scrolls, d, states[0].0, states[0].1))
    && (forall k | 0 <= k < |ops| ::
          && Allowed(states[k].0, d, states[k].1, ops[k])
          && Apply(states[k].0, d, states[k].1, ops[k]) == Some(states[k + 1]))
  }

  lemma {:induction false} RunKeeps(d: nat, ops: seq<Op>, states: seq<(Mem, seq<F.Region>)>, k: nat)
    requires Run(d, ops, states) && k < |states|
    ensures Ok(states[k].0, d, states[k].1) && SelfMapped(states[k].0, d)
  {
    if k > 0 {
      RunKeeps(d, ops, states, k - 1);
      ApplyKeeps(states[k - 1].0, d, states[k - 1].1, ops[k - 1]);
    }
  }

  /** In every state reached from `init_paging` the loopback addresses reach the directory
      and its tables, the tables are distinct frames in use, and mapping or unmapping a page
      changes the page map at that page only. */
  lemma ReachableRecursive(d: nat, ops: seq<Op>, states: seq<(Mem, seq<F.Region>)>, k: nat, i: nat)
    requires Run(d, ops, states) && k < |states| && i < ENTRIES
    ensures var mem := states[k].0;
            && Ok(mem, d, states[k].1)
            && Walk(mem, d, LOOPBACK_DIR) == Some(d)
            && Walk(mem, d, LoopbackTable(i)) == if Present(mem[d][i]) then Some(FrameOf(mem[d][i])) else None
  {
    RunKeeps(d, ops, states, k);
    Loopback(states[k].0, d, i);
  }

  lemma ReachableStep(d: nat, ops: seq<Op>, states: seq<(Mem, seq<F.Region>)>, k: nat)
    requires Run(d, ops, states) && k < |ops|
    ensures var (mem, out) := (states[k].0, states[k + 1].0);
            match ops[k]
            case Map(p, frame) => Remaps(mem, out, d, p, Some(frame))
            case Unmap(p) => Remaps(mem, out, d, p, None)
            case _ => forall q | 0 <= q < LOW_PAGES :: Walk(out, d, q) == Walk(mem, d, q)
  {
    RunKeeps(d, ops, states, k);
    var (mem, rs) := states[k];
    match ops[k]
    case Map(p, frame) => MapPageRefines(mem, d, rs, p, frame, true);
    case Unmap(p) => UnmapPageRefines(mem, d, rs, p);
    case Alloc =>
    case Status(p, free) =>
    case Write(frame, index, word) => WriteKeeps(mem, d, rs, frame, index, word);
  }
}
