/**
 The memory of the running kernel as an object: the calls of src/common/paging.c and
 src/common/alloc.c update physical memory, the page allocator and the heap's bitmap in place.
 */
module Kernel {
  import opened Common
  import opened PageTables
  import opened Paging
  import opened ActivePaging
  import opened KernelMemory
  import T = TaskDirectory
  import F = FrameAllocator
  import H = PageHeap
  import B = PageBitmap

  class Memory {
    var mem: Mem
    var regions: seq<F.Region>
    var bitmap: seq<bv32>
    const directory: nat
    const heapFirst: nat

    function State(): Machine
      reads this
    {
      Machine(mem, regions, bitmap, directory, heapFirst)
    }

    constructor (m: Machine)
      ensures State() == m
    {
      mem, regions, bitmap, directory, heapFirst := m.mem, m.rs, m.words, m.d, m.first;
    }

    /** `map_page` for a page that is not a free page of the heap.  It changes that page of the
        page map and no other, opens it to user code if it was not mapped, or halts the machine
        for lack of a frame for the table. */
    method MapPage(page: nat, frame: nat) returns (halted: bool)
      requires Valid(State()) && page < LOW_PAGES && frame < PAGES && TableReady(mem, directory, regions, page)
      requires heapFirst <= page < heapFirst + 32 * |bitmap| ==> B.View(bitmap)[page - heapFirst]
      modifies this`mem, this`regions
      ensures !halted ==> Valid(State()) && Mapped(old(mem), directory, old(regions), mem, regions, page, frame)
      ensures !halted ==> Rights(old(mem), mem, directory, page, frame, true)
      ensures halted ==> State() == old(State()) && F.Full(regions) && !Present(mem[directory][page / 1024])
    {
      var r := MapReady(mem, directory, regions, page, frame);
      MapPageRefines(mem, directory, regions, page, frame, true);
      MapPageRights(mem, directory, regions, page, frame, true);
      if r.None? {
        return true;
      }
      HeapUntouched(mem, r.value.0, directory, regions, r.value.1, heapFirst, B.View(bitmap), page, frame);
      mem, regions := r.value.0, r.value.1;
      return false;
    }

    /** `unmap_page`. */
    method UnmapPage(page: nat)
      requires Valid(State()) && page < LOW_PAGES
      modifies this`mem
      ensures Valid(State()) && mem == PageTables.UnmapPage(old(mem), directory, page)
      ensures Remaps(old(mem), mem, directory, page, None)
    {
      T.UnmapStep(State(), page);
      UnmapPageRefines(mem, directory, regions, page);
      mem := UnmapPageActive(mem, directory, page);
    }

    /** `get_page_mapping`. */
    method GetPageMapping(page: nat) returns (addr: nat)
      requires Valid(State()) && page < LOW_PAGES
      ensures addr == match Walk(mem, directory, page) case Some(f) => f * 4096 case None => 0
    {
      addr := ActivePaging.GetPageMapping(mem, directory, page);
    }

    /** `kmalloc_page`. */
    method KmallocPage() returns (r: PageResult)
      requires Valid(State())
      modifies this`mem, this`regions, this`bitmap
      ensures PageOutcome(old(State()), r, State())
    {
      var m;
      ghost var was := State();
      r, m := KernelMemory.KmallocPage(State());
      assert m.d == was.d && m.first == was.first;
      mem, regions, bitmap := m.mem, m.rs, m.words;
    }

    /** `map_phys_obj`. */
    method MapPhysObj(obj: nat, size: nat) returns (r: Option<nat>, ghost page: nat)
      requires Valid(State()) && 1 <= size && obj + size <= 0xFFFF_F000 && RunInside(State(), PagesFor(obj, size))
      modifies this`mem, this`regions, this`bitmap
      ensures r.None? ==> State() == old(State()) && H.NoRun(B.View(bitmap), PagesFor(obj, size))
      ensures r.Some? ==> Attached(old(State()), State(), page, obj / 4096, PagesFor(obj, size))
      ensures r.Some? ==> Shows(mem, directory, r.value, obj, size)
    {
      var m;
      ghost var was := State();
      r, m, page := KernelMemory.MapPhysObj(State(), obj, size);
      assert r.Some? ==> m.d == was.d && m.first == was.first;
      mem, regions, bitmap := m.mem, m.rs, m.words;
    }

    /** `create_task_directory`. */
    method CreateTaskDirectory(user: bool, image: seq<Word>, scrolls: Plan)
        returns (r: Option<nat>, ghost userStack: nat, ghost stack: nat)
      requires Valid(State()) && T.Frameable(regions) && T.Unmarked(mem[directory]) && |image| == 6 && Fits(scrolls)
      modifies this`mem, this`regions, this`bitmap
      ensures r.Some? ==> T.Created(old(State()), State(), r.value, user, userStack, stack, image, scrolls)
      ensures r.None? ==> H.FirstFit(B.View(bitmap), 0).None? || F.Full(regions)
    {
      var m;
      ghost var was := State();
      r, m, userStack, stack := T.CreateTaskDirectory(State(), user, image, scrolls);
      assert r.Some? ==> m.d == was.d && m.first == was.first;
      mem, regions, bitmap := m.mem, m.rs, m.words;
    }
  }

  lemma HeapUntouched(mem: Mem, out: Mem, d: nat, rs: seq<F.Region>, rs': seq<F.Region>, first: nat, marks: seq<bool>,
      page: nat, frame: nat)
    requires MemOk(mem) && d < PAGES && page < LOW_PAGES && HeapReady(mem, d, first, marks) && SelfMapped(mem, d)
    requires first <= page < first + |marks| ==> marks[page - first]
    requires Mapped(mem, d, rs, out, rs', page, frame)
    ensures HeapReady(out, d, first, marks) && SelfMapped(out, d)
  {
    forall q | first <= q < first + |marks|
      ensures Present(out[d][q / 1024]) && (marks[q - first] || Walk(out, d, q) == None)
    {
      assert Present(mem[d][q / 1024]) && (marks[q - first] || Walk(mem, d, q) == None);
    }
  }
}
