/** The smallest machine on which a page table is missing: one free frame, and a directory as
    the boot code leaves it. */
module OneFrame {
  import opened Common
  import opened LittleEndian
  import opened PageTables
  import opened FrameAllocator
  import opened VirtualMemory
  import opened PageRuns
  import opened HeapPages
  import KernelHeap
  import HeapLayout
  import opened Division
  import AnonymousMaps

  const KERNEL_HEAP_START: Word32 := 0xD000_0000
  const KERNEL_HEAP_SIZE: Word32 := 0x0080_0000

  /** Slots 0 and 768 have tables, in frames 3 and 4. */
  function BootEntry(i: nat): Word32 {
    if i == 0 then 0x3003 else if i == 768 then 0x4003 else 0
  }

  function BootDirectory(): (pd: seq<Word32>)
    ensures |pd| == ENTRIES && forall i :: 0 <= i < ENTRIES ==> pd[i] == BootEntry(i)
  {
    seq(ENTRIES, i requires 0 <= i < ENTRIES => BootEntry(i))
  }

  /** After vmm_init, with the directory in frame 2. */
  function Directory(): (pd: seq<Word32>)
    ensures |pd| == ENTRIES
  {
    BootDirectory()[RECURSIVE := TableEntry(0x2000, 0)]
  }

  /** The first 4 MB, page by page. */
  function FirstPages(): (t: seq<Word32>)
    ensures |t| == ENTRIES && forall k :: 0 <= k < ENTRIES ==> t[k] == k * PAGE + 3
  {
    seq(ENTRIES, k requires 0 <= k < ENTRIES => k * PAGE + 3)
  }

  function BootFrames(): (fs: seq<seq<Word32>>)
    ensures |fs| == 257 && forall f :: 0 <= f < 257 ==> fs[f] == if f == 3 || f == 4 then FirstPages() else EmptyTable()
  {
    seq(257, f requires 0 <= f < 257 => if f == 3 || f == 4 then FirstPages() else EmptyTable())
  }

  function BootMemory(): (mem: Memory)
    ensures forall f: nat :: f in mem <==> f < 257
    ensures forall f :: f in mem ==> mem[f] == if f == 3 || f == 4 then FirstPages() else EmptyTable()
  {
    var fs := BootFrames();
    map f: nat | f < |fs| :: fs[f]
  }

  lemma KernelPage(k: nat)
    requires k < ENTRIES
    ensures !User(k * PAGE + 3)
  {
    LowFlags(k, 3);
  }

  lemma BootGood()
    ensures Good(Directory(), BootMemory(), {256})
    ensures forall i :: HasTable(Directory(), i) ==> i == 0 || i == 768 || i == RECURSIVE
  {
    var pd, mem := Directory(), BootMemory();
    assert FrameOf(pd[0]) == 3 && FrameOf(pd[768]) == 4 && FrameOf(pd[RECURSIVE]) == 2;
    assert !Present(0) by { ZeroAbsent(); }
    hide TableEntry, Present, FrameOf, User;
    forall k | 0 <= k < ENTRIES
      ensures !User(FirstPages()[k])
    {
      KernelPage(k);
    }
    assert forall i :: HasTable(pd, i) ==> i == 0 || i == 768 || i == RECURSIVE;
  }

  /** Booted with 257 frames, of which the kernel and the first megabyte leave one. */
  method Boot() returns (vmm: Vmm)
    ensures fresh(vmm) && fresh(vmm.pd) && fresh(vmm.pmm) && fresh(vmm.pmm.bitmap)
    ensures vmm.Valid() && vmm.pmm.FreeSet() == {256} && vmm.pd[..] == Directory()
  {
    hide Good, TableEntry, HasTable, BootEntry, BootMemory, KernelEnd, MemorySize, PageTables.Lookup;
    BootGood();
    OneLeft();
    var pmm := OnePmm();
    var pd := new Word32[ENTRIES](i => BootEntry(i));
    assert pd[..] == BootDirectory();
    vmm := new Vmm(pmm, pd, 0x2000, BootMemory());
    assert vmm.pd[..] == Directory();
  }

  method OnePmm() returns (pmm: Pmm)
    ensures fresh(pmm) && fresh(pmm.bitmap) && pmm.Valid() && pmm.FreeSet() == {256}
  {
    hide KernelEnd, MemorySize;
    OneLeft();
    pmm := new Pmm(true, 4, 0x1000);
    assert pmm.bitmap.Length == 9;
    hide Pmm.FreeSet;
    assert pmm.FreeSet() == {256};
  }

  /** ALIGN_UP of x is a, if a is aligned and the next multiple. */
  lemma AlignUpIs(x: nat, align: nat, q: nat)
    requires 0 < align < U32_LIMIT && align * q - align < x <= align * q && x + align <= U32_LIMIT
    ensures HeapLayout.AlignUp(x, align) == align * q
  {
    var y := x + (align - 1);
    WrapSmall(y);
    DivIs(y, align, q, y - align * q);
  }

  lemma OneLeft()
    ensures MemorySize(true, 4) / PAGE == 257 && KernelEnd(0x1000, 9) == 0x2000
  {
    hide HeapLayout.AlignUp;
    AlignUpIs(0x1024, PAGE, 2);
    assert Wrap32(0x1000 + 9 * 4) == 0x1024;
    assert Wrap32((4 + 1024) * 1024) == 257 * PAGE;
  }

  /** A page in a slot without a table starves when one frame is free. */
  lemma OneFrameStarves(pd: seq<Word32>, free: set<nat>, first: nat)
    requires |pd| == ENTRIES && |free| == 1 && !HasTable(pd, first / ENTRIES)
    ensures Starves(pd, free, first, 0)
  {
    NeededNone(pd, first);
  }

  lemma Unmapped(vmm: Vmm, p: nat)
    requires vmm.Valid() && vmm.pd[..] == Directory() && p < PAGES && p / ENTRIES != 0 && p / ENTRIES != 768
    ensures !HasTable(vmm.pd[..], p / ENTRIES) && vmm.Space()[p] == vmm.Translate(p) == None
  {
    hide Good, Lookup, Directory;
    BootGood();
    assert !HasTable(Directory(), p / ENTRIES);
    NotPresent(vmm.pd[..], vmm.mem, p / ENTRIES);
  }

  /** The first kmalloc hands out a pointer to a page that is not mapped. */
  method FirstAllocation(memory: seq<Byte>) returns (heap: KernelHeap.Heap, ptr: Word32)
    requires |memory| == U32_LIMIT
    ensures ptr == KERNEL_HEAP_START + HeapLayout.HEADER && heap.vmm.Valid() && !heap.Valid()
    ensures heap.vmm.Translate(PageOf(ptr)) == None && heap.vmm.pmm.FreeSet() == {}
  {
    hide Good, Starves, HasTable, Directory, HeapLayout.AlignUp, HeapLayout.Reserved, PageOf, Needed, Own, Lookup,
      Pmm.Valid, Pmm.FreeSet, Vmm.Space, KernelHeap.Heap.Kept, InUseKept;
    var vmm := Boot();
    FirstPlaces();
    Unmapped(vmm, 0xD_0000);
    heap := new KernelHeap.Heap(vmm, KERNEL_HEAP_START, KERNEL_HEAP_SIZE, memory);
    OneFrameStarves(vmm.pd[..], vmm.pmm.FreeSet(), 0xD_0000);
    Starting(heap);
    ptr := heap.KMalloc(1);
  }

  lemma Starting(heap: KernelHeap.Heap)
    requires heap.vmm.pd.Length == ENTRIES && Starves(heap.vmm.pd[..], heap.vmm.pmm.FreeSet(), 0xD_0000, 0)
    requires heap.blocks == [] && heap.heapEnd == KERNEL_HEAP_START
    requires heap.heapMax == KERNEL_HEAP_START + KERNEL_HEAP_SIZE
    ensures heap.Outruns(1) && heap.Grows(16) && heap.NewEnd(40) == KERNEL_HEAP_START + PAGE
  {
    hide Starves, HeapLayout.AlignUp, HeapLayout.Reserved, PageOf;
    FirstPlaces();
  }

  lemma FirstPlaces()
    ensures HeapLayout.AlignUp(KERNEL_HEAP_START, 16) == KERNEL_HEAP_START
    ensures HeapLayout.Reserved(1) == 16
    ensures HeapLayout.AlignUp(KERNEL_HEAP_START + 40, PAGE) == KERNEL_HEAP_START + PAGE
    ensures PageOf(KERNEL_HEAP_START) == 0xD_0000 && PageOf(KERNEL_HEAP_START + PAGE) == 0xD_0001
    ensures PageOf(KERNEL_HEAP_START + 24) == 0xD_0000 && 0xD_0000 / ENTRIES == 832
  {
    hide HeapLayout.AlignUp, PageOf;
    PlacesAt(KERNEL_HEAP_START, 0xD_0000);
    assert Wrap32(5) == 5;
    AlignUpIs(5, 16, 1);
  }

  lemma PlacesAt(start: Word32, q: nat)
    requires 0 < start == PAGE * q && start + 2 * PAGE <= U32_LIMIT
    ensures HeapLayout.AlignUp(start, 16) == start && HeapLayout.AlignUp(start + 40, PAGE) == start + PAGE
    ensures PageOf(start) == PageOf(start + 24) == q && PageOf(start + PAGE) == q + 1
  {
    hide HeapLayout.AlignUp;
    AlignUpIs(start, 16, 256 * q);
    AlignUpIs(start + 40, PAGE, q + 1);
    DivIs(start, PAGE, q, 0);
    DivIs(start + 24, PAGE, q, 24);
    DivIs(start + PAGE, PAGE, q + 1, 0);
  }

  /** The first mmap faults: its one page has a frame, and no table. */
  method FirstMapping() returns (r: AnonymousMaps.Result)
    ensures r == AnonymousMaps.Fault
  {
    hide Good, Starves, HasTable, Directory, AnonymousMaps.Ends, Needed, Lookup, AnonymousMaps.Areas, Pmm.Valid,
      Pmm.FreeSet, Vmm.Space;
    var vmm := Boot();
    FirstRange();
    Unmapped(vmm, 0x4_0000);
    var maps := new AnonymousMaps.Mmap(vmm);
    OneFrameStarves(vmm.pd[..], vmm.pmm.FreeSet(), PageOf(maps.next));
    AllAreasFree(maps.vmas[..]);
    ghost var fs;
    r, fs := maps.MMap(1, 3, 0x20, true);
  }

  lemma AllAreasFree(vs: seq<AnonymousMaps.Vma>)
    requires AnonymousMaps.Areas(vs) == map[] && vs != []
    ensures AnonymousMaps.FreeArea(vs, 0) == 0
  {
    assert vs[0].inUse ==> 0 in AnonymousMaps.Areas(vs);
  }

  lemma FirstRange()
    ensures AnonymousMaps.EndOf(AnonymousMaps.USER_MMAP_START, 1) == 0x4000_1000
    ensures AnonymousMaps.PageCount(AnonymousMaps.USER_MMAP_START, 0x4000_1000) == 1
    ensures PageOf(AnonymousMaps.USER_MMAP_START) == 0x4_0000 && 0x4_0000 / ENTRIES == 256
  {
  }
}
