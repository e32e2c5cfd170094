/** Anonymous memory mappings: all or nothing, and undone by munmap. */
module AnonymousMaps {
  import opened Common
  import opened LittleEndian
  import opened PageTables
  import opened FrameAllocator
  import opened VirtualMemory
  import opened PageRuns
  import FrameBitmap
  import HeapLayout

  const MAX_VMAS := 32
  const USER_MMAP_START := 0x4000_0000
  const USER_MMAP_END := 0x8000_0000
  const MAP_FAILED := 0xFFFF_FFFF
  const MAP_SHARED := 1
  const EINVAL := -22
  const PAGE_FLAGS := 7

  datatype Vma = Vma(start: Word32, end: Word32, prot: int, flags: nat, inUse: bool)

  /** (length + 0xFFF) & ~0xFFF. */
  function RoundPage(length: Word32): Word32 {
    HeapLayout.AlignUp(length, PAGE)
  }

  function EndOf(start: Word32, length: Word32): Word32 {
    Wrap32(start + RoundPage(length))
  }

  /** How many pages the loops from start to end visit. */
  function PageCount(start: Word32, end: Word32): nat {
    if start < end then (end - start + PAGE - 1) / PAGE else 0
  }

  /** The rounded range covers the length asked for exactly when nothing wraps; otherwise the
      call can report success with no page mapped. */
  lemma RangeCovers(start: Word32, length: Word32)
    requires start % PAGE == 0 && 0 < length
    ensures start + length <= EndOf(start, length) <==> start + length <= 0xFFFF_F000
  {
  }

  /** And then it ends less than a page later, on a page boundary, and the loop visits every page. */
  lemma RangeIs(start: Word32, length: Word32)
    requires start % 4096 == 0 && 0 < length && start + length <= 0xFFFF_F000
    ensures var end := EndOf(start, length);
      && end % 4096 == 0 && start + length <= end < start + length + 4096
      && PageCount(start, end) * 4096 == end - start
  {
    RoundUp(length);
    hide RoundPage;
    WrapSmall(start + RoundPage(length));
    WholePages(start, RoundPage(length));
  }

  lemma WholePages(start: nat, up: nat)
    requires start % 4096 == 0 && up % 4096 == 0
    ensures (start + up) % 4096 == 0 && (up + 4095) / 4096 * 4096 == up
  {
  }

  lemma RoundUp(length: Word32)
    requires length <= 0xFFFF_F000
    ensures RoundPage(length) % 4096 == 0 && length <= RoundPage(length) < length as int + 4096
  {
  }

  lemma RangeWraps()
    ensures EndOf(USER_MMAP_START, 0xC000_0000) == 0 && PageCount(USER_MMAP_START, 0) == 0
  {
  }

  /** An address space with n pages from first on unmapped. */
  ghost function Without(space: seq<Option<Word32>>, first: nat, n: nat): (r: seq<Option<Word32>>)
    requires first + n <= |space|
    ensures |r| == |space|
    ensures forall p: nat :: p < |space| ==> r[p] == if first <= p < first + n then None else space[p]
  {
    seq(|space|, p requires 0 <= p < |space| => if first <= p < first + n then None else space[p])
  }

  /** The frames the n pages from first on map to. */
  ghost function MappedFrames(space: seq<Option<Word32>>, first: nat, n: nat): set<nat>
    requires first + n <= |space|
  {
    set p | first <= p < first + n && space[p].Some? :: FrameOf(space[p].value)
  }

  /** The first slot in use whose area holds addr, or MAX_VMAS. */
  function FindArea(vs: seq<Vma>, addr: Word32, i: nat): (k: nat)
    requires i <= |vs|
    ensures i <= k <= |vs|
    ensures k < |vs| ==> Holds(vs[k], addr)
    ensures forall j :: i <= j < k ==> !Holds(vs[j], addr)
    decreases |vs| - i
  {
    if i == |vs| || Holds(vs[i], addr) then i else FindArea(vs, addr, i + 1)
  }

  predicate Holds(v: Vma, addr: Word32) {
    v.inUse && v.start <= addr < v.end
  }

  function FreeArea(vs: seq<Vma>, i: nat): (k: nat)
    requires i <= |vs|
    ensures i <= k <= |vs|
    ensures k < |vs| ==> !vs[k].inUse
    ensures forall j :: i <= j < k ==> vs[j].inUse
    decreases |vs| - i
  {
    if i == |vs| || !vs[i].inUse then i else FreeArea(vs, i + 1)
  }

  /** The areas in use, by slot. */
  ghost function Areas(vs: seq<Vma>): map<nat, Vma> {
    map i: nat | i < |vs| && vs[i].inUse :: vs[i]
  }

  lemma FrameBounds(f: nat)
    requires f < U32_LIMIT / PAGE
    ensures f * PAGE < U32_LIMIT && FrameOf(f * PAGE) == f
  {
  }

  /** The frames given to the pages were cleared. */
  ghost predicate Cleared(mem: Memory, fs: seq<nat>) {
    forall f :: f in fs ==> f in mem && mem[f] == EmptyTable()
  }

  /** Part way through the rollback: the first j pages are unmapped and their frames free. */
  ghost predicate PartBack(space: seq<Option<Word32>>, free: set<nat>, mem: Memory, pd: seq<Word32>,
                           space0: seq<Option<Word32>>, free0: set<nat>, first: nat, fs: seq<nat>, j: nat) {
    && first + |fs| <= |space0| && j <= |fs| && (forall i :: 0 <= i < |fs| ==> fs[i] < U32_LIMIT / PAGE)
    && space == Without(WithFrames(space0, first, fs, PAGE_FLAGS), first, j)
    && Distinct(fs) && Frames(fs) <= free0 && free == free0 - Frames(fs[j..])
    && |pd| == ENTRIES
    && forall i :: 0 <= i < |fs| ==> fs[i] in mem && !IsTable(pd, fs[i])
  }

  /** The rollback gives back the pages' frames, not those of the tables made. */
  lemma PartBackStart(s: Snapshot, s0: Snapshot, first: nat, fs: seq<nat>)
    requires Run(s, s0, first, fs, PAGE_FLAGS)
    ensures var base := s0.free - TableFrames(s.pd, MissingSlots(s0.pd, first, |fs|));
      PartBack(s.space, s.free, s.mem, s.pd, s0.space, base, first, fs, 0)
  {
    hide IsTable, PageEntry, TablesAdded, TableFrames, MissingSlots, InUseKept;
    assert fs[0..] == fs;
  }

  /** The j-th page still has its entry and its frame is neither free nor a table. */
  lemma PartBackAt(space: seq<Option<Word32>>, free: set<nat>, mem: Memory, pd: seq<Word32>,
                   space0: seq<Option<Word32>>, free0: set<nat>, first: nat, fs: seq<nat>, j: nat)
    requires PartBack(space, free, mem, pd, space0, free0, first, fs, j) && j < |fs|
    ensures first + j < |space| && fs[j] * PAGE < U32_LIMIT
    ensures space[first + j] == Some(PageEntry(fs[j] * PAGE, PAGE_FLAGS))
    ensures fs[j] in free0 && fs[j] in mem && !IsTable(pd, fs[j])
    ensures FrameOf(PageEntry(fs[j] * PAGE, PAGE_FLAGS)) == fs[j]
  {
    assert fs[j] in Frames(fs);
    FrameBounds(fs[j]);
    hide FrameOf, PageEntry;
  }

  lemma PartBackNext(space: seq<Option<Word32>>, free: set<nat>, mem: Memory, pd: seq<Word32>,
                     space0: seq<Option<Word32>>, free0: set<nat>, first: nat, fs: seq<nat>, j: nat, mem': Memory)
    requires PartBack(space, free, mem, pd, space0, free0, first, fs, j) && j < |fs|
    requires forall f :: f in mem && !IsTable(pd, f) ==> f in mem'
    ensures first + j < |space|
    ensures PartBack(space[first + j := None], free + {fs[j]}, mem', pd, space0, free0, first, fs, j + 1)
  {
    hide IsTable, PageEntry;
    assert fs[j] in Frames(fs);
    assert fs[j..] == [fs[j]] + fs[j + 1..];
    forall i | j < i < |fs|
      ensures fs[i] != fs[j]
    {
    }
    assert Frames(fs[j..]) == Frames(fs[j + 1..]) + {fs[j]};
    assert fs[j] !in Frames(fs[j + 1..]);
    var w := WithFrames(space0, first, fs, PAGE_FLAGS);
    assert space[first + j := None] == Without(w, first, j + 1);
  }

  lemma PartBackEnd(space: seq<Option<Word32>>, free: set<nat>, mem: Memory, pd: seq<Word32>,
                    space0: seq<Option<Word32>>, free0: set<nat>, first: nat, fs: seq<nat>)
    requires PartBack(space, free, mem, pd, space0, free0, first, fs, |fs|)
    requires forall p: nat :: first <= p < first + |fs| ==> space0[p] == None
    ensures space == space0 && free == free0
  {
  }

  /** The i-th page of a range. */
  lemma PageAt(start: Word32, end: Word32, i: nat)
    requires start % PAGE == 0 && end % PAGE == 0
    ensures i < PageCount(start, end) <==> start + i * PAGE < end
    ensures start + i * PAGE < U32_LIMIT ==> PageOf(start + i * PAGE) == PageOf(start) + i
    ensures start < end ==> PageOf(start) + PageCount(start, end) == PageOf(end)
  {
  }

  // ---- munmap ----

  /** What munmap leaves of the area it found. */
  function Trimmed(v: Vma, start: Word32, end: Word32): Vma {
    if start == v.start && end == v.end then v.(inUse := false)
    else if start == v.start then v.(start := end)
    else if end == v.end then v.(end := start)
    else v
  }

  /** An area before and after the range from start to end of it is unmapped: given up, cut at the
      front, cut at the back, or, for a range in the middle, as it was. */
  ghost predicate CutOff(v: Vma, w: Vma, start: Word32, end: Word32) {
    && w.prot == v.prot && w.flags == v.flags
    && (start == v.start && end == v.end ==> !w.inUse && w.start == v.start && w.end == v.end)
    && (start == v.start && end != v.end ==> w.inUse == v.inUse && w.start == end && w.end == v.end)
    && (start != v.start && end == v.end ==> w.inUse == v.inUse && w.start == v.start && w.end == start)
    && (start != v.start && end != v.end ==> w == v)
  }

  /** Every frame mapped by the n pages is real memory that holds no table, and not frame 0. */
  ghost predicate Givable(space: seq<Option<Word32>>, mem: Memory, pd: seq<Word32>, first: nat, n: nat) {
    && first + n <= |space| && |pd| == ENTRIES
    && forall p: nat :: first <= p < first + n && space[p].Some? ==>
      var f := FrameOf(space[p].value); f != 0 && f in mem && !IsTable(pd, f)
  }

  lemma GivableAt(space: seq<Option<Word32>>, mem: Memory, pd: seq<Word32>, first: nat, n: nat, i: nat)
    requires Givable(space, mem, pd, first, n) && i < n
    ensures first + i < |space| && |pd| == ENTRIES
    ensures space[first + i].Some? ==> var f := FrameOf(space[first + i].value); f != 0 && f in mem && !IsTable(pd, f)
  {
  }

  /** Frames that hold no table keep their contents. */
  ghost predicate DataKept(mem: Memory, pd: seq<Word32>, mem': Memory) {
    |pd| == ENTRIES && forall f :: f in mem && !IsTable(pd, f) ==> f in mem' && mem'[f] == mem[f]
  }

  lemma DataKeptTwice(mem0: Memory, pd: seq<Word32>, mem1: Memory, mem2: Memory)
    requires DataKept(mem0, pd, mem1) && DataKept(mem1, pd, mem2)
    ensures DataKept(mem0, pd, mem2)
  {
    hide IsTable;
  }

  lemma GivableKept(space: seq<Option<Word32>>, mem: Memory, mem': Memory, pd: seq<Word32>, first: nat, n: nat)
    requires Givable(space, mem, pd, first, n) && DataKept(mem, pd, mem')
    ensures Givable(space, mem', pd, first, n)
  {
    hide FrameOf, IsTable;
  }

  lemma FrameTimes(phys: nat, f: nat)
    ensures phys == f * PAGE ==> phys / PAGE == f
  {
  }

  /** The frames given back by unmapping n pages: those the allocator knows, if private. */
  ghost function GivenBack(space: seq<Option<Word32>>, first: nat, n: nat, total: nat, private: bool): set<nat>
    requires first + n <= |space|
  {
    set f | f in MappedFrames(space, first, n) && f < total && private
  }

  /** Frames of a shared area stay with it. */
  lemma SharedKeeps(free: set<nat>, space: seq<Option<Word32>>, first: nat, n: nat, total: nat, flags: nat)
    requires first + n <= |space|
    ensures flags % 2 == 1 ==> free + GivenBack(space, first, n, total, flags % 2 == 0) == free
  {
  }

  lemma GivenBackNext(space: seq<Option<Word32>>, first: nat, i: nat, total: nat, private: bool)
    requires first + i < |space|
    ensures GivenBack(space, first, i + 1, total, private) == GivenBack(space, first, i, total, private) +
      (if private && space[first + i].Some? && FrameOf(space[first + i].value) < total
        then {FrameOf(space[first + i].value)} else {})
  {
    hide FrameOf;
    var a, b := MappedFrames(space, first, i), MappedFrames(space, first, i + 1);
    assert b == a + (if space[first + i].Some? then {FrameOf(space[first + i].value)} else {});
  }

  lemma WithoutNext(space: seq<Option<Word32>>, first: nat, i: nat)
    requires first + i < |space|
    ensures Without(space, first, i)[first + i := None] == Without(space, first, i + 1)
    ensures space[first + i] == None ==> Without(space, first, i) == Without(space, first, i + 1)
  {
  }

  lemma EndAligned(start: Word32, length: Word32)
    requires start % PAGE == 0
    ensures EndOf(start, length) % PAGE == 0
  {
  }

  /** Taking a slot and leaving it restores the areas. */
  lemma AreasBack(vs: seq<Vma>, vs': seq<Vma>, k: nat)
    requires k < |vs| == |vs'| && !vs[k].inUse && !vs'[k].inUse
    requires forall i :: 0 <= i < |vs| && i != k ==> vs'[i] == vs[i]
    ensures Areas(vs') == Areas(vs)
  {
  }

  lemma NothingYet(space: seq<Option<Word32>>, first: nat, total: nat, private: bool)
    requires first <= |space|
    ensures Without(space, first, 0) == space && GivenBack(space, first, 0, total, private) == {}
  {
  }

  /** Unmapping what a successful mmap mapped gives everything back but the tables made. */
  lemma RunGives(s: Snapshot, s0: Snapshot, first: nat, fs: seq<nat>, total: nat)
    requires Run(s, s0, first, fs, PAGE_FLAGS) && 0 !in s0.free && forall f :: f in s0.free ==> f < total
    requires forall p: nat :: first <= p < first + |fs| ==> s0.space[p] == None
    ensures first + |fs| <= |s.space| && Givable(s.space, s.mem, s.pd, first, |fs|)
    ensures Without(s.space, first, |fs|) == s0.space
    ensures s.free + GivenBack(s.space, first, |fs|, total, true) ==
            s0.free - TableFrames(s.pd, MissingSlots(s0.pd, first, |fs|))
  {
    hide IsTable, PageEntry, TablesAdded, TableFrames, MissingSlots, InUseKept;
    forall p: nat | first <= p < first + |fs|
      ensures s.space[p].Some? && FrameOf(s.space[p].value) == fs[p - first] && fs[p - first] in Frames(fs)
    {
      FrameBounds(fs[p - first]);
    }
    hide FrameOf;
    forall f | f in Frames(fs)
      ensures f in MappedFrames(s.space, first, |fs|)
    {
      var i :| 0 <= i < |fs| && fs[i] == f;
      assert FrameOf(s.space[first + i].value) == f;
    }
    assert MappedFrames(s.space, first, |fs|) == Frames(fs);
  }

  /** The new area is the one found at its start. */
  lemma FoundNew(vs: seq<Vma>, k: nat, addr: Word32, v: Vma)
    requires k < |vs| && Holds(v, addr) && forall i :: 0 <= i < |vs| ==> !Holds(vs[i], addr)
    ensures FindArea(vs[k := v], addr, 0) == k
  {
    var vs' := vs[k := v];
    assert vs'[k] == v;
  }

  /** How the page loop of sys_mmap ends: with every page mapped, with everything put back, or
      with a store to a page that has no table because the last frame went to the page. */
  datatype Outcome = Mapped | PutBack | Faulted

  /** The state each ending leaves; fs are the frames of the pages mapped until then. */
  ghost predicate Ends(r: Outcome, s: Snapshot, s0: Snapshot, first: nat, n: nat, fs: seq<nat>) {
    && |s0.pd| == ENTRIES
    && match r
       case Mapped => |fs| == n && Run(s, s0, first, fs, PAGE_FLAGS) && Cleared(s.mem, fs)
       case PutBack =>
         && |fs| < n && |s0.free| == Needed(s0.pd, first, |fs|) && s.space == s0.space
         && GivenButTables(s, s0, first, |fs|)
       case Faulted =>
         && |fs| < n && Starves(s0.pd, s0.free, first, |fs|) && s.free == {}
         && exists f :: Run(s.(free := {f}), s0, first, fs, PAGE_FLAGS)
  }

  /** Of the frames free at first only those of the n pages' missing tables are gone. */
  ghost predicate GivenButTables(s: Snapshot, s0: Snapshot, first: nat, n: nat) {
    && |s0.pd| == ENTRIES && TablesAdded(s0.pd, s.pd, MissingSlots(s0.pd, first, n))
    && var made := TableFrames(s.pd, MissingSlots(s0.pd, first, n));
      made <= s0.free && |made| == |MissingSlots(s0.pd, first, n)| && s.free == s0.free - made
  }

  /** Every page of a mapped run is for the user to read and write. */
  lemma RunWritable(s: Snapshot, s0: Snapshot, first: nat, fs: seq<nat>)
    requires Run(s, s0, first, fs, PAGE_FLAGS)
    ensures first + |fs| <= |s.space|
    ensures forall p: nat :: first <= p < first + |fs| ==> s.space[p].Some? && s.space[p].value % 8 == 7
  {
    hide IsTable, TablesAdded, TableFrames, MissingSlots, InUseKept, PageEntry;
    forall p: nat | first <= p < first + |fs|
      ensures s.space[p].Some? && s.space[p].value % 8 == 7
    {
      FrameBounds(fs[p - first]);
      PageEntryBits(fs[p - first] * PAGE, 7);
    }
  }

  lemma WritableNow(vmm: Vmm, s0: Snapshot, addr: Word32, n: nat, fs: seq<nat>)
    requires vmm.Valid() && Ends(Mapped, Snap(vmm), s0, PageOf(addr), n, fs)
    ensures |fs| == n && forall p: nat :: addr / 4096 <= p < addr / 4096 + n && p < PAGES ==>
      vmm.Translate(p).Some? && vmm.Translate(p).value % 8 == 7
  {
    RunWritable(Snap(vmm), s0, PageOf(addr), fs);
    hide Run, Lookup;
    forall p: nat | addr / 4096 <= p < addr / 4096 + n && p < PAGES
      ensures vmm.Translate(p) == vmm.Space()[p]
    {
    }
  }

  /** Which ending it is can be told beforehand. */
  lemma EndsExactly(r: Outcome, s: Snapshot, s0: Snapshot, first: nat, n: nat, fs: seq<nat>)
    requires Ends(r, s, s0, first, n, fs)
    ensures r.Mapped? <==> Needed(s0.pd, first, n) <= |s0.free|
    ensures r.Faulted? <==> exists i: nat :: i < n && Starves(s0.pd, s0.free, first, i)
  {
    hide Run, Needed, Cleared, GivenButTables, Starves;
    forall i: nat | i < n && Starves(s0.pd, s0.free, first, i)
      ensures r.Faulted? && |s0.free| < Needed(s0.pd, first, n)
    {
      StarvesHere(s0.pd, s0.free, first, i, |fs|);
      StarvesHere(s0.pd, s0.free, first, i, n);
      if r.Mapped? { RunCount(s, s0, first, fs, PAGE_FLAGS); }
    }
    match r
    case Mapped => RunCount(s, s0, first, fs, PAGE_FLAGS);
    case PutBack => NeededGrows(s0.pd, first, |fs|, n);
    case Faulted => assert Starves(s0.pd, s0.free, first, |fs|);
  }

  /** What sys_mmap does: return an address or MAP_FAILED, or fault. */
  datatype Result = Returned(addr: Word32) | Fault

  lemma FreeBelow(pmm: Pmm)
    ensures forall f :: f in pmm.FreeSet() ==> f < pmm.totalFrames
  {
    FreeInRange(pmm.bitmap[..], pmm.totalFrames);
  }

  lemma NoneCleared(mem: Memory)
    ensures Cleared(mem, [])
  {
  }

  lemma RunInUse(s: Snapshot, s0: Snapshot, first: nat, fs: seq<nat>)
    requires Run(s, s0, first, fs, PAGE_FLAGS)
    ensures InUseKept(s0.mem, s0.free, s.pd, s.mem)
  {
  }

  /** The page after a run is what it was. */
  lemma RunBeyond(s: Snapshot, s0: Snapshot, first: nat, fs: seq<nat>)
    requires Run(s, s0, first, fs, PAGE_FLAGS) && first + |fs| < PAGES
    ensures |s.space| == |s0.space| == PAGES && s.space[first + |fs|] == s0.space[first + |fs|]
  {
    hide TablesAdded, TableFrames, MissingSlots, InUseKept, IsTable;
  }

  lemma RunMade(s: Snapshot, s0: Snapshot, first: nat, fs: seq<nat>)
    requires Run(s, s0, first, fs, PAGE_FLAGS)
    ensures first + |fs| <= PAGES && |s0.pd| == ENTRIES == |s.pd|
    ensures TablesAdded(s0.pd, s.pd, MissingSlots(s0.pd, first, |fs|))
    ensures var made := TableFrames(s.pd, MissingSlots(s0.pd, first, |fs|));
      made <= s0.free && |made| == |MissingSlots(s0.pd, first, |fs|)|
  {
    hide TablesAdded, TableFrames, MissingSlots, InUseKept, IsTable;
  }

  function Ending(r: Result): Outcome {
    if r == Fault then Faulted else if r == Returned(MAP_FAILED) then PutBack else Mapped
  }

  lemma ClearedNext(mem: Memory, mem': Memory, pd: seq<Word32>, fs: seq<nat>, f: nat)
    requires Cleared(mem, fs) && |pd| == ENTRIES && f in mem' && mem'[f] == EmptyTable()
    requires forall g :: g in mem && g != f && !IsTable(pd, g) ==> g in mem' && mem'[g] == mem[g]
    requires forall g :: g in fs ==> !IsTable(pd, g)
    ensures Cleared(mem', fs + [f])
  {
    hide IsTable;
  }

  /** Clearing a frame of the run's own keeps the run. */
  lemma RunCleared(s: Snapshot, s': Snapshot, s0: Snapshot, first: nat, fs: seq<nat>, f: nat)
    requires Run(s, s0, first, fs, PAGE_FLAGS) && f in fs
    requires s'.space == s.space && s'.free == s.free && s'.pd == s.pd && s'.mem == s.mem[f := EmptyTable()]
    ensures Run(s', s0, first, fs, PAGE_FLAGS)
  {
    hide IsTable, PageEntry, TablesAdded, TableFrames, MissingSlots;
    assert f in Frames(fs);
  }

  /** The last page of a run: where it maps to, and that the frame is no table. */
  lemma RunLast(s: Snapshot, s0: Snapshot, first: nat, fs: seq<nat>, f: nat)
    requires Run(s, s0, first, fs + [f], PAGE_FLAGS)
    ensures first + |fs| < PAGES && f * PAGE < U32_LIMIT
      && s.space[first + |fs|] == Some(PageEntry(f * PAGE, PAGE_FLAGS))
    ensures FrameOf(PageEntry(f * PAGE, PAGE_FLAGS)) == f
    ensures f in s.mem && !IsTable(s.pd, f) && f in s0.free
    ensures forall g :: g in fs ==> !IsTable(s.pd, g)
  {
    hide PageEntry, IsTable, TablesAdded, TableFrames, MissingSlots, InUseKept;
    var gs := fs + [f];
    assert gs[|fs|] == f && f in Frames(gs);
    FrameBounds(f);
    forall g | g in fs
      ensures !IsTable(s.pd, g)
    {
      var i :| 0 <= i < |fs| && fs[i] == g;
      assert gs[i] == g;
    }
  }

  class Mmap {
    const vmm: Vmm
    const vmas: array<Vma>
    var next: Word32

    ghost predicate Valid()
      reads this, vmas, vmm, vmm.pd, vmm.pmm, vmm.pmm.bitmap
    {
      vmm.Valid() && vmas.Length == MAX_VMAS && next % PAGE == 0 && next <= USER_MMAP_END
    }

    constructor (vmm: Vmm)
      requires vmm.Valid()
      ensures Valid() && this.vmm == vmm && fresh(vmas) && Areas(vmas[..]) == map[]
      ensures next == 0x4000_0000 && vmas.Length == 32
    {
      this.vmm := vmm;
      vmas := new Vma[MAX_VMAS](_ => Vma(0, 0, 0, 0, false));
      next := USER_MMAP_START;
    }

    /** One page more: more is false when no frame is left for it, and fault is true when the
        clearing store would hit it unmapped. */
    method BackOne(page: Word32, ghost s0: Snapshot, ghost first: nat, ghost fs: seq<nat>)
      returns (more: bool, fault: bool, ghost frame: nat)
      requires vmm.Valid() && Run(Snap(vmm), s0, first, fs, PAGE_FLAGS) && Cleared(vmm.mem, fs)
      requires PageOf(page) == first + |fs| < PAGES && |s0.space| == PAGES && s0.space[first + |fs|] == None
      modifies vmm, vmm.pd, vmm.pmm, vmm.pmm.bitmap
      ensures vmm.Valid()
      ensures !more ==>
        !fault && Run(Snap(vmm), s0, first, fs, PAGE_FLAGS) && |s0.free| == Needed(s0.pd, first, |fs|)
      ensures fault ==>
        && Starves(s0.pd, s0.free, first, |fs|) && Snap(vmm).free == {}
        && Run(Snap(vmm).(free := {frame}), s0, first, fs, PAGE_FLAGS)
      ensures more && !fault ==>
        Run(Snap(vmm), s0, first, fs + [frame], PAGE_FLAGS) && Cleared(vmm.mem, fs + [frame])
    {
      hide FrameOf, Good, Lookup, PageEntry, PageOf, HasTable, IsTable, Run, Needed, Starves, Cleared, Pmm.Valid,
        Pmm.FreeSet, Vmm.Space;
      ghost var s, mapped := Snap(vmm), false;
      var phys;
      RunCount(s, s0, first, fs, PAGE_FLAGS);
      phys, mapped := RunOne(vmm, page, PAGE_FLAGS, s0, first, fs);
      frame := FrameOf(phys);
      if phys == 0 { return false, false, frame; }
      assert vmm.Space()[PageOf(page)] == vmm.Translate(PageOf(page));
      if !mapped { RunBeyond(s, s0, first, fs); }
      if mapped { RunLast(Snap(vmm), s0, first, fs, frame); }
      var there := vmm.IsMapped(page);
      if !there {
        assert Snap(vmm).(free := {frame}) == s;
        return true, true, frame;
      }
      ghost var mem := vmm.mem;
      ghost var s' := Snap(vmm);
      vmm.ZeroPage(page);
      RunCleared(s', Snap(vmm), s0, first, fs + [frame], frame);
      ClearedNext(s.mem, vmm.mem, vmm.pd[..], fs, frame);
      return true, false, frame;
    }

    /** Frames for every page of [start, end), or everything put back but the tables made, or a
        fault. */
    method MapRange(start: Word32, end: Word32) returns (r: Outcome, ghost fs: seq<nat>)
      requires vmm.Valid() && start % PAGE == 0 && end % PAGE == 0
      requires PageOf(start) <= PAGES && PageOf(end) <= PAGES
      requires forall p: nat :: PageOf(start) <= p < PageOf(start) + PageCount(start, end) && p < PAGES ==>
        vmm.Space()[p] == None
      modifies vmm, vmm.pd, vmm.pmm, vmm.pmm.bitmap
      ensures vmm.Valid() && InUseKept(old(vmm.mem), old(vmm.pmm.FreeSet()), vmm.pd[..], vmm.mem)
      ensures Ends(r, Snap(vmm), old(Snap(vmm)), PageOf(start), PageCount(start, end), fs)
      ensures var pd, free, first, n := old(vmm.pd[..]), old(vmm.pmm.FreeSet()), PageOf(start), PageCount(start, end);
        && (r.Mapped? <==> Needed(pd, first, n) <= |free|)
        && (r.Faulted? <==> exists i: nat :: i < n && Starves(pd, free, first, i))
    {
      hide InUseKept, Run, Good, PageEntry, FrameOf, HasTable, PageOf, PageCount, Needed, Starves, Cleared, Pmm.Valid,
        Pmm.FreeSet, Vmm.Space, GivenButTables;
      ghost var s0, first, n := Snap(vmm), PageOf(start), PageCount(start, end);
      fs := [];
      RunStart(s0, first, PAGE_FLAGS);
      ZeroInUse(s0.pd, s0.mem, s0.free);
      FreeBelow(vmm.pmm);
      NoneCleared(vmm.mem);
      PageAt(start, end, 0);
      var page := start;
      while page < end
        invariant vmm.Valid() && Run(Snap(vmm), s0, first, fs, PAGE_FLAGS) && Cleared(vmm.mem, fs)
        invariant page == start + |fs| * PAGE && |fs| <= n
        decreases end - page
      {
        PageAt(start, end, |fs|);
        PageAt(start, end, |fs| + 1);
        var more, fault, frame := BackOne(page, s0, first, fs);
        if !more {
          Rollback(start, page, s0, fs);
          EndsExactly(PutBack, Snap(vmm), s0, first, n, fs);
          return PutBack, fs;
        }
        if fault {
          RunInUse(Snap(vmm).(free := {frame}), s0, first, fs);
          EndsExactly(Faulted, Snap(vmm), s0, first, n, fs);
          return Faulted, fs;
        }
        fs := fs + [frame];
        page := page + PAGE;
      }
      PageAt(start, end, |fs|);
      RunInUse(Snap(vmm), s0, first, fs);
      EndsExactly(Mapped, Snap(vmm), s0, first, n, fs);
      return Mapped, fs;
    }

    ghost predicate PartBackNow(space0: seq<Option<Word32>>, free0: set<nat>, first: nat, fs: seq<nat>, j: nat)
      reads this, vmm, vmm.pd, vmm.pmm, vmm.pmm.bitmap
    {
      && vmm.Valid() && |space0| == PAGES
      && PartBack(vmm.Space(), vmm.pmm.FreeSet(), vmm.mem, vmm.pd[..], space0, free0, first, fs, j)
    }

    method UndoOne(p: Word32, ghost mem0: Memory, ghost free: set<nat>, ghost space0: seq<Option<Word32>>,
                   ghost free0: set<nat>, ghost first: nat, ghost fs: seq<nat>, ghost j: nat)
      requires InUseKept(mem0, free, vmm.pd[..], vmm.mem) && free0 <= free
      requires PartBackNow(space0, free0, first, fs, j) && j < |fs| && PageOf(p) == first + j < PAGES && p % PAGE == 0
      requires 0 !in free0 && forall f :: f in free0 ==> f < vmm.pmm.totalFrames
      modifies vmm, vmm.pmm, vmm.pmm.bitmap
      ensures PartBackNow(space0, free0, first, fs, j + 1) && InUseKept(mem0, free, vmm.pd[..], vmm.mem)
    {
      hide InUseKept, PartBack, Good, PageEntry, FrameOf, PageOf, Lookup, IsTable, Vmm.Space, Vmm.Translate, Pmm.Valid,
        Pmm.FreeSet;
      ghost var space, now, mem := vmm.Space(), vmm.pmm.FreeSet(), vmm.mem;
      PartBackAt(space, now, mem, vmm.pd[..], space0, free0, first, fs, j);
      assert vmm.Space()[PageOf(p)] == vmm.Translate(PageOf(p));
      var ph := vmm.GetPhysical(p);
      assert ph == fs[j] * PAGE && ph / PAGE == fs[j];
      vmm.UnmapPage(p);
      MoreFree(vmm.pd[..], vmm.mem, now, fs[j]);
      vmm.pmm.FreeFrame(ph);
      PartBackNext(space, now, mem, vmm.pd[..], space0, free0, first, fs, j, vmm.mem);
      InUseNext(mem0, free, vmm.pd[..], mem, vmm.pd[..], vmm.mem, {}, fs[j]);
    }

    /** Unmap the pages of [start, page) and give their frames back. */
    method Rollback(start: Word32, page: Word32, ghost s0: Snapshot, ghost fs: seq<nat>)
      requires vmm.Valid() && Run(Snap(vmm), s0, PageOf(start), fs, PAGE_FLAGS)
      requires page == start + |fs| * PAGE && start % PAGE == 0
      requires 0 !in s0.free && forall f :: f in s0.free ==> f < vmm.pmm.totalFrames
      requires |s0.space| == PAGES
      requires forall p: nat :: PageOf(start) <= p < PageOf(start) + |fs| && p < PAGES ==> s0.space[p] == None
      modifies vmm, vmm.pmm, vmm.pmm.bitmap
      ensures vmm.Valid() && vmm.Space() == s0.space && GivenButTables(Snap(vmm), s0, PageOf(start), |fs|)
      ensures InUseKept(s0.mem, s0.free, vmm.pd[..], vmm.mem)
    {
      hide InUseKept, Run, PartBack, Good, PageEntry, FrameOf, PageOf, Vmm.Space, Vmm.Translate, Pmm.Valid,
        Pmm.FreeSet, TablesAdded, TableFrames, MissingSlots;
      ghost var j, first := 0, PageOf(start);
      RunMade(Snap(vmm), s0, first, fs);
      ghost var base := s0.free - TableFrames(vmm.pd[..], MissingSlots(s0.pd, first, |fs|));
      var p := start;
      PartBackStart(Snap(vmm), s0, first, fs);
      RunInUse(Snap(vmm), s0, first, fs);
      while p < page
        invariant p == start + j * PAGE && j <= |fs| && PartBackNow(s0.space, base, first, fs, j)
        invariant InUseKept(s0.mem, s0.free, vmm.pd[..], vmm.mem)
        decreases page - p
      {
        PageAt(start, page, j);
        UndoOne(p, s0.mem, s0.free, s0.space, base, first, fs, j);
        p := p + PAGE;
        j := j + 1;
      }
      PartBackEnd(vmm.Space(), vmm.pmm.FreeSet(), vmm.mem, vmm.pd[..], s0.space, base, first, fs);
    }

    /** sys_mmap gets as far as its page loop. */
    ghost predicate Accepts(length: Word32, hasProc: bool)
      reads this, vmas
    {
      length != 0 && EndOf(next, length) <= USER_MMAP_END && hasProc && FreeArea(vmas[..], 0) < vmas.Length
    }

    /** That is: below 0x80000000 at its rounded end, for a process with a free one of 32 areas. */
    lemma AcceptsIs(length: Word32, hasProc: bool)
      requires vmas.Length == MAX_VMAS
      ensures Accepts(length, hasProc) <==>
        && length != 0 && EndOf(next, length) <= 0x8000_0000 && hasProc
        && exists i :: 0 <= i < 32 && !vmas[i].inUse
    {
      hide EndOf;
      var k := FreeArea(vmas[..], 0);
      assert k < 32 ==> !vmas[k].inUse;
    }

    /** sys_mmap of an anonymous range at an address the kernel picks.  hasProc says whether
        the caller has a table of areas. */
    method MMap(length: Word32, prot: int, flags: nat, hasProc: bool) returns (r: Result, ghost fs: seq<nat>)
      requires Valid()
      requires forall p: nat :: PageOf(next) <= p < PageOf(next) + PageCount(next, EndOf(next, length)) && p < PAGES ==>
        vmm.Space()[p] == None
      modifies this, vmas, vmm, vmm.pd, vmm.pmm, vmm.pmm.bitmap
      ensures Valid() && InUseKept(old(vmm.mem), old(vmm.pmm.FreeSet()), vmm.pd[..], vmm.mem)
      ensures next == old(if length == 0 || EndOf(next, length) > USER_MMAP_END then next else EndOf(next, length))
      ensures var pd, free, n := old(vmm.pd[..]), old(vmm.pmm.FreeSet()),
        PageCount(old(next), old(EndOf(next, length)));
        && (r == Fault <==>
              old(Accepts(length, hasProc)) && exists i: nat :: i < n && Starves(pd, free, PageOf(old(next)), i))
        && (r == Returned(old(next)) <==> old(Accepts(length, hasProc)) && Needed(pd, PageOf(old(next)), n) <= |free|)
        && (old(Accepts(length, hasProc)) ==> Ends(Ending(r), Snap(vmm), old(Snap(vmm)), PageOf(old(next)), n, fs))
      ensures r == Returned(old(next)) ==>
        forall p: nat :: old(next) / 4096 <= p < old(next) / 4096 + |fs| && p < PAGES ==>
          vmm.Translate(p).Some? && vmm.Translate(p).value % 8 == 7
      ensures r == Fault || r == Returned(old(next)) || r == Returned(MAP_FAILED)
      ensures !old(Accepts(length, hasProc)) ==> r == Returned(0xFFFF_FFFF) && Snap(vmm) == old(Snap(vmm))
      ensures if r == Returned(MAP_FAILED) then Areas(vmas[..]) == old(Areas(vmas[..]))
        else vmas[..] == old(vmas[..][FreeArea(vmas[..], 0) := Vma(next, EndOf(next, length), prot, flags, true)])
    {
      hide Run, Ends, Needed, Starves, InUseKept, Good, PageEntry, FrameOf, HasTable, PageOf, PageCount, EndOf,
        Vmm.Space, Vmm.Translate, Pmm.Valid, Pmm.FreeSet;
      SameInUse(vmm.mem, vmm.pmm.FreeSet(), vmm.pd[..]);
      fs := [];
      if length == 0 { return Returned(MAP_FAILED), fs; }
      var vaddr, end := next, EndOf(next, length);
      EndAligned(next, length);
      if end > USER_MMAP_END { return Returned(MAP_FAILED), fs; }
      next := end;
      ghost var vs := vmas[..];
      var k := CreateArea(vaddr, end, prot, flags, hasProc);
      if k == MAX_VMAS { return Returned(MAP_FAILED), fs; }
      PagesBelow(vaddr);
      PagesBelow(end);
      var ending;
      ending, fs := MapRange(vaddr, end);
      match ending
      case Mapped =>
        WritableNow(vmm, old(Snap(vmm)), vaddr, PageCount(vaddr, end), fs);
        return Returned(vaddr), fs;
      case PutBack =>
        vmas[k] := vmas[k].(inUse := false);
        AreasBack(vs, vmas[..], k);
        return Returned(MAP_FAILED), fs;
      case Faulted => return Fault, fs;
    }

    /** vma_create; MAX_VMAS when no slot can be had. */
    method CreateArea(start: Word32, end: Word32, prot: int, flags: nat, hasProc: bool) returns (k: nat)
      requires vmas.Length == MAX_VMAS
      modifies vmas
      ensures k == if hasProc then FreeArea(old(vmas[..]), 0) else MAX_VMAS
      ensures vmas[..] == if k < MAX_VMAS then old(vmas[..])[k := Vma(start, end, prot, flags, true)] else old(vmas[..])
    {
      if !hasProc { return MAX_VMAS; }
      k := 0;
      while k < MAX_VMAS
        invariant k <= MAX_VMAS && vmas[..] == old(vmas[..])
        invariant FreeArea(vmas[..], k) == FreeArea(vmas[..], 0)
      {
        if !vmas[k].inUse {
          vmas[k] := Vma(start, end, prot, flags, true);
          return;
        }
        k := k + 1;
      }
    }

    /** vma_find. */
    method FindVma(addr: Word32, hasProc: bool) returns (k: nat)
      requires vmas.Length == MAX_VMAS
      ensures k == if hasProc then FindArea(vmas[..], addr, 0) else MAX_VMAS
      ensures k < 32 ==> vmas[k].inUse && vmas[k].start <= addr < vmas[k].end
      ensures hasProc ==> forall j :: 0 <= j < k ==> !(vmas[j].inUse && vmas[j].start <= addr < vmas[j].end)
    {
      if !hasProc { return MAX_VMAS; }
      k := 0;
      while k < MAX_VMAS
        invariant k <= MAX_VMAS && FindArea(vmas[..], addr, k) == FindArea(vmas[..], addr, 0)
      {
        if vmas[k].inUse && addr >= vmas[k].start && addr < vmas[k].end { return; }
        k := k + 1;
      }
    }

    /** sys_munmap. */
    method MUnmap(addr: Word32, length: Word32, hasProc: bool) returns (r: int)
      requires Valid() && EndOf(addr, length) <= PAGES * PAGE && PageOf(addr) <= PAGES
      requires Givable(vmm.Space(), vmm.mem, vmm.pd[..], PageOf(addr), PageCount(addr, EndOf(addr, length)))
      modifies vmas, vmm, vmm.pmm, vmm.pmm.bitmap
      ensures Valid() && (r == 0 || r == -22) && DataKept(old(vmm.mem), vmm.pd[..], vmm.mem)
      ensures r == 0 <==> addr % 4096 == 0 && length != 0 && hasProc && FindArea(old(vmas[..]), addr, 0) < 32
      ensures r != 0 ==>
        && vmas[..] == old(vmas[..]) && vmm.Space() == old(vmm.Space())
        && vmm.pmm.FreeSet() == old(vmm.pmm.FreeSet())
      ensures r == 0 ==>
        var end, k, n := EndOf(addr, length), FindArea(old(vmas[..]), addr, 0), PageCount(addr, EndOf(addr, length));
        && vmas[..] == old(vmas[..])[k := Trimmed(old(vmas[..])[k], addr, end)]
        && CutOff(old(vmas[..])[k], vmas[k], addr, end)
        && PageOf(addr) + n <= PAGES
        && vmm.Space() == Without(old(vmm.Space()), PageOf(addr), n)
        && vmm.pmm.FreeSet() == old(vmm.pmm.FreeSet()) +
          GivenBack(old(vmm.Space()), PageOf(addr), n, vmm.pmm.totalFrames, old(vmas[..])[k].flags % 2 == 0)
        && (old(vmas[..])[k].flags % 2 == 1 ==> vmm.pmm.FreeSet() == old(vmm.pmm.FreeSet()))
    {
      hide Good, HasTable, PageOf, PageCount, EndOf, Givable, GivenBack, Without, Vmm.Space, Vmm.Translate, Pmm.Valid,
        Pmm.FreeSet;
      if addr % PAGE != 0 || length == 0 { return EINVAL; }
      var end := EndOf(addr, length);
      EndAligned(addr, length);
      var k := FindVma(addr, hasProc);
      if k == MAX_VMAS { return EINVAL; }
      ghost var free, space := vmm.pmm.FreeSet(), vmm.Space();
      UnmapRange(addr, end, vmas[k].flags % 2 != MAP_SHARED);
      SharedKeeps(free, space, PageOf(addr), PageCount(addr, end), vmm.pmm.totalFrames, vmas[k].flags);
      vmas[k] := Trimmed(vmas[k], addr, end);
      return 0;
    }

    ghost predicate UnmappedNow(space0: seq<Option<Word32>>, free0: set<nat>, first: nat, i: nat, n: nat, private: bool)
      reads this, vmm, vmm.pd, vmm.pmm, vmm.pmm.bitmap
    {
      && vmm.Valid() && |space0| == PAGES && first + i <= PAGES
      && Givable(space0, vmm.mem, vmm.pd[..], first, n)
      && vmm.Space() == Without(space0, first, i)
      && vmm.pmm.FreeSet() == free0 + GivenBack(space0, first, i, vmm.pmm.totalFrames, private)
    }

    method UnmapRange(start: Word32, end: Word32, private: bool)
      requires vmm.Valid() && start % PAGE == 0 && end % PAGE == 0 && PageOf(start) <= PAGES && end <= PAGES * PAGE
      requires Givable(vmm.Space(), vmm.mem, vmm.pd[..], PageOf(start), PageCount(start, end))
      modifies vmm, vmm.pmm, vmm.pmm.bitmap
      ensures PageOf(start) + PageCount(start, end) <= PAGES && DataKept(old(vmm.mem), vmm.pd[..], vmm.mem)
      ensures vmm.Valid() && vmm.Space() == Without(old(vmm.Space()), PageOf(start), PageCount(start, end))
      ensures vmm.pmm.FreeSet() == old(vmm.pmm.FreeSet()) +
        GivenBack(old(vmm.Space()), PageOf(start), PageCount(start, end), vmm.pmm.totalFrames, private)
    {
      hide Good, PageOf, PageCount, Givable, GivenBack, Without, Vmm.Space, Vmm.Translate, Pmm.Valid, Pmm.FreeSet;
      ghost var space0, free0, first, n, mem0 := vmm.Space(), vmm.pmm.FreeSet(), PageOf(start), PageCount(start, end),
        vmm.mem;
      ghost var i := 0;
      PagesBelow(end);
      PageAt(start, end, 0);
      NothingYet(space0, first, vmm.pmm.totalFrames, private);
      var page := start;
      while page < end
        invariant page == start + i * PAGE && i <= n && UnmappedNow(space0, free0, first, i, n, private)
        invariant DataKept(mem0, vmm.pd[..], vmm.mem)
        decreases end - page
      {
        PageAt(start, end, i);
        PageAt(start, end, i + 1);
        ghost var mem := vmm.mem;
        UnmapOne(page, space0, free0, first, i, n, private);
        DataKeptTwice(mem0, vmm.pd[..], mem, vmm.mem);
        page := page + PAGE;
        i := i + 1;
      }
      PageAt(start, end, i);
    }

    method UnmapOne(page: Word32, ghost space0: seq<Option<Word32>>, ghost free0: set<nat>, ghost first: nat,
                    ghost i: nat, ghost n: nat, private: bool)
      requires UnmappedNow(space0, free0, first, i, n, private) && i < n && PageOf(page) == first + i < PAGES
        && page % PAGE == 0
      modifies vmm, vmm.pmm, vmm.pmm.bitmap
      ensures UnmappedNow(space0, free0, first, i + 1, n, private) && DataKept(old(vmm.mem), vmm.pd[..], vmm.mem)
    {
      hide Good, PageOf, GivenBack, FrameOf, Lookup, IsTable, Givable, Without, Vmm.Space, Vmm.Translate, Pmm.Valid,
        Pmm.FreeSet;
      WithoutNext(space0, first, i);
      GivenBackNext(space0, first, i, vmm.pmm.totalFrames, private);
      assert vmm.Space()[PageOf(page)] == vmm.Translate(PageOf(page));
      GivableAt(space0, vmm.mem, vmm.pd[..], first, n, i);
      var mapped := vmm.IsMapped(page);
      if mapped {
        ghost var mem := vmm.mem;
        Drop(page, private);
        GivableKept(space0, mem, vmm.mem, vmm.pd[..], first, n);
      }
    }

    /** Unmap one mapped page and, if private, give its frame back. */
    method Drop(page: Word32, private: bool)
      requires vmm.Valid() && PageOf(page) < PAGES && page % PAGE == 0 && vmm.Translate(PageOf(page)).Some?
      requires var f := FrameOf(vmm.Translate(PageOf(page)).value); f != 0 && f in vmm.mem && !IsTable(vmm.pd[..], f)
      modifies vmm, vmm.pmm, vmm.pmm.bitmap
      ensures vmm.Valid() && vmm.Space() == old(vmm.Space())[PageOf(page) := None]
      ensures DataKept(old(vmm.mem), vmm.pd[..], vmm.mem)
      ensures var f := old(FrameOf(vmm.Translate(PageOf(page)).value));
        vmm.pmm.FreeSet() == old(vmm.pmm.FreeSet()) + (if private && f < vmm.pmm.totalFrames then {f} else {})
    {
      hide Good, PageOf, FrameOf, Lookup, IsTable, Pmm.Valid, Vmm.Space;
      ghost var f := FrameOf(vmm.Translate(PageOf(page)).value);
      var phys := vmm.GetPhysical(page);
      FrameTimes(phys, f);
      vmm.UnmapPage(page);
      if private {
        MoreFree(vmm.pd[..], vmm.mem, vmm.pmm.FreeSet(), f);
        vmm.pmm.FreeFrame(phys);
      }
    }

    /** Mapping a private range and unmapping it again puts the address space and the areas back
        as they were, and the free frames but for the tables made. */
    method MapThenUnmap(length: Word32, prot: int, flags: nat) returns (r: Result)
      requires Valid() && 0 < length && next + length <= 0xFFFF_F000 && flags % 2 != MAP_SHARED
      requires forall p: nat :: PageOf(next) <= p < PageOf(next) + PageCount(next, EndOf(next, length)) && p < PAGES ==>
        vmm.Space()[p] == None
      requires forall i :: 0 <= i < vmas.Length ==> !Holds(vmas[i], next)
      modifies this, vmas, vmm, vmm.pd, vmm.pmm, vmm.pmm.bitmap
      ensures Valid() && (r != Fault ==> vmm.Space() == old(vmm.Space()) && Areas(vmas[..]) == old(Areas(vmas[..])))
      ensures r == Returned(old(next)) ==>
        GivenButTables(Snap(vmm), old(Snap(vmm)), PageOf(old(next)), PageCount(old(next), old(EndOf(next, length))))
    {
      hide Run, Cleared, Needed, Starves, InUseKept, Good, PageEntry, FrameOf, HasTable, PageOf, PageCount, EndOf,
        Givable, GivenBack, Without, GivenButTables, Vmm.Space, Vmm.Translate, Pmm.Valid, FrameBitmap.Free;
      ghost var s0, vs := Snap(vmm), vmas[..];
      ZeroInUse(vmm.pd[..], vmm.mem, s0.free);
      FreeBelow(vmm.pmm);
      ghost var k, first := FreeArea(vs, 0), PageOf(next);
      RangeCovers(next, length);
      ghost var fs;
      r, fs := MMap(length, prot, flags, true);
      if r == Fault || r.addr == MAP_FAILED { return; }
      var addr := r.addr;
      PagesBelow(addr);
      ghost var s := Snap(vmm);
      RunMade(s, s0, first, fs);
      RunGives(s, s0, first, fs, vmm.pmm.totalFrames);
      FoundNew(vs, k, addr, Vma(addr, EndOf(addr, length), prot, flags, true));
      var u := MUnmap(addr, length, true);
      AreasBack(vs, vmas[..], k);
      GivenAgain(Snap(vmm), s, s0, first, |fs|);
    }
  }

  lemma GivenAgain(s': Snapshot, s: Snapshot, s0: Snapshot, first: nat, n: nat)
    requires |s0.pd| == ENTRIES && TablesAdded(s0.pd, s.pd, MissingSlots(s0.pd, first, n)) && s'.pd == s.pd
    requires var made := TableFrames(s.pd, MissingSlots(s0.pd, first, n));
      made <= s0.free && |made| == |MissingSlots(s0.pd, first, n)| && s'.free == s0.free - made
    ensures GivenButTables(s', s0, first, n)
  {
    hide TablesAdded, TableFrames, MissingSlots;
  }
}
