/** Runs of pages that each get a frame of their own, as the heap and mmap make them: a frame
    is allocated and the page mapped to it, which may take a second frame for a page table. */
module PageRuns {
  import opened Common
  import opened LittleEndian
  import opened PageTables
  import opened FrameAllocator
  import opened VirtualMemory

  // ---- Specification ----

  /** All there is to an address space and the frames. */
  datatype Snapshot = Snapshot(space: seq<Option<Word32>>, free: set<nat>, mem: Memory, pd: seq<Word32>)

  ghost function Snap(vmm: Vmm): Snapshot
    requires vmm.pd.Length == ENTRIES
    reads vmm, vmm.pd, vmm.pmm, vmm.pmm.bitmap
  {
    Snapshot(vmm.Space(), vmm.pmm.FreeSet(), vmm.mem, vmm.pd[..])
  }

  ghost predicate Distinct(fs: seq<nat>) {
    forall i, j :: 0 <= i < j < |fs| ==> fs[i] != fs[j]
  }

  ghost function Frames(fs: seq<nat>): set<nat> {
    set f | f in fs
  }

  /** An address space with the pages from first on mapped to the frames. */
  ghost function WithFrames(space: seq<Option<Word32>>, first: nat, fs: seq<nat>, flags: Word32)
    : (r: seq<Option<Word32>>)
    requires first + |fs| <= |space| && forall i :: 0 <= i < |fs| ==> fs[i] < U32_LIMIT / PAGE
    ensures |r| == |space|
    ensures forall p: nat :: p < |space| ==>
      r[p] == if first <= p < first + |fs| then Some(PageEntry(fs[p - first] * PAGE, flags)) else space[p]
  {
    seq(|space|, p requires 0 <= p < |space| =>
      if first <= p < first + |fs| then Some(PageEntry(fs[p - first] * PAGE, flags)) else space[p])
  }

  /** The directory slots without a table that n pages from first on touch. */
  ghost function MissingSlots(pd: seq<Word32>, first: nat, n: nat): set<nat>
    requires |pd| == ENTRIES
  {
    set p: nat | first <= p < first + n && !HasTable(pd, p / ENTRIES) :: p / ENTRIES
  }

  /** Page i of the run is the first in a slot without a table. */
  ghost predicate Opens(pd: seq<Word32>, first: nat, i: nat)
    requires |pd| == ENTRIES
  {
    !HasTable(pd, (first + i) / ENTRIES) && (first + i) / ENTRIES !in MissingSlots(pd, first, i)
  }

  /** The frames n pages take: one each, and one for every missing table. */
  ghost function Needed(pd: seq<Word32>, first: nat, n: nat): nat
    requires |pd| == ENTRIES
  {
    n + |MissingSlots(pd, first, n)|
  }

  /** The frame for page i is the last there is, and its table would need another. */
  ghost predicate Starves(pd: seq<Word32>, free: set<nat>, first: nat, i: nat)
    requires |pd| == ENTRIES
  {
    Opens(pd, first, i) && |free| == Needed(pd, first, i) + 1
  }

  /** Exactly the slots given got a table; the others kept theirs. */
  ghost predicate TablesAdded(pd: seq<Word32>, pd': seq<Word32>, slots: set<nat>) {
    && |pd| == ENTRIES == |pd'|
    && forall i: nat :: i < ENTRIES ==>
      && (HasTable(pd', i) <==> HasTable(pd, i) || i in slots)
      && (HasTable(pd, i) ==> FrameOf(pd'[i]) == FrameOf(pd[i]))
  }

  /** The frames that now hold the tables of the slots given. */
  ghost function TableFrames(pd: seq<Word32>, slots: set<nat>): set<nat>
    requires |pd| == ENTRIES
  {
    set i | i in slots && i < ENTRIES :: FrameOf(pd[i])
  }

  /** Frames in use that hold no table keep their contents. */
  ghost predicate InUseKept(mem0: Memory, free0: set<nat>, pd: seq<Word32>, mem: Memory) {
    |pd| == ENTRIES && forall f :: f in mem0 && f !in free0 && !IsTable(pd, f) ==> f in mem && mem[f] == mem0[f]
  }

  /** From s0 to s the pages from first on got the frames fs: distinct ones, free before and
      no tables.  Missing tables got frames of their own, and nothing else changed. */
  ghost predicate Run(s: Snapshot, s0: Snapshot, first: nat, fs: seq<nat>, flags: Word32) {
    && |s0.pd| == ENTRIES == |s.pd| && |s0.space| == PAGES && first + |fs| <= PAGES
    && (forall i :: 0 <= i < |fs| ==> fs[i] < U32_LIMIT / PAGE)
    && s.space == WithFrames(s0.space, first, fs, flags)
    && TablesAdded(s0.pd, s.pd, MissingSlots(s0.pd, first, |fs|))
    && Shared(s.free, s0.free, fs, TableFrames(s.pd, MissingSlots(s0.pd, first, |fs|)),
      |MissingSlots(s0.pd, first, |fs|)|)
    && (forall i :: 0 <= i < |fs| ==> fs[i] in s.mem && !IsTable(s.pd, fs[i]))
    && InUseKept(s0.mem, s0.free, s.pd, s.mem)
  }

  /** The frames taken went to the pages and to n tables. */
  ghost predicate Shared(free: set<nat>, free0: set<nat>, fs: seq<nat>, made: set<nat>, n: nat) {
    && Distinct(fs) && Frames(fs) <= free0 && made <= free0 && made !! Frames(fs)
    && free == free0 - Frames(fs) - made && |made| == n
  }

  lemma PagesBelow(addr: Word32)
    requires addr <= PAGES * PAGE
    ensures PageOf(addr) <= PAGES
  {
  }

  // ---- Counting ----

  lemma MissingNext(pd: seq<Word32>, first: nat, n: nat)
    requires |pd| == ENTRIES
    ensures var slot := (first + n) / ENTRIES;
      MissingSlots(pd, first, n + 1) == MissingSlots(pd, first, n) + (if HasTable(pd, slot) then {} else {slot})
    ensures Needed(pd, first, n + 1) == Needed(pd, first, n) + (if Opens(pd, first, n) then 2 else 1)
  {
    hide HasTable;
    var a, b, slot := MissingSlots(pd, first, n), MissingSlots(pd, first, n + 1), (first + n) / ENTRIES;
    assert b == a + if HasTable(pd, slot) then {} else {slot};
    if !HasTable(pd, slot) && slot in a {
      assert b == a;
    }
  }

  lemma {:induction false} NeededGrows(pd: seq<Word32>, first: nat, a: nat, b: nat)
    requires |pd| == ENTRIES && a <= b
    ensures Needed(pd, first, a) + (b - a) <= Needed(pd, first, b)
    decreases b
  {
    hide Needed, Opens;
    if a < b {
      MissingNext(pd, first, b - 1);
      NeededGrows(pd, first, a, b - 1);
    }
  }

  lemma NeededNone(pd: seq<Word32>, first: nat)
    requires |pd| == ENTRIES
    ensures MissingSlots(pd, first, 0) == {} && Needed(pd, first, 0) == 0
  {
  }

  /** Where a run starves, the frames cover the pages before and not the page itself. */
  lemma StarvesHere(pd: seq<Word32>, free: set<nat>, first: nat, k: nat, i: nat)
    requires |pd| == ENTRIES && Starves(pd, free, first, k)
    ensures if i <= k then Needed(pd, first, i) < |free| else |free| < Needed(pd, first, i)
  {
    hide Needed;
    MissingNext(pd, first, k);
    if i <= k {
      NeededGrows(pd, first, i, k);
    } else {
      NeededGrows(pd, first, k + 1, i);
    }
  }

  lemma {:induction false} DistinctCount(fs: seq<nat>)
    requires Distinct(fs)
    ensures |Frames(fs)| == |fs|
  {
    if fs != [] {
      var n := |fs| - 1;
      DistinctCount(fs[..n]);
      assert Frames(fs) == Frames(fs[..n]) + {fs[n]};
    }
  }

  lemma SharedCount(free: set<nat>, free0: set<nat>, fs: seq<nat>, made: set<nat>, n: nat)
    requires Shared(free, free0, fs, made, n)
    ensures |free0| == |free| + |fs| + n
  {
    DistinctCount(fs);
    assert free0 == free + Frames(fs) + made;
  }

  lemma RunCount(s: Snapshot, s0: Snapshot, first: nat, fs: seq<nat>, flags: Word32)
    requires Run(s, s0, first, fs, flags)
    ensures |s0.free| == |s.free| + Needed(s0.pd, first, |fs|)
  {
    hide TablesAdded, InUseKept, IsTable, PageEntry, MissingSlots, TableFrames, Shared;
    SharedCount(s.free, s0.free, fs, TableFrames(s.pd, MissingSlots(s0.pd, first, |fs|)),
      |MissingSlots(s0.pd, first, |fs|)|);
  }

  // ---- Steps ----

  lemma RunStart(s: Snapshot, first: nat, flags: Word32)
    requires |s.pd| == ENTRIES && |s.space| == PAGES && first <= PAGES
    ensures Run(s, s, first, [], flags)
  {
    NeededNone(s.pd, first);
    assert Frames([]) == {} && TableFrames(s.pd, {}) == {};
  }

  /** One page more: s' has page first + |fs| mapped to frame f, and a table for it if none was there. */
  ghost predicate OneMore(s: Snapshot, s': Snapshot, page: nat, f: nat, flags: Word32) {
    && |s.pd| == ENTRIES == |s'.pd| && page < PAGES == |s.space| && f * PAGE < U32_LIMIT
    && s'.space == s.space[page := Some(PageEntry(f * PAGE, flags))]
    && TablesAdded(s.pd, s'.pd, {page / ENTRIES})
    && (if HasTable(s.pd, page / ENTRIES) then s'.free == s.free - {f}
        else
          var t := FrameOf(s'.pd[page / ENTRIES]);
          t in s.free - {f} && s'.free == s.free - {f} - {t})
    && f in s'.mem && forall g :: g in s.mem && g != f && !IsTable(s'.pd, g) ==> g in s'.mem && s'.mem[g] == s.mem[g]
  }

  lemma TablesAddedTwice(pd0: seq<Word32>, pd: seq<Word32>, pd': seq<Word32>, a: set<nat>, b: set<nat>)
    requires TablesAdded(pd0, pd, a) && TablesAdded(pd, pd', b)
    ensures TablesAdded(pd0, pd', a + b)
    ensures forall i: nat :: i < ENTRIES && i in a ==> FrameOf(pd'[i]) == FrameOf(pd[i])
  {
    hide HasTable, FrameOf;
  }

  /** A table in pd is one in pd', too. */
  lemma TablesStay(pd: seq<Word32>, pd': seq<Word32>, slots: set<nat>, f: nat)
    requires TablesAdded(pd, pd', slots)
    ensures IsTable(pd, f) ==> IsTable(pd', f)
    ensures IsTable(pd', f) ==> IsTable(pd, f) || f in TableFrames(pd', slots)
  {
    if IsTable(pd, f) {
      var i :| HasTable(pd, i) && FrameOf(pd[i]) == f;
      assert HasTable(pd', i);
    }
    if IsTable(pd', f) {
      var i :| HasTable(pd', i) && FrameOf(pd'[i]) == f;
      assert HasTable(pd, i) || i in slots;
    }
  }

  lemma SameInUse(mem: Memory, free: set<nat>, pd: seq<Word32>)
    requires |pd| == ENTRIES
    ensures InUseKept(mem, free, pd, mem)
  {
  }

  lemma InUseNext(mem0: Memory, free0: set<nat>, pd: seq<Word32>, mem: Memory, pd': seq<Word32>, mem': Memory,
                  slots: set<nat>, g: nat)
    requires InUseKept(mem0, free0, pd, mem) && TablesAdded(pd, pd', slots) && g in free0
    requires forall f :: f in mem && f != g && !IsTable(pd', f) ==> f in mem' && mem'[f] == mem[f]
    ensures InUseKept(mem0, free0, pd', mem')
  {
    hide IsTable;
    forall f | f in mem0 && f !in free0 && !IsTable(pd', f)
      ensures !IsTable(pd, f)
    {
      TablesStay(pd, pd', slots, f);
    }
  }

  lemma SharedNext(free: set<nat>, free0: set<nat>, fs: seq<nat>, made: set<nat>, n: nat, f: nat, extra: set<nat>)
    requires Shared(free, free0, fs, made, n) && f in free && extra <= free - {f}
    ensures Shared(free - {f} - extra, free0, fs + [f], made + extra, n + |extra|)
  {
    assert Frames(fs + [f]) == Frames(fs) + {f};
    forall i | 0 <= i < |fs|
      ensures fs[i] != f
    {
      assert fs[i] in Frames(fs);
    }
  }

  /** Whether the page's slot has a table by now. */
  lemma TableThere(s: Snapshot, s0: Snapshot, first: nat, fs: seq<nat>, flags: Word32)
    requires Run(s, s0, first, fs, flags) && first + |fs| < PAGES
    ensures HasTable(s.pd, (first + |fs|) / ENTRIES) <==> !Opens(s0.pd, first, |fs|)
  {
    hide Shared, InUseKept, IsTable, PageEntry, MissingSlots, TableFrames;
  }

  /** Frames that hold tables after one step more. */
  lemma TableFramesNext(pd: seq<Word32>, pd': seq<Word32>, slots: set<nat>, slot: nat)
    requires TablesAdded(pd, pd', {slot}) && slot < ENTRIES && forall i :: i in slots ==> i < ENTRIES && HasTable(pd, i)
    ensures TableFrames(pd', slots) == TableFrames(pd, slots)
    ensures TableFrames(pd', slots + {slot}) == TableFrames(pd, slots) + {FrameOf(pd'[slot])}
  {
    hide FrameOf;
    forall i | i in slots
      ensures FrameOf(pd'[i]) == FrameOf(pd[i])
    {
    }
    assert TableFrames(pd', slots) == TableFrames(pd, slots);
  }

  lemma MissingBelow(pd: seq<Word32>, first: nat, n: nat)
    requires |pd| == ENTRIES && first + n <= PAGES
    ensures forall i :: i in MissingSlots(pd, first, n) ==> i < RECURSIVE
  {
  }

  lemma StillNoTable(s: Snapshot, s': Snapshot, page: nat, f: nat, flags: Word32, g: nat)
    requires OneMore(s, s', page, f, flags) && !IsTable(s.pd, g) && (g == f || g !in s.free)
    ensures !IsTable(s'.pd, g)
  {
    hide FrameOf;
    TablesStay(s.pd, s'.pd, {page / ENTRIES}, g);
  }

  /** What of a run concerns tables and the frames taken. */
  lemma RunTables(s: Snapshot, s0: Snapshot, first: nat, fs: seq<nat>, flags: Word32)
    requires Run(s, s0, first, fs, flags)
    ensures |s0.pd| == ENTRIES == |s.pd| && first + |fs| <= PAGES
    ensures TablesAdded(s0.pd, s.pd, MissingSlots(s0.pd, first, |fs|))
    ensures var slots := MissingSlots(s0.pd, first, |fs|); Shared(s.free, s0.free, fs, TableFrames(s.pd, slots),
      |slots|)
  {
    hide Shared, TableFrames, MissingSlots, TablesAdded, InUseKept, IsTable;
  }

  lemma AddedHave(pd0: seq<Word32>, pd: seq<Word32>, slots: set<nat>)
    requires TablesAdded(pd0, pd, slots) && forall i :: i in slots ==> i < ENTRIES
    ensures forall i :: i in slots ==> HasTable(pd, i)
  {
    hide FrameOf;
  }

  lemma NoneAdded(pd0: seq<Word32>, pd: seq<Word32>, pd': seq<Word32>, slots: set<nat>, slot: nat)
    requires TablesAdded(pd0, pd, slots) && TablesAdded(pd, pd', {slot}) && HasTable(pd, slot)
    ensures TablesAdded(pd0, pd', slots)
  {
    hide FrameOf, HasTable;
  }

  /** Where a table is there, the next page changes none. */
  lemma SharedOld(pd0: seq<Word32>, pd: seq<Word32>, pd': seq<Word32>, free: set<nat>, free0: set<nat>,
                  fs: seq<nat>, slots: set<nat>, slot: nat, f: nat)
    requires |pd0| == |pd| == |pd'| == ENTRIES
    requires TablesAdded(pd0, pd, slots) && TablesAdded(pd, pd', {slot}) && slot < ENTRIES && HasTable(pd, slot)
    requires forall i :: i in slots ==> i < ENTRIES
    requires Shared(free, free0, fs, TableFrames(pd, slots), |slots|) && f in free
    ensures TablesAdded(pd0, pd', slots) && Shared(free - {f}, free0, fs + [f], TableFrames(pd', slots), |slots|)
  {
    hide FrameOf, Shared, TablesAdded, HasTable, TableFrames;
    AddedHave(pd0, pd, slots);
    NoneAdded(pd0, pd, pd', slots, slot);
    TableFramesNext(pd, pd', slots, slot);
    SharedNext(free, free0, fs, TableFrames(pd, slots), |slots|, f, {});
    assert free - {f} - {} == free - {f};
    assert TableFrames(pd, slots) + {} == TableFrames(pd, slots);
  }

  /** Where it is not, one table is made in a frame of its own. */
  lemma SharedNew(pd0: seq<Word32>, pd: seq<Word32>, pd': seq<Word32>, free: set<nat>, free0: set<nat>,
                  fs: seq<nat>, slots: set<nat>, slot: nat, f: nat)
    requires |pd0| == |pd| == |pd'| == ENTRIES
    requires TablesAdded(pd0, pd, slots) && TablesAdded(pd, pd', {slot}) && slot < ENTRIES && slot !in slots
    requires forall i :: i in slots ==> i < ENTRIES
    requires Shared(free, free0, fs, TableFrames(pd, slots), |slots|) && f in free && FrameOf(pd'[slot]) in free - {f}
    ensures TablesAdded(pd0, pd', slots + {slot})
    ensures Shared(free - {f} - {FrameOf(pd'[slot])}, free0, fs + [f], TableFrames(pd', slots + {slot}),
      |slots + {slot}|)
  {
    hide FrameOf, Shared, TablesAdded, HasTable, TableFrames;
    AddedHave(pd0, pd, slots);
    TablesAddedTwice(pd0, pd, pd', slots, {slot});
    TableFramesNext(pd, pd', slots, slot);
    SharedNext(free, free0, fs, TableFrames(pd, slots), |slots|, f, {FrameOf(pd'[slot])});
  }

  /** What the tables of a run with one page more are. */
  lemma TablesNext(s: Snapshot, s': Snapshot, s0: Snapshot, first: nat, fs: seq<nat>, flags: Word32, f: nat)
    requires Run(s, s0, first, fs, flags) && first + |fs| < PAGES
    requires f in s.free && OneMore(s, s', first + |fs|, f, flags)
    ensures |s0.pd| == ENTRIES == |s'.pd| && TablesAdded(s0.pd, s'.pd, MissingSlots(s0.pd, first, |fs| + 1))
    ensures var next := MissingSlots(s0.pd, first, |fs| + 1);
      Shared(s'.free, s0.free, fs + [f], TableFrames(s'.pd, next), |next|)
  {
    hide IsTable, PageEntry, FrameOf, InUseKept, Shared, TableFrames, MissingSlots, TablesAdded, Run, HasTable, Needed;
    var n, slot := |fs|, (first + |fs|) / ENTRIES;
    RunTables(s, s0, first, fs, flags);
    var slots := MissingSlots(s0.pd, first, n);
    TableThere(s, s0, first, fs, flags);
    MissingNext(s0.pd, first, n);
    MissingBelow(s0.pd, first, n);
    if HasTable(s.pd, slot) {
      assert MissingSlots(s0.pd, first, n + 1) == slots;
      SharedOld(s0.pd, s.pd, s'.pd, s.free, s0.free, fs, slots, slot, f);
    } else {
      assert MissingSlots(s0.pd, first, n + 1) == slots + {slot};
      SharedNew(s0.pd, s.pd, s'.pd, s.free, s0.free, fs, slots, slot, f);
    }
  }

  /** A run with one page more. */
  lemma RunNext(s: Snapshot, s': Snapshot, s0: Snapshot, first: nat, fs: seq<nat>, flags: Word32, f: nat)
    requires Run(s, s0, first, fs, flags) && first + |fs| < PAGES
    requires f in s.free && !IsTable(s.pd, f) && OneMore(s, s', first + |fs|, f, flags)
    ensures Run(s', s0, first, fs + [f], flags)
  {
    hide IsTable, PageEntry, FrameOf, HasTable, TablesAdded, MissingSlots, TableFrames, InUseKept;
    TablesNext(s, s', s0, first, fs, flags, f);
    assert f < U32_LIMIT / PAGE;
    assert s'.space == WithFrames(s0.space, first, fs + [f], flags);
    forall i | 0 <= i < |fs + [f]|
      ensures (fs + [f])[i] in s'.mem && !IsTable(s'.pd, (fs + [f])[i])
    {
      if i < |fs| {
        assert fs[i] in Frames(fs);
        StillNoTable(s, s', first + |fs|, f, flags, fs[i]);
      } else {
        StillNoTable(s, s', first + |fs|, f, flags, f);
      }
    }
    InUseNext(s0.mem, s0.free, s.pd, s.mem, s'.pd, s'.mem, {(first + |fs|) / ENTRIES}, f);
  }

  // ---- The two calls the loops make ----

  /** A frame of one's own: it holds no table. */
  method ClaimFrame(vmm: Vmm) returns (phys: Word32)
    requires vmm.Valid()
    modifies vmm.pmm, vmm.pmm.bitmap
    ensures vmm.Valid() && (phys == 0 <==> old(vmm.pmm.FreeSet()) == {})
    ensures phys == 0 ==> vmm.pmm.FreeSet() == {}
    ensures phys != 0 ==>
      && phys == FrameOf(phys) * PAGE && FrameOf(phys) in old(vmm.pmm.FreeSet())
      && vmm.pmm.FreeSet() == old(vmm.pmm.FreeSet()) - {FrameOf(phys)}
      && FrameOf(phys) in vmm.mem && !IsTable(vmm.pd[..], FrameOf(phys))
  {
    hide FrameOf, Good;
    ghost var pd, mem, free := vmm.pd[..], vmm.mem, vmm.pmm.FreeSet();
    phys := vmm.pmm.Alloc();
    FreshFrame(pd, mem, free, phys);
    if phys != 0 {
      FreeNoTable(pd, mem, free, FrameOf(phys));
      FewerFree(pd, mem, free, free - {FrameOf(phys)});
    }
  }

  /** What claiming frame f and a successful vmm_map_page come to. */
  lemma MappedOne(s: Snapshot, s': Snapshot, page: nat, f: nat, flags: Word32)
    requires |s.pd| == ENTRIES == |s'.pd| && page < PAGES == |s.space| && f * PAGE < U32_LIMIT
    requires f in s.free && f in s.mem && !IsTable(s.pd, f)
    requires s'.space == s.space[page := Some(PageEntry(f * PAGE, flags))]
    requires HasTable(s'.pd, page / ENTRIES) && forall i :: 0 <= i < ENTRIES && i != page / ENTRIES ==>
      s'.pd[i] == s.pd[i]
    requires if HasTable(s.pd, page / ENTRIES) then
        FrameOf(s'.pd[page / ENTRIES]) == FrameOf(s.pd[page / ENTRIES]) && s'.free == s.free - {f}
      else
        var t := FrameOf(s'.pd[page / ENTRIES]);
        t in s.free - {f} && s'.free == s.free - {f} - {t}
    requires forall g :: g in s.mem && !IsTable(s'.pd, g) ==> g in s'.mem && s'.mem[g] == s.mem[g]
    ensures OneMore(s, s', page, f, flags)
  {
    hide FrameOf, PageEntry;
    var slot := page / ENTRIES;
    assert TablesAdded(s.pd, s'.pd, {slot});
    TablesStay(s.pd, s'.pd, {slot}, f);
    assert TableFrames(s'.pd, {slot}) == {FrameOf(s'.pd[slot])};
  }

  /** pmm_alloc_frame, then vmm_map_page with the frame: one page more, unless there is no
      frame for it (phys is 0) or none for its table (mapped is false). */
  method GiveFrame(vmm: Vmm, virt: Word32, flags: Word32) returns (phys: Word32, ghost mapped: bool)
    requires vmm.Valid() && PageOf(virt) < PAGES
    modifies vmm, vmm.pd, vmm.pmm, vmm.pmm.bitmap
    ensures vmm.Valid() && (phys == 0 <==> old(vmm.pmm.FreeSet()) == {})
    ensures phys == 0 ==> Snap(vmm) == old(Snap(vmm)) && !mapped
    ensures phys != 0 ==>
      && phys == FrameOf(phys) * PAGE && FrameOf(phys) in old(vmm.pmm.FreeSet())
      && (mapped <==> HasTable(old(vmm.pd[..]), PageOf(virt) / ENTRIES) || old(vmm.pmm.FreeSet()) != {FrameOf(phys)})
    ensures phys != 0 && !mapped ==>
      vmm.pmm.FreeSet() == {} && Snap(vmm) == old(Snap(vmm)).(free := {})
    ensures mapped ==> OneMore(old(Snap(vmm)), Snap(vmm), PageOf(virt), FrameOf(phys), flags)
  {
    hide FrameOf, Good, Lookup, PageEntry, PageOf, Present, IsTable, OneMore, Pmm.Valid, Pmm.FreeSet;
    ghost var pd, free := vmm.pd[..], vmm.pmm.FreeSet();
    phys := ClaimFrame(vmm);
    if phys == 0 { return phys, false; }
    mapped := HasTable(pd, PageOf(virt) / ENTRIES) || vmm.pmm.FreeSet() != {};
    vmm.MapPage(virt, phys, flags);
    if mapped {
      assert Snap(vmm).space == old(Snap(vmm)).space[PageOf(virt) := Some(PageEntry(phys, flags))];
      MappedOne(old(Snap(vmm)), Snap(vmm), PageOf(virt), FrameOf(phys), flags);
    } else {
      assert Snap(vmm).space == old(Snap(vmm)).space;
    }
  }

  lemma OneMoreKeeps(s: Snapshot, s': Snapshot, page: nat, f: nat, flags: Word32)
    requires OneMore(s, s', page, f, flags)
    ensures forall g :: g in s.mem && g != f && !IsTable(s'.pd, g) ==> g in s'.mem && s'.mem[g] == s.mem[g]
  {
  }

  /** One page more of a run, if any frame is left: the frame was the last one and the page's
      table would need another, or the run has grown. */
  method RunOne(vmm: Vmm, virt: Word32, flags: Word32, ghost s0: Snapshot, ghost first: nat, ghost fs: seq<nat>)
    returns (phys: Word32, ghost mapped: bool)
    requires vmm.Valid() && PageOf(virt) < PAGES
    requires vmm.pmm.FreeSet() != {} ==> Run(Snap(vmm), s0, first, fs, flags) && PageOf(virt) == first + |fs|
    modifies vmm, vmm.pd, vmm.pmm, vmm.pmm.bitmap
    ensures vmm.Valid() && (phys == 0 <==> old(vmm.pmm.FreeSet()) == {})
    ensures phys == 0 ==> !mapped && Snap(vmm) == old(Snap(vmm))
    ensures phys != 0 && !mapped ==>
      && Starves(s0.pd, s0.free, first, |fs|) && old(vmm.pmm.FreeSet()) == {FrameOf(phys)}
      && Snap(vmm) == old(Snap(vmm)).(free := {})
    ensures mapped ==>
      && phys == FrameOf(phys) * PAGE && Run(Snap(vmm), s0, first, fs + [FrameOf(phys)], flags)
      && forall g :: g in old(vmm.mem) && g != FrameOf(phys) && !IsTable(vmm.pd[..], g) ==>
           g in vmm.mem && vmm.mem[g] == old(vmm.mem[g])
  {
    hide FrameOf, Good, Lookup, PageEntry, PageOf, HasTable, IsTable, OneMore, Run, Needed, Pmm.Valid, Pmm.FreeSet,
      Vmm.Space;
    ghost var s := Snap(vmm);
    if s.free != {} {
      RunCount(s, s0, first, fs, flags);
      TableThere(s, s0, first, fs, flags);
    }
    phys, mapped := GiveFrame(vmm, virt, flags);
    if mapped {
      FreeNoTable(s.pd, s.mem, s.free, FrameOf(phys));
      RunNext(s, Snap(vmm), s0, first, fs, flags, FrameOf(phys));
      OneMoreKeeps(s, Snap(vmm), first + |fs|, FrameOf(phys), flags);
    }
  }
}
