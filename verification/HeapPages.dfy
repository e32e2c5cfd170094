/** The pages under the kernel heap: each has a frame of its own, and heap_expand adds more. */
module HeapPages {
  import opened Common
  import opened LittleEndian
  import opened PageTables
  import opened FrameAllocator
  import opened VirtualMemory
  import opened PageRuns

  /** PRESENT and WRITE. */
  const PAGE_KERNEL := 3

  /** The pages from lo up to hi are mapped, for the kernel to read and write, to distinct frames,
      none free and none a table. */
  ghost predicate Own(s: Snapshot, lo: nat, hi: nat) {
    && hi <= |s.space| && |s.pd| == ENTRIES
    && (forall p: nat :: lo <= p < hi ==>
          s.space[p].Some? && s.space[p].value % 8 == 3 && Private(s, FrameOf(s.space[p].value)))
    && (forall p: nat, q: nat :: lo <= p < q < hi && s.space[p].Some? && s.space[q].Some? ==>
          FrameOf(s.space[p].value) != FrameOf(s.space[q].value))
  }

  ghost predicate Private(s: Snapshot, f: nat)
    requires |s.pd| == ENTRIES
  {
    f in s.mem && f !in s.free && !IsTable(s.pd, f)
  }

  /** The heap's pages below end are its own, and the heap stays below slot 1023. */
  ghost predicate HeapMapped(vmm: Vmm, start: Word32, end: Word32, max: Word32)
    reads vmm, vmm.pd, vmm.pmm, vmm.pmm.bitmap
  {
    && vmm.Valid() && (end == start || end % PAGE == 0) && end <= PAGES * PAGE && max <= PAGES * PAGE
    && Own(Snap(vmm), PageOf(start), PageOf(end))
  }

  /** All pages of the heap are mapped but the last, and no frame is left. */
  ghost predicate AllButLast(vmm: Vmm, start: Word32, end: Word32)
    reads vmm, vmm.pd, vmm.pmm, vmm.pmm.bitmap
  {
    && vmm.Valid() && vmm.pmm.FreeSet() == {} && end % PAGE == 0 && 0 < PageOf(end) <= PAGES
    && Own(Snap(vmm), PageOf(start), PageOf(end) - 1)
    && vmm.Translate(PageOf(end) - 1) == None
  }

  /** Every byte of the heap is on a mapped page. */
  lemma ByteMapped(vmm: Vmm, start: Word32, end: Word32, max: Word32, a: nat)
    requires HeapMapped(vmm, start, end, max) && start <= a < end
    ensures a / 4096 < PAGES && vmm.Translate(a / 4096).Some? && vmm.Translate(a / 4096).value % 8 == 3
  {
    PageBelow(a, end);
    hide Private;
    assert vmm.Space()[PageOf(a)] == vmm.Translate(PageOf(a));
  }

  lemma PageBelow(a: Word32, end: Word32)
    requires end % PAGE == 0 && a < end <= PAGES * PAGE
    ensures PageOf(a) < PageOf(end) <= PAGES
  {
  }

  /** A frame that is neither free nor a table before a run is neither after it. */
  lemma StaysPrivate(s: Snapshot, s0: Snapshot, first: nat, fs: seq<nat>, flags: Word32, f: nat)
    requires Run(s, s0, first, fs, flags) && Private(s0, f)
    ensures Private(s, f) && f !in Frames(fs)
  {
    hide FrameOf, IsTable, TablesAdded, TableFrames, MissingSlots, PageEntry;
    TablesStay(s0.pd, s.pd, MissingSlots(s0.pd, first, |fs|), f);
  }

  /** The pages of a run are owned. */
  lemma RunPage(s: Snapshot, s0: Snapshot, first: nat, fs: seq<nat>, i: nat)
    requires Run(s, s0, first, fs, PAGE_KERNEL) && i < |fs|
    ensures s.space[first + i].Some? && s.space[first + i].value % 8 == 3
    ensures s.space[first + i].Some? && FrameOf(s.space[first + i].value) == fs[i] && fs[i] in Frames(fs)
    ensures Private(s, fs[i])
  {
    hide IsTable, TablesAdded, TableFrames, MissingSlots, InUseKept;
    FrameRound(fs[i]);
    PageEntryBits(fs[i] * PAGE, 3);
    assert fs[i] in Frames(fs);
  }

  lemma FrameRound(f: nat)
    requires f < U32_LIMIT / PAGE
    ensures f * PAGE < U32_LIMIT && FrameOf(f * PAGE) == f
  {
  }

  lemma RunBefore(s: Snapshot, s0: Snapshot, first: nat, fs: seq<nat>, flags: Word32, p: nat)
    requires Run(s, s0, first, fs, flags) && p < first
    ensures p < |s.space| == |s0.space| == PAGES && first + |fs| <= PAGES && s.space[p] == s0.space[p]
  {
    hide IsTable, TablesAdded, TableFrames, MissingSlots, InUseKept, PageEntry;
  }

  /** A run behind the pages owned is owned with them. */
  lemma OwnRun(s: Snapshot, s0: Snapshot, lo: nat, first: nat, fs: seq<nat>)
    requires Own(s0, lo, first) && Run(s, s0, first, fs, PAGE_KERNEL) && lo <= first
    ensures Own(s, lo, first + |fs|)
  {
    hide Private, Run, FrameOf;
    RunSizes(s, s0, first, fs, PAGE_KERNEL);
    forall p: nat | lo <= p < first + |fs|
      ensures s.space[p].Some? && s.space[p].value % 8 == 3 && Private(s, FrameOf(s.space[p].value))
      ensures p < first ==> FrameOf(s.space[p].value) !in Frames(fs)
      ensures p < first ==> s.space[p] == s0.space[p]
      ensures p >= first ==> FrameOf(s.space[p].value) == fs[p - first] && fs[p - first] in Frames(fs)
    {
      if p < first {
        RunBefore(s, s0, first, fs, PAGE_KERNEL, p);
        StaysPrivate(s, s0, first, fs, PAGE_KERNEL, FrameOf(s.space[p].value));
      } else {
        RunPage(s, s0, first, fs, p - first);
      }
    }
  }

  lemma RunSizes(s: Snapshot, s0: Snapshot, first: nat, fs: seq<nat>, flags: Word32)
    requires Run(s, s0, first, fs, flags)
    ensures |s.space| == PAGES && first + |fs| <= PAGES && |s.pd| == ENTRIES && Distinct(fs)
  {
    hide IsTable, TablesAdded, TableFrames, MissingSlots, InUseKept, PageEntry;
  }

  lemma OwnFewerFree(s: Snapshot, free: set<nat>, lo: nat, hi: nat, hi': nat)
    requires Own(s, lo, hi) && free <= s.free && hi' <= hi
    ensures Own(s.(free := free), lo, hi')
  {
    hide FrameOf, IsTable;
  }

  lemma NoneOwned(s: Snapshot, lo: nat)
    requires lo <= |s.space| && |s.pd| == ENTRIES
    ensures Own(s, lo, lo)
  {
  }

  /** Page done of the range that starts at from. */
  lemma PageStep(from: Word32, to: Word32, done: nat)
    requires to % PAGE == 0 && from <= to <= PAGES * PAGE
    ensures from + PAGE * done < to <==> PageOf(from) + done < PageOf(to)
    ensures from + PAGE * done < to ==> PageOf(from + PAGE * done) == PageOf(from) + done < PAGES
    ensures PageOf(to) <= PAGES
  {
    var q, r := from / PAGE, from % PAGE;
    assert from + PAGE * done == PAGE * (q + done) + r;
  }

  /** In the loop of heap_expand: the run fs of pages is mapped, and lost is a last frame that
      went to a page without getting it mapped. */
  ghost predicate Looping(vmm: Vmm, s0: Snapshot, first: nat, fs: seq<nat>, lost: set<nat>)
    reads vmm, vmm.pd, vmm.pmm, vmm.pmm.bitmap
  {
    && vmm.Valid() && |s0.pd| == ENTRIES
    && Run(Snap(vmm).(free := vmm.pmm.FreeSet() + lost), s0, first, fs, PAGE_KERNEL)
    && (lost != {} ==> |lost| == 1 && vmm.pmm.FreeSet() == {} && Starves(s0.pd, s0.free, first, |fs|))
  }

  lemma LoopStart(vmm: Vmm, first: nat)
    requires vmm.Valid() && first <= PAGES
    ensures Looping(vmm, Snap(vmm), first, [], {})
  {
    hide Run, Starves, Good, Pmm.Valid, Pmm.FreeSet, Vmm.Space;
    RunStart(Snap(vmm), first, PAGE_KERNEL);
    assert Snap(vmm).(free := vmm.pmm.FreeSet() + {}) == Snap(vmm);
  }

  /** One turn of it: phys is 0 when no frame is left. */
  method NextPage(vmm: Vmm, addr: Word32, ghost s0: Snapshot, ghost first: nat, ghost fs: seq<nat>,
                  ghost lost: set<nat>)
    returns (phys: Word32, ghost fs': seq<nat>, ghost lost': set<nat>)
    requires Looping(vmm, s0, first, fs, lost) && PageOf(addr) == first + |fs| + |lost| < PAGES
    modifies vmm, vmm.pd, vmm.pmm, vmm.pmm.bitmap
    ensures Looping(vmm, s0, first, fs', lost')
    ensures phys == 0 ==> fs' == fs && lost' == lost && vmm.pmm.FreeSet() == {}
    ensures phys != 0 ==> |fs'| + |lost'| == |fs| + |lost| + 1
  {
    hide Run, Starves, Good, PageOf, Pmm.Valid, Pmm.FreeSet, Vmm.Space;
    fs', lost' := fs, lost;
    assert lost == {} ==> Snap(vmm).(free := vmm.pmm.FreeSet() + lost) == Snap(vmm);
    ghost var s, mapped := Snap(vmm), false;
    phys, mapped := RunOne(vmm, addr, PAGE_KERNEL, s0, first, fs);
    if phys == 0 { return; }
    if mapped {
      fs' := fs + [FrameOf(phys)];
      assert Snap(vmm).(free := vmm.pmm.FreeSet() + lost) == Snap(vmm);
    } else {
      lost' := {FrameOf(phys)};
      assert Snap(vmm).(free := vmm.pmm.FreeSet() + lost') == s;
    }
  }

  /** The loop of heap_expand. */
  method MapPages(vmm: Vmm, from: Word32, to: Word32) returns (ok: bool, ghost fs: seq<nat>, ghost lost: set<nat>)
    requires vmm.Valid() && to % PAGE == 0 && from < to <= PAGES * PAGE
    modifies vmm, vmm.pd, vmm.pmm, vmm.pmm.bitmap
    ensures Looping(vmm, old(Snap(vmm)), PageOf(from), fs, lost) && (!ok ==> vmm.pmm.FreeSet() == {})
    ensures var pd, free, first, n := old(vmm.pd[..]), old(vmm.pmm.FreeSet()), PageOf(from), PageOf(to) - PageOf(from);
      && 0 < n
      && (ok <==> Needed(pd, first, n) <= |free| || Starves(pd, free, first, n - 1))
      && (ok ==> |fs| == if Starves(pd, free, first, n - 1) then n - 1 else n)
      && (ok ==> (lost == {} <==> !Starves(pd, free, first, n - 1)))
  {
    hide Looping, Needed, Starves, Good, PageOf, Pmm.Valid, Pmm.FreeSet, Vmm.Space;
    ghost var s0, first, n := Snap(vmm), PageOf(from), PageOf(to) - PageOf(from);
    fs, lost := [], {};
    PageStep(from, to, 0);
    LoopStart(vmm, first);
    var addr := from;
    while addr < to
      invariant Looping(vmm, s0, first, fs, lost)
      invariant addr == from + PAGE * (|fs| + |lost|) && |fs| + |lost| <= n
    {
      PageStep(from, to, |fs| + |lost|);
      PageStep(from, to, |fs| + |lost| + 1);
      var phys;
      phys, fs, lost := NextPage(vmm, addr, s0, first, fs, lost);
      if phys == 0 {
        NoFrame(vmm, s0, first, fs, n, lost);
        return false, fs, lost;
      }
      addr := addr + PAGE;
    }
    PageStep(from, to, |fs| + |lost|);
    AllPages(vmm, s0, first, fs, n, lost);
    return true, fs, lost;
  }

  /** Out of frames before page |fs| + |lost|. */
  lemma NoFrame(vmm: Vmm, s0: Snapshot, first: nat, fs: seq<nat>, n: nat, lost: set<nat>)
    requires Looping(vmm, s0, first, fs, lost) && vmm.pmm.FreeSet() == {} && |fs| + |lost| < n
    ensures |s0.pd| == ENTRIES && |s0.free| < Needed(s0.pd, first, n) && !Starves(s0.pd, s0.free, first, n - 1)
  {
    hide Run, Needed, Starves, Good, Pmm.Valid, Pmm.FreeSet, Vmm.Space;
    RunCount(Snap(vmm).(free := vmm.pmm.FreeSet() + lost), s0, first, fs, PAGE_KERNEL);
    if lost == {} {
      NeededGrows(s0.pd, first, |fs|, n);
      if Starves(s0.pd, s0.free, first, n - 1) { StarvesHere(s0.pd, s0.free, first, n - 1, |fs|); }
    } else {
      StarvesHere(s0.pd, s0.free, first, |fs|, n);
      if Starves(s0.pd, s0.free, first, n - 1) {
        StarvesHere(s0.pd, s0.free, first, n - 1, |fs| + 1);
        StarvesHere(s0.pd, s0.free, first, |fs|, |fs| + 1);
      }
    }
  }

  /** Every page got a frame, the last one perhaps without being mapped. */
  lemma AllPages(vmm: Vmm, s0: Snapshot, first: nat, fs: seq<nat>, n: nat, lost: set<nat>)
    requires Looping(vmm, s0, first, fs, lost) && 0 < n == |fs| + |lost|
    ensures |s0.pd| == ENTRIES
    ensures if lost == {} then Needed(s0.pd, first, n) <= |s0.free| && !Starves(s0.pd, s0.free, first, n - 1)
      else |fs| == n - 1 && Starves(s0.pd, s0.free, first, n - 1)
  {
    hide Run, Needed, Starves, Good, Pmm.Valid, Pmm.FreeSet, Vmm.Space;
    RunCount(Snap(vmm).(free := vmm.pmm.FreeSet() + lost), s0, first, fs, PAGE_KERNEL);
    if lost == {} && Starves(s0.pd, s0.free, first, n - 1) {
      StarvesHere(s0.pd, s0.free, first, n - 1, n);
    }
  }

  /** The heap's pages after the loop, whichever way it ended. */
  lemma OwnAfter(vmm: Vmm, s0: Snapshot, start: Word32, end: Word32, fs: seq<nat>, lost: set<nat>)
    requires Looping(vmm, s0, PageOf(end), fs, lost) && start <= end && Own(s0, PageOf(start), PageOf(end))
    ensures PageOf(end) + |fs| <= PAGES && vmm.Valid() && (lost != {} ==> vmm.pmm.FreeSet() == {})
    ensures Own(Snap(vmm), PageOf(start), PageOf(end)) && Own(Snap(vmm), PageOf(start), PageOf(end) + |fs|)
    ensures InUseKept(s0.mem, s0.free, vmm.pd[..], vmm.mem)
  {
    hide Own, PageOf, InUseKept, Good, Pmm.Valid, Pmm.FreeSet, Vmm.Space, Run, Starves, Needed;
    var s := Snap(vmm).(free := vmm.pmm.FreeSet() + lost);
    PagesInOrder(start, end);
    RunKept(s, s0, PageOf(end), fs, PAGE_KERNEL);
    OwnRun(s, s0, PageOf(start), PageOf(end), fs);
    OwnFewerFree(s, vmm.pmm.FreeSet(), PageOf(start), PageOf(end) + |fs|, PageOf(end) + |fs|);
    OwnFewerFree(s, vmm.pmm.FreeSet(), PageOf(start), PageOf(end) + |fs|, PageOf(end));
    assert s.(free := vmm.pmm.FreeSet()) == Snap(vmm);
  }

  lemma InUseSame(vmm: Vmm, start: Word32, end: Word32, max: Word32)
    requires HeapMapped(vmm, start, end, max)
    ensures vmm.pd.Length == ENTRIES && InUseKept(vmm.mem, vmm.pmm.FreeSet(), vmm.pd[..], vmm.mem)
  {
  }

  lemma RunKept(s: Snapshot, s0: Snapshot, first: nat, fs: seq<nat>, flags: Word32)
    requires Run(s, s0, first, fs, flags)
    ensures first + |fs| <= PAGES && InUseKept(s0.mem, s0.free, s.pd, s.mem)
  {
    hide IsTable, TablesAdded, TableFrames, MissingSlots, InUseKept, PageEntry;
  }

  lemma PagesInOrder(a: Word32, b: Word32)
    requires a <= b
    ensures PageOf(a) <= PageOf(b)
  {
  }

  /** The page a run starves at is not mapped. */
  lemma StarvedPage(vmm: Vmm, s0: Snapshot, first: nat, fs: seq<nat>, lost: set<nat>)
    requires Looping(vmm, s0, first, fs, lost) && lost != {} && first + |fs| < PAGES
    ensures vmm.Translate(first + |fs|) == None
  {
    hide Run, Needed, Lookup, Pmm.Valid, Pmm.FreeSet, Vmm.Space;
    TableThere(Snap(vmm).(free := vmm.pmm.FreeSet() + lost), s0, first, fs, PAGE_KERNEL);
    NotPresent(vmm.pd[..], vmm.mem, (first + |fs|) / ENTRIES);
  }

  lemma NotOwned(vmm: Vmm, lo: nat, hi: nat)
    requires vmm.Valid() && lo < hi <= PAGES && vmm.Translate(hi - 1) == None
    ensures !Own(Snap(vmm), lo, hi)
  {
    hide Private, Lookup;
    assert vmm.Space()[hi - 1] == vmm.Translate(hi - 1);
  }
}
