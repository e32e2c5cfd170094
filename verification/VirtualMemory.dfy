/** Mapping and unmapping pages in the current address space. */
module VirtualMemory {
  import opened Common
  import opened LittleEndian
  import opened PageTables
  import opened FrameAllocator

  function PageOf(virt: Word32): nat {
    virt / PAGE
  }

  function DirIndex(virt: Word32): (i: nat)
    ensures i < ENTRIES
  {
    virt / 0x40_0000 % ENTRIES
  }

  function TableIndex(virt: Word32): (k: nat)
    ensures k < ENTRIES
  {
    virt / PAGE % ENTRIES
  }

  /** The two indices are the page number's two digits in base 1024. */
  lemma Indices(virt: Word32)
    ensures PageOf(virt) == virt / 4096 && DirIndex(virt) == virt / 0x40_0000 && TableIndex(virt) == virt / 4096 % 1024
    ensures PageOf(virt) == DirIndex(virt) * ENTRIES + TableIndex(virt)
    ensures PageOf(virt) / ENTRIES == DirIndex(virt) && PageOf(virt) % ENTRIES == TableIndex(virt)
    ensures PageOf(virt) < PAGES <==> DirIndex(virt) < RECURSIVE
  {
    assert virt / 0x40_0000 == virt / PAGE / ENTRIES;
  }

  lemma NotPresent(pd: seq<Word32>, mem: Memory, i: nat)
    requires |pd| == ENTRIES && i < RECURSIVE && !Present(pd[i])
    ensures forall page: nat :: page < PAGES && page / ENTRIES == i ==> Lookup(pd, mem, page) == None
  {
  }

  lemma FrameBack(e: Word32, virt: Word32)
    ensures (FrameOf(e) * PAGE + virt % PAGE) / PAGE == FrameOf(e)
  {
  }

  lemma Masked(e: Word32, virt: Word32)
    ensures FrameOf(e) * PAGE + virt % PAGE < U32_LIMIT
  {
  }

  /** What the allocator returned is 0 only when nothing was free. */
  lemma FreshFrame(pd: seq<Word32>, mem: Memory, free: set<nat>, addr: Word32)
    requires Good(pd, mem, free)
    requires free == {} ==> addr == 0
    requires free != {} ==> addr % PAGE == 0 && LeastFree(free, addr / PAGE)
    ensures addr == 0 <==> free == {}
    ensures addr != 0 ==>
      addr % PAGE == 0 && FrameOf(addr) in free && FrameOf(addr) == addr / PAGE && FrameOf(addr) in mem
  {
  }

  /** A directory entry before and after a page is mapped under it: a new one is for reading and
      writing, and either is a user entry if the page is to be one. */
  ghost predicate DirectoryFlags(d: Word32, d': Word32, flags: Word32) {
    if d % 2 == 0 then d' % 4096 == if flags % 8 >= 4 then 7 else 3
    else d' == d + if flags % 8 >= 4 && d % 8 < 4 then 4 else 0
  }

  /** A page that is mapped to the frame of phys, with the low twelve bits of flags and PRESENT. */
  ghost predicate MapsTo(e: Option<Word32>, phys: Word32, flags: Word32) {
    e.Some? && e.value / 4096 == phys / 4096 && e.value % 4096 == flags % 4096 + 1 - flags % 2
  }

  lemma EntryMaps(phys: Word32, flags: Word32)
    ensures MapsTo(Some(PageEntry(phys, flags)), phys, flags)
  {
    PageEntryBits(phys, flags);
    hide PageEntry;
  }

  lemma PageIs(virt: Word32)
    ensures PageOf(virt) == virt / 4096
  {
  }

  lemma NewDirectory(d: Word32, table: Word32, flags: Word32)
    requires !Present(d) && table % 4096 == 0
    ensures DirectoryFlags(d, TableEntry(table, flags), flags)
  {
    UserBit(d);
    TableEntryBits(table, flags);
    hide Present, TableEntry;
  }

  lemma OldDirectory(d: Word32, flags: Word32)
    requires Present(d)
    ensures DirectoryFlags(d, if User(flags) then OrUser(d) else d, flags)
  {
    UserBit(d);
    UserBit(flags);
    hide Present, User, OrUser;
  }

  class Vmm {
    const pmm: Pmm
    const pd: array<Word32>
    var mem: Memory

    ghost predicate Valid()
      reads this, pd, pmm, pmm.bitmap
    {
      && pmm.Valid() && pd != pmm.bitmap && pd.Length == ENTRIES
      && Good(pd[..], mem, pmm.FreeSet())
    }

    /** vmm_init: point slot 1023 of the boot directory, at address dir, to itself. */
    constructor (pmm: Pmm, boot: array<Word32>, dir: Word32, memory: Memory)
      requires pmm.Valid() && boot != pmm.bitmap && boot.Length == ENTRIES && dir % PAGE == 0
      requires Good(boot[..][RECURSIVE := TableEntry(dir, 0)], memory, pmm.FreeSet())
      modifies boot
      ensures Valid() && this.pmm == pmm && pd == boot && pd[..] == old(boot[..])[RECURSIVE := TableEntry(dir, 0)]
      ensures FrameOf(pd[RECURSIVE]) == FrameOf(dir) && pd[1023] == dir + 3
      ensures forall page: nat :: page < PAGES ==> Translate(page) == Lookup(old(boot[..]), memory, page)
    {
      TableEntryBits(dir, 0);
      this.pmm := pmm;
      pd := boot;
      mem := memory;
      new;
      pd[RECURSIVE] := TableEntry(dir, 0);
      assert pd[..] == old(boot[..])[RECURSIVE := TableEntry(dir, 0)];
    }

    /** The address space: what each page maps to. */
    ghost function Translate(page: nat): Option<Word32>
      requires pd.Length == ENTRIES && page < PAGES
      reads this, pd
    {
      Lookup(pd[..], mem, page)
    }

    /** The whole address space below slot 1023, page by page. */
    ghost function Space(): (s: seq<Option<Word32>>)
      requires pd.Length == ENTRIES
      reads this, pd
      ensures |s| == PAGES && forall page: nat :: page < PAGES ==> s[page] == Translate(page)
    {
      seq(PAGES, page requires 0 <= page < PAGES reads this, pd => Translate(page))
    }

    /** Frames that hold no table keep their contents. */
    twostate predicate DataKept()
      reads this, pd
    {
      && pd.Length == ENTRIES
      && forall f :: f in old(mem) && !IsTable(pd[..], f) ==> f in mem && mem[f] == old(mem[f])
    }

    /** vmm_map_page.  Only a missing table with no frame to put it in makes it fail. */
    method MapPage(virt: Word32, phys: Word32, flags: Word32)
      requires Valid() && PageOf(virt) < PAGES
      modifies this, pd, pmm, pmm.bitmap
      ensures Valid() && DataKept()
      ensures forall i :: 0 <= i < ENTRIES && i != PageOf(virt) / ENTRIES ==> pd[i] == old(pd[i])
      ensures var missing := !old(HasTable(pd[..], PageOf(virt) / ENTRIES));
        if missing && old(pmm.FreeSet()) == {} then pmm.FreeSet() == {} && mem == old(mem) && pd[..] == old(pd[..])
        else
          && (forall page: nat :: page < PAGES ==>
               Translate(page) == if page == PageOf(virt) then Some(PageEntry(phys, flags)) else old(Translate(page)))
          && HasTable(pd[..], PageOf(virt) / ENTRIES)
          && (!missing ==> forall i ::
            && old(HasTable(pd[..], i)) == HasTable(pd[..], i)
            && (HasTable(pd[..], i) ==> FrameOf(pd[i]) == old(FrameOf(pd[i]))))
          && (missing ==> FrameOf(pd[PageOf(virt) / ENTRIES]) in old(pmm.FreeSet()))
          && pmm.FreeSet() == old(pmm.FreeSet()) - (if missing then {FrameOf(pd[PageOf(virt) / ENTRIES])} else {})
          && MapsTo(Translate(virt / 4096), phys, flags)
          && DirectoryFlags(old(pd[virt / 4096 / 1024]), pd[virt / 4096 / 1024], flags)
    {
      EntryMaps(phys, flags);
      PageIs(virt);
      hide MapsTo, DirectoryFlags, Present, FrameOf, User, Good, Lookup, PageEntry, PageOf;
      Indices(virt);
      var i, k := DirIndex(virt), TableIndex(virt);
      var ok := EnsureTable(i, flags);
      if !ok { return; }
      SetPage(i, k, PageEntry(phys, flags));
    }

    /** The table for slot i, made if missing, with user access if asked for. */
    method EnsureTable(i: nat, flags: Word32) returns (ok: bool)
      requires Valid() && i < RECURSIVE
      modifies this, pd, pmm, pmm.bitmap
      ensures Valid() && DataKept() && (forall j :: 0 <= j < ENTRIES && j != i ==> pd[j] == old(pd[j]))
      ensures var missing := !old(HasTable(pd[..], i));
        && (ok <==> !(missing && old(pmm.FreeSet()) == {}))
        && (!ok ==> pmm.FreeSet() == {} && mem == old(mem) && pd[..] == old(pd[..]))
        && (ok ==> HasTable(pd[..], i) && (User(flags) ==> User(pd[i])) && DirectoryFlags(old(pd[i]), pd[i], flags))
        && (ok && missing ==> FrameOf(pd[i]) in old(pmm.FreeSet()))
        && (ok ==> pmm.FreeSet() == old(pmm.FreeSet()) - (if missing then {FrameOf(pd[i])} else {}))
        && (!missing ==> forall j ::
          && old(HasTable(pd[..], j)) == HasTable(pd[..], j)
          && (HasTable(pd[..], j) ==> FrameOf(pd[j]) == old(FrameOf(pd[j]))))
      ensures forall page: nat :: page < PAGES ==> Translate(page) == old(Translate(page))
    {
      hide Present, FrameOf, User, Good, Lookup, TableEntry, OrUser, DirectoryFlags;
      ghost var dir, free := pd[..], pmm.FreeSet();
      if !Present(pd[i]) {
        ok := MakeTable(i, flags);
        return;
      }
      OldDirectory(pd[i], flags);
      if User(flags) {
        AllowUser(dir, mem, free, i);
        pd[i] := OrUser(pd[i]);
        assert pd[..] == dir[i := OrUser(dir[i])];
      }
      return true;
    }

    method MakeTable(i: nat, flags: Word32) returns (ok: bool)
      requires Valid() && i < RECURSIVE && !Present(pd[i])
      modifies this, pd, pmm, pmm.bitmap
      ensures Valid() && DataKept() && (forall j :: 0 <= j < ENTRIES && j != i ==> pd[j] == old(pd[j]))
      ensures ok <==> old(pmm.FreeSet()) != {}
      ensures !ok ==> pmm.FreeSet() == {} && mem == old(mem) && pd[..] == old(pd[..])
      ensures ok ==>
        HasTable(pd[..], i) && (User(flags) ==> User(pd[i])) && DirectoryFlags(old(pd[i]), pd[i], flags)
      ensures ok ==> FrameOf(pd[i]) in old(pmm.FreeSet()) && pmm.FreeSet() == old(pmm.FreeSet()) - {FrameOf(pd[i])}
      ensures forall page: nat :: page < PAGES ==> Translate(page) == old(Translate(page))
    {
      hide Present, FrameOf, User, Good, Lookup, TableEntry, DirectoryFlags;
      ghost var dir, free := pd[..], pmm.FreeSet();
      var table := pmm.Alloc();
      FreshFrame(dir, mem, free, table);
      if table == 0 { return false; }
      NewTable(dir, mem, free, i, TableEntry(table, flags));
      NewDirectory(pd[i], table, flags);
      pd[i] := TableEntry(table, flags);
      var f := FrameOf(pd[i]);
      mem := mem[f := EmptyTable()];
      assert pd[..] == dir[i := TableEntry(table, flags)];
      assert IsTable(pd[..], f);
      return true;
    }

    method SetPage(i: nat, k: nat, e: Word32)
      requires Valid() && i < RECURSIVE && k < ENTRIES && HasTable(pd[..], i)
      requires Present(e) && User(e) ==> User(pd[i])
      modifies `mem
      ensures Valid() && DataKept()
      ensures forall page: nat :: page < PAGES ==>
        Translate(page) == if page == i * ENTRIES + k then (if Present(e) then Some(e) else None)
          else old(Translate(page))
    {
      hide Present, FrameOf, User, Good, Lookup;
      SetEntry(pd[..], mem, pmm.FreeSet(), i, k, e);
      var f := FrameOf(pd[i]);
      mem := mem[f := WithEntry(mem[f], k, e)];
      assert IsTable(pd[..], f);
    }

    method UnmapPage(virt: Word32)
      requires Valid() && PageOf(virt) < PAGES
      modifies `mem
      ensures Valid() && DataKept()
      ensures Space() == old(Space())[PageOf(virt) := None]
    {
      hide Present, FrameOf, User, Good, Lookup, PageOf;
      Indices(virt);
      var i, k := DirIndex(virt), TableIndex(virt);
      if !Present(pd[i]) {
        NotPresent(pd[..], mem, i);
        assert Space() == old(Space())[PageOf(virt) := None];
        return;
      }
      ZeroAbsent();
      SetPage(i, k, 0);
      assert Space() == old(Space())[PageOf(virt) := None];
    }

    /** vmm_get_physical; 0 when the page is not mapped. */
    method GetPhysical(virt: Word32) returns (phys: Word32)
      requires Valid() && PageOf(virt) < PAGES
      ensures phys == match Translate(PageOf(virt)) { case None => 0 case Some(e) => FrameOf(e) * PAGE + virt % PAGE }
    {
      hide Present, FrameOf, User, PageOf, DirIndex, TableIndex;
      Indices(virt);
      var i, k := DirIndex(virt), TableIndex(virt);
      if !Present(pd[i]) { return 0; }
      assert HasTable(pd[..], i);
      var e := mem[FrameOf(pd[i])][k];
      if !Present(e) { return 0; }
      Masked(e, virt);
      return FrameOf(e) * PAGE + virt % PAGE;
    }

    method IsMapped(virt: Word32) returns (mapped: bool)
      requires Valid() && PageOf(virt) < PAGES
      ensures mapped <==> Translate(PageOf(virt)).Some?
    {
      hide Present, FrameOf, User, PageOf, DirIndex, TableIndex;
      Indices(virt);
      var i, k := DirIndex(virt), TableIndex(virt);
      if !Present(pd[i]) { return false; }
      assert HasTable(pd[..], i);
      return Present(mem[FrameOf(pd[i])][k]);
    }

    /** memset of a mapped page to 0, through its translation. */
    method ZeroPage(virt: Word32)
      requires Valid() && PageOf(virt) < PAGES && Translate(PageOf(virt)).Some?
      requires var f := FrameOf(Translate(PageOf(virt)).value); f in mem && !IsTable(pd[..], f)
      modifies `mem
      ensures Space() == old(Space())
      ensures Valid() && mem == old(mem[FrameOf(Translate(PageOf(virt)).value) := EmptyTable()])
      ensures forall page: nat :: page < PAGES ==> Translate(page) == old(Translate(page))
    {
      hide Present, FrameOf, User, Good;
      var phys := GetPhysical(virt);
      var f := phys / PAGE;
      FrameBack(Translate(PageOf(virt)).value, virt);
      DataWrite(pd[..], mem, pmm.FreeSet(), f, EmptyTable());
      mem := mem[f := EmptyTable()];
      assert Space() == old(Space());
    }
  }
}
