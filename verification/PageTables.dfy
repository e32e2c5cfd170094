/** Two-level x86 page tables as a map from page number to entry.  Slot 1023 of the directory
    maps the directory itself, so tables are reached through physical frames. */
module PageTables {
  import opened Common
  import opened LittleEndian
  import opened Division

  const ENTRIES := 1024
  const RECURSIVE := 1023
  const PAGES := RECURSIVE * ENTRIES

  /** Physical memory outside the directory: 1024 words for every frame. */
  type Memory = map<nat, seq<Word32>>

  // ---- Entries: PRESENT is bit 0, WRITE bit 1, USER bit 2, the frame the top 20 ----

  predicate Present(e: Word32) { e % 2 == 1 }

  predicate User(e: Word32) { e / 4 % 2 == 1 }

  function FrameOf(e: Word32): nat { e / PAGE }

  /** The three low bits apart from the rest. */
  lemma LowBits(q: nat, r: nat)
    requires r < 8
    ensures (8 * q + r) % 2 == r % 2 && (8 * q + r) / 4 % 2 == r / 4 && (8 * q + r) / PAGE == q / 512
  {
    var x := 8 * q + r;
    DivIs(x, 2, 4 * q + r / 2, r % 2);
    DivIs(x, 4, 2 * q + r / 4, r % 4);
    DivIs(2 * q + r / 4, 2, q, r / 4);
    DivIs(x, PAGE, q / 512, 8 * (q % 512) + r);
  }

  /** The flags apart from the frame. */
  lemma LowFlags(f: nat, l: nat)
    requires l < PAGE
    ensures (PAGE * f + l) / PAGE == f && (PAGE * f + l) % PAGE == l
    ensures (PAGE * f + l) % 2 == l % 2 && (PAGE * f + l) / 4 % 2 == l / 4 % 2
  {
    var x := PAGE * f + l;
    DivIs(x, PAGE, f, l);
    DivIs(x, 2, 2048 * f + l / 2, l % 2);
    DivIs(x, 4, 1024 * f + l / 4, l % 4);
    DivIs(1024 * f + l / 4, 2, 512 * f + l / 4 / 2, l / 4 % 2);
  }

  function OrUser(e: Word32): (r: Word32)
    ensures User(r) && Present(r) == Present(e) && FrameOf(r) == FrameOf(e)
  {
    LowBits(e / 8, e % 8);
    if User(e) then e else LowBits(e / 8, e % 8 + 4); e + 4
  }

  /** (phys & 0xFFFFF000) | (flags & 0xFFF) | PRESENT. */
  function PageEntry(phys: Word32, flags: Word32): (e: Word32)
    ensures Present(e) && FrameOf(e) == FrameOf(phys) && (User(e) <==> User(flags))
  {
    var low := flags % PAGE;
    var marked := if low % 2 == 1 then low else low + 1;
    LowFlags(flags / PAGE, low);
    LowFlags(phys / PAGE, marked);
    EvenNext(low);
    phys - phys % PAGE + marked
  }

  /** The entry in numbers: the frame's address, and the low twelve bits of flags with bit 0 set. */
  lemma PageEntryBits(phys: Word32, flags: Word32)
    ensures var e := PageEntry(phys, flags);
      && e / 4096 == phys / 4096 && e % 4096 == flags % 4096 + 1 - flags % 2
      && e % 8 == flags % 8 + 1 - flags % 2
  {
    var low := flags % PAGE;
    var marked := if low % 2 == 1 then low else low + 1;
    LowFlags(flags / PAGE, low);
    EvenNext(low);
    LowFlags(phys / PAGE, marked);
    assert low % 2 == flags % 2;
    LowThree(phys / PAGE, marked);
    LowThree(flags / PAGE, low);
    LowEven(low);
  }

  lemma LowThree(f: nat, l: nat)
    requires l < PAGE
    ensures (PAGE * f + l) % 8 == l % 8
  {
    DivIs(PAGE * f + l, 8, 512 * f + l / 8, l % 8);
  }

  lemma LowEven(low: nat)
    ensures low % 2 == 0 ==> (low + 1) % 8 == low % 8 + 1
  {
    DivIs(low, 2, 4 * (low / 8) + low % 8 / 2, low % 8 % 2);
    if low % 2 == 0 { DivIs(low + 1, 8, low / 8, low % 8 + 1); }
  }

  lemma EvenNext(low: nat)
    ensures low % 2 == 0 ==> (low + 1) / 4 == low / 4 && (low + 1) % 2 == 1 && (low < PAGE ==> low + 1 < PAGE)
  {
    if low % 2 == 0 {
      var q, r := low / 4, low % 4;
      DivIs(low, 2, 2 * q + r / 2, r % 2);
      DivIs(low + 1, 4, q, r + 1);
      DivIs(low + 1, 2, low / 2, 1);
    }
  }

  /** phys | PRESENT | WRITE | (flags & USER), for the aligned address of a table. */
  function TableEntry(phys: Word32, flags: Word32): (e: Word32)
    requires phys % PAGE == 0
    ensures Present(e) && FrameOf(e) == FrameOf(phys) && (User(e) <==> User(flags))
  {
    LowFlags(phys / PAGE, 3);
    LowFlags(phys / PAGE, 7);
    phys + 3 + if User(flags) then 4 else 0
  }

  /** In numbers: PRESENT, WRITE, and USER if it is set in flags. */
  lemma TableEntryBits(phys: Word32, flags: Word32)
    requires phys % 4096 == 0
    ensures TableEntry(phys, flags) == phys + 3 + if flags % 8 >= 4 then 4 else 0
  {
    UserBit(flags);
  }

  lemma UserBit(e: Word32)
    ensures User(e) <==> e % 8 >= 4
    ensures Present(e) <==> e % 2 == 1
    ensures FrameOf(e) == e / 4096
    ensures OrUser(e) == e + if e % 8 >= 4 then 0 else 4
  {
  }

  // ---- Translation ----

  /** The entry for a page, if the directory and the table hold one. */
  function Lookup(pd: seq<Word32>, mem: Memory, page: nat): Option<Word32>
    requires |pd| == ENTRIES && page < PAGES
  {
    var d := pd[page / ENTRIES];
    if Present(d) && FrameOf(d) in mem && |mem[FrameOf(d)]| == ENTRIES && Present(mem[FrameOf(d)][page % ENTRIES])
    then Some(mem[FrameOf(d)][page % ENTRIES]) else None
  }

  /** In numbers: a page is mapped if both words on the way are odd, to the second of them. */
  lemma LookupBits(pd: seq<Word32>, mem: Memory, page: nat)
    requires |pd| == 1024 && page < 1023 * 1024
    ensures Lookup(pd, mem, page).Some? <==>
      var d := pd[page / 1024];
      d % 2 == 1 && d / 4096 in mem && |mem[d / 4096]| == 1024 && mem[d / 4096][page % 1024] % 2 == 1
    ensures Lookup(pd, mem, page).Some? ==> Lookup(pd, mem, page).value == mem[pd[page / 1024] / 4096][page % 1024]
  {
  }

  ghost predicate HasTable(pd: seq<Word32>, i: int)
    requires |pd| == ENTRIES
  {
    0 <= i < ENTRIES && Present(pd[i])
  }

  /** A user page's directory entry is a user entry. */
  ghost predicate UserAgrees(d: Word32, table: seq<Word32>) {
    forall k :: 0 <= k < |table| && Present(table[k]) && User(table[k]) ==> User(d)
  }

  /** Tables, and the directory itself at slot 1023, lie in pairwise distinct frames in use. */
  ghost predicate Good(pd: seq<Word32>, mem: Memory, free: set<nat>) {
    && |pd| == ENTRIES && 0 !in free
    && (forall f :: f in free ==> f in mem)
    && (forall f :: f in mem ==> |mem[f]| == ENTRIES)
    && (forall i :: HasTable(pd, i) ==> FrameOf(pd[i]) !in free)
    && (forall i, j :: HasTable(pd, i) && HasTable(pd, j) && i != j ==> FrameOf(pd[i]) != FrameOf(pd[j]))
    && (forall i :: HasTable(pd, i) && i < RECURSIVE ==>
      FrameOf(pd[i]) in mem && UserAgrees(pd[i], mem[FrameOf(pd[i])]))
  }

  /** f holds the table of some slot. */
  ghost predicate IsTable(pd: seq<Word32>, f: nat)
    requires |pd| == ENTRIES
  {
    exists i :: HasTable(pd, i) && FrameOf(pd[i]) == f
  }

  function EmptyTable(): (t: seq<Word32>)
    ensures |t| == ENTRIES && forall k :: 0 <= k < ENTRIES ==> t[k] == 0
  {
    seq(ENTRIES, k => 0)
  }

  function WithEntry(t: seq<Word32>, k: nat, e: Word32): seq<Word32>
    requires k < |t|
  {
    t[k := e]
  }

  /** Writing one entry of one table changes one page's translation. */
  lemma SetEntry(pd: seq<Word32>, mem: Memory, free: set<nat>, i: nat, k: nat, e: Word32)
    requires Good(pd, mem, free) && HasTable(pd, i) && i < RECURSIVE && k < ENTRIES
    requires Present(e) && User(e) ==> User(pd[i])
    ensures FrameOf(pd[i]) in mem && |mem[FrameOf(pd[i])]| == ENTRIES
    ensures var mem' := mem[FrameOf(pd[i]) := WithEntry(mem[FrameOf(pd[i])], k, e)];
      && Good(pd, mem', free)
      && forall page: nat :: page < PAGES ==>
        Lookup(pd, mem', page) == if page == i * ENTRIES + k then (if Present(e) then Some(e) else None)
          else Lookup(pd, mem, page)
  {
    hide FrameOf, Present, User;
    var f := FrameOf(pd[i]);
    var mem' := mem[f := WithEntry(mem[f], k, e)];
    assert HasTable(pd, i);
    forall page: nat | page < PAGES
      ensures Lookup(pd, mem', page) ==
        if page == i * ENTRIES + k then (if Present(e) then Some(e) else None) else Lookup(pd, mem, page)
    {
      var j := page / ENTRIES;
      assert HasTable(pd, j) && j != i ==> FrameOf(pd[j]) != f;
    }
  }

  /** A fresh zeroed table changes no translation. */
  lemma NewTable(pd: seq<Word32>, mem: Memory, free: set<nat>, i: nat, e: Word32)
    requires Good(pd, mem, free) && i < RECURSIVE && !HasTable(pd, i) && FrameOf(e) in free && Present(e)
    ensures var pd', mem' := pd[i := e], mem[FrameOf(e) := EmptyTable()];
      && Good(pd', mem', free - {FrameOf(e)})
      && forall page: nat :: page < PAGES ==> Lookup(pd', mem', page) == Lookup(pd, mem, page)
  {
    hide FrameOf, Present, User;
    var f := FrameOf(e);
    var pd', mem' := pd[i := e], mem[f := EmptyTable()];
    forall j | HasTable(pd', j) && j != i
      ensures HasTable(pd, j) && FrameOf(pd'[j]) != f
    {
      assert HasTable(pd, j);
    }
    assert !Present(0) by { ZeroAbsent(); }
    forall page: nat | page < PAGES
      ensures Lookup(pd', mem', page) == Lookup(pd, mem, page)
    {
      var j := page / ENTRIES;
      assert HasTable(pd, j) ==> FrameOf(pd[j]) != f;
    }
  }

  lemma ZeroAbsent()
    ensures !Present(0)
  {
  }

  /** So does marking a directory entry for user access. */
  lemma AllowUser(pd: seq<Word32>, mem: Memory, free: set<nat>, i: nat)
    requires Good(pd, mem, free) && i < RECURSIVE && HasTable(pd, i)
    ensures var pd' := pd[i := OrUser(pd[i])];
      && Good(pd', mem, free)
      && forall page: nat :: page < PAGES ==> Lookup(pd', mem, page) == Lookup(pd, mem, page)
  {
    hide FrameOf, Present, User, OrUser;
    var pd' := pd[i := OrUser(pd[i])];
    assert forall j :: HasTable(pd', j) ==> HasTable(pd, j) && FrameOf(pd'[j]) == FrameOf(pd[j]);
  }

  /** A user page sits under a user directory entry. */
  lemma UserUnderUser(pd: seq<Word32>, mem: Memory, free: set<nat>, page: nat)
    requires Good(pd, mem, free) && page < PAGES && Lookup(pd, mem, page).Some? && User(Lookup(pd, mem, page).value)
    ensures Present(pd[page / ENTRIES]) && User(pd[page / ENTRIES])
  {
    assert HasTable(pd, page / ENTRIES);
  }

  /** Writing a frame that holds no table changes no translation. */
  lemma DataWrite(pd: seq<Word32>, mem: Memory, free: set<nat>, f: nat, words: seq<Word32>)
    requires Good(pd, mem, free) && f in mem && !IsTable(pd, f) && |words| == ENTRIES
    ensures Good(pd, mem[f := words], free)
    ensures forall page: nat :: page < PAGES ==> Lookup(pd, mem[f := words], page) == Lookup(pd, mem, page)
  {
    hide FrameOf, Present, User;
    forall i | HasTable(pd, i)
      ensures FrameOf(pd[i]) != f
    {
    }
    forall page: nat | page < PAGES
      ensures Lookup(pd, mem[f := words], page) == Lookup(pd, mem, page)
    {
      assert HasTable(pd, page / ENTRIES) ==> FrameOf(pd[page / ENTRIES]) != f;
    }
  }

  /** A free frame holds no table. */
  lemma FreeNoTable(pd: seq<Word32>, mem: Memory, free: set<nat>, f: nat)
    requires Good(pd, mem, free) && f in free
    ensures f in mem && !IsTable(pd, f)
  {
  }

  lemma FewerFree(pd: seq<Word32>, mem: Memory, free: set<nat>, free': set<nat>)
    requires Good(pd, mem, free) && free' <= free
    ensures Good(pd, mem, free')
  {
  }

  lemma ZeroInUse(pd: seq<Word32>, mem: Memory, free: set<nat>)
    requires Good(pd, mem, free)
    ensures 0 !in free
  {
  }

  lemma MoreFree(pd: seq<Word32>, mem: Memory, free: set<nat>, f: nat)
    requires Good(pd, mem, free) && f in mem && f != 0 && !IsTable(pd, f)
    ensures Good(pd, mem, free + {f})
  {
  }
}
