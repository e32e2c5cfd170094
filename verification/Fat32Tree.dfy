/** The directory tree over the chains: every directory is well formed, every file entry
    owns the chain it starts, and each file-system operation keeps it so. */
module Fat32Tree {
  import opened LittleEndian
  import opened Fat32Layout
  import opened Fat32Chains
  import opened Fat32Content
  import opened Fat32Grow
  import opened Fat32Write
  import opened Fat32Names
  import opened Fat32Slots
  import opened Fat32DirMap
  import opened Fat32Dir
  import opened Fat32Create

  /** The directory and slot of the entry that owns a file's chain. */
  type Refs = map<nat, (nat, nat)>

  predicate IsFile(e: Entry) {
    Live(e) && !IsDirectory(e)
  }

  /** A directory entry (other than "." and "..") leads to a directory; a file entry has no
      chain yet, or is the one entry of the tree that owns its chain. */
  ghost predicate EntryOk(heads: set<nat>, dirs: set<nat>, refs: Refs, d: nat, k: nat, e: Entry) {
    Live(e) ==>
      var c := StartCluster(e);
      if IsDirectory(e) then e[0] == DOT || c in dirs
      else c == 0 || (c in heads && c !in dirs && c in refs && refs[c] == (d, k))
  }

  ghost predicate SlotsOk(s: seq<Entry>, heads: set<nat>, dirs: set<nat>, refs: Refs, d: nat) {
    && WellFormed(s)
    && forall k :: 0 <= k < |s| ==> EntryOk(heads, dirs, refs, d, k, s[k])
  }

  ghost predicate DirOk(l: Ledger, data: seq<seq<Byte>>, dirs: set<nat>, refs: Refs, d: nat) {
    && d in l.chains && InTable(data, l.chains[d])
    && SlotsOk(Slots(data, l.chains[d]), l.chains.Keys, dirs, refs, d)
  }

  ghost predicate Tree(l: Ledger, data: seq<seq<Byte>>, dirs: set<nat>, refs: Refs) {
    forall d :: d in dirs ==> DirOk(l, data, dirs, refs, d)
  }

  /** The chain at d and what it stores are the same before and after. */
  ghost predicate SameDir(l: Ledger, data: seq<seq<Byte>>, l': Ledger, data': seq<seq<Byte>>, d: nat) {
    && d in l.chains && d in l'.chains && l'.chains[d] == l.chains[d]
    && InTable(data, l.chains[d]) && InTable(data', l.chains[d])
    && Slots(data', l.chains[d]) == Slots(data, l.chains[d])
  }

  /** More chains, more directories: entries stay good. */
  lemma SlotsOkGrow(s: seq<Entry>, heads: set<nat>, heads': set<nat>, dirs: set<nat>, dirs': set<nat>, refs: Refs,
                    d: nat)
    requires SlotsOk(s, heads, dirs, refs, d) && heads <= heads' && dirs <= dirs' && dirs' * heads <= dirs
    ensures SlotsOk(s, heads', dirs', refs, d)
  {
    hide WellFormed, Live, StartCluster, IsDirectory;
  }

  lemma DirKept(l: Ledger, data: seq<seq<Byte>>, l': Ledger, data': seq<seq<Byte>>, dirs: set<nat>, dirs': set<nat>,
                refs: Refs, d: nat)
    requires DirOk(l, data, dirs, refs, d) && SameDir(l, data, l', data', d)
    requires l.chains.Keys <= l'.chains.Keys && dirs <= dirs' && dirs' * l.chains.Keys <= dirs
    ensures DirOk(l', data', dirs', refs, d)
  {
    hide SlotsOk, Slots;
    SlotsOkGrow(Slots(data, l.chains[d]), l.chains.Keys, l'.chains.Keys, dirs, dirs', refs, d);
  }

  /** If data changed only in clusters of the chain at h (and in c), a directory elsewhere is the same. */
  lemma DirElsewhere(l: Ledger, data: seq<seq<Byte>>, l': Ledger, data': seq<seq<Byte>>, d: nat, h: nat, c: nat)
    requires Accounted(l'.fat, l'.chains, l'.own) && d in l.chains && InTable(data, l.chains[d])
    requires d in l'.chains && l'.chains[d] == l.chains[d] && d != h && h in l'.chains
    requires |data'| == |data| && c !in l.chains[d]
    requires forall x :: 0 <= x < |data| && x !in l'.chains[h] && x != c ==> data'[x] == data[x]
    ensures SameDir(l, data, l', data', d)
  {
    ChainsApart(l', d, h);
    SlotsElsewhere(data, data', l.chains[d]);
  }

  // ---- Writing ----

  /** Writing a file's data leaves every directory as it was. */
  lemma TreeWrite(l: Ledger, data: seq<seq<Byte>>, l': Ledger, data': seq<seq<Byte>>, dirs: set<nat>, refs: Refs,
                  h: nat, before: Chain, size: nat, offset: nat, done: seq<Byte>)
    requires Tree(l, data, dirs, refs) && h !in dirs
    requires FileWritten(l, data, l', data', h, before, size, offset, done) && Accounted(l'.fat, l'.chains, l'.own)
    ensures Tree(l', data', dirs, refs)
    ensures forall d :: d in dirs ==> SameDir(l, data, l', data', d)
  {
    hide Accounted, SlotsOk, Slots;
    ChainLinks(l'.fat, l'.chains, l'.own, h);
    forall d | d in dirs
      ensures DirOk(l', data', dirs, refs, d) && SameDir(l, data, l', data', d)
    {
      assert DirOk(l, data, dirs, refs, d);
      ChainsApart(l', d, h);
      DirElsewhere(l, data, l', data', d, h, l'.chains[h][0]);
      DirKept(l, data, l', data', dirs, dirs, refs, d);
    }
  }

  /** No file entry starts at cluster c. */
  ghost predicate Unreferenced(l: Ledger, data: seq<seq<Byte>>, dirs: set<nat>, c: nat) {
    forall d, k | d in dirs && d in l.chains && InTable(data, l.chains[d]) && 0 <= k < |Slots(data, l.chains[d])|
      && IsFile(Slots(data, l.chains[d])[k]) :: StartCluster(Slots(data, l.chains[d])[k]) != c
  }

  /** Only chains are referenced. */
  lemma FreshUnreferenced(l: Ledger, data: seq<seq<Byte>>, dirs: set<nat>, refs: Refs, c: nat)
    requires Tree(l, data, dirs, refs) && c != 0 && c !in l.chains
    ensures Unreferenced(l, data, dirs, c)
  {
    hide Slots, WellFormed;
    forall d, k | d in dirs && d in l.chains && InTable(data, l.chains[d]) && 0 <= k < |Slots(data, l.chains[d])|
        && IsFile(Slots(data, l.chains[d])[k])
      ensures StartCluster(Slots(data, l.chains[d])[k]) != c
    {
      assert DirOk(l, data, dirs, refs, d);
      assert EntryOk(l.chains.Keys, dirs, refs, d, k, Slots(data, l.chains[d])[k]);
    }
  }

  /** Still unreferenced when the directories are the same. */
  lemma UnreferencedKept(l: Ledger, data: seq<seq<Byte>>, l': Ledger, data': seq<seq<Byte>>, dirs: set<nat>, c: nat)
    requires Unreferenced(l, data, dirs, c)
    requires forall d :: d in dirs ==> SameDir(l, data, l', data', d)
    ensures Unreferenced(l', data', dirs, c)
  {
    hide Slots;
    forall d, k | d in dirs && d in l'.chains && InTable(data', l'.chains[d]) && 0 <= k < |Slots(data', l'.chains[d])|
        && IsFile(Slots(data', l'.chains[d])[k])
      ensures StartCluster(Slots(data', l'.chains[d])[k]) != c
    {
      assert SameDir(l, data, l', data', d);
    }
  }

  /** Slot k of directory d changed and nothing else did. */
  lemma OtherDirsSame(l: Ledger, data: seq<seq<Byte>>, data': seq<seq<Byte>>, dirs: set<nat>, refs: Refs, d: nat,
                      k: nat, e: Entry)
    requires Tree(l, data, dirs, refs) && d in dirs && Accounted(l.fat, l.chains, l.own) && d in l.chains
    requires SlotStored(data, data', l.chains[d], k, e)
    ensures forall x :: x in dirs && x != d ==> SameDir(l, data, l, data', x)
    ensures InTable(data', l.chains[d])
  {
    hide Accounted, SlotsOk, Slots;
    ChainLinks(l.fat, l.chains, l.own, d);
    forall x | x in dirs && x != d
      ensures SameDir(l, data, l, data', x)
    {
      assert DirOk(l, data, dirs, refs, x);
      ChainsApart(l, x, d);
      DirElsewhere(l, data, l, data', x, d, l.chains[d][0]);
    }
  }

  // ---- Updating a file's entry ----

  /** Recording size and start cluster of a file in its entry; a new start cluster must not
      be in use by another entry. */
  lemma TreeUpdate(l: Ledger, data: seq<seq<Byte>>, data': seq<seq<Byte>>, dirs: set<nat>, refs: Refs,
                   d: nat, k: nat, size: Word32, c: Word32)
    requires Tree(l, data, dirs, refs) && d in dirs && Accounted(l.fat, l.chains, l.own)
      && DirOk(l, data, dirs, refs, d)
    requires k < |Slots(data, l.chains[d])| && IsFile(Slots(data, l.chains[d])[k])
    requires SlotStored(data, data', l.chains[d], k, Resized(Slots(data, l.chains[d])[k], size, c))
    requires c in l.chains && c !in dirs && c != 0
    requires c == StartCluster(Slots(data, l.chains[d])[k]) || Unreferenced(l, data, dirs, c)
    ensures Tree(l, data', dirs, refs[c := (d, k)])
  {
    hide Accounted, Slots, WellFormed;
    var s := Slots(data, l.chains[d]);
    var e := Resized(s[k], size, c);
    var refs' := refs[c := (d, k)];
    OtherDirsSame(l, data, data', dirs, refs, d, k, e);
    ResizedKeeps(s, k, size, c);
    forall x | x in dirs
      ensures DirOk(l, data', dirs, refs', x)
    {
      assert DirOk(l, data, dirs, refs, x);
      var t := Slots(data', l.chains[x]);
      assert x != d ==> SameDir(l, data, l, data', x);
      forall j | 0 <= j < |t|
        ensures EntryOk(l.chains.Keys, dirs, refs', x, j, t[j])
      {
        if x != d || j != k {
          assert t[j] == Slots(data, l.chains[x])[j];
          assert EntryOk(l.chains.Keys, dirs, refs, x, j, t[j]);
          assert EntryOk(l.chains.Keys, dirs, refs, d, k, s[k]);
          assert IsFile(t[j]) ==> StartCluster(t[j]) != c || c == StartCluster(s[k]);
        }
      }
    }
  }

  lemma ResizedKeeps(s: seq<Entry>, k: nat, size: Word32, c: Word32)
    requires WellFormed(s) && k < |s| && Live(s[k])
    ensures WellFormed(s[k := Resized(s[k], size, c)]) && Live(Resized(s[k], size, c))
    ensures IsDirectory(Resized(s[k], size, c)) == IsDirectory(s[k])
  {
    hide WellFormed, Canonical;
    var e := Resized(s[k], size, c);
    assert e[0] == Raw(e)[0] && s[k][0] == Raw(s[k])[0];
    WellFormedStands(s);
    UpdateChanges(s, DirMap(s), k, e);
  }

  lemma WellFormedStands(s: seq<Entry>)
    requires WellFormed(s)
    ensures Stands(s, DirMap(s))
  {
    DirMapStands(s);
  }

  // ---- Unlinking ----

  /** The ledger once the chain at c is freed. */
  ghost function Freed(l: Ledger, c: nat): Ledger
    requires c in l.chains
  {
    Ledger(Cleared(l.fat, l.chains[c]), l.chains - {c}, Release(l.own, c))
  }

  /** Freeing the chain of a file entry and marking the entry deleted. */
  lemma TreeUnlink(l: Ledger, data: seq<seq<Byte>>, data': seq<seq<Byte>>, dirs: set<nat>, refs: Refs, d: nat, k: nat)
    requires Tree(l, data, dirs, refs) && d in dirs && Accounted(l.fat, l.chains, l.own)
      && DirOk(l, data, dirs, refs, d)
    requires k < |Slots(data, l.chains[d])| && IsFile(Slots(data, l.chains[d])[k])
    requires SlotStored(data, data', l.chains[d], k, Deleted(Slots(data, l.chains[d])[k]))
    ensures var c := StartCluster(Slots(data, l.chains[d])[k]);
      if c == 0 then Tree(l, data', dirs, refs) else c in l.chains && c !in dirs && Tree(Freed(l, c), data', dirs, refs)
  {
    hide Accounted, Slots, WellFormed;
    var s := Slots(data, l.chains[d]);
    var c := StartCluster(s[k]);
    assert EntryOk(l.chains.Keys, dirs, refs, d, k, s[k]);
    OtherDirsSame(l, data, data', dirs, refs, d, k, Deleted(s[k]));
    WellFormedStands(s);
    UnlinkRemoves(s, DirMap(s), k);
    var l' := if c == 0 then l else Freed(l, c);
    forall x | x in dirs
      ensures DirOk(l', data', dirs, refs, x)
    {
      assert DirOk(l, data, dirs, refs, x);
      assert x != d ==> SameDir(l, data, l, data', x);
      var t := Slots(data', l.chains[x]);
      forall j | 0 <= j < |t|
        ensures EntryOk(l'.chains.Keys, dirs, refs, x, j, t[j])
      {
        if x != d || j != k {
          assert t[j] == Slots(data, l.chains[x])[j];
          assert EntryOk(l.chains.Keys, dirs, refs, x, j, t[j]);
        }
      }
    }
  }

  // ---- Creating ----

  /** Lengthening a full directory by empty slots. */
  lemma TreeExtend(l: Ledger, data: seq<seq<Byte>>, l': Ledger, data': seq<seq<Byte>>, dirs: set<nat>, refs: Refs,
                   d: nat, m: nat)
    requires Tree(l, data, dirs, refs) && d in dirs && 0 < m
    requires Accounted(l'.fat, l'.chains, l'.own) && DirExtended(l, data, l', data', d, m)
    ensures Tree(l', data', dirs, refs) && d in l'.chains && InTable(data', l'.chains[d])
    ensures Slots(data', l'.chains[d]) == Slots(data, l.chains[d]) ||
      Slots(data', l'.chains[d]) == Slots(data, l.chains[d]) + Zeros(m)
    ensures forall x :: x in dirs && x != d ==> SameDir(l, data, l', data', x)
  {
    hide Accounted, Slots, WellFormed, Packed;
    assert DirOk(l, data, dirs, refs, d);
    if l' != l || data' != data {
      DirGrownSlots(l, data, l', data', d, m);
      assert d in l'.chains && l'.chains == l.chains[d := l'.chains[d]];
      var s := Slots(data, l.chains[d]);
      WellFormedStands(s);
      ExtendSlots(s, DirMap(s), m);
      var c := l'.chains[d][|l.chains[d]|];
      assert c in l'.chains[d];
      forall x | x in dirs
        ensures DirOk(l', data', dirs, refs, x) && (x != d ==> SameDir(l, data, l', data', x))
      {
        assert DirOk(l, data, dirs, refs, x);
        if x != d {
          ChainsApart(l', x, d);
          DirElsewhere(l, data, l', data', x, d, c);
          DirKept(l, data, l', data', dirs, dirs, refs, x);
        } else {
          forall j | 0 <= j < |s + Zeros(m)|
            ensures EntryOk(l'.chains.Keys, dirs, refs, d, j, (s + Zeros(m))[j])
          {
            if j < |s| {
              assert EntryOk(l.chains.Keys, dirs, refs, d, j, s[j]);
            }
          }
        }
      }
    } else {
      forall x | x in dirs
        ensures SameDir(l, data, l', data', x)
      {
        assert DirOk(l, data, dirs, refs, x);
      }
    }
  }

  /** A raw name no present entry of s has. */
  predicate Unused(s: seq<Entry>, raw: Text) {
    forall j :: 0 <= j < |s| && Present(s[j]) ==> Raw(s[j]) != raw
  }

  lemma NewEntryKeeps(s: seq<Entry>, k: nat, raw: Text, attr: Byte, c: Word32)
    requires WellFormed(s) && k == FreeSlotFrom(s, 0) < |s| && Canonical(raw) && Unused(s, raw)
    requires attr == ATTR_DIRECTORY || attr == ATTR_ARCHIVE
    ensures WellFormed(s[k := NewEntry(raw, attr, c)]) && Live(NewEntry(raw, attr, c))
    ensures Stands(s[k := NewEntry(raw, attr, c)], DirMap(s)[raw := Binding(attr, c, 0)]) && raw !in DirMap(s)
  {
    var e := NewEntry(raw, attr, c);
    hide Canonical, WellFormed;
    assert e[0] == Raw(e)[0] && raw[0] == raw[..8][0];
    CanonicalStart(raw);
    FreeSlotIs(s, 0);
    WellFormedStands(s);
    CreateAdds(s, DirMap(s), k, e);
  }

  lemma CanonicalStart(raw: Text)
    requires Canonical(raw)
    ensures raw[0] != 0 && raw[0] != DELETED
  {
    TrimmedText(raw[..8]);
    assert raw[..8][0] == raw[0];
    assert Trim(raw[..8])[0] == raw[0];
  }

  lemma {:induction false} FreeSlotIs(s: seq<Entry>, i: nat)
    requires i <= |s|
    ensures var k := FreeSlotFrom(s, i);
      && (forall j :: i <= j < k ==> Present(s[j])) && (k < |s| ==> !Present(s[k]))
    decreases |s| - i
  {
    if i < |s| && Present(s[i]) {
      FreeSlotIs(s, i + 1);
    }
  }

  /** Filling the first free slot with a new file, or a new directory on a fresh cluster. */
  lemma TreePlace(l: Ledger, data: seq<seq<Byte>>, l': Ledger, data': seq<seq<Byte>>, dirs: set<nat>, refs: Refs,
                  d: nat, k: nat, raw: Text, attr: Byte, c: nat, m: nat)
    requires Tree(l, data, dirs, refs) && d in dirs && Accounted(l'.fat, l'.chains, l'.own)
      && DirOk(l, data, dirs, refs, d)
    requires Placed(l, data, l', data', l.chains[d], k, raw, attr, c, m)
      && k == FreeSlotFrom(Slots(data, l.chains[d]), 0)
    requires attr == ATTR_DIRECTORY || attr == ATTR_ARCHIVE
    requires Canonical(raw) && Unused(Slots(data, l.chains[d]), raw)
    ensures Tree(l', data', if attr == ATTR_DIRECTORY then dirs + {c} else dirs, refs)
    ensures d in l'.chains && l'.chains[d] == l.chains[d] && InTable(data', l.chains[d])
    ensures forall x :: x in dirs && x != d ==> SameDir(l, data, l', data', x)
  {
    hide Accounted, Slots, WellFormed, Packed, Canonical, Unused, Grown;
    var s := Slots(data, l.chains[d]);
    var dirs' := if attr == ATTR_DIRECTORY then dirs + {c} else dirs;
    NewEntryKeeps(s, k, raw, attr, c);
    var t := s[k := NewEntry(raw, attr, c)];
    assert MakesDirectory(attr) <==> attr == ATTR_DIRECTORY;
    assert d in l'.chains && l'.chains[d] == l.chains[d];
    forall x | x in dirs
      ensures DirOk(l', data', dirs', refs, x) && (x != d ==> SameDir(l, data, l', data', x))
    {
      assert DirOk(l, data, dirs, refs, x);
      if x != d {
        FreshApart(l, l', data', attr, c, m, x);
        DirElsewhere(l, data, l', data', x, d, c);
        DirKept(l, data, l', data', dirs, dirs', refs, x);
      } else {
        forall j | 0 <= j < |t|
          ensures EntryOk(l'.chains.Keys, dirs', refs, d, j, t[j])
        {
          if j != k {
            assert EntryOk(l.chains.Keys, dirs, refs, d, j, s[j]);
          } else {
            assert IsDirectory(t[k]) <==> attr == ATTR_DIRECTORY;
          }
        }
      }
    }
    if attr == ATTR_DIRECTORY {
      ZerosOk(m, l'.chains.Keys, dirs', refs, c);
      assert DirOk(l', data', dirs', refs, c);
    }
  }

  /** A fresh cluster is in no older chain. */
  lemma FreshApart(l: Ledger, l': Ledger, data': seq<seq<Byte>>, attr: Byte, c: nat, m: nat, x: nat)
    requires FreshCluster(l, l', data', attr, c, m) && Accounted(l'.fat, l'.chains, l'.own) && x in l.chains
    ensures c !in l.chains[x]
  {
    hide Accounted, Grown, Slots;
    ChainLinks(l'.fat, l'.chains, l'.own, x);
    if MakesDirectory(attr) {
      ChainsApart(l', x, c);
      assert c in l'.chains[c] by {
        assert l'.chains[c][0] == c;
      }
    }
  }

  lemma ZerosOk(m: nat, heads: set<nat>, dirs: set<nat>, refs: Refs, d: nat)
    ensures SlotsOk(Zeros(m), heads, dirs, refs, d)
  {
  }

  /** Directories other than d are the same. */
  ghost predicate OthersSame(l: Ledger, data: seq<seq<Byte>>, l': Ledger, data': seq<seq<Byte>>, dirs: set<nat>,
                             d: nat) {
    forall x :: x in dirs && x != d ==> SameDir(l, data, l', data', x)
  }

  lemma OthersSameTwice(l: Ledger, data: seq<seq<Byte>>, l1: Ledger, data1: seq<seq<Byte>>, l2: Ledger,
                        data2: seq<seq<Byte>>, dirs: set<nat>, d: nat)
    requires OthersSame(l, data, l1, data1, dirs, d) && OthersSame(l1, data1, l2, data2, dirs, d)
    ensures OthersSame(l, data, l2, data2, dirs, d)
  {
    forall x | x in dirs && x != d
      ensures SameDir(l, data, l2, data2, x)
    {
      assert SameDir(l, data, l1, data1, x) && SameDir(l1, data1, l2, data2, x);
    }
  }

  /** The map of the directory at d. */
  ghost function MapAt(l: Ledger, data: seq<seq<Byte>>, d: nat): Directory
    requires d in l.chains && InTable(data, l.chains[d])
  {
    DirMap(Slots(data, l.chains[d]))
  }

  /** No hidden entry of the directory has this raw name. */
  ghost predicate NotHidden(s: seq<Entry>, raw: Text) {
    forall i :: 0 <= i < |s| && Present(s[i]) && IsHidden(s[i]) ==> Raw(s[i]) != raw
  }

  lemma UnusedIs(s: seq<Entry>, raw: Text)
    requires WellFormed(s) && raw !in DirMap(s) && NotHidden(s, raw)
    ensures Unused(s, raw)
  {
    WellFormedStands(s);
  }

  lemma MapUnique(s: seq<Entry>, m: Directory)
    requires WellFormed(s) && Stands(s, m)
    ensures DirMap(s) == m
  {
    WellFormedStands(s);
    StandsUnique(s, DirMap(s), m);
  }

  /** Lengthening a directory leaves its map alone. */
  lemma ExtendMap(l: Ledger, data: seq<seq<Byte>>, l': Ledger, data': seq<seq<Byte>>, dirs: set<nat>, refs: Refs,
                  d: nat, m: nat, raw: Text)
    requires Tree(l, data, dirs, refs) && d in dirs && 0 < m && DirOk(l, data, dirs, refs, d)
    requires Accounted(l'.fat, l'.chains, l'.own) && DirExtended(l, data, l', data', d, m)
    ensures Tree(l', data', dirs, refs) && DirOk(l', data', dirs, refs, d)
    ensures OthersSame(l, data, l', data', dirs, d) && MapAt(l', data', d) == MapAt(l, data, d)
    ensures Unused(Slots(data, l.chains[d]), raw) ==> Unused(Slots(data', l'.chains[d]), raw)
  {
    hide Accounted, WellFormed, Slots;
    TreeExtend(l, data, l', data', dirs, refs, d, m);
    assert DirOk(l', data', dirs, refs, d);
    var s := Slots(data, l.chains[d]);
    WellFormedStands(s);
    ExtendSlots(s, DirMap(s), m);
    assert seq(m, _ => ZERO_ENTRY) == Zeros(m);
    MapUnique(Slots(data', l'.chains[d]), DirMap(s));
  }

  /** Placing an entry adds its binding. */
  lemma PlaceMap(l: Ledger, data: seq<seq<Byte>>, l': Ledger, data': seq<seq<Byte>>, dirs: set<nat>, refs: Refs,
                 d: nat, raw: Text, attr: Byte, c: nat, m: nat)
    requires Tree(l, data, dirs, refs) && d in dirs && Accounted(l'.fat, l'.chains, l'.own)
      && DirOk(l, data, dirs, refs, d)
    requires Placed(l, data, l', data', l.chains[d], FreeSlotFrom(Slots(data, l.chains[d]), 0), raw, attr, c, m)
    requires attr == ATTR_DIRECTORY || attr == ATTR_ARCHIVE
    requires Canonical(raw) && Unused(Slots(data, l.chains[d]), raw)
    ensures Tree(l', data', if attr == ATTR_DIRECTORY then dirs + {c} else dirs, refs)
    ensures d in l'.chains && InTable(data', l'.chains[d]) && OthersSame(l, data, l', data', dirs, d)
    ensures c < CLUSTER_END && MapAt(l', data', d) == MapAt(l, data, d)[raw := Binding(attr, c, 0)]
      && raw !in MapAt(l, data, d)
    ensures if attr == ATTR_DIRECTORY then c !in l.chains && c in l'.chains else c == 0
  {
    hide Accounted, WellFormed, Slots, Grown, Canonical, Unused;
    var s := Slots(data, l.chains[d]);
    TreePlace(l, data, l', data', dirs, refs, d, FreeSlotFrom(s, 0), raw, attr, c, m);
    assert DirOk(l', data', if attr == ATTR_DIRECTORY then dirs + {c} else dirs, refs, d);
    NewEntryKeeps(s, FreeSlotFrom(s, 0), raw, attr, c);
    MapUnique(Slots(data', l'.chains[d]), DirMap(s)[raw := Binding(attr, c, 0)]);
  }

  /** Growing chains loses no cluster. */
  lemma GrownLost(l: Ledger, l': Ledger, h: nat, before: Chain)
    requires Grown(l, l', h, before)
    ensures LostClusters(l'.own) == LostClusters(l.own)
  {
  }

  lemma FreedLost(l: Ledger, c: nat)
    requires c in l.chains
    ensures LostClusters(Freed(l, c).own) == LostClusters(l.own)
  {
  }

  /** Unlinking a file removes its binding, and gives its chain back if it has one. */
  lemma UnlinkMap(l: Ledger, data: seq<seq<Byte>>, data': seq<seq<Byte>>, dirs: set<nat>, refs: Refs, d: nat, k: nat,
                  l': Ledger)
    requires Tree(l, data, dirs, refs) && d in dirs && Accounted(l.fat, l.chains, l.own)
      && DirOk(l, data, dirs, refs, d)
    requires k < |Slots(data, l.chains[d])| && IsFile(Slots(data, l.chains[d])[k])
    requires SlotStored(data, data', l.chains[d], k, Deleted(Slots(data, l.chains[d])[k]))
    requires var c := StartCluster(Slots(data, l.chains[d])[k]); if c in l.chains then l' == Freed(l, c) else l' == l
    ensures Tree(l', data', dirs, refs) && d in l'.chains && InTable(data', l'.chains[d])
    ensures MapAt(l', data', d) == MapAt(l, data, d) - {Raw(Slots(data, l.chains[d])[k])}
    ensures OthersSame(l, data, l', data', dirs, d)
    ensures LostClusters(l'.own) == LostClusters(l.own)
  {
    hide Accounted, Slots, WellFormed, LostClusters, Release;
    var s := Slots(data, l.chains[d]);
    var c := StartCluster(s[k]);
    assert EntryOk(l.chains.Keys, dirs, refs, d, k, s[k]);
    ZeroNoChain(l);
    TreeUnlink(l, data, data', dirs, refs, d, k);
    OtherDirsSame(l, data, data', dirs, refs, d, k, Deleted(s[k]));
    assert DirOk(l', data', dirs, refs, d);
    WellFormedStands(s);
    UnlinkRemoves(s, DirMap(s), k);
    MapUnique(Slots(data', l'.chains[d]), DirMap(s) - {Raw(s[k])});
    forall x | x in dirs && x != d
      ensures SameDir(l, data, l', data', x)
    {
      assert SameDir(l, data, l, data', x) && DirOk(l', data', dirs, refs, x);
    }
    if c in l.chains {
      FreedLost(l, c);
    }
  }

  lemma ZeroNoChain(l: Ledger)
    requires Accounted(l.fat, l.chains, l.own)
    ensures 0 !in l.chains && 1 !in l.chains
  {
    hide Accounted;
    if 0 in l.chains {
      ChainLinks(l.fat, l.chains, l.own, 0);
    }
    if 1 in l.chains {
      ChainLinks(l.fat, l.chains, l.own, 1);
    }
  }

  /** Recording a file's new size and start cluster changes its binding. */
  lemma UpdateMap(l: Ledger, data: seq<seq<Byte>>, data': seq<seq<Byte>>, dirs: set<nat>, refs: Refs,
                  d: nat, k: nat, size: Word32, c: Word32)
    requires Tree(l, data, dirs, refs) && d in dirs && Accounted(l.fat, l.chains, l.own)
      && DirOk(l, data, dirs, refs, d)
    requires k < |Slots(data, l.chains[d])| && IsFile(Slots(data, l.chains[d])[k])
    requires SlotStored(data, data', l.chains[d], k, Resized(Slots(data, l.chains[d])[k], size, c))
    requires c in l.chains && c !in dirs && c != 0
    requires c == StartCluster(Slots(data, l.chains[d])[k]) || Unreferenced(l, data, dirs, c)
    ensures Tree(l, data', dirs, refs[c := (d, k)]) && InTable(data', l.chains[d])
    ensures var e := Slots(data, l.chains[d])[k];
      MapAt(l, data', d) == MapAt(l, data, d)[Raw(e) := Binding(Attr(e), c, size)]
    ensures OthersSame(l, data, l, data', dirs, d)
  {
    hide Accounted, Slots, WellFormed;
    var s := Slots(data, l.chains[d]);
    var e := Resized(s[k], size, c);
    TreeUpdate(l, data, data', dirs, refs, d, k, size, c);
    OtherDirsSame(l, data, data', dirs, refs, d, k, e);
    assert DirOk(l, data', dirs, refs[c := (d, k)], d);
    WellFormedStands(s);
    UpdateChanges(s, DirMap(s), k, e);
    MapUnique(Slots(data', l.chains[d]), DirMap(s)[Raw(e) := Bound(e)]);
  }

  /** Writing a file's data changes no directory's map. */
  lemma WriteMaps(l: Ledger, data: seq<seq<Byte>>, l': Ledger, data': seq<seq<Byte>>, dirs: set<nat>, refs: Refs,
                  h: nat, before: Chain, size: nat, offset: nat, done: seq<Byte>, d: nat)
    requires Tree(l, data, dirs, refs) && h !in dirs && d in dirs && DirOk(l, data, dirs, refs, d)
    requires FileWritten(l, data, l', data', h, before, size, offset, done) && Accounted(l'.fat, l'.chains, l'.own)
    ensures Tree(l', data', dirs, refs) && OthersSame(l, data, l', data', dirs, d)
    ensures d in l'.chains && InTable(data', l'.chains[d]) && Slots(data', l'.chains[d]) == Slots(data, l.chains[d])
    ensures MapAt(l', data', d) == MapAt(l, data, d) && h in l'.chains && l.chains.Keys <= l'.chains.Keys
    ensures LostClusters(l'.own) == LostClusters(l.own)
    ensures h !in l.chains && h != 0 ==> Unreferenced(l', data', dirs, h)
  {
    hide Accounted, Slots, WellFormed, LostClusters, Unreferenced;
    TreeWrite(l, data, l', data', dirs, refs, h, before, size, offset, done);
    GrownLost(l, l', h, before);
    GrownPrefix(l, l', h, before);
    if h !in l.chains && h != 0 {
      FreshUnreferenced(l, data, dirs, refs, h);
      UnreferencedKept(l, data, l', data', dirs, h);
    }
  }

  /** Changing a slot of a directory leaves the content of every other chain alone. */
  lemma ContentElsewhere(l: Ledger, data: seq<seq<Byte>>, data': seq<seq<Byte>>, d: nat, h: nat, k: nat, e: Entry)
    requires Accounted(l.fat, l.chains, l.own) && d in l.chains && h in l.chains && d != h && |data| == |l.fat|
    requires SlotStored(data, data', l.chains[d], k, e)
    ensures InTable(data, l.chains[h]) && InTable(data', l.chains[h])
    ensures Content(data', l.chains[h]) == Content(data, l.chains[h])
  {
    hide Accounted, Slots;
    ChainLinks(l.fat, l.chains, l.own, h);
    ChainsApart(l, h, d);
    ContentAgree(data, data', l.chains[h]);
  }

  // ---- What an operation leaves alone ----

  /** Every chain outside except has the same clusters with the same contents: the other
      files and directories of the volume. */
  ghost predicate ChainsKept(l: Ledger, data: seq<seq<Byte>>, l': Ledger, data': seq<seq<Byte>>, except: set<nat>) {
    && |data'| == |data|
    && forall h :: h in l.chains && h !in except ==> ChainKept(l, data, l', data', h)
  }

  ghost predicate ChainKept(l: Ledger, data: seq<seq<Byte>>, l': Ledger, data': seq<seq<Byte>>, h: nat)
    requires h in l.chains && |data'| == |data|
  {
    && h in l'.chains && l'.chains[h] == l.chains[h]
    && forall i :: 0 <= i < |l.chains[h]| ==> l.chains[h][i] < |data| && data'[l.chains[h][i]] == data[l.chains[h][i]]
  }

  lemma KeptSame(l: Ledger, data: seq<seq<Byte>>, except: set<nat>)
    requires Accounted(l.fat, l.chains, l.own) && |l.fat| == |data|
    ensures ChainsKept(l, data, l, data, except)
  {
    hide Accounted;
    forall h | h in l.chains
      ensures ChainKept(l, data, l, data, h)
    {
      ChainLinks(l.fat, l.chains, l.own, h);
    }
  }

  lemma KeptTwice(l0: Ledger, data0: seq<seq<Byte>>, l1: Ledger, data1: seq<seq<Byte>>, l2: Ledger,
                  data2: seq<seq<Byte>>, e1: set<nat>, e2: set<nat>, e: set<nat>)
    requires ChainsKept(l0, data0, l1, data1, e1) && ChainsKept(l1, data1, l2, data2, e2) && e1 <= e && e2 <= e
    ensures ChainsKept(l0, data0, l2, data2, e)
  {
    forall h | h in l0.chains && h !in e
      ensures ChainKept(l0, data0, l2, data2, h)
    {
      assert ChainKept(l0, data0, l1, data1, h) && ChainKept(l1, data1, l2, data2, h);
    }
  }

  /** Chains other than those at a and b are kept if data changed only in those two. */
  lemma KeptElsewhere(l: Ledger, data: seq<seq<Byte>>, l': Ledger, data': seq<seq<Byte>>, a: nat, b: nat,
                      except: set<nat>)
    requires Accounted(l'.fat, l'.chains, l'.own) && |l'.fat| == |data| == |data'| && a in l'.chains && b in l'.chains
    requires forall h :: h in l.chains && h !in except ==>
      h != a && h != b && h in l'.chains && l'.chains[h] == l.chains[h]
    requires forall c :: 2 <= c < |data| && c !in l'.chains[a] && c !in l'.chains[b] ==> data'[c] == data[c]
    ensures ChainsKept(l, data, l', data', except)
  {
    hide Accounted;
    forall h | h in l.chains && h !in except
      ensures ChainKept(l, data, l', data', h)
    {
      ChainLinks(l'.fat, l'.chains, l'.own, h);
      ChainsApart(l', h, a);
      ChainsApart(l', h, b);
    }
  }

  lemma ExtendKept(l: Ledger, data: seq<seq<Byte>>, l': Ledger, data': seq<seq<Byte>>, d: nat, m: nat)
    requires Accounted(l'.fat, l'.chains, l'.own) && |l'.fat| == |data| && DirExtended(l, data, l', data', d, m)
    ensures ChainsKept(l, data, l', data', {d})
  {
    hide Accounted, Slots, Packed;
    if l' == l && data' == data {
      KeptSame(l, data, {d});
    } else {
      KeptElsewhere(l, data, l', data', d, d, {d});
    }
  }

  lemma PlaceKept(l: Ledger, data: seq<seq<Byte>>, l': Ledger, data': seq<seq<Byte>>, d: nat, k: nat, raw: Text,
                  attr: Byte, c: nat, m: nat)
    requires Accounted(l'.fat, l'.chains, l'.own) && |l'.fat| == |data| && d in l.chains
    requires Placed(l, data, l', data', l.chains[d], k, raw, attr, c, m)
    ensures ChainsKept(l, data, l', data', {d})
  {
    hide Accounted, Slots, NewEntry, Grown;
    if MakesDirectory(attr) {
      KeptElsewhere(l, data, l', data', d, c, {d});
    } else {
      KeptElsewhere(l, data, l', data', d, d, {d});
    }
  }

  /** A new directory is empty. */
  lemma FreshIsEmpty(l: Ledger, l': Ledger, data': seq<seq<Byte>>, attr: Byte, c: nat, m: nat)
    requires FreshCluster(l, l', data', attr, c, m) && MakesDirectory(attr)
    ensures c in l'.chains && InTable(data', l'.chains[c]) && MapAt(l', data', c) == map[]
  {
    hide Slots, Grown;
    ZerosStand(m);
    MapUnique(Slots(data', l'.chains[c]), map[]);
  }

  lemma ZerosStand(m: nat)
    ensures WellFormed(Zeros(m)) && Stands(Zeros(m), map[])
  {
  }

  lemma StoredKept(l: Ledger, data: seq<seq<Byte>>, data': seq<seq<Byte>>, d: nat, k: nat, e: Entry)
    requires Accounted(l.fat, l.chains, l.own) && |l.fat| == |data| && d in l.chains
      && SlotStored(data, data', l.chains[d], k, e)
    ensures ChainsKept(l, data, l, data', {d})
  {
    hide Accounted, Slots;
    KeptElsewhere(l, data, l, data', d, d, {d});
  }

  lemma FreedKept(l: Ledger, data: seq<seq<Byte>>, data': seq<seq<Byte>>, c: nat, except: set<nat>)
    requires c in l.chains && ChainsKept(l, data, l, data', except)
    ensures ChainsKept(l, data, Freed(l, c), data', except + {c})
  {
    hide Cleared, Release;
    forall h | h in l.chains && h !in except + {c}
      ensures ChainKept(l, data, Freed(l, c), data', h)
    {
      assert ChainKept(l, data, l, data', h);
    }
  }

  lemma WriteKept(l: Ledger, data: seq<seq<Byte>>, l': Ledger, data': seq<seq<Byte>>, h: nat, before: Chain, size: nat,
                  offset: nat, done: seq<Byte>)
    requires FileWritten(l, data, l', data', h, before, size, offset, done) && Accounted(l'.fat, l'.chains, l'.own)
      && |l'.fat| == |data|
    ensures ChainsKept(l, data, l', data', {h})
  {
    hide Accounted, Content;
    KeptElsewhere(l, data, l', data', h, h, {h});
  }
}
