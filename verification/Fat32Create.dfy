/** fat32_create_entry: fill the first free slot of a directory, lengthening the directory
    by a zeroed cluster when it is full; a new directory gets a zeroed cluster of its own. */
module Fat32Create {
  import opened LittleEndian
  import opened Fat32Layout
  import opened Fat32Chains
  import opened Fat32Volume
  import opened Fat32Content
  import opened Fat32Grow
  import opened Fat32File
  import opened Fat32Names
  import opened Fat32Slots
  import opened Fat32Dir

  function Zeros(n: nat): (s: seq<Entry>)
    ensures |s| == n
  {
    seq(n, _ => ZERO_ENTRY)
  }

  /** The entry loop: the first end or deleted slot. */
  method FreeInTable(entries: seq<Entry>) returns (i: nat)
    ensures i <= |entries| && forall j :: 0 <= j < i ==> !IsEnd(entries[j]) && !IsDeleted(entries[j])
    ensures i < |entries| ==> IsEnd(entries[i]) || IsDeleted(entries[i])
  {
    i := 0;
    while i < |entries| && !IsEnd(entries[i]) && !IsDeleted(entries[i])
      invariant 0 <= i <= |entries|
      invariant forall j :: 0 <= j < i ==> !IsEnd(entries[j]) && !IsDeleted(entries[j])
    {
      i := i + 1;
    }
  }

  lemma {:induction false} FreeSkips(s: seq<Entry>, i: nat, k: nat)
    requires i <= k <= |s| && forall j :: i <= j < k ==> !IsEnd(s[j]) && !IsDeleted(s[j])
    ensures FreeSlotFrom(s, i) == FreeSlotFrom(s, k)
    decreases k - i
  {
    if i < k {
      FreeSkips(s, i + 1, k);
    }
  }

  lemma FreeInBlock(s: seq<Entry>, base: nat, entries: seq<Entry>, i: nat)
    requires base + |entries| <= |s| && s[base..base + |entries|] == entries && i <= |entries|
    requires forall j :: 0 <= j < i ==> !IsEnd(entries[j]) && !IsDeleted(entries[j])
    requires i < |entries| ==> IsEnd(entries[i]) || IsDeleted(entries[i])
    ensures FreeSlotFrom(s, base) == if i == |entries| then FreeSlotFrom(s, base + i) else base + i
    ensures FreeSlotFrom(s, |s|) == |s|
  {
    forall j | base <= j < base + |entries|
      ensures s[j] == entries[j - base]
    {
    }
    FreeSkips(s, base, base + i);
  }

  /** A full directory that gets empty slots at its end has its first free slot there. */
  lemma {:induction false} FreeSlotExtends(s: seq<Entry>, z: seq<Entry>, i: nat)
    requires i <= |s| && FreeSlotFrom(s, i) == |s|
    ensures FreeSlotFrom(s + z, i) == FreeSlotFrom(s + z, |s|)
    decreases |s| - i
  {
    if i < |s| {
      FreeSlotExtends(s, z, i + 1);
    }
  }

  /** Growing a directory chain by one zeroed cluster appends empty slots. */
  lemma SlotsGrow(data: seq<seq<Byte>>, ch: Chain, c: nat, m: nat)
    requires forall i :: 0 <= i < |ch| ==> ch[i] < |data|
    requires c < |data| && c !in ch
    ensures Slots(data[c := Packed(Zeros(m))], ch + [c]) == Slots(data, ch) + Zeros(m)
  {
    var data' := data[c := Packed(Zeros(m))];
    EntriesOfPacked(Zeros(m));
    assert forall i :: 0 <= i < |ch| ==> ch[i] in ch;
    ContentAgree(Tables(data), Tables(data'), ch);
    ContentExtend(Tables(data'), ch, c);
  }

  /** The step past the end of a cluster: next cluster of the directory, or a fresh zeroed one. */
  method NextTable(v: Volume, cluster: nat, ghost dir: nat, ghost index: nat) returns (next: nat, grown: bool)
    requires v.Consistent() && dir in v.chains && Readable(v, v.chains[dir])
    requires index < |v.chains[dir]| && cluster == v.chains[dir][index]
    modifies v`disk, v`fat, v`data, v`chains, v`own
    ensures v.Consistent() && v.Untouched() && dir in v.chains
    ensures next == 0 || !grown ==> v.Ledger() == old(v.Ledger()) && v.data == old(v.data) && v.disk == old(v.disk)
    ensures next == 0 ==> FreeClusters(v.fat) == {} && index + 1 == |v.chains[dir]|
    ensures next != 0 && !grown ==> next == ClusterAt(v.chains[dir], index + 1)
    ensures next != 0 && grown ==>
      && index + 1 == |old(v.chains[dir])|
      && Grown(old(v.Ledger()), v.Ledger(), dir, old(v.chains[dir])) && v.chains[dir] == old(v.chains[dir]) + [next]
      && next < |v.data| && v.data == old(v.data)[next := Packed(Zeros(SlotsPerCluster(v.g)))]
    ensures next < CLUSTER_END
  {
    hide Accounted, Grown, FreeClusters, Slot, Cluster, Tables, Packed, Geometry.InData, Geometry.InFat;
    next, grown := NextOrExtend(v, cluster, dir, index);
    ChainLinks(v.fat, v.chains, v.own, dir);
    if next != 0 && grown {
      StoreTable(v, next, Zeros(SlotsPerCluster(v.g)));
    }
  }

  predicate MakesDirectory(attr: Byte) {
    attr / 16 % 2 == 1
  }

  lemma DirectoryBit(attr: Byte)
    ensures MakesDirectory(attr) <==> attr % 32 >= 16
  {
  }

  /** What a successful create leaves besides the filled slot: a zeroed one-cluster chain for
      a new directory, nothing more for a file. */
  ghost predicate FreshCluster(l: Ledger, l': Ledger, data': seq<seq<Byte>>, attr: Byte, c: nat, m: nat) {
    if MakesDirectory(attr) then
      && c !in l.chains && Grown(l, l', c, []) && l'.chains == l.chains[c := [c]]
      && 2 <= c < |data'| && Slots(data', [c]) == Zeros(m)
    else
      c == 0 && l' == l
  }

  /** A zeroed cluster for a new directory. */
  method StartDirectory(v: Volume) returns (c: nat)
    requires v.Consistent()
    modifies v`disk, v`fat, v`data, v`chains, v`own
    ensures v.Consistent() && v.Untouched()
    ensures c == 0 ==> FreeClusters(v.fat) == {} && v.Ledger() == old(v.Ledger()) && v.data == old(v.data)
    ensures c != 0 ==>
      && c !in old(v.chains) && Grown(old(v.Ledger()), v.Ledger(), c, []) && v.chains == old(v.chains)[c := [c]]
      && 2 <= c < |v.data| && v.data == old(v.data)[c := Packed(Zeros(SlotsPerCluster(v.g)))]
    ensures c < CLUSTER_END
  {
    hide Accounted, Grown, FreeClusters, Slot, Cluster, Tables, Packed, Geometry.InData, Geometry.InFat;
    c := StartChain(v);
    if c != 0 {
      ChainLinks(v.fat, v.chains, v.own, c);
      assert v.chains[c][0] == c;
      StoreTable(v, c, Zeros(SlotsPerCluster(v.g)));
    }
  }

  /** Slot k of the directory became the new entry; clusters outside the directory and the
      fresh cluster kept their contents. */
  ghost predicate Placed(l: Ledger, data: seq<seq<Byte>>, l': Ledger, data': seq<seq<Byte>>,
                         ch: Chain, k: nat, raw: Text, attr: Byte, c: nat, m: nat)
  {
    && |raw| == RAW_LENGTH && c < CLUSTER_END
    && |data'| == |data| && (forall i :: 0 <= i < |ch| ==> ch[i] < |data|)
    && k < |Slots(data, ch)| && Slots(data', ch) == Slots(data, ch)[k := NewEntry(raw, attr, c)]
    && FreshCluster(l, l', data', attr, c, m)
    && forall d :: 0 <= d < |data| && d !in ch && d != c ==> data'[d] == data[d]
  }

  lemma PlacedDirectory(l: Ledger, data: seq<seq<Byte>>, l': Ledger, data': seq<seq<Byte>>,
                        ch: Chain, k: nat, raw: Text, attr: Byte, c: nat, m: nat)
    requires |raw| == RAW_LENGTH && c < CLUSTER_END && c !in ch && MakesDirectory(attr)
    requires c !in l.chains && Grown(l, l', c, []) && l'.chains == l.chains[c := [c]] && 2 <= c < |data|
    requires SlotStored(data[c := Packed(Zeros(m))], data', ch, k, NewEntry(raw, attr, c))
    ensures Placed(l, data, l', data', ch, k, raw, attr, c, m)
  {
    hide NewEntry, Grown, Slots, Packed;
    var data1 := data[c := Packed(Zeros(m))];
    assert forall i :: 0 <= i < |ch| ==> ch[i] in ch;
    SlotsElsewhere(data, data1, ch);
    NewTableSlots(data, c, m);
    SlotsElsewhere(data1, data', [c]);
  }

  /** Fill entry i of a cluster of the directory at dir. */
  method PlaceEntry(v: Volume, cluster: nat, entries: seq<Entry>, i: nat, raw: Text, attr: Byte, ghost dir: nat,
                    ghost index: nat)
    returns (ret: int, newCluster: nat)
    requires v.Consistent() && dir in v.chains && Readable(v, v.chains[dir]) && |raw| == RAW_LENGTH
    requires index < |v.chains[dir]| && cluster == v.chains[dir][index]
    requires entries == Tables(v.data)[cluster] && i < |entries| == SlotsPerCluster(v.g)
    modifies v`disk, v`fat, v`data, v`chains, v`own
    ensures v.Consistent() && v.Untouched() && dir in v.chains && v.chains[dir] == old(v.chains[dir])
    ensures ret == 0 || ret == -2
    ensures ret == -2 ==>
      MakesDirectory(attr) && FreeClusters(v.fat) == {} && v.Ledger() == old(v.Ledger()) && v.data == old(v.data)
    ensures ret == 0 ==>
      Placed(old(v.Ledger()), old(v.data), v.Ledger(), v.data, v.chains[dir], Pos(index, SlotsPerCluster(v.g)) + i,
             raw, attr, newCluster, SlotsPerCluster(v.g))
  {
    hide Accounted, Grown, FreeClusters, Slot, Cluster, Tables, Slots, Packed, Pos, NewEntry, Geometry.InData,
      Geometry.InFat;
    ghost var ch, m, k := v.chains[dir], SlotsPerCluster(v.g), Pos(index, SlotsPerCluster(v.g)) + i;
    ret, newCluster := 0, 0;
    if MakesDirectory(attr) {
      ghost var data0 := v.data;
      newCluster := StartDirectory(v);
      if newCluster == 0 {
        ret := -2;
        return;
      }
      ChainReadable(v, dir);
      OtherCluster(v, dir, newCluster);
      assert ch[index] in ch;
      TablesElsewhere(data0, v.data, cluster);
      StoreEntry(v, cluster, entries, i, NewEntry(raw, attr, newCluster), ch, index);
      PlacedDirectory(old(v.Ledger()), old(v.data), v.Ledger(), v.data, ch, k, raw, attr, newCluster, m);
    } else {
      StoreEntry(v, cluster, entries, i, NewEntry(raw, attr, 0), ch, index);
    }
  }

  lemma ChainReadable(v: Volume, dir: nat)
    requires v.Consistent() && dir in v.chains
    ensures Readable(v, v.chains[dir]) && dir != 0
  {
    hide Accounted;
    FileReadable(v, dir);
    ChainLinks(v.fat, v.chains, v.own, dir);
  }

  lemma TablesElsewhere(data: seq<seq<Byte>>, data': seq<seq<Byte>>, c: nat)
    requires c < |data| == |data'| && data'[c] == data[c]
    ensures Tables(data')[c] == Tables(data)[c]
  {
  }

  lemma OtherCluster(v: Volume, dir: nat, c: nat)
    requires v.Consistent() && dir in v.chains && c in v.chains && c != dir && v.chains[c] == [c]
    ensures c !in v.chains[dir]
  {
    hide Accounted;
    ChainLinks(v.fat, v.chains, v.own, dir);
    ChainLinks(v.fat, v.chains, v.own, c);
    assert v.own[v.chains[c][0]] == Part(c, 0);
  }

  lemma SlotsElsewhere(data: seq<seq<Byte>>, data': seq<seq<Byte>>, ch: Chain)
    requires forall i :: 0 <= i < |ch| ==> ch[i] < |data| && ch[i] < |data'| && data'[ch[i]] == data[ch[i]]
    ensures Slots(data', ch) == Slots(data, ch)
  {
    ContentAgree(Tables(data), Tables(data'), ch);
  }

  lemma NewTableSlots(data: seq<seq<Byte>>, c: nat, m: nat)
    requires c < |data|
    ensures Slots(data[c := Packed(Zeros(m))], [c]) == Zeros(m)
  {
    SlotsGrow(data, [], c, m);
    assert [] + [c] == [c];
    assert Slots(data, []) == [];
  }

  /** Nothing changed, or a full directory got one more cluster of empty slots. */
  ghost predicate DirExtended(l: Ledger, data: seq<seq<Byte>>, l': Ledger, data': seq<seq<Byte>>, dir: nat, m: nat) {
    && dir in l.chains && (forall i :: 0 <= i < |l.chains[dir]| ==> l.chains[dir][i] < |data|)
    && ((l' == l && data' == data) || DirGrown(l, data, l', data', dir, m))
  }

  ghost predicate DirGrown(l: Ledger, data: seq<seq<Byte>>, l': Ledger, data': seq<seq<Byte>>, dir: nat, m: nat) {
    && dir in l.chains && (forall i :: 0 <= i < |l.chains[dir]| ==> l.chains[dir][i] < |data|)
    && Grown(l, l', dir, l.chains[dir])
    && |l'.chains[dir]| == |l.chains[dir]| + 1
    && var c := l'.chains[dir][|l.chains[dir]|];
    && c < |data| && c !in l.chains[dir] && data' == data[c := Packed(Zeros(m))]
    && FreeSlotFrom(Slots(data, l.chains[dir]), 0) == |Slots(data, l.chains[dir])|
  }

  /** After growing, the slots are the old ones and m empty ones, the first of them free. */
  lemma DirGrownSlots(l: Ledger, data: seq<seq<Byte>>, l': Ledger, data': seq<seq<Byte>>, dir: nat, m: nat)
    requires DirGrown(l, data, l', data', dir, m) && 0 < m
    ensures dir in l'.chains && (forall i :: 0 <= i < |l'.chains[dir]| ==> l'.chains[dir][i] < |data'|)
    ensures l.chains[dir] <= l'.chains[dir]
    ensures var s, t := Slots(data, l.chains[dir]), Slots(data', l'.chains[dir]);
      t == s + Zeros(m) && FreeSlotFrom(t, 0) == FreeSlotFrom(t, |s|) == |s| && IsEnd(t[|s|])
  {
    hide Packed;
    var ch := l.chains[dir];
    var c := l'.chains[dir][|ch|];
    assert l'.chains[dir] == ch + [c];
    hide Grown;
    SlotsGrow(data, ch, c, m);
    FreeSlotExtends(Slots(data, ch), Zeros(m), 0);
    assert (Slots(data, ch) + Zeros(m))[|Slots(data, ch)|] == ZERO_ENTRY;
  }

  /** The search stands at cluster index of ch, no slot before it being free. */
  ghost predicate Sought(data: seq<seq<Byte>>, ch: Chain, index: nat, m: nat) {
    && InTable(data, ch)
    && |Slots(data, ch)| == Pos(|ch|, m) && index <= |ch| && Pos(index, m) <= Pos(|ch|, m)
    && FreeSlotFrom(Slots(data, ch), Pos(index, m)) == FreeSlotFrom(Slots(data, ch), 0)
  }

  /** Nothing free in cluster index: on to the next. */
  lemma SoughtNext(data: seq<seq<Byte>>, ch: Chain, index: nat, m: nat)
    requires Sought(data, ch, index, m) && index < |ch|
    requires Pos(index, m) + m <= |Slots(data, ch)|
    requires FreeSlotFrom(Slots(data, ch), Pos(index, m)) == FreeSlotFrom(Slots(data, ch), Pos(index, m) + m)
    ensures Sought(data, ch, index + 1, m)
    ensures index + 1 == |ch| ==> FreeSlotFrom(Slots(data, ch), 0) == |Slots(data, ch)|
  {
    hide Pos, Slots;
    PosNext(index, m);
  }

  /** A full directory that has grown: the search stands at the fresh cluster. */
  lemma SoughtGrown(l: Ledger, data: seq<seq<Byte>>, l': Ledger, data': seq<seq<Byte>>, dir: nat, m: nat)
    requires DirGrown(l, data, l', data', dir, m) && 0 < m && |Slots(data, l.chains[dir])| == Pos(|l.chains[dir]|, m)
    ensures dir in l'.chains && Sought(data', l'.chains[dir], |l.chains[dir]|, m)
  {
    DirGrownSlots(l, data, l', data', dir, m);
    hide Slots, FreeSlotFrom, Pos;
    PosNext(|l.chains[dir]|, m);
  }

  lemma SoughtStart(v: Volume, dir: nat)
    requires v.Consistent() && dir in v.chains
    ensures Sought(v.data, v.chains[dir], 0, SlotsPerCluster(v.g))
    ensures InTable(v.data, v.chains[dir])
    ensures Readable(v, v.chains[dir]) && 0 < dir < CLUSTER_END && 0 < |v.chains[dir]| && v.chains[dir][0] == dir
  {
    hide Accounted, Pos, Slots, FreeSlotFrom;
    ChainReadable(v, dir);
    WalkStart(v, dir);
  }

  /** One round of the cluster loop: look for a free slot and fill it. */
  method TryTable(v: Volume, cluster: nat, raw: Text, attr: Byte, ghost dir: nat, ghost index: nat)
    returns (found: bool, ret: int, newCluster: nat)
    requires v.Consistent() && dir in v.chains && Readable(v, v.chains[dir]) && |raw| == RAW_LENGTH
    requires index < |v.chains[dir]| && cluster == v.chains[dir][index] != 0
    requires Sought(v.data, v.chains[dir], index, SlotsPerCluster(v.g))
    modifies v`disk, v`fat, v`data, v`chains, v`own
    ensures v.Consistent() && v.Untouched()
    ensures InTable(old(v.data), old(v.chains[dir]))
    ensures !found || ret == -2 ==> v.Ledger() == old(v.Ledger()) && v.chains == old(v.chains) && v.data == old(v.data)
    ensures !found ==> dir in v.chains && Readable(v, v.chains[dir])
    ensures !found ==> Passed(v.data, v.chains[dir], index, SlotsPerCluster(v.g)) && ret == -1 && newCluster == 0
    ensures found ==> ret == 0 || (ret == -2 && MakesDirectory(attr) && FreeClusters(v.fat) == {})
    ensures found && ret == 0 ==>
      Placed(old(v.Ledger()), old(v.data), v.Ledger(), v.data, old(v.chains[dir]),
             FreeSlotFrom(Slots(old(v.data), old(v.chains[dir])), 0), raw, attr, newCluster, SlotsPerCluster(v.g))
  {
    hide Accounted, FreeClusters, Slot, Cluster, Tables, Slots, Packed, Pos, Geometry.InData, Geometry.InFat, Readable,
      FreeSlotFrom, Placed;
    ghost var ch, m := v.chains[dir], SlotsPerCluster(v.g);
    ghost var s := Slots(v.data, ch);
    var entries := LoadBlock(v, cluster, ch, index);
    var i := FreeInTable(entries);
    FreeInBlock(s, Pos(index, m), entries, i);
    found, ret, newCluster := i < |entries|, -1, 0;
    if found {
      ret, newCluster := PlaceEntry(v, cluster, entries, i, raw, attr, dir, index);
    } else {
      assert entries[0] == s[Pos(index, m)];
      SoughtNext(v.data, ch, index, m);
    }
  }

  /** Cluster index of the directory held no free slot, nor did any before it. */
  ghost predicate Passed(data: seq<seq<Byte>>, ch: Chain, index: nat, m: nat) {
    && Sought(data, ch, index + 1, m) && Pos(index, m) < |Slots(data, ch)| && !IsEnd(Slots(data, ch)[Pos(index, m)])
    && (index + 1 == |ch| ==> FreeSlotFrom(Slots(data, ch), 0) == |Slots(data, ch)|)
  }

  /** A directory that has just grown offers a free slot, so it is not searched past its end. */
  lemma NotGrownYet(l: Ledger, data: seq<seq<Byte>>, l': Ledger, data': seq<seq<Byte>>, dir: nat, index: nat, m: nat)
    requires DirGrown(l, data, l', data', dir, m) && 0 < m && |Slots(data, l.chains[dir])| == Pos(|l.chains[dir]|, m)
    requires dir in l'.chains
    ensures !Passed(data', l'.chains[dir], |l.chains[dir]|, m)
  {
    DirGrownSlots(l, data, l', data', dir, m);
    hide Slots, Pos, Sought;
  }

  /** The end of the cluster loop: go on to the next cluster, or to a fresh one. */
  method AdvanceTable(v: Volume, cluster: nat, ghost dir: nat, ghost index: nat) returns (next: nat)
    requires v.Consistent() && dir in v.chains && Readable(v, v.chains[dir])
    requires index < |v.chains[dir]| && cluster == v.chains[dir][index]
    requires Passed(v.data, v.chains[dir], index, SlotsPerCluster(v.g))
    modifies v`disk, v`fat, v`data, v`chains, v`own
    ensures v.Consistent() && v.Untouched() && next < CLUSTER_END
    ensures next == 0 ==>
      && FreeClusters(v.fat) == {} && v.Ledger() == old(v.Ledger()) && v.data == old(v.data)
      && FreeSlotFrom(Slots(v.data, v.chains[dir]), 0) == |Slots(v.data, v.chains[dir])|
    ensures next != 0 ==>
      && dir in v.chains && Readable(v, v.chains[dir])
      && index + 1 < |v.chains[dir]| && next == v.chains[dir][index + 1]
      && Sought(v.data, v.chains[dir], index + 1, SlotsPerCluster(v.g))
      && (if index + 1 < |old(v.chains[dir])| then v.Ledger() == old(v.Ledger()) && v.data == old(v.data)
          else DirGrown(old(v.Ledger()), old(v.data), v.Ledger(), v.data, dir, SlotsPerCluster(v.g)))
  {
    hide Accounted, Grown, FreeClusters, Slot, Cluster, Tables, Slots, Packed, Pos, Geometry.InData, Geometry.InFat,
      Readable, FreeSlotFrom, Sought;
    ghost var l, data, m := v.Ledger(), v.data, SlotsPerCluster(v.g);
    SlotsCount(v, v.chains[dir]);
    var grown;
    next, grown := NextTable(v, cluster, dir, index);
    if next != 0 {
      ChainReadable(v, dir);
      if grown {
        FreshLast(v, dir);
        assert v.chains[dir][..|v.chains[dir]| - 1] == l.chains[dir];
        SoughtGrown(l, data, v.Ledger(), v.data, dir, m);
      }
    }
  }

  /** How many clusters filling a slot takes: one if the directory is full, one for a directory. */
  function Needed(s: seq<Entry>, attr: Byte): nat {
    (if FreeSlotFrom(s, 0) == |s| then 1 else 0) + (if MakesDirectory(attr) then 1 else 0)
  }

  /** Lengthening a full directory takes the one cluster that was needed for that. */
  lemma ExtendedNeeds(l: Ledger, data: seq<seq<Byte>>, l1: Ledger, data1: seq<seq<Byte>>, dir: nat, attr: Byte, m: nat)
    requires DirExtended(l, data, l1, data1, dir, m) && 0 < m
    requires Accounted(l.fat, l.chains, l.own) && Accounted(l1.fat, l1.chains, l1.own)
    requires dir in l1.chains && InTable(data1, l1.chains[dir])
    ensures |FreeClusters(l.fat)| - Needed(Slots(data, l.chains[dir]), attr) ==
            |FreeClusters(l1.fat)| - Needed(Slots(data1, l1.chains[dir]), attr)
  {
    hide Accounted, Grown, FreeClusters, Slots, Packed, FreeSlotFrom;
    if l1 != l || data1 != data {
      OneTaken(l, l1, dir, l.chains[dir]);
      DirGrownSlots(l, data, l1, data1, dir, m);
    }
  }

  /** A filled slot took exactly what was needed. */
  lemma PlacedNeeds(l: Ledger, data: seq<seq<Byte>>, l': Ledger, data': seq<seq<Byte>>,
                    ch: Chain, raw: Text, attr: Byte, c: nat, m: nat)
    requires InTable(data, ch) && Placed(l, data, l', data', ch, FreeSlotFrom(Slots(data, ch), 0), raw, attr, c, m)
    requires Accounted(l.fat, l.chains, l.own) && Accounted(l'.fat, l'.chains, l'.own)
    ensures |FreeClusters(l'.fat)| == |FreeClusters(l.fat)| - Needed(Slots(data, ch), attr)
  {
    hide Accounted, Grown, FreeClusters, Slots, NewEntry, FreeSlotFrom;
    if MakesDirectory(attr) { OneTaken(l, l', c, []); }
  }

  /** A directory got one entry, byte by byte. */
  ghost predicate DirFilled(data: seq<seq<Byte>>, ch: Chain, data': seq<seq<Byte>>, ch': Chain, raw: Text, attr: Byte,
                            cluster: nat) {
    && InTable(data, ch) && InTable(data', ch') && cluster < U32_LIMIT
    && exists k :: SlotFilled(Slots(data, ch), Slots(data', ch'), k, raw, attr, cluster)
  }

  lemma FilledSlot(s: seq<Entry>, t: seq<Entry>, n: nat, raw: Text, attr: Byte, cluster: Word32)
    requires |raw| == RAW_LENGTH && (n == 0 || FreeSlotFrom(s, 0) == |s|)
    requires FreeSlotFrom(s + Zeros(n), 0) < |s + Zeros(n)|
    requires t == (s + Zeros(n))[FreeSlotFrom(s + Zeros(n), 0) := NewEntry(raw, attr, cluster)]
    ensures SlotFilled(s, t, FreeSlotFrom(s + Zeros(n), 0), raw, attr, cluster)
  {
    var z := s + Zeros(n);
    var k := FreeSlotFrom(z, 0);
    NewEntryBytes(raw, attr, cluster);
    hide FreshEntry, NewEntry;
    FreeSlotIs(z, 0);
    FreeSlotIs(s, 0);
    if n == 0 { assert z == s; }
    if n > 0 && FreeSlotFrom(s, 0) == |s| { FreeSlotExtends(s, Zeros(n), 0); }
  }

  lemma {:induction false} FreeSlotIs(s: seq<Entry>, i: nat)
    requires i <= |s|
    ensures var k := FreeSlotFrom(s, i);
      (forall j :: i <= j < k ==> s[j][0] != 0 && s[j][0] != 0xE5) && (k < |s| ==> s[k][0] == 0 || s[k][0] == 0xE5)
    decreases |s| - i
  {
    if i < |s| { FreeSlotIs(s, i + 1); }
  }

  lemma EntryFilled(l: Ledger, data: seq<seq<Byte>>, l1: Ledger, data1: seq<seq<Byte>>, data': seq<seq<Byte>>,
                    dir: nat, raw: Text, attr: Byte, c: nat, l': Ledger, m: nat)
    requires DirExtended(l, data, l1, data1, dir, m) && 0 < m && dir in l1.chains && InTable(data1, l1.chains[dir])
    requires Placed(l1, data1, l', data', l1.chains[dir], FreeSlotFrom(Slots(data1, l1.chains[dir]), 0), raw, attr, c,
      m)
    ensures dir in l.chains && dir in l'.chains && l'.chains[dir] == l1.chains[dir]
    ensures DirFilled(data, l.chains[dir], data', l'.chains[dir], raw, attr, c)
  {
    hide Slots, Packed, FreeSlotFrom, NewEntry, SlotFilled, Grown;
    var s, s1 := Slots(data, l.chains[dir]), Slots(data1, l1.chains[dir]);
    if l1 == l && data1 == data {
      assert s + Zeros(0) == s;
      FilledSlot(s, Slots(data', l1.chains[dir]), 0, raw, attr, c);
    } else {
      DirGrownSlots(l, data, l1, data1, dir, m);
      FilledSlot(s, Slots(data', l1.chains[dir]), m, raw, attr, c);
    }
  }

  /** fat32_create_entry.  l1 and data1 describe the volume after the directory was, perhaps,
      lengthened and before the slot was filled. */
  method CreateEntry(v: Volume, dir: nat, name: Text, attr: Byte)
    returns (ret: int, newCluster: nat, ghost l1: Ledger, ghost data1: seq<seq<Byte>>)
    requires v.Consistent() && (dir == 0 || dir in v.chains)
    modifies v`disk, v`fat, v`data, v`chains, v`own
    ensures v.Consistent() && v.Untouched()
    ensures (ret == -1 <==> dir == 0) && -2 <= ret <= 0
    ensures ret == -1 ==> v.Ledger() == old(v.Ledger()) && v.data == old(v.data)
    ensures ret != -1 ==>
      && DirExtended(old(v.Ledger()), old(v.data), l1, data1, dir, SlotsPerCluster(v.g))
      && dir in l1.chains && InTable(data1, l1.chains[dir]) && Accounted(l1.fat, l1.chains, l1.own)
    ensures ret == -2 ==> FreeClusters(v.fat) == {} && v.Ledger() == l1 && v.data == data1
    ensures ret != -1 ==> InTable(old(v.data), old(v.chains[dir]))
    ensures ret != -1 ==>
      (ret == 0 <==> Needed(Slots(old(v.data), old(v.chains[dir])), attr) <= |FreeClusters(old(v.fat))|)
    ensures ret == 0 ==>
      |FreeClusters(v.fat)| == |FreeClusters(old(v.fat))| - Needed(Slots(old(v.data), old(v.chains[dir])), attr)
    ensures ret == 0 ==>
      && dir in v.chains
      && DirFilled(old(v.data), old(v.chains[dir]), v.data, v.chains[dir], To83(name), attr, newCluster)
    ensures ret == 0 ==>
      Placed(l1, data1, v.Ledger(), v.data, l1.chains[dir], FreeSlotFrom(Slots(data1, l1.chains[dir]), 0), To83(name),
             attr, newCluster, SlotsPerCluster(v.g))
  {
    hide Accounted, Grown, FreeClusters, Slot, Cluster, Tables, Slots, Packed, Pos, NewEntry, Geometry.InData,
      Geometry.InFat, Readable, FreeSlotFrom, DirGrown, Placed, To83, Sought, Passed, DirFilled;
    ret, newCluster, l1, data1 := -1, 0, v.Ledger(), v.data;
    if dir == 0 {
      return;
    }
    var raw := NameTo83(name);
    ghost var m, index := SlotsPerCluster(v.g), 0;
    SoughtStart(v, dir);
    SlotsCount(v, v.chains[dir]);
    var cluster := dir;
    while cluster != 0 && cluster < CLUSTER_END
      invariant v.Consistent() && v.Untouched() && dir in v.chains && Readable(v, v.chains[dir])
      invariant 0 <= index < |v.chains[dir]| && cluster == v.chains[dir][index] && cluster != 0 && cluster < CLUSTER_END
      invariant Sought(v.data, v.chains[dir], index, m)
      invariant if index < |old(v.chains[dir])| then
                  v.Ledger() == old(v.Ledger()) && v.chains == old(v.chains) && v.data == old(v.data)
                else index == |old(v.chains[dir])| && DirGrown(old(v.Ledger()), old(v.data), v.Ledger(), v.data, dir, m)
      decreases |old(v.chains[dir])| + 1 - index
    {
      l1, data1 := v.Ledger(), v.data;
      var found;
      found, ret, newCluster := TryTable(v, cluster, raw, attr, dir, index);
      if found {
        ExtendedNeeds(old(v.Ledger()), old(v.data), l1, data1, dir, attr, m);
        if ret == 0 {
          PlacedNeeds(l1, data1, v.Ledger(), v.data, l1.chains[dir], raw, attr, newCluster, m);
          EntryFilled(old(v.Ledger()), old(v.data), l1, data1, v.data, dir, raw, attr, newCluster, v.Ledger(), m);
        }
        return;
      }
      if index == |old(v.chains[dir])| {
        NotGrownYet(old(v.Ledger()), old(v.data), v.Ledger(), v.data, dir, index, m);
      }
      var next := AdvanceTable(v, cluster, dir, index);
      if next == 0 {
        ret := -2;
        ExtendedNeeds(old(v.Ledger()), old(v.data), l1, data1, dir, attr, m);
        return;
      }
      cluster, index := next, index + 1;
    }
  }
}
