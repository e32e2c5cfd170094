/** The directory operations of the driver, on the slots of a directory's cluster chain. */
module Fat32Dir {
  import opened LittleEndian
  import opened Fat32Layout
  import opened Fat32Chains
  import opened Fat32Volume
  import opened Fat32Content
  import opened Fat32File
  import opened Fat32Names
  import opened Fat32Slots
  import opened Fat32DirMap

  /** A cluster buffer viewed as directory entries. */
  function Table(b: seq<Byte>): seq<Entry> {
    if |b| % 32 == 0 then Entries(b) else []
  }

  ghost function Tables(data: seq<seq<Byte>>): (r: seq<seq<Entry>>)
    ensures |r| == |data| && forall c :: 0 <= c < |data| ==> r[c] == Table(data[c])
  {
    seq(|data|, c requires 0 <= c < |data| => Table(data[c]))
  }

  /** All slots of a directory, in chain order. */
  ghost function Slots(data: seq<seq<Byte>>, ch: Chain): seq<Entry>
    requires forall i :: 0 <= i < |ch| ==> ch[i] < |data|
  {
    Content(Tables(data), ch)
  }

  function SlotsPerCluster(g: Geometry): nat {
    16 * (g.spc as int)
  }

  /** Cluster index of a directory holds slots Pos(index) and following. */
  lemma SlotsOfCluster(v: Volume, ch: Chain, index: nat)
    requires v.Valid() && Readable(v, ch) && index < |ch|
    ensures var m := SlotsPerCluster(v.g);
      && |Slots(v.data, ch)| == Pos(|ch|, m) && Pos(index, m) + m <= Pos(|ch|, m)
        && Pos(index + 1, m) == Pos(index, m) + m
      && Slots(v.data, ch)[Pos(index, m)..Pos(index, m) + m] == Tables(v.data)[ch[index]]
  {
    hide Pos;
    var m := SlotsPerCluster(v.g);
    assert Uniform(Tables(v.data), ch, m);
    ContentBlock(Tables(v.data), ch, m, index);
    PosNext(index, m);
  }

  lemma SlotsCount(v: Volume, ch: Chain)
    requires v.Valid() && Readable(v, ch)
    ensures forall i :: 0 <= i < |ch| ==> ch[i] < |v.data|
    ensures |Slots(v.data, ch)| == Pos(|ch|, SlotsPerCluster(v.g))
  {
    ContentLength(Tables(v.data), ch, SlotsPerCluster(v.g));
  }

  /** Read a cluster of a directory. */
  method LoadTable(v: Volume, cluster: nat) returns (entries: seq<Entry>)
    requires v.Valid() && 2 <= cluster < v.g.Limit()
    ensures entries == Tables(v.data)[cluster] && |entries| == SlotsPerCluster(v.g)
  {
    var ok, buf := v.ReadCluster(cluster);
    entries := Entries(buf);
  }

  /** Read cluster index of the directory chain ch: its slots from Pos(index) on. */
  method LoadBlock(v: Volume, cluster: nat, ghost ch: Chain, ghost index: nat) returns (entries: seq<Entry>)
    requires v.Valid() && Readable(v, ch) && cluster == ClusterAt(ch, index) != 0
    ensures var m, s := SlotsPerCluster(v.g), Slots(v.data, ch);
      && index < |ch| && |entries| == m && entries == Tables(v.data)[cluster]
      && Pos(index + 1, m) == Pos(index, m) + m && Pos(index, m) + m <= |s|
      && s[Pos(index, m)..Pos(index, m) + m] == entries
  {
    hide Pos, Slots, Tables, Slot, Cluster;
    SlotsOfCluster(v, ch, index);
    entries := LoadTable(v, cluster);
  }

  /** fat32_next_cluster along a directory chain. */
  method Follow(v: Volume, cluster: nat, ghost ch: Chain, ghost index: nat) returns (next: nat)
    requires v.Valid() && Readable(v, ch) && index < |ch| && cluster == ClusterAt(ch, index)
    ensures next == ClusterAt(ch, index + 1) && next < CLUSTER_END && (next == 0 <==> index + 1 == |ch|)
  {
    next := v.NextCluster(cluster);
  }

  lemma WalkStart(v: Volume, dir: nat)
    requires v.Consistent() && (dir == 0 || dir in v.chains)
    ensures var ch := FileChain(v.chains, dir);
      && Readable(v, ch) && (forall i :: 0 <= i < |ch| ==> ch[i] < |v.data|)
      && dir == ClusterAt(ch, 0) && dir < CLUSTER_END && (dir == 0 <==> ch == [])
      && |Slots(v.data, ch)| == Pos(|ch|, SlotsPerCluster(v.g)) && Pos(0, SlotsPerCluster(v.g)) == 0
  {
    hide Accounted, Slots, Pos, Slot, Cluster;
    FileReadable(v, dir);
    SlotsCount(v, FileChain(v.chains, dir));
    PosNext(0, SlotsPerCluster(v.g));
  }

  /** Write a cluster of a directory back. */
  method StoreTable(v: Volume, cluster: nat, entries: seq<Entry>)
    requires v.Valid() && 2 <= cluster < v.g.Limit() && |entries| == SlotsPerCluster(v.g)
    modifies v`disk, v`data
    ensures v.Valid() && v.Untouched()
    ensures v.data == old(v.data)[cluster := Packed(entries)]
    ensures Tables(v.data) == Tables(old(v.data))[cluster := entries]
  {
    EntriesOfPacked(entries);
    var ok := v.WriteCluster(cluster, Packed(entries));
  }

  // ---- fat32_find_entry ----

  predicate Wanted(e: Entry, name: Text) {
    Visible(e) && Matches(name, Raw(e))
  }

  /** The entry loop: stop at an end mark or at a visible entry with a matching name. */
  method FindInTable(entries: seq<Entry>, name: Text) returns (i: nat)
    ensures i <= |entries| && forall j :: 0 <= j < i ==> !IsEnd(entries[j]) && !Wanted(entries[j], name)
    ensures i < |entries| ==> IsEnd(entries[i]) || Wanted(entries[i], name)
  {
    hide Matches;
    i := 0;
    while i < |entries| && !IsEnd(entries[i])
      invariant 0 <= i <= |entries|
      invariant forall j :: 0 <= j < i ==> !IsEnd(entries[j]) && !Wanted(entries[j], name)
    {
      if Visible(entries[i]) {
        var same := NameMatch(name, Raw(entries[i]));
        if same {
          return;
        }
      }
      i := i + 1;
    }
  }

  lemma {:induction false} FindSkips(s: seq<Entry>, name: Text, i: nat, k: nat)
    requires i <= k <= |s| && forall j :: i <= j < k ==> !IsEnd(s[j]) && !Wanted(s[j], name)
    ensures FindFrom(s, name, i) == FindFrom(s, name, k)
    decreases k - i
  {
    if i < k {
      FindSkips(s, name, i + 1, k);
    }
  }

  /** Where the entry loop stopped is where the scan of the whole directory stands. */
  lemma FindInBlock(s: seq<Entry>, name: Text, base: nat, entries: seq<Entry>, i: nat)
    requires base + |entries| <= |s| && s[base..base + |entries|] == entries && i <= |entries|
    requires forall j :: 0 <= j < i ==> !IsEnd(entries[j]) && !Wanted(entries[j], name)
    requires i < |entries| ==> IsEnd(entries[i]) || Wanted(entries[i], name)
    ensures FindFrom(s, name, base) ==
      if i == |entries| then FindFrom(s, name, base + i) else if IsEnd(entries[i]) then |s| else base + i
    ensures i < |entries| ==> s[base + i] == entries[i]
  {
    forall j | base <= j < base + |entries|
      ensures s[j] == entries[j - base]
    {
    }
    FindSkips(s, name, base, base + i);
  }

  lemma FindEnds(s: seq<Entry>, name: Text)
    ensures FindFrom(s, name, |s|) == |s|
  {
  }

  /** fat32_find_entry */
  method FindEntry(v: Volume, dir: nat, name: Text) returns (found: bool, entry: Entry)
    requires v.Consistent() && (dir == 0 || dir in v.chains)
    ensures Readable(v, FileChain(v.chains, dir))
    ensures var s := Slots(v.data, FileChain(v.chains, dir)); var k := FindFrom(s, name, 0);
      (found <==> k < |s|) && (found ==> entry == s[k])
  {
    hide Accounted, Volume.Valid, Readable, FileChain, Slots, Tables, SlotsPerCluster, Pos, Wanted, FindFrom;
    WalkStart(v, dir);
    ghost var ch := FileChain(v.chains, dir);
    ghost var s, m := Slots(v.data, ch), SlotsPerCluster(v.g);
    FindEnds(s, name);
    found, entry := false, ZERO_ENTRY;
    var cluster := dir;
    ghost var index, base := 0, 0;
    while cluster != 0 && cluster < CLUSTER_END
      invariant index <= |ch| && cluster == ClusterAt(ch, index) && (cluster == 0 <==> index == |ch|)
        && cluster < CLUSTER_END
      invariant base == Pos(index, m) && base <= |s| && FindFrom(s, name, base) == FindFrom(s, name, 0)
      decreases |ch| - index
    {
      var entries := LoadBlock(v, cluster, ch, index);
      var i := FindInTable(entries, name);
      FindInBlock(s, name, base, entries, i);
      if i < |entries| {
        found, entry := !IsEnd(entries[i]), entries[i];
        return;
      }
      cluster := Follow(v, cluster, ch, index);
      index, base := index + 1, base + m;
    }
  }

  // ---- fat32_list_dir ----

  ghost predicate HasEnd(entries: seq<Entry>) {
    exists j :: 0 <= j < |entries| && IsEnd(entries[j])
  }

  /** The entry loop: the items up to an end mark, and whether one was met. */
  method ListTable(entries: seq<Entry>) returns (items: seq<Item>, ended: bool)
    ensures ended <==> HasEnd(entries)
    ensures items == ListFrom(entries, 0)
  {
    items := [];
    var i := 0;
    while i < |entries| && !IsEnd(entries[i])
      invariant 0 <= i <= |entries| && forall j :: 0 <= j < i ==> !IsEnd(entries[j])
      invariant items + ListFrom(entries, i) == ListFrom(entries, 0)
    {
      if Visible(entries[i]) {
        var name := FormatName(Raw(entries[i]));
        var item := Item(CString(name), FileSize(entries[i]), Attr(entries[i]));
        if !([DOT] <= item.name) {
          items := items + [item];
        }
      }
      i := i + 1;
    }
    ended := i < |entries|;
  }

  /** Listing a directory block by block. */
  lemma ListInBlock(s: seq<Entry>, base: nat, entries: seq<Entry>)
    requires base + |entries| <= |s| && s[base..base + |entries|] == entries
    ensures ListFrom(s, base) ==
      if HasEnd(entries) then ListFrom(entries, 0) else ListFrom(entries, 0) + ListFrom(s, base + |entries|)
    ensures ListFrom(s, |s|) == []
  {
    ListRest(s, base, entries, 0);
  }

  lemma {:induction false} ListRest(s: seq<Entry>, base: nat, entries: seq<Entry>, i: nat)
    requires base + |entries| <= |s| && s[base..base + |entries|] == entries && i <= |entries|
    ensures (forall j :: i <= j < |entries| ==> !IsEnd(entries[j])) ==>
      ListFrom(s, base + i) == ListFrom(entries, i) + ListFrom(s, base + |entries|)
    ensures (exists j :: i <= j < |entries| && IsEnd(entries[j])) ==> ListFrom(s, base + i) == ListFrom(entries, i)
    decreases |entries| - i
  {
    if i < |entries| {
      assert s[base + i] == entries[i];
      if !IsEnd(entries[i]) {
        ListRest(s, base, entries, i + 1);
      }
    }
  }

  lemma JoinLeft<T>(a: seq<T>, b: seq<T>, c: seq<T>)
    ensures a + (b + c) == a + b + c
  {
  }

  /** fat32_list_dir: the items passed to the callback, in order. */
  method ListDir(v: Volume, dir: nat) returns (items: seq<Item>)
    requires v.Consistent() && (dir == 0 || dir in v.chains)
    ensures Readable(v, FileChain(v.chains, dir))
    ensures items == ListFrom(Slots(v.data, FileChain(v.chains, dir)), 0)
  {
    hide Accounted, Volume.Valid, Readable, FileChain, Slots, Tables, SlotsPerCluster, Pos, ListFrom, HasEnd;
    WalkStart(v, dir);
    ghost var ch := FileChain(v.chains, dir);
    ghost var s, m := Slots(v.data, ch), SlotsPerCluster(v.g);
    ListInBlock(s, |s|, []);
    items := [];
    var cluster := dir;
    ghost var index, base := 0, 0;
    while cluster != 0 && cluster < CLUSTER_END
      invariant index <= |ch| && cluster == ClusterAt(ch, index) && (cluster == 0 <==> index == |ch|)
        && cluster < CLUSTER_END
      invariant base == Pos(index, m) && base <= |s| && items + ListFrom(s, base) == ListFrom(s, 0)
      decreases |ch| - index
    {
      var entries := LoadBlock(v, cluster, ch, index);
      ListInBlock(s, base, entries);
      var more, ended := ListTable(entries);
      if ended {
        items := items + more;
        return;
      }
      JoinLeft(items, more, ListFrom(s, base + m));
      items := items + more;
      cluster := Follow(v, cluster, ch, index);
      index, base := index + 1, base + m;
    }
  }

  // ---- Changing one entry ----

  /** From data to data' slot k of the directory became e, and no cluster outside it changed. */
  ghost predicate SlotStored(data: seq<seq<Byte>>, data': seq<seq<Byte>>, ch: Chain, k: nat, e: Entry) {
    && |data'| == |data| && (forall i :: 0 <= i < |ch| ==> ch[i] < |data|)
    && k < |Slots(data, ch)| && Slots(data', ch) == Slots(data, ch)[k := e]
    && (forall c :: 0 <= c < |data| && c !in ch ==> data'[c] == data[c])
  }

  /** Patch entry i of a directory cluster and write the cluster back. */
  method StoreEntry(v: Volume, cluster: nat, entries: seq<Entry>, i: nat, e: Entry, ghost ch: Chain, ghost index: nat)
    requires v.Valid() && Readable(v, ch) && index < |ch| && ch[index] == cluster
    requires entries == Tables(v.data)[cluster] && i < |entries| == SlotsPerCluster(v.g)
    modifies v`disk, v`data
    ensures v.Valid() && v.Untouched() && Readable(v, ch)
    ensures SlotStored(old(v.data), v.data, ch, Pos(index, SlotsPerCluster(v.g)) + i, e)
  {
    hide Pos, Slot, Cluster;
    ghost var m := SlotsPerCluster(v.g);
    SlotsOfCluster(v, ch, index);
    assert Uniform(Tables(v.data), ch, m);
    ContentUpdate(Tables(v.data), ch, m, index, entries[i := e]);
    StoreTable(v, cluster, entries[i := e]);
    SpliceOne(Slots(old(v.data), ch), Pos(index, m), entries, i, e);
  }

  lemma SpliceOne<T>(s: seq<T>, at: nat, block: seq<T>, i: nat, e: T)
    requires at + |block| <= |s| && s[at..at + |block|] == block && i < |block|
    ensures Splice(s, at, block[i := e]) == s[at + i := e]
  {
    forall j | at <= j < at + |block|
      ensures s[j] == block[j - at]
    {
    }
  }

  // ---- Scans by raw name ----

  /** The entry loop of fat32_update_entry_size and fat32_vfs_unlink. */
  method RawInTable(entries: seq<Entry>, raw: Text, skipLong: bool) returns (i: nat)
    ensures i <= |entries| && forall j :: 0 <= j < i ==> !IsEnd(entries[j]) && !HasRaw(entries[j], raw, skipLong)
    ensures i < |entries| ==> IsEnd(entries[i]) || HasRaw(entries[i], raw, skipLong)
  {
    i := 0;
    while i < |entries| && !IsEnd(entries[i]) && !HasRaw(entries[i], raw, skipLong)
      invariant 0 <= i <= |entries|
      invariant forall j :: 0 <= j < i ==> !IsEnd(entries[j]) && !HasRaw(entries[j], raw, skipLong)
    {
      i := i + 1;
    }
  }

  lemma {:induction false} RawSkips(s: seq<Entry>, raw: Text, skipLong: bool, i: nat, k: nat)
    requires i <= k <= |s| && forall j :: i <= j < k ==> !IsEnd(s[j]) && !HasRaw(s[j], raw, skipLong)
    ensures RawFrom(s, raw, skipLong, i) == RawFrom(s, raw, skipLong, k)
    decreases k - i
  {
    if i < k {
      RawSkips(s, raw, skipLong, i + 1, k);
    }
  }

  lemma RawInBlock(s: seq<Entry>, raw: Text, skipLong: bool, base: nat, entries: seq<Entry>, i: nat)
    requires base + |entries| <= |s| && s[base..base + |entries|] == entries && i <= |entries|
    requires forall j :: 0 <= j < i ==> !IsEnd(entries[j]) && !HasRaw(entries[j], raw, skipLong)
    requires i < |entries| ==> IsEnd(entries[i]) || HasRaw(entries[i], raw, skipLong)
    ensures RawFrom(s, raw, skipLong, base) ==
      if i == |entries| then RawFrom(s, raw, skipLong, base + i) else if IsEnd(entries[i]) then |s| else base + i
    ensures i < |entries| ==> s[base + i] == entries[i]
    ensures i < |entries| && IsEnd(entries[i]) && TailEmpty(s) ==> RawFrom(s, raw, skipLong, base + |entries|) == |s|
  {
    forall j | base <= j < base + |entries|
      ensures s[j] == entries[j - base]
    {
    }
    RawSkips(s, raw, skipLong, base, base + i);
  }

  /** Slot k of a directory got its size and cluster bytes, and no other byte changed. */
  ghost predicate EntrySized(data: seq<seq<Byte>>, data': seq<seq<Byte>>, ch: Chain, k: nat, size: Word32,
                             cluster: Word32) {
    InTable(data, ch) && InTable(data', ch) && SlotSized(Slots(data, ch), Slots(data', ch), k, size, cluster)
  }

  lemma StoredSized(data: seq<seq<Byte>>, data': seq<seq<Byte>>, ch: Chain, k: nat, size: Word32, cluster: Word32)
    requires InTable(data, ch) && k < |Slots(data, ch)|
    requires SlotStored(data, data', ch, k, Resized(Slots(data, ch)[k], size, cluster))
    ensures EntrySized(data, data', ch, k, size, cluster)
  {
    hide Slots, Resized, SlotSized;
    ResizedSlot(Slots(data, ch), k, size, cluster);
  }

  ghost predicate InTable(data: seq<seq<Byte>>, ch: Chain) {
    forall i :: 0 <= i < |ch| ==> ch[i] < |data|
  }

  /** fat32_update_entry_size */
  method UpdateEntrySize(v: Volume, dir: nat, name: Text, size: Word32, cluster: Word32) returns (ret: int)
    requires v.Consistent() && (dir == 0 || dir in v.chains)
    modifies v`disk, v`data
    ensures v.Consistent() && v.Untouched()
    ensures Readable(v, FileChain(v.chains, dir))
    ensures var ch := FileChain(v.chains, dir); var s := Slots(old(v.data), ch);
      var k := RawFrom(s, To83(name), true, 0);
      && ret == (if k < |s| then 0 else -1)
      && (if k < |s| then SlotStored(old(v.data), v.data, ch, k, Resized(s[k], size, cluster))
        else v.data == old(v.data))
      && (k < |s| ==> EntrySized(old(v.data), v.data, ch, k, size, cluster))
  {
    hide Accounted, Volume.Valid, Readable, FileChain, Slots, Tables, SlotsPerCluster, Pos, HasRaw, RawFrom,
      SlotStored, To83, EntrySized, Resized;
    WalkStart(v, dir);
    var raw := NameTo83(name);
    ghost var ch := FileChain(v.chains, dir);
    ghost var s, m := Slots(v.data, ch), SlotsPerCluster(v.g);
    RawInBlock(s, raw, true, |s|, [], 0);
    var current := dir;
    ghost var index, base := 0, 0;
    while current != 0 && current < CLUSTER_END
      invariant index <= |ch| && current == ClusterAt(ch, index) && (current == 0 <==> index == |ch|)
        && current < CLUSTER_END
      invariant base == Pos(index, m) && base <= |s| && RawFrom(s, raw, true, base) == RawFrom(s, raw, true, 0)
      invariant v.Consistent() && Readable(v, ch) && v.data == old(v.data) && v.disk == old(v.disk)
      decreases |ch| - index
    {
      var entries := LoadBlock(v, current, ch, index);
      var i := RawInTable(entries, raw, true);
      RawInBlock(s, raw, true, base, entries, i);
      if i < |entries| {
        if IsEnd(entries[i]) {
          return -1;
        }
        StoreEntry(v, current, entries, i, Resized(entries[i], size, cluster), ch, index);
        StoredSized(old(v.data), v.data, ch, base + i, size, cluster);
        return 0;
      }
      current := Follow(v, current, ch, index);
      index, base := index + 1, base + m;
    }
    ret := -1;
  }

  /** The part of fat32_vfs_unlink that marks the entry deleted. */
  method DeleteEntry(v: Volume, dir: nat, name: Text) returns (ret: int)
    requires v.Consistent() && (dir == 0 || dir in v.chains)
    requires Readable(v, FileChain(v.chains, dir)) && TailEmpty(Slots(v.data, FileChain(v.chains, dir)))
    modifies v`disk, v`data
    ensures v.Consistent() && v.Untouched()
    ensures Readable(v, FileChain(v.chains, dir))
    ensures var ch := FileChain(v.chains, dir); var s := Slots(old(v.data), ch);
      var k := RawFrom(s, To83(name), false, 0);
      && ret == (if k < |s| then 0 else -1)
      && (if k < |s| then SlotStored(old(v.data), v.data, ch, k, Deleted(s[k])) else v.data == old(v.data))
  {
    hide Accounted, Volume.Valid, Readable, FileChain, Slots, Tables, SlotsPerCluster, Pos, HasRaw, RawFrom,
      SlotStored, To83, TailEmpty;
    WalkStart(v, dir);
    var raw := NameTo83(name);
    ghost var ch := FileChain(v.chains, dir);
    ghost var s, m := Slots(v.data, ch), SlotsPerCluster(v.g);
    RawInBlock(s, raw, false, |s|, [], 0);
    var current := dir;
    ghost var index, base := 0, 0;
    while current != 0 && current < CLUSTER_END
      invariant index <= |ch| && current == ClusterAt(ch, index) && (current == 0 <==> index == |ch|)
        && current < CLUSTER_END
      invariant base == Pos(index, m) && base <= |s| && RawFrom(s, raw, false, base) == RawFrom(s, raw, false, 0)
      invariant v.Consistent() && Readable(v, ch) && v.data == old(v.data) && v.disk == old(v.disk)
      decreases |ch| - index
    {
      var entries := LoadBlock(v, current, ch, index);
      var i := RawInTable(entries, raw, false);
      RawInBlock(s, raw, false, base, entries, i);
      if i < |entries| && !IsEnd(entries[i]) {
        StoreEntry(v, current, entries, i, Deleted(entries[i]), ch, index);
        return 0;
      }
      current := Follow(v, current, ch, index);
      index, base := index + 1, base + m;
    }
    ret := -1;
  }
}
