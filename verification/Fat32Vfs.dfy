/** The VFS operations on a mounted volume, with the one-directory listing cache in front.
    Lookups are done afresh by each operation, as the VFS does. */
module Fat32Vfs {
  import opened Common
  import opened LittleEndian
  import opened Fat32Layout
  import opened Fat32Chains
  import opened Fat32Volume
  import opened Fat32Content
  import opened Fat32Grow
  import opened Fat32File
  import opened Fat32Write
  import opened Fat32FileLaws
  import opened Fat32Names
  import opened Fat32Slots
  import opened Fat32DirMap
  import opened Fat32Dir
  import opened Fat32Create
  import opened Fat32Tree
  import opened Fat32View

  const CACHE_SIZE := 64

  /** C's conversion of an unsigned 32-bit count to int. */
  function ToInt(x: int): int {
    if x < 0x8000_0000 then x else x - U32_LIMIT
  }

  /** The attributes fat32_vfs_create gives. */
  function EntryAttr(isDir: bool): Byte {
    if isDir then ATTR_DIRECTORY else ATTR_ARCHIVE
  }

  lemma AttrMakes(isDir: bool)
    ensures MakesDirectory(EntryAttr(isDir)) == isDir
  {
  }

  function Cached(items: seq<Item>): seq<Item> {
    items[..Min(|items|, CACHE_SIZE)]
  }

  class Vfs {
    const v: Volume
    var dirCache: seq<Item>         // dir_cache[0 .. dir_cache_count)
    var dirCacheValid: bool         // dir_cache_fs is this volume
    var dirCacheCluster: nat
    ghost var dirs: set<nat>        // start clusters of the directories
    ghost var refs: Refs            // the entry that owns each file chain

    /** The slots of a directory. */
    ghost function SlotsAt(d: nat): seq<Entry>
      reads this, v
      requires d in v.chains && InTable(v.data, v.chains[d])
    {
      Slots(v.data, v.chains[d])
    }

    /** The maps of all directories. */
    ghost function AllMaps(): Maps
      reads this, v
    {
      MapsOf(v.Ledger(), v.data, dirs)
    }

    /** The chains no name leads to. */
    ghost function OrphanChains(): set<nat>
      reads this, v
    {
      Orphans(v.chains, AllMaps())
    }

    /** The account of clusters, and the tree with the volume's root among its directories. */
    ghost predicate Rooted()
      reads this, v
    {
      v.Consistent() && Tree(v.Ledger(), v.data, dirs, refs) && v.g.root as nat in dirs
    }

    /** The volume part of the invariant: file sizes fit their chains, too. */
    ghost predicate Sound()
      reads this, v
    {
      Rooted() && Sized(v.chains, AllMaps(), v.g.ClusterSize())
    }

    /** A valid cache holds the start of what a fresh listing would return. */
    ghost predicate CacheAgrees()
      reads this, v
    {
      dirCacheValid ==>
        && dirCacheCluster in dirs && dirCacheCluster in v.chains && InTable(v.data, v.chains[dirCacheCluster])
        && dirCache == Cached(ListFrom(SlotsAt(dirCacheCluster), 0))
    }

    ghost predicate Valid()
      reads this, v
    {
      Sound() && CacheAgrees()
    }

    /** Mounting: the cache is empty. */
    constructor (v: Volume, ghost dirs: set<nat>, ghost refs: Refs)
      requires v.Consistent() && Tree(v.Ledger(), v.data, dirs, refs) && v.g.root as nat in dirs
      requires Sized(v.chains, MapsOf(v.Ledger(), v.data, dirs), v.g.ClusterSize())
      ensures Valid() && this.v == v && this.dirs == dirs && this.refs == refs && !dirCacheValid
    {
      this.v, this.dirs, this.refs := v, dirs, refs;
      dirCache, dirCacheValid, dirCacheCluster := [], false, 0;
    }

    lemma DirAt(d: nat)
      requires Rooted() && d in dirs
      ensures DirOk(v.Ledger(), v.data, dirs, refs, d)
      ensures d in v.chains && InTable(v.data, v.chains[d]) && WellFormed(SlotsAt(d)) && d != 0
      ensures FileChain(v.chains, d) == v.chains[d] && 0 < SlotsPerCluster(v.g)
    {
      hide Accounted;
      assert DirOk(v.Ledger(), v.data, dirs, refs, d);
      ChainReadable(v, d);
    }

    /** dir_cache_callback */
    method CacheItem(item: Item)
      modifies this`dirCache
      ensures dirCache == if |old(dirCache)| < CACHE_SIZE then old(dirCache) + [item] else old(dirCache)
    {
      if |dirCache| < CACHE_SIZE {
        dirCache := dirCache + [item];
      }
    }

    method FillCache(items: seq<Item>)
      requires dirCache == []
      modifies this`dirCache
      ensures dirCache == Cached(items)
    {
      var i := 0;
      while i < |items|
        invariant 0 <= i <= |items| && dirCache == Cached(items[..i])
      {
        CacheItem(items[i]);
        i := i + 1;
      }
      assert items[..i] == items;
    }

    /** fat32_vfs_readdir: cached or not, entry index of a fresh listing cut at 64. */
    method Readdir(d: nat, index: nat) returns (r: Option<Text>)
      requires Valid() && d in dirs
      modifies this`dirCache, this`dirCacheValid, this`dirCacheCluster
      ensures Valid() && d in v.chains && InTable(v.data, v.chains[d])
      ensures var items := ListFrom(SlotsAt(d), 0);
        r == if index < |items| && index < 64 then Some(items[index].name) else None
    {
      hide Accounted, Tree, Slots, ListFrom, Volume.Valid;
      DirAt(d);
      if !dirCacheValid || dirCacheCluster != d {
        dirCache, dirCacheValid, dirCacheCluster := [], true, d;
        var items := ListDir(v, d);
        FillCache(items);
      }
      r := if index < |dirCache| then Some(dirCache[index].name) else None;
    }

    /** The directory at d as a finite map from raw names. */
    ghost function Map(d: nat): Directory
      reads this, v
      requires d in v.chains && InTable(v.data, v.chains[d])
    {
      MapAt(v.Ledger(), v.data, d)
    }

    /** A directory of the tree, ready to be looked up. */
    ghost predicate IsDir(d: nat)
      reads this, v
    {
      d in dirs && d in v.chains && InTable(v.data, v.chains[d])
    }

    /** fat32_find_entry on a valid name is a look-up in the map. */
    method Lookup(d: nat, name: Text) returns (found: bool, entry: Entry, ghost k: nat)
      requires Rooted() && IsDir(d) && ValidName(name)
      ensures found <==> To83(name) in Map(d)
      ensures found ==>
        && k < |SlotsAt(d)| && SlotsAt(d)[k] == entry && Live(entry) && Raw(entry) == To83(name)
        && Map(d)[To83(name)] == Bound(entry)
        && InUseAs(entry, To83(name)) && BindingBytes(Map(d)[To83(name)], entry)
    {
      hide Accounted, Tree, Slots, WellFormed, Volume.Valid, Live, ValidName, To83, InUseAs, BindingBytes;
      DirAt(d);
      found, entry := FindEntry(v, d, name);
      k := FindFrom(SlotsAt(d), name, 0);
      FindAgrees(SlotsAt(d), name);
      FindIsSlot(SlotsAt(d), name, 0);
      if found {
        InUseIs(entry, To83(name));
        BoundIs(entry);
      }
    }

    ghost function FreeCount(): nat
      reads v
    {
      |FreeClusters(v.fat)|
    }

    /** The clusters a new entry in directory d takes. */
    ghost function Price(d: nat, isDir: bool): nat
      reads this, v
      requires IsDir(d)
    {
      Needed(SlotsAt(d), EntryAttr(isDir))
    }

    /** fat32_vfs_create, for a valid name that no hidden entry carries.  The result c is the
        cluster of a new directory. */
    method Create(d: nat, name: Text, isDir: bool) returns (ret: int, ghost c: Word32)
      requires Valid() && IsDir(d) && ValidName(name) && NotHidden(SlotsAt(d), To83(name))
      modifies this`dirCacheValid, this`dirs, v`disk, v`fat, v`data, v`chains, v`own
      ensures Valid() && v.Untouched() && IsDir(d)
      ensures LostClusters(v.own) == LostClusters(old(v.own)) && OrphanChains() == old(OrphanChains())
      ensures ChainsKept(old(v.Ledger()), old(v.data), v.Ledger(), v.data, {d})
      ensures ret == 0 || ret == -2
      ensures ret == -2 ==> dirs == old(dirs) && AllMaps() == old(AllMaps())
      ensures ret == 0 <==> To83(name) !in old(Map(d)) && old(Price(d, isDir) <= FreeCount())
      ensures ret == 0 ==> FreeCount() == old(FreeCount() - Price(d, isDir))
      ensures ret == 0 ==>
        DirFilled(old(v.data), old(v.chains[d]), v.data, v.chains[d], To83(name), if isDir then 0x10 else 0x20, c)
      ensures ret == -2 ==>
        if To83(name) in old(Map(d)) then v.Ledger() == old(v.Ledger()) && v.data == old(v.data)
        else FreeClusters(v.fat) == {}
      ensures ret == 0 ==>
        if isDir then c !in old(v.chains) && dirs == old(dirs) + {c as nat} else c == 0 && dirs == old(dirs)
      ensures ret == 0 ==>
        AllMaps() == MapsCreated(old(AllMaps()), d, old(Map(d)), To83(name), EntryAttr(isDir), c)
    {
      hide Accounted, Tree, Slots, WellFormed, Volume.Valid, ValidName, To83, FreeClusters, DirOk, NotHidden, Unused,
        OthersSame, LostClusters, SameDir, DirMap, ChainsKept, MapAt, MapsOf, Sized, Orphans, Longer, Pos, Needed,
        ListFrom, Cached, Readable, Price, FreeCount, DirFilled;
      c := 0;
      DirAt(d);
      ghost var l, data, maps := v.Ledger(), v.data, AllMaps();
      MapsKeys(l, data, dirs, refs);
      MapsFound(l, data, dirs, d);
      var found, _, _ := Lookup(d, name);
      if found {
        KeptNothing(v, {d});
        return -2, c;
      }
      UnusedHere(l, data, d, To83(name));
      DirsAreChains(l, data, dirs, refs);
      ret, c := CreateNew(d, name, isDir);
      ZeroNoChain(l);
      MapsStep(l, data, v.Ledger(), v.data, old(dirs), refs, d);
      if ret == 0 {
        if isDir { MapsGrow(v.Ledger(), v.data, old(dirs), c); }
        ViewCreate(l.chains, maps, v.g.ClusterSize(), d, To83(name), EntryAttr(isDir), c, v.chains);
      } else {
        SizedLonger(l.chains, v.chains, maps, v.g.ClusterSize());
        OrphansSame(l.chains, v.chains, maps);
      }
    }

    /** fat32_vfs_create once the name is known to be free. */
    method CreateNew(d: nat, name: Text, isDir: bool) returns (ret: int, ghost c: Word32)
      requires Rooted() && IsDir(d) && ValidName(name) && Unused(SlotsAt(d), To83(name))
      modifies this`dirCacheValid, this`dirs, v`disk, v`fat, v`data, v`chains, v`own
      ensures Rooted() && CacheAgrees() && v.Untouched() && IsDir(d)
      ensures OthersSame(old(v.Ledger()), old(v.data), v.Ledger(), v.data, old(dirs), d)
      ensures LostClusters(v.own) == LostClusters(old(v.own))
      ensures ChainsKept(old(v.Ledger()), old(v.data), v.Ledger(), v.data, {d})
      ensures Longer(old(v.chains), v.chains)
      ensures v.chains.Keys == old(v.chains).Keys + if ret == 0 && isDir then {c as nat} else {}
      ensures ret == 0 || ret == -2
      ensures ret == -2 ==> dirs == old(dirs) && Map(d) == old(Map(d)) && FreeClusters(v.fat) == {}
      ensures ret == 0 <==> old(Price(d, isDir) <= FreeCount())
      ensures ret == 0 ==> FreeCount() == old(FreeCount() - Price(d, isDir))
      ensures ret == 0 ==>
        DirFilled(old(v.data), old(v.chains[d]), v.data, v.chains[d], To83(name), EntryAttr(isDir), c)
      ensures ret == 0 ==> To83(name) !in old(Map(d))
      ensures ret == 0 ==> Map(d) == old(Map(d))[To83(name) := Binding(EntryAttr(isDir), c, 0)]
      ensures ret == 0 ==>
        if isDir then c !in old(v.chains) && dirs == old(dirs) + {c as nat} else c == 0 && dirs == old(dirs)
      ensures ret == 0 && isDir ==> IsDir(c) && Map(c) == map[]
    {
      hide Accounted, Tree, Slots, WellFormed, Volume.Valid, ValidName, To83, Grown, Placed, DirExtended, FreeClusters,
        DirOk, NotHidden, Unused, OthersSame, LostClusters, SameDir, DirMap, ChainsKept, MapAt, Needed, FreeSlotFrom,
        Pos, ListFrom, Cached, Sized, MapsOf, Orphans, Readable, Longer, MakesDirectory, DirFilled;
      DirAt(d);
      AttrMakes(isDir);
      var attr := EntryAttr(isDir);
      ghost var l, data, l1, data1 := v.Ledger(), v.data, v.Ledger(), v.data;
      ghost var price, free := Price(d, isDir), FreeCount();
      SizesAgree(v);
      FormatUndoesTo83(name);
      var newCluster;
      c := 0;
      ret, newCluster, l1, data1 := CreateEntry(v, d, name, attr);
      assert ret == 0 ==> FreeCount() == free - price;
      dirCacheValid := false;
      SizesAgree(v);
      Extended(l, data, l1, data1, dirs, refs, d, SlotsPerCluster(v.g), To83(name));
      ExtendedView(l, data, l1, data1, d, SlotsPerCluster(v.g));
      if ret == 0 {
        PlacedView(l1, data1, v.Ledger(), v.data, l1.chains[d], FreeSlotFrom(Slots(data1, l1.chains[d]), 0),
          To83(name), attr, newCluster, SlotsPerCluster(v.g));
        LongerTwice(l.chains, l1.chains, v.chains);
        PlacedWhole(l, data, l1, data1, v.Ledger(), v.data, dirs, refs, d, To83(name), attr, newCluster,
          SlotsPerCluster(v.g));
        c := newCluster;
        if isDir {
          dirs := dirs + {newCluster};
        }
        assert v.chains.Keys == l.chains.Keys + if isDir then {c as nat} else {};
      } else {
        assert v.chains.Keys == l.chains.Keys + {};
      }
    }

    /** fat32_vfs_unlink: free the file's chain, then mark its entry deleted. */
    method Unlink(d: nat, name: Text) returns (ret: int)
      requires Valid() && IsDir(d) && ValidName(name)
      modifies this`dirCacheValid, v`disk, v`fat, v`data, v`chains, v`own
      ensures Valid() && v.Untouched() && IsDir(d)
      ensures LostClusters(v.own) == LostClusters(old(v.own)) && OrphanChains() == old(OrphanChains())
      ensures ret == -1 <==> To83(name) !in old(Map(d))
      ensures ret == -2 <==> To83(name) in old(Map(d)) && MakesDirectory(old(Map(d))[To83(name)].attr)
      ensures ret < 0 ==> v.Ledger() == old(v.Ledger()) && v.data == old(v.data)
      ensures -2 <= ret <= 0
      ensures ret == 0 ==> AllMaps() == old(AllMaps())[d := old(Map(d)) - {To83(name)}]
      ensures ret == 0 ==>
        var c := old(Map(d))[To83(name)].cluster;
        && v.Ledger() == (if c in old(v.chains) then Freed(old(v.Ledger()), c) else old(v.Ledger()))
        && ChainsKept(old(v.Ledger()), old(v.data), v.Ledger(), v.data, {d, c as nat})
    {
      hide Accounted, Tree, Slots, WellFormed, Volume.Valid, ValidName, To83, DirOk, OthersSame, LostClusters, SameDir,
        DirMap, Live, SlotStored, ChainsKept, MapAt, MapsOf, Sized, Orphans, OneOwner, Pos, Cleared, Release;
      DirAt(d);
      ghost var l, data, maps := v.Ledger(), v.data, AllMaps();
      MapsKeys(l, data, dirs, refs);
      MapsFound(l, data, dirs, d);
      var found, entry, k := Lookup(d, name);
      if !found {
        return -1;
      }
      if IsDirectory(entry) {
        return -2;
      }
      FileStart(l, data, dirs, refs, d, k);
      TreeOneOwner(l, data, dirs, refs);
      DirsAreChains(l, data, dirs, refs);
      ret := UnlinkFile(d, name, k, entry);
      MapsStep(l, data, v.Ledger(), v.data, dirs, refs, d);
      ViewUnlink(l.chains, maps, v.g.ClusterSize(), d, To83(name), v.chains);
    }

    /** fat32_vfs_unlink once the file's entry is found. */
    method UnlinkFile(d: nat, name: Text, ghost k: nat, entry: Entry) returns (ret: int)
      requires Rooted() && IsDir(d) && ValidName(name) && k < |SlotsAt(d)| && SlotsAt(d)[k] == entry
      requires IsFile(entry) && Raw(entry) == To83(name)
      modifies this`dirCacheValid, v`disk, v`fat, v`data, v`chains, v`own
      ensures Rooted() && CacheAgrees() && v.Untouched() && IsDir(d) && ret == 0
      ensures OthersSame(old(v.Ledger()), old(v.data), v.Ledger(), v.data, dirs, d)
      ensures LostClusters(v.own) == LostClusters(old(v.own))
      ensures Map(d) == old(Map(d)) - {To83(name)}
      ensures v.Ledger() == if StartCluster(entry) in old(v.chains) then Freed(old(v.Ledger()), StartCluster(entry))
        else old(v.Ledger())
      ensures ChainsKept(old(v.Ledger()), old(v.data), v.Ledger(), v.data, {d, StartCluster(entry) as nat})
    {
      hide Accounted, Tree, Slots, WellFormed, Volume.Valid, ValidName, To83, DirOk, OthersSame, LostClusters, SameDir,
        DirMap, Live, SlotStored, Freed, ChainsKept, MapAt, IsDirectory;
      DirAt(d);
      SizesAgree(v);
      var cluster := StartCluster(entry);
      ghost var l, data := v.Ledger(), v.data;
      ghost var s := SlotsAt(d);
      FileStart(l, data, dirs, refs, d, k);
      if cluster >= 2 {
        FreeFile(v, cluster);
      }
      ChainReadable(v, d);
      LiveFile(entry);
      ScansReach(s, To83(name), k, 0);
      EndsLast(s);
      ret := DeleteEntry(v, d, name);
      dirCacheValid := false;
      UnlinkMap(l, data, v.data, dirs, refs, d, k, v.Ledger());
      UnlinkKept(l, data, v.data, d, k, Deleted(s[k]), cluster);
    }

    /** fat32_vfs_finddir followed by fat32_vfs_write.  count is what fat32_write_file returned,
        start the file's cluster afterwards, and data1 the clusters before the entry is updated. */
    method Write(d: nat, name: Text, offset: Word32, buf: seq<Byte>)
      returns (ret: int, ghost count: int, ghost start: nat, ghost data1: seq<seq<Byte>>)
      requires Valid() && IsDir(d) && ValidName(name) && |buf| < U32_LIMIT
      modifies this`dirCacheValid, this`refs, v`disk, v`fat, v`data, v`chains, v`own
      ensures Valid() && v.Untouched() && IsDir(d)
      ensures LostClusters(v.own) == LostClusters(old(v.own))
      ensures ChainsKept(old(v.Ledger()), old(v.data), v.Ledger(), v.data, {d, start})
      ensures !HasFile(old(Map(d)), To83(name)) ==> ret == -1 && v.Ledger() == old(v.Ledger()) && v.data == old(v.data)
      ensures HasFile(old(Map(d)), To83(name)) ==>
        var b := old(Map(d))[To83(name)];
        && ret == (if count < 0x8000_0000 then count else count - 0x1_0000_0000)
        && -1 <= count <= |buf| && (0 <= count < |buf| ==> FreeClusters(v.fat) == {})
        && (count == -1 <==> buf != [] && b.cluster == 0 && FreeClusters(old(v.fat)) == {})
        && (0 <= count && buf != [] ==>
              && (b.cluster == 0 || b.cluster in old(v.chains))
              && (if b.cluster != 0 then start == b.cluster else start !in old(v.chains))
              && FileWritten(old(v.Ledger()), old(v.data), v.Ledger(), data1, start,
                             FileChain(old(v.chains), b.cluster), v.g.ClusterSize(), offset, buf[..count]))
        && (ret <= 0 ==> AllMaps() == old(AllMaps()))
        && (ret > 0 ==> 0 < start < CLUSTER_END && SameContent(data1, start))
        && (ret > 0 ==>
              var b' := Binding(b.attr, start, SizeAfter(b.size, offset, count, |buf|));
              && AllMaps() == old(AllMaps())[d := old(Map(d))[To83(name) := b']]
              && EntryWritten(old(SlotsAt(d)), SlotsAt(d), To83(name), b'.size, start)
              && |old(BytesOf(v.chains, v.data, Map(d)[To83(name)]))| == b.size
              && (count == |buf| && offset <= b.size && offset + |buf| < U32_LIMIT ==>
                    BytesOf(v.chains, v.data, b') == Overwrite(old(BytesOf(v.chains, v.data, Map(d)[To83(name)])),
                      offset, buf)))
        && OrphanChains() == old(OrphanChains())
          + (if b.cluster == 0 && 0 <= count && ret <= 0 && buf != [] then {start} else {})
    {
      hide Accounted, Tree, Slots, WellFormed, Volume.Valid, ValidName, To83, DirOk, OthersSame, LostClusters, SameDir,
        DirMap, Live, SlotStored, FileWritten, FreeClusters, Wrap32, Unreferenced, MapAt, ChainsKept, MapsOf, Sized,
        Orphans, BytesOf, SizeAfter, Overwrite, Content, EntryWritten, SlotSized, InUseAs, BindingBytes;
      DirAt(d);
      ghost var l, data, maps := v.Ledger(), v.data, AllMaps();
      MapsKeys(l, data, dirs, refs);
      MapsFound(l, data, dirs, d);
      ret, count, start, data1 := -1, -1, 0, v.data;
      KeptNothing(v, {d, start});
      var found, entry, k := Lookup(d, name);
      if !found || IsDirectory(entry) {
        return;
      }
      FileStart(l, data, dirs, refs, d, k);
      DirsAreChains(l, data, dirs, refs);
      FileUniform(v, StartCluster(entry));
      ret, count, start, data1 := WriteFound(d, name, k, entry, offset, buf);
      MapsStep(l, data, v.Ledger(), v.data, dirs, old(refs), d);
      ZeroNoChain(v.Ledger());
      if 0 <= count && buf != [] {
        StartInRange(v, start);
        WriteView(l, data, v.Ledger(), data1, maps, d, To83(name), start, v.g.ClusterSize(), offset, count, buf);
        if ret > 0 {
          BytesKept(v.chains, data1, v.data, Map(d)[To83(name)]);
          RecordedAt(old(SlotsAt(d)), SlotsAt(d), To83(name), k, SizeAfter(FileSize(entry), offset, count, |buf|),
            start);
        }
      }
    }

    /** fat32_vfs_write once the file's entry is found. */
    method WriteFound(d: nat, name: Text, ghost k: nat, entry: Entry, offset: Word32, buf: seq<Byte>)
      returns (ret: int, ghost count: int, ghost start: nat, ghost data1: seq<seq<Byte>>)
      requires Rooted() && CacheAgrees() && IsDir(d) && ValidName(name) && |buf| < U32_LIMIT && k < |SlotsAt(d)|
        && SlotsAt(d)[k] == entry
      requires IsFile(entry) && Raw(entry) == To83(name)
      modifies this`dirCacheValid, this`refs, v`disk, v`fat, v`data, v`chains, v`own
      ensures Rooted() && CacheAgrees() && v.Untouched() && IsDir(d)
      ensures OthersSame(old(v.Ledger()), old(v.data), v.Ledger(), v.data, dirs, d)
      ensures LostClusters(v.own) == LostClusters(old(v.own))
      ensures ChainsKept(old(v.Ledger()), old(v.data), v.Ledger(), v.data, {d, start})
      ensures ret == ToInt(count) && -1 <= count <= |buf| && (0 <= count < |buf| ==> FreeClusters(v.fat) == {})
      ensures count == -1 <==> buf != [] && StartCluster(entry) == 0 && FreeClusters(old(v.fat)) == {}
      ensures count == -1 || buf == [] ==> ret <= 0 && v.Ledger() == old(v.Ledger())
      ensures StartCluster(entry) == 0 || StartCluster(entry) in old(v.chains)
      ensures 0 <= count && buf != [] ==>
        && start in v.chains && (if StartCluster(entry) != 0 then start == StartCluster(entry)
          else start !in old(v.chains))
        && FileWritten(old(v.Ledger()), old(v.data), v.Ledger(), data1, start,
                       FileChain(old(v.chains), StartCluster(entry)), v.g.ClusterSize(), offset, buf[..count])
      ensures ret <= 0 ==> Map(d) == old(Map(d))
      ensures ret > 0 ==> 0 < start < CLUSTER_END && SameContent(data1, start)
      ensures ret > 0 ==> Map(d) == old(Map(d))[To83(name) := Binding(Attr(entry), start,
        SizeAfter(FileSize(entry), offset, count, |buf|))]
      ensures ret > 0 ==>
        SlotSized(old(SlotsAt(d)), SlotsAt(d), k, SizeAfter(FileSize(entry), offset, count, |buf|), start)
    {
      hide SlotSized, SizeAfter, Accounted, Tree, Slots, WellFormed, Volume.Valid, ValidName, To83, DirOk, OthersSame,
        LostClusters, SameDir, DirMap, Live, SlotStored, FileWritten, FreeClusters, Wrap32, Unreferenced, MapAt,
        ChainsKept;
      DirAt(d);
      SizesAgree(v);
      OthersUnchanged(v.Ledger(), v.data, dirs, refs, d);
      ghost var l, data := v.Ledger(), v.data;
      FileStart(l, data, dirs, refs, d, k);
      DirsAreChains(l, data, dirs, refs);
      var result, cluster, size := WriteFile(v, StartCluster(entry), FileSize(entry), offset, buf);
      ret, count, start, data1 := ToInt(result), result, cluster, v.data;
      SizesAgree(v);
      KeptSame(l, data, {start});
      if 0 <= result && buf != [] {
        WriteMaps(l, data, v.Ledger(), v.data, dirs, refs, cluster, FileChain(l.chains, StartCluster(entry)),
                  v.g.ClusterSize(), offset, buf[..result], d);
        WriteKept(l, data, v.Ledger(), v.data, cluster, FileChain(l.chains, StartCluster(entry)), v.g.ClusterSize(),
          offset, buf[..result]);
        if dirCacheValid {
          SlotsKept(l, data, v.Ledger(), v.data, dirs, d, dirCacheCluster);
        }
      }
      KeptFewer(l, data, v.Ledger(), v.data, {start}, {d, start});
      if ret > 0 {
        CanonicalEntry(d, name, k);
        Record(d, k, entry, size, cluster);
        SizedFrom(data1, v.data, v.chains[d], k, size, cluster);
        KeptTwice(l, data, v.Ledger(), data1, v.Ledger(), v.data, {start}, {d}, {d, start});
        OthersSameTwice(l, data, v.Ledger(), data1, v.Ledger(), v.data, dirs, d);
      }
    }

    lemma CanonicalEntry(d: nat, name: Text, k: nat)
      requires Rooted() && IsDir(d) && ValidName(name)
      requires k < |SlotsAt(d)| && Raw(SlotsAt(d)[k]) == To83(name)
      ensures Canonical(Raw(SlotsAt(d)[k]))
    {
      FormatUndoesTo83(name);
    }

    /** The end of fat32_vfs_write: the entry gets the new size and start cluster, and the
        cache is dropped. */
    method Record(d: nat, ghost k: nat, entry: Entry, size: Word32, cluster: nat)
      requires Rooted() && IsDir(d) && k < |SlotsAt(d)| && SlotsAt(d)[k] == entry
      requires IsFile(entry) && Canonical(Raw(entry))
      requires cluster in v.chains && cluster !in dirs
      requires cluster == StartCluster(entry) || Unreferenced(v.Ledger(), v.data, dirs, cluster)
      modifies this`dirCacheValid, this`refs, v`disk, v`data
      ensures Rooted() && CacheAgrees() && v.Untouched() && IsDir(d) && 0 < cluster < CLUSTER_END
      ensures OthersSame(old(v.Ledger()), old(v.data), v.Ledger(), v.data, dirs, d)
      ensures Map(d) == old(Map(d))[Raw(entry) := Binding(Attr(entry), cluster, size)]
      ensures SameContent(old(v.data), cluster)
      ensures EntrySized(old(v.data), v.data, v.chains[d], k, size, cluster)
      ensures ChainsKept(old(v.Ledger()), old(v.data), v.Ledger(), v.data, {d})
    {
      hide EntrySized, Accounted, Tree, Slots, WellFormed, Volume.Valid, ValidName, To83, DirOk, OthersSame, SameDir,
        DirMap, Live, SlotStored, Unreferenced, MapAt, Canonical, ChainsKept, ListFrom, Cached, Sized, MapsOf, Orphans,
        Readable, Resized, FreeClusters, Format;
      DirAt(d);
      ghost var l, data, s := v.Ledger(), v.data, SlotsAt(d);
      ChainNumber(v, cluster);
      To83UndoesFormat(Raw(entry));
      ScansReach(s, Raw(entry), k, 0);
      var name := FormatName(Raw(entry));
      var ret := UpdateEntrySize(v, d, name, size, cluster);
      dirCacheValid := false;
      Recorded(l, data, v.data, dirs, refs, d, k, size, cluster);
      refs := refs[cluster := (d, k)];
    }

    /** fat32_vfs_finddir followed by fat32_vfs_read; None stands for their failure. */
    method Read(d: nat, name: Text, offset: Word32, size: Word32) returns (r: Option<seq<Byte>>)
      requires Valid() && IsDir(d) && ValidName(name)
      ensures r.Some? <==> HasFile(Map(d), To83(name))
      ensures r.Some? ==>
        var b := Map(d)[To83(name)];
        && (b.cluster == 0 || b.cluster in v.chains) && InTable(v.data, FileChain(v.chains, b.cluster))
        && r.value == if offset >= b.size then [] else
             ReadBack(Content(v.data, FileChain(v.chains, b.cluster)), offset, ClippedSize(b.size, offset, size))
      ensures r.Some? && offset + size < U32_LIMIT ==>
        var b := Map(d)[To83(name)];
        && |BytesOf(v.chains, v.data, b)| == b.size
        && r.value == if offset >= b.size then [] else BytesOf(v.chains, v.data, b)[offset..Min(offset + size, b.size)]
      ensures r.Some? ==> Carried(SlotsAt(d), To83(name), Map(d)[To83(name)])
    {
      hide Carried, InUseAs, BindingBytes, Accounted, Tree, Slots, WellFormed, Volume.Valid, ValidName, To83, DirOk,
        DirMap, Live, MapAt, MapsOf, Sized, Fits, BytesOf, Content, ReadBack;
      DirAt(d);
      var found, entry, k := Lookup(d, name);
      if !found || IsDirectory(entry) {
        return None;
      }
      FileStart(v.Ledger(), v.data, dirs, refs, d, k);
      CarriedAt(SlotsAt(d), To83(name), k, Map(d)[To83(name)]);
      var out := ReadFile(v, StartCluster(entry), FileSize(entry), offset, size);
      r := Some(out);
      MapsFound(v.Ledger(), v.data, dirs, d);
      SizedAt(v.chains, AllMaps(), v.g.ClusterSize(), d, To83(name));
      FileUniform(v, StartCluster(entry));
      BytesLength(v.chains, v.data, Bound(entry), v.g.ClusterSize());
      if offset < FileSize(entry) && offset + size < U32_LIMIT {
        ReadSlices(v.chains, v.data, Bound(entry), v.g.ClusterSize(), offset, size);
      }
    }

    /** Conservation in every reachable state: nothing a run does changes the last summand. */
    lemma Balance()
      requires Valid()
      ensures |FreeClusters(v.fat)| + TotalLength(v.chains) + |LostClusters(v.own)| == v.g.total
    {
      Conservation(v.fat, v.chains, v.own);
    }

    /** The chain at start stores the same bytes in data1 as now. */
    ghost predicate SameContent(data1: seq<seq<Byte>>, start: nat)
      reads v
    {
      && start in v.chains && InTable(data1, v.chains[start]) && InTable(v.data, v.chains[start])
      && Content(v.data, v.chains[start]) == Content(data1, v.chains[start])
    }
  }

  lemma SizedFrom(data: seq<seq<Byte>>, data': seq<seq<Byte>>, ch: Chain, k: nat, size: Word32, cluster: Word32)
    requires EntrySized(data, data', ch, k, size, cluster)
    ensures InTable(data, ch) && InTable(data', ch)
    ensures SlotSized(Slots(data, ch), Slots(data', ch), k, size, cluster)
  {
  }

  /** The slot in use under a name, and what was written to it. */
  ghost predicate EntryWritten(s: seq<Entry>, t: seq<Entry>, raw: Text, size: Word32, cluster: nat) {
    && |raw| == 11 && 0 < cluster < U32_LIMIT
    && exists k :: 0 <= k < |s| && InUseAs(s[k], raw) && SlotSized(s, t, k, size, cluster)
  }

  lemma RecordedAt(s: seq<Entry>, t: seq<Entry>, raw: Text, k: nat, size: Word32, cluster: nat)
    requires |raw| == 11 && k < |s| && InUseAs(s[k], raw) && 0 < cluster < U32_LIMIT
      && SlotSized(s, t, k, size, cluster)
    ensures EntryWritten(s, t, raw, size, cluster)
  {
    hide InUseAs, SlotSized;
  }

  lemma CarriedAt(s: seq<Entry>, raw: Text, k: nat, b: Binding)
    requires |raw| == 11 && k < |s| && InUseAs(s[k], raw) && BindingBytes(b, s[k])
    ensures Carried(s, raw, b)
  {
    hide InUseAs, BindingBytes;
  }

  /** The slot in use under a name carries this binding. */
  ghost predicate Carried(s: seq<Entry>, raw: Text, b: Binding) {
    |raw| == 11 && exists k :: 0 <= k < |s| && InUseAs(s[k], raw) && BindingBytes(b, s[k])
  }

  /** A binding that is a file. */
  predicate HasFile(m: Directory, raw: Text) {
    raw in m && !MakesDirectory(m[raw].attr)
  }

  /** The update of one entry: the tree, the one binding, and everything left alone. */
  lemma Recorded(l: Ledger, data: seq<seq<Byte>>, data': seq<seq<Byte>>, dirs: set<nat>, refs: Refs, d: nat, k: nat,
                 size: Word32, c: Word32)
    requires Tree(l, data, dirs, refs) && d in dirs && Accounted(l.fat, l.chains, l.own)
      && DirOk(l, data, dirs, refs, d) && |l.fat| == |data|
    requires k < |Slots(data, l.chains[d])| && IsFile(Slots(data, l.chains[d])[k])
    requires SlotStored(data, data', l.chains[d], k, Resized(Slots(data, l.chains[d])[k], size, c))
    requires c in l.chains && c !in dirs && c != 0
    requires c == StartCluster(Slots(data, l.chains[d])[k]) || Unreferenced(l, data, dirs, c)
    ensures Tree(l, data', dirs, refs[c := (d, k)]) && InTable(data', l.chains[d])
    ensures var e := Slots(data, l.chains[d])[k];
      MapAt(l, data', d) == MapAt(l, data, d)[Raw(e) := Binding(Attr(e), c, size)]
    ensures OthersSame(l, data, l, data', dirs, d) && ChainsKept(l, data, l, data', {d})
    ensures InTable(data, l.chains[c]) && InTable(data', l.chains[c])
      && Content(data', l.chains[c]) == Content(data, l.chains[c])
  {
    hide Tree, Accounted, Slots, SlotStored, Unreferenced, MapAt, OthersSame, ChainsKept, SlotsOk, Resized, Live;
    UpdateMap(l, data, data', dirs, refs, d, k, size, c);
    ContentElsewhere(l, data, data', d, c, k, Resized(Slots(data, l.chains[d])[k], size, c));
    StoredKept(l, data, data', d, k, Resized(Slots(data, l.chains[d])[k], size, c));
  }

  lemma LiveFile(e: Entry)
    requires IsFile(e)
    ensures Live(e)
  {
  }

  /** The first half of a create: the directory is as it was, or a cluster longer. */
  lemma Extended(l: Ledger, data: seq<seq<Byte>>, l': Ledger, data': seq<seq<Byte>>, dirs: set<nat>, refs: Refs,
                 d: nat, m: nat, raw: Text)
    requires Tree(l, data, dirs, refs) && d in dirs && 0 < m && DirOk(l, data, dirs, refs, d) && |l.fat| == |data|
    requires Accounted(l'.fat, l'.chains, l'.own) && DirExtended(l, data, l', data', d, m)
    ensures Tree(l', data', dirs, refs) && DirOk(l', data', dirs, refs, d) && d in l'.chains && |data'| == |data|
    ensures OthersSame(l, data, l', data', dirs, d) && MapAt(l', data', d) == MapAt(l, data, d)
    ensures Unused(Slots(data, l.chains[d]), raw) ==> Unused(Slots(data', l'.chains[d]), raw)
    ensures LostClusters(l'.own) == LostClusters(l.own) && l.chains.Keys <= l'.chains.Keys
    ensures ChainsKept(l, data, l', data', {d})
  {
    hide Tree, Slots, Accounted, LostClusters, SlotsOk, ChainsKept, OthersSame, MapAt, Unused, DirExtended;
    ExtendMap(l, data, l', data', dirs, refs, d, m, raw);
    ExtendedLost(l, data, l', data', d, m);
    ExtendedSize(l, data, l', data', d, m);
    ExtendKept(l, data, l', data', d, m);
  }

  lemma ExtendedSize(l: Ledger, data: seq<seq<Byte>>, l': Ledger, data': seq<seq<Byte>>, d: nat, m: nat)
    requires DirExtended(l, data, l', data', d, m)
    ensures |l'.fat| == |l.fat| && |data'| == |data|
  {
    hide Slots;
  }

  /** Both halves of a successful create. */
  lemma PlacedWhole(l: Ledger, data: seq<seq<Byte>>, l1: Ledger, data1: seq<seq<Byte>>, l': Ledger,
                    data': seq<seq<Byte>>, dirs: set<nat>, refs: Refs, d: nat, raw: Text, attr: Byte, c: nat, m: nat)
    requires OthersSame(l, data, l1, data1, dirs, d) && ChainsKept(l, data, l1, data1, {d})
      && l.chains.Keys <= l1.chains.Keys
    requires Tree(l1, data1, dirs, refs) && d in dirs && Accounted(l'.fat, l'.chains, l'.own)
      && DirOk(l1, data1, dirs, refs, d)
    requires |l'.fat| == |data1|
    requires Placed(l1, data1, l', data', l1.chains[d], FreeSlotFrom(Slots(data1, l1.chains[d]), 0), raw, attr, c, m)
    requires attr == ATTR_DIRECTORY || attr == ATTR_ARCHIVE
    requires Canonical(raw) && Unused(Slots(data1, l1.chains[d]), raw)
    ensures Tree(l', data', if attr == ATTR_DIRECTORY then dirs + {c} else dirs, refs)
    ensures d in l'.chains && InTable(data', l'.chains[d]) && OthersSame(l, data, l', data', dirs, d)
    ensures c < CLUSTER_END && MapAt(l', data', d) == MapAt(l1, data1, d)[raw := Binding(attr, c, 0)]
      && raw !in MapAt(l1, data1, d)
    ensures if attr == ATTR_DIRECTORY then c !in l.chains && c in l'.chains && InTable(data', l'.chains[c])
      && MapAt(l', data', c) == map[]
            else c == 0
    ensures LostClusters(l'.own) == LostClusters(l1.own) && ChainsKept(l, data, l', data', {d})
  {
    hide Tree, Slots, Accounted, LostClusters, SlotsOk, ChainsKept, OthersSame, MapAt, Unused, Canonical, FreeSlotFrom,
      NewEntry, Grown;
    PlaceMap(l1, data1, l', data', dirs, refs, d, raw, attr, c, m);
    PlacedLost(l1, data1, l', data', l1.chains[d], FreeSlotFrom(Slots(data1, l1.chains[d]), 0), raw, attr, c, m);
    OthersSameTwice(l, data, l1, data1, l', data', dirs, d);
    PlaceKept(l1, data1, l', data', d, FreeSlotFrom(Slots(data1, l1.chains[d]), 0), raw, attr, c, m);
    KeptTwice(l, data, l1, data1, l', data', {d}, {d}, {d});
    if attr == ATTR_DIRECTORY { FreshIsEmpty(l1, l', data', attr, c, m); }
  }

  lemma SizesAgree(v: Volume)
    requires v.Consistent()
    ensures |v.fat| == |v.data| == v.g.Limit()
  {
    hide Accounted;
  }

  lemma KeptNothing(v: Volume, except: set<nat>)
    requires v.Consistent()
    ensures ChainsKept(v.Ledger(), v.data, v.Ledger(), v.data, except)
  {
    SizesAgree(v);
    KeptSame(v.Ledger(), v.data, except);
  }

  /** Unlinking touches the directory's chain and frees the file's, nothing else. */
  lemma UnlinkKept(l: Ledger, data: seq<seq<Byte>>, data': seq<seq<Byte>>, d: nat, k: nat, e: Entry, c: nat)
    requires Accounted(l.fat, l.chains, l.own) && |l.fat| == |data| && d in l.chains
      && SlotStored(data, data', l.chains[d], k, e)
    ensures ChainsKept(l, data, l, data', {d, c})
    ensures c in l.chains ==> ChainsKept(l, data, Freed(l, c), data', {d, c})
  {
    hide Accounted, Slots, SlotStored, ChainsKept;
    StoredKept(l, data, data', d, k, e);
    KeptFewer(l, data, l, data', {d}, {d, c});
    if c in l.chains {
      FreedKept(l, data, data', c, {d});
      assert {d} + {c} == {d, c};
    }
  }

  lemma KeptFewer(l: Ledger, data: seq<seq<Byte>>, l': Ledger, data': seq<seq<Byte>>, except: set<nat>, more: set<nat>)
    requires ChainsKept(l, data, l', data', except) && except <= more
    ensures ChainsKept(l, data, l', data', more)
  {
  }

  lemma FileUniform(v: Volume, start: nat)
    requires v.Consistent() && (start == 0 || start in v.chains)
    ensures Uniform(v.data, FileChain(v.chains, start), v.g.ClusterSize())
  {
    hide Accounted;
    if start != 0 { ChainContent(v, start); }
  }

  lemma StartInRange(v: Volume, h: nat)
    requires v.Consistent() && h in v.chains
    ensures 0 < h < CLUSTER_END
  {
    ChainNumber(v, h);
  }

  lemma UnusedHere(l: Ledger, data: seq<seq<Byte>>, d: nat, raw: Text)
    requires d in l.chains && InTable(data, l.chains[d]) && WellFormed(Slots(data, l.chains[d]))
    requires raw !in MapAt(l, data, d) && NotHidden(Slots(data, l.chains[d]), raw)
    ensures Unused(Slots(data, l.chains[d]), raw)
  {
    hide Slots;
    UnusedIs(Slots(data, l.chains[d]), raw);
  }

  /** When d and all other directories are the same, every listing is. */
  lemma SlotsKept(l: Ledger, data: seq<seq<Byte>>, l': Ledger, data': seq<seq<Byte>>, dirs: set<nat>, d: nat, x: nat)
    requires OthersSame(l, data, l', data', dirs, d) && x in dirs
    requires d in l.chains && InTable(data, l.chains[d]) && x in l.chains && InTable(data, l.chains[x])
    requires d in l'.chains && InTable(data', l'.chains[d]) && Slots(data', l'.chains[d]) == Slots(data, l.chains[d])
    ensures x in l'.chains && InTable(data', l'.chains[x]) && Slots(data', l'.chains[x]) == Slots(data, l.chains[x])
  {
    hide Slots;
    assert x != d ==> SameDir(l, data, l', data', x);
  }

  lemma EndsLast(s: seq<Entry>)
    requires WellFormed(s)
    ensures TailEmpty(s)
  {
  }

  lemma DirsAreChains(l: Ledger, data: seq<seq<Byte>>, dirs: set<nat>, refs: Refs)
    requires Tree(l, data, dirs, refs)
    ensures dirs <= l.chains.Keys
  {
    hide Slots;
    forall d | d in dirs
      ensures d in l.chains
    {
      assert DirOk(l, data, dirs, refs, d);
    }
  }

  lemma ChainNumber(v: Volume, h: nat)
    requires v.Consistent() && h in v.chains
    ensures 0 < h < CLUSTER_END && |v.data| == |v.fat|
  {
    hide Accounted;
    ChainLinks(v.fat, v.chains, v.own, h);
  }

  /** A file entry of the tree has no chain, or starts one that is no directory. */
  lemma FileStart(l: Ledger, data: seq<seq<Byte>>, dirs: set<nat>, refs: Refs, d: nat, k: nat)
    requires DirOk(l, data, dirs, refs, d) && Accounted(l.fat, l.chains, l.own)
    requires k < |Slots(data, l.chains[d])| && IsFile(Slots(data, l.chains[d])[k])
    ensures var c := StartCluster(Slots(data, l.chains[d])[k]);
      if c >= 2 then c in l.chains && c !in dirs else c == 0 && c !in l.chains
  {
    hide Accounted, Slots, WellFormed;
    assert EntryOk(l.chains.Keys, dirs, refs, d, k, Slots(data, l.chains[d])[k]);
    ZeroNoChain(l);
  }

  /** Freeing from the head of a chain of the account leaves the account without it. */
  lemma FreeChain(l: Ledger, c: nat)
    requires Accounted(l.fat, l.chains, l.own) && c in l.chains
    ensures LinksWithin(l.fat, Elements(l.chains[c])) && c in Elements(l.chains[c])
    ensures FreeFrom(l.fat, c) == Freed(l, c).fat
    ensures Accounted(Freed(l, c).fat, Freed(l, c).chains, Freed(l, c).own)
  {
    var ch := l.chains[c];
    assert IsChain(l.fat, ch) && ch[0] == c;
    FreeFromChain(l.fat, ch);
    FreeAccounted(l.fat, l.chains, l.own, c);
  }

  /** Free the whole chain of a file. */
  method FreeFile(v: Volume, c: nat)
    requires v.Consistent() && c in v.chains
    modifies v`disk, v`fat, v`chains, v`own
    ensures v.Consistent() && v.Untouched()
    ensures v.Ledger() == Freed(old(v.Ledger()), c) && v.chains == old(v.chains) - {c}
  {
    hide Slot, Cluster, Release, Cleared, Accounted, LinksWithin, FreeFrom, Elements;
    ghost var l := v.Ledger();
    FreeChain(l, c);
    v.FreeClusterChain(c, Elements(v.chains[c]));
    v.chains, v.own := v.chains - {c}, Release(v.own, c);
  }

  lemma OthersUnchanged(l: Ledger, data: seq<seq<Byte>>, dirs: set<nat>, refs: Refs, d: nat)
    requires Tree(l, data, dirs, refs)
    ensures OthersSame(l, data, l, data, dirs, d)
  {
    hide Slots;
    forall x | x in dirs && x != d
      ensures SameDir(l, data, l, data, x)
    {
      assert DirOk(l, data, dirs, refs, x);
    }
  }

  lemma ExtendedLost(l: Ledger, data: seq<seq<Byte>>, l': Ledger, data': seq<seq<Byte>>, d: nat, m: nat)
    requires DirExtended(l, data, l', data', d, m)
    ensures LostClusters(l'.own) == LostClusters(l.own) && l.chains.Keys <= l'.chains.Keys
  {
    hide LostClusters, Slots, Grown;
    if l' != l {
      GrownLost(l, l', d, l.chains[d]);
      GrownPrefix(l, l', d, l.chains[d]);
    }
  }

  lemma PlacedLost(l: Ledger, data: seq<seq<Byte>>, l': Ledger, data': seq<seq<Byte>>,
                   ch: Chain, k: nat, raw: Text, attr: Byte, c: nat, m: nat)
    requires Placed(l, data, l', data', ch, k, raw, attr, c, m)
    ensures LostClusters(l'.own) == LostClusters(l.own)
  {
    hide LostClusters, Slots, Grown;
    if MakesDirectory(attr) {
      GrownLost(l, l', c, []);
    }
  }

  /** End to end: what is written to a named file under the size limits is what is read back
      from it, however many clusters it spans. */
  method WriteThenRead(fs: Vfs, d: nat, name: Text, offset: Word32, buf: seq<Byte>)
    returns (written: int, r: Option<seq<Byte>>)
    requires fs.Valid() && fs.IsDir(d) && ValidName(name) && buf != []
    requires (offset as int) + |buf| < U32_LIMIT && |buf| < 0x8000_0000
    modifies fs`dirCacheValid, fs`refs, fs.v`disk, fs.v`fat, fs.v`data, fs.v`chains, fs.v`own
    ensures fs.Valid() && fs.IsDir(d)
    ensures written == |buf| ==> r == Some(buf)
  {
    hide Accounted, Tree, Slots, WellFormed, Volume.Valid, ValidName, To83, DirOk, OthersSame, LostClusters, DirMap,
      MapAt, Content, FreeClusters, ReadBack, Grown, Written, Sized, MapsOf, Orphans, BytesOf, Overwrite, ChainsKept;
    ghost var count, start, data1;
    written, count, start, data1 := fs.Write(d, name, offset, buf);
    MapsFound(fs.v.Ledger(), fs.v.data, fs.dirs, d);
    r := fs.Read(d, name, offset, |buf|);
    if written == |buf| {
      ghost var size := old(fs.Map(d))[To83(name)].size;
      assert buf[..|buf|] == buf;
      ReadAfterWrite(old(fs.v.data), data1, fs.v.chains[start], fs.v.g.ClusterSize(), size, offset, buf);
    }
  }

  /** Where a chain is lost: one cluster free, a file without a chain, and a first byte beyond
      that cluster.  The cluster is taken, nothing is written, and no name leads to it. */
  method WriteLeaks(fs: Vfs, d: nat, name: Text, offset: Word32, buf: seq<Byte>) returns (ret: int)
    requires fs.Valid() && fs.IsDir(d) && ValidName(name) && buf != [] && |buf| < U32_LIMIT
    requires HasFile(fs.Map(d), To83(name)) && fs.Map(d)[To83(name)].cluster == 0
    requires |FreeClusters(fs.v.fat)| == 1 && fs.v.g.ClusterSize() <= offset
    modifies fs`dirCacheValid, fs`refs, fs.v`disk, fs.v`fat, fs.v`data, fs.v`chains, fs.v`own
    ensures fs.Valid() && ret == 0 && FreeClusters(fs.v.fat) == {} && fs.AllMaps() == old(fs.AllMaps())
    ensures exists c :: c !in old(fs.OrphanChains()) && fs.OrphanChains() == old(fs.OrphanChains()) + {c}
  {
    hide Accounted, Tree, Slots, WellFormed, Volume.Valid, ValidName, To83, DirOk, DirMap, MapAt, Content,
      FreeClusters, Written, Sized, MapsOf, Orphans, BytesOf, Overwrite, ChainsKept, FileWritten;
    ghost var l, data, count, start, data1 := fs.v.Ledger(), fs.v.data, 0, 0, fs.v.data;
    ret, count, start, data1 := fs.Write(d, name, offset, buf);
    NothingWritten(l, data, fs.v.Ledger(), data1, start, fs.v.g.ClusterSize(), offset, count, buf);
    OrphansThere(l.chains, old(fs.AllMaps()));
    assert start !in old(fs.OrphanChains());
  }

  lemma OrphansThere(chains: Chains, maps: Maps)
    ensures Orphans(chains, maps) <= chains.Keys
  {
    hide Owned;
  }

  /** What readdir shows is what lookup finds. */
  method ReaddirThenLookup(fs: Vfs, d: nat, index: nat) returns (r: Option<Text>, found: bool)
    requires fs.Valid() && fs.IsDir(d)
    modifies fs`dirCache, fs`dirCacheValid, fs`dirCacheCluster
    ensures fs.Valid() && (r.Some? ==> ValidName(r.value) && found)
  {
    hide Accounted, Tree, Slots, WellFormed, Volume.Valid, ValidName, To83, DirOk, DirMap, ListFrom, Sized, MapsOf;
    fs.DirAt(d);
    r := fs.Readdir(d, index);
    found := false;
    if r.Some? {
      ghost var s := fs.SlotsAt(d);
      assert ListFrom(s, 0)[index] in ListFrom(s, 0);
      ListedIsFound(s, ListFrom(s, 0)[index]);
      var hit, _, _ := fs.Lookup(d, r.value);
      found := hit;
    }
  }
}
