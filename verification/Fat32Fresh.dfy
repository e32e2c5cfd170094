/** A freshly formatted volume: where every run of the file system can start. */
module Fat32Fresh {
  import opened LittleEndian
  import opened Fat32Layout
  import opened Fat32Chains
  import opened Fat32Volume
  import opened Fat32Content
  import opened Fat32Names
  import opened Fat32Slots
  import opened Fat32DirMap
  import opened Fat32Dir
  import opened Fat32Create
  import opened Fat32Tree
  import opened Fat32View
  import opened Fat32Vfs

  function Blank(n: nat): (b: seq<Byte>)
    ensures |b| == n
  {
    seq(n, _ => 0)
  }

  /** The root directory is one empty cluster and every other cluster is free. */
  ghost predicate Fresh(g: Geometry, disk: Disk) {
    && g.Fits(disk) && 2 <= g.root < g.Limit()
    && Links(g, disk)[g.root] >= CLUSTER_END
    && (forall c :: 2 <= c < g.Limit() && c != g.root ==> Links(g, disk)[c] == CLUSTER_FREE)
    && Cluster(g, disk, g.root) == Blank(g.ClusterSize())
  }

  function RootOwns(g: Geometry): Account {
    seq(g.Limit(), c => if c == g.root then Part(c, 0) else Owner.Free)
  }

  lemma FreshAccounted(g: Geometry, fat: Fat)
    requires g.Sound() && |fat| == g.Limit() && 2 <= g.root < g.Limit() && fat[g.root] >= CLUSTER_END
    requires forall c :: 2 <= c < g.Limit() && c != g.root ==> fat[c] == CLUSTER_FREE
    ensures Accounted(fat, map[g.root as nat := [g.root]], RootOwns(g))
    ensures LostClusters(RootOwns(g)) == {}
    ensures FreeClusters(fat) == ClusterNumbers(g.Limit()) - {g.root as nat}
  {
    var root: nat := g.root;
    var chains: map<nat, Chain> := map[root := [root]];
    assert IsChain(fat, chains[root]);
    assert AllChains(fat, chains) && Claims(chains, RootOwns(g)) && Agrees(chains, RootOwns(g));
  }

  /** The root directory of such a volume is empty. */
  lemma FreshTree(l: Ledger, data: seq<seq<Byte>>, root: nat, m: nat)
    requires l.chains == map[root := [root]] && root < |data| && data[root] == Blank(32 * m)
    ensures InTable(data, [root]) && Slots(data, [root]) == Zeros(m)
    ensures Tree(l, data, {root}, map[]) && MapsOf(l, data, {root}) == map[root := map[]]
    ensures Sized(l.chains, map[root := map[]], 32 * m) && Orphans(l.chains, map[root := map[]]) == {}
  {
    EntriesOfZeros(m);
    assert Tables(data)[root] == Zeros(m);
    assert Slots(data, [root]) == Content(Tables(data), []) + Zeros(m);
    hide Slots, Tables, WellFormed;
    ZerosOk(m, {root}, {root}, map[], root);
    ZerosStand(m);
    MapUnique(Zeros(m), map[]);
  }

  method FreshVolume(g: Geometry, disk: Disk) returns (v: Volume)
    requires Fresh(g, disk)
    ensures fresh(v) && v.Consistent() && v.g == g && v.disk == disk && v.chains == map[g.root as nat := [g.root]]
    ensures LostClusters(v.own) == {} && FreeClusters(v.fat) == ClusterNumbers(g.Limit()) - {g.root as nat}
    ensures |v.data| == g.Limit() && v.data[g.root] == Blank(g.ClusterSize())
  {
    hide Accounted, LostClusters, FreeClusters, RootOwns, Links;
    FreshAccounted(g, Links(g, disk));
    v := new Volume(g, disk, map[g.root as nat := [g.root]], RootOwns(g));
    SameLinks(v);
  }

  lemma SameLinks(v: Volume)
    requires v.Valid()
    ensures v.fat == Links(v.g, v.disk)
  {
    hide Cluster;
  }

  /** Mounting it gives a valid file system with an empty root directory. */
  method MountFresh(g: Geometry, disk: Disk) returns (fs: Vfs)
    requires Fresh(g, disk)
    ensures fresh(fs) && fresh(fs.v) && fs.Valid() && fs.v.g == g && fs.v.disk == disk && fs.dirs == {g.root as nat}
    ensures fs.AllMaps() == map[g.root as nat := map[]] && fs.OrphanChains() == {} && LostClusters(fs.v.own) == {}
    ensures FreeClusters(fs.v.fat) == ClusterNumbers(g.Limit()) - {g.root as nat}
    ensures fs.IsDir(g.root) && fs.SlotsAt(g.root) == Zeros(SlotsPerCluster(g))
  {
    hide Accounted, Tree, LostClusters, FreeClusters, MapsOf, Volume.Valid, Cluster, Slots, Sized, Orphans;
    ghost var root: nat := g.root;
    var v := FreshVolume(g, disk);
    FreshTree(v.Ledger(), v.data, root, SlotsPerCluster(g));
    fs := new Vfs(v, {root}, map[]);
  }

  // ---- A small one ----

  /** A boot sector for one FAT sector and two data sectors. */
  function BootByte(k: nat): Byte {
    match k
    case 12 => 2                    // 512 bytes per sector
    case 13 => 1                    // one sector per cluster
    case 14 => 1                    // one reserved sector
    case 16 => 1                    // one FAT
    case 32 => 4                    // four sectors in all
    case 36 => 1                    // one of them for the FAT
    case 44 => 2                    // the root directory's cluster
    case 66 => 0x29
    case _ => 0
  }

  function Small(): (g: Geometry)
    ensures g.root == 2
  {
    Geometry(0, 1, 1, 2, 1, 2, 2)
  }

  function Boot(): Sector {
    seq(512, k requires 0 <= k < 512 => BootByte(k))
  }

  /** The FAT says that cluster 2 ends its chain and cluster 3 is free. */
  function OneLink(): Sector {
    seq(512, k requires 0 <= k < 512 => if 8 <= k < 12 then 0xFF else 0)
  }

  function SmallDisk(): Disk {
    [Boot(), OneLink(), Blank(512), Blank(512)]
  }

  /** The boot sector is well formed and mounts as that geometry. */
  lemma SmallMounts()
    ensures WellFormedBoot(Boot(), 0) && Mount(Boot(), 0) == Mounted(Small())
  {
    var b := Boot();
    assert GetU16(b, 14) == 1 && GetU16(b, 22) == 0 && GetU16(b, 11) == 512;
    assert GetU32(b, 32) == 4 && GetU32(b, 36) == 1 && GetU32(b, 44) == 2;
    hide GetU16, GetU32;
  }

  lemma SmallIsFresh()
    ensures Fresh(Small(), SmallDisk())
  {
    hide GetU32, OneLink, Boot, Fresh, Blank;
    SlotWords();
    FourSectors(Small(), SmallDisk());
  }

  lemma FourSectors(g: Geometry, disk: Disk)
    requires g.partition == 0 && g.fatStart == 1 && g.fatSize == 1 && g.dataStart == 2
    requires g.spc == 1 && g.total == 2 && g.root == 2
    requires |disk| == 4 && GetU32(disk[1], 8) == 0xFFFF_FFFF && GetU32(disk[1], 12) == 0 && disk[2] == Blank(512)
    ensures Fresh(g, disk)
  {
    hide GetU32, Fresh, Slot, Blank, Geometry.FatLba, Geometry.FatOffset, Geometry.DataLba;
    SmallPlaces(g);
    SlotIs(g, disk, 2);
    SlotIs(g, disk, 3);
    TwoClusters(g, disk);
  }

  lemma SmallPlaces(g: Geometry)
    requires g.partition == 0 && g.fatStart == 1 && g.dataStart == 2
    ensures g.FatLba(2) == g.FatLba(3) == 1 && g.FatOffset(2) == 8 && g.FatOffset(3) == 12 && g.DataLba(2) == 2
  {
  }

  lemma SlotIs(g: Geometry, disk: Disk, c: nat)
    requires g.Fits(disk) && c < g.Limit() && g.FatLba(c) < |disk| && g.FatOffset(c) <= 508
    ensures Slot(g, disk, c) == GetU32(disk[g.FatLba(c)], g.FatOffset(c))
  {
  }

  lemma TwoClusters(g: Geometry, disk: Disk)
    requires g.Fits(disk) && g.total == 2 && g.root == 2 && g.spc == 1
    requires Slot(g, disk, 2) == 0xFFFF_FFFF && Slot(g, disk, 3) == 0
    requires g.DataLba(2) < |disk| && disk[g.DataLba(2)] == Blank(512)
    ensures Fresh(g, disk)
  {
    hide Slot;
    OneSector(disk, g.DataLba(2));
  }

  lemma OneSector(disk: Disk, lba: nat)
    requires lba < |disk|
    ensures Sectors(disk, lba, 1) == disk[lba]
  {
    assert Sectors(disk, lba, 1) == Sectors(disk, lba, 0) + disk[lba];
  }

  lemma SlotWords()
    ensures GetU32(OneLink(), 8) == 0xFFFF_FFFF && GetU32(OneLink(), 12) == 0
  {
  }

  /** The file system on it, with a first file: its root directory has room. */
  method FirstFile(name: Text) returns (fs: Vfs)
    requires ValidName(name)
    ensures fresh(fs) && fresh(fs.v) && fs.Valid() && fs.IsDir(2) && fs.v.g == Small()
    ensures fs.AllMaps() == map[2 := map[To83(name) := Binding(ATTR_ARCHIVE, 0, 0)]]
    ensures fs.OrphanChains() == {} && |FreeClusters(fs.v.fat)| == 1
  {
    hide Fresh, ValidName, To83, Accounted, Tree, Slots, MapsOf, SmallDisk, Volume.Valid, FreeClusters, Orphans;
    SmallIsFresh();
    fs := MountFresh(Small(), SmallDisk());
    assert fs.SlotsAt(2)[0] == ZERO_ENTRY;
    MapsFound(fs.v.Ledger(), fs.v.data, fs.dirs, 2);
    assert ClusterNumbers(4) - {2} == {3};
    var ret, c := fs.Create(2, name, false);
  }

  /** There a write beyond the first cluster of that file loses the last cluster. */
  method FirstLeak(name: Text) returns (fs: Vfs, ret: int)
    requires ValidName(name)
    ensures fs.Valid() && ret == 0 && FreeClusters(fs.v.fat) == {}
    ensures exists c: nat :: fs.OrphanChains() == {c}
  {
    hide ValidName, To83, Accounted, Tree, Slots, MapsOf, Volume.Valid, FreeClusters, Orphans;
    fs := FirstFile(name);
    MapsFound(fs.v.Ledger(), fs.v.data, fs.dirs, 2);
    ret := WriteLeaks(fs, 2, name, 512, [0]);
    ghost var c :| fs.OrphanChains() == {} + {c};
    assert fs.OrphanChains() == {c};
  }
}
