/** A mounted volume: the raw sectors, and the driver's primitive operations on the FAT
    and on whole clusters.  The ghost tables fat and data are what the sectors mean;
    everything above this module is stated in terms of them. */
module Fat32Volume {
  import opened LittleEndian
  import opened Fat32Layout
  import opened Fat32Chains

  /** The link in each slot of the FAT. */
  function Links(g: Geometry, disk: Disk): (fat: Fat)
    requires g.Fits(disk)
    ensures |fat| == g.Limit()
  {
    seq(g.Limit(), c requires 0 <= c < g.Limit() => Slot(g, disk, c) % LINK_LIMIT)
  }

  class Volume {
    const g: Geometry
    var disk: Disk

    ghost var fat: Fat                    // the link of each cluster
    ghost var data: seq<seq<Byte>>        // the bytes of each cluster
    ghost var chains: map<nat, Chain>     // the chain that starts at a cluster
    ghost var own: Account                // the chain each cluster belongs to

    /** The ghost tables are what the sectors say. */
    ghost predicate Valid()
      reads this
    {
      && g.Fits(disk)
      && |fat| == |data| == g.Limit()
      && (forall c {:trigger Slot(g, disk, c)} :: 0 <= c < g.Limit() ==> fat[c] == Slot(g, disk, c) % LINK_LIMIT)
      && (forall c {:trigger Cluster(g, disk, c)} :: 2 <= c < g.Limit() ==> data[c] == Cluster(g, disk, c))
      && (forall c :: 2 <= c < g.Limit() ==> |data[c]| == g.ClusterSize())
    }

    /** A volume over the sectors it was mounted from; chains and own start from what the
        caller knows of the volume. */
    constructor (g: Geometry, disk: Disk, ghost chains: map<nat, Chain>, ghost own: Account)
      requires g.Fits(disk)
      ensures Valid() && this.g == g && this.disk == disk && this.chains == chains && this.own == own
      ensures Consistent() <==> |own| == g.Limit() && Accounted(Links(g, disk), chains, own)
    {
      this.g, this.disk, this.chains, this.own := g, disk, chains, own;
      fat := Links(g, disk);
      data := seq(g.Limit(), c requires 0 <= c < g.Limit() => if c < 2 then [] else Cluster(g, disk, c));
    }

    /** Valid, and every cluster is accounted for. */
    ghost predicate Consistent()
      reads this
    {
      Valid() && |own| == |fat| && Accounted(fat, chains, own)
    }

    ghost function Ledger(): Ledger
      reads this
    {
      Fat32Chains.Ledger.Ledger(fat, chains, own)
    }

    /** Sectors outside the first FAT and the data area keep their contents. */
    twostate predicate Untouched()
      reads this
    {
      && |disk| == |old(disk)|
      && forall i | 0 <= i < |disk| && !g.InFat(i) && !g.InData(i) :: disk[i] == old(disk)[i]
    }

    /** fat32_next_cluster */
    method NextCluster(cluster: nat) returns (next: nat)
      requires Valid() && cluster < g.Limit()
      ensures next == Next(fat[cluster])
      ensures next == if fat[cluster] >= 0x0FFF_FFF8 then 0 else fat[cluster]
    {
      FatSectorExact(g, disk, cluster);
      var sector := disk[g.FatSector(cluster)];
      var link := GetU32(sector, g.FatEntryOffset(cluster));
      assert link == Slot(g, disk, cluster);
      next := link % LINK_LIMIT;
      if next >= CLUSTER_END {
        next := 0;
      }
    }

    /** Store v in the slot of cluster: one sector is read, patched and written back. */
    method StoreSlot(cluster: nat, v: Word32)
      requires Valid() && cluster < g.Limit()
      modifies this`disk, this`fat
      ensures Valid() && Untouched()
      ensures fat == old(fat)[cluster := v % LINK_LIMIT]
      ensures Slot(g, disk, cluster) == v
    {
      FatSectorExact(g, disk, cluster);
      FatLbaInRange(g, cluster);
      ghost var before := disk;
      var sector := disk[g.FatSector(cluster)];
      disk := disk[g.FatSector(cluster) := Splice(sector, g.FatEntryOffset(cluster), Bytes32(v))];
      fat := fat[cluster := v % LINK_LIMIT];
      SlotWrite(g, before, disk, cluster, v);
      assert forall c :: 0 <= c < g.Limit() ==> Slot(g, before, c) % LINK_LIMIT == old(fat)[c];
      assert forall c :: 2 <= c < g.Limit() ==> Cluster(g, before, c) == data[c];
    }

    /** fat32_set_cluster: the top four bits of the slot are kept. */
    method SetCluster(cluster: nat, value: Word32)
      requires Valid() && cluster < g.Limit()
      modifies this`disk, this`fat
      ensures Valid() && Untouched()
      ensures fat == old(fat)[cluster := value % LINK_LIMIT]
      ensures Slot(g, disk, cluster) / LINK_LIMIT == old(Slot(g, disk, cluster)) / LINK_LIMIT
    {
      FatSectorExact(g, disk, cluster);
      var oldValue := GetU32(disk[g.FatSector(cluster)], g.FatEntryOffset(cluster));
      StoreSlot(cluster, KeepTopBits(oldValue, value));
    }

    /** fat32_alloc_cluster: first fit.  The whole slot is overwritten, top bits too. */
    method AllocCluster() returns (cluster: nat)
      requires Valid()
      modifies this`disk, this`fat
      ensures Valid() && Untouched()
      ensures |fat| == g.total + 2
      ensures cluster == 0 ==> FreeClusters(fat) == {} && disk == old(disk) && fat == old(fat)
      ensures cluster == 0 ==> forall c :: 2 <= c < |fat| ==> fat[c] != 0
      ensures cluster != 0 ==>
        && cluster in FreeClusters(old(fat)) && fat == old(fat)[cluster := 0x0FFF_FFFF]
        && 2 <= cluster < |fat| && old(fat)[cluster] == 0 && (forall c :: 2 <= c < cluster ==> old(fat)[c] != 0)
        && forall c :: c in FreeClusters(old(fat)) ==> cluster <= c
    {
      cluster := 2;
      while cluster < g.Limit()
        invariant 2 <= cluster <= g.Limit()
        invariant disk == old(disk) && fat == old(fat) && Valid()
        invariant forall c :: 2 <= c < cluster ==> fat[c] != CLUSTER_FREE
      {
        FatSectorExact(g, disk, cluster);
        var link := GetU32(disk[g.FatSector(cluster)], g.FatEntryOffset(cluster));
        assert link == Slot(g, disk, cluster);
        if link % LINK_LIMIT == CLUSTER_FREE {
          StoreSlot(cluster, END_MARK);
          return;
        }
        cluster := cluster + 1;
      }
      cluster := 0;
    }

    /** fat32_read_cluster */
    method ReadCluster(cluster: nat) returns (ok: bool, buf: seq<Byte>)
      requires Valid() && cluster < g.Limit()
      ensures ok <==> cluster >= 2
      ensures ok ==> buf == data[cluster]
    {
      buf := [];
      if cluster < 2 {
        return false, buf;
      }
      assert data[cluster] == Cluster(g, disk, cluster);
      DataRangeFits(g, disk, cluster);
      var i := 0;
      while i < g.spc as int
        invariant 0 <= i <= g.spc as int
        invariant buf == Sectors(disk, g.DataLba(cluster), i)
      {
        ClusterSectorExact(g, disk, cluster, i);
        buf := buf + disk[g.ClusterSector(cluster, i)];
        i := i + 1;
      }
      ok := true;
    }

    /** fat32_write_cluster */
    method WriteCluster(cluster: nat, buf: seq<Byte>) returns (ok: bool)
      requires Valid() && cluster < g.Limit() && |buf| == g.ClusterSize()
      modifies this`disk, this`data
      ensures Valid() && Untouched()
      ensures ok <==> cluster >= 2
      ensures data == if ok then old(data)[cluster := buf] else old(data)
    {
      if cluster < 2 {
        return false;
      }
      DataRangeFits(g, disk, cluster);
      DataInArea(g, cluster);
      ghost var before, lba := disk, g.DataLba(cluster);
      var i := 0;
      while i < g.spc as int
        invariant 0 <= i <= g.spc as int
        invariant |disk| == |before| && data == old(data)
        invariant forall j :: 0 <= j < |disk| && !(lba <= j < lba + i) ==> disk[j] == before[j]
        invariant forall j :: 0 <= j < i ==> disk[lba + j] == buf[512 * j..512 * j + 512]
      {
        ClusterSectorExact(g, before, cluster, i);
        disk := disk[g.ClusterSector(cluster, i) := buf[512 * i..512 * i + 512]];
        i := i + 1;
      }
      data := data[cluster := buf];
      ClusterFilled(g, before, disk, cluster, buf);
      hide Slot;
      hide Cluster;
      assert forall c :: 0 <= c < g.Limit() ==> Slot(g, before, c) % LINK_LIMIT == fat[c];
      assert forall c :: 2 <= c < g.Limit() ==> Cluster(g, before, c) == old(data)[c];
      ok := true;
    }

    /** fat32_free_cluster_chain: ends, and leaves what FreeFrom says, wherever the links
        reached stay inside the volume, cycles included. */
    method FreeClusterChain(start: nat, ghost reach: set<nat>)
      requires Valid() && LinksWithin(fat, reach)
      requires start in reach || start < 2 || start >= CLUSTER_END
      modifies this`disk, this`fat
      ensures Valid() && Untouched()
      ensures fat == FreeFrom(old(fat), start)
    {
      hide Slot, Cluster;
      var cluster: nat := start;
      while 2 <= cluster < CLUSTER_END
        invariant Valid() && Untouched() && LinksWithin(fat, reach)
        invariant cluster in reach || cluster < 2 || cluster >= CLUSTER_END
        invariant FreeFrom(fat, cluster) == FreeFrom(old(fat), start)
        decreases UsedClusters(fat), if 2 <= cluster < |fat| then 1 else 0
      {
        FreeStepShrinks(fat, cluster);
        var next := NextCluster(cluster);
        SetCluster(cluster, CLUSTER_FREE);
        cluster := next;
      }
    }
  }
}
