/** Where a FAT32 volume keeps things: the geometry computed when it is mounted,
    the 4-byte FAT slots and the sectors of each data cluster.  `Fat` and
    `Clusters` read the two abstract tables the rest of the driver works on out
    of the raw sectors; the lemmas say that one driver write changes one cell. */
module Fat32Layout {
  import opened LittleEndian

  const SECTOR_SIZE := 512
  const CLUSTER_FREE := 0
  const CLUSTER_END := 0x0FFF_FFF8
  const END_MARK := 0x0FFF_FFFF
  const LINK_LIMIT := 0x1000_0000  // links are the low 28 bits of a slot

  type Sector = s: seq<Byte> | |s| == 512 witness seq(512, _ => 0)
  type Disk = seq<Sector>

  datatype Geometry = Geometry(partition: Word32, fatStart: Word32, fatSize: Word32,
                               dataStart: Word32, spc: Byte, total: Word32, root: Word32)
  {
    /** Clusters are numbered 2 .. Limit() - 1. */
    function Limit(): nat {
      total + 2
    }

    function ClusterSize(): nat {
      512 * (spc as int)
    }

    /** The FAT has a slot for every cluster, links are wide enough to name every
        cluster, the FAT lies before the data area, and no sector number wraps. */
    predicate Sound() {
      && 0 < spc
      && 4 * Limit() <= 512 * (fatSize as int)
      && (fatStart as int) + fatSize <= dataStart
      && Limit() <= CLUSTER_END
      && (partition as int) + dataStart + (total as int) * spc <= U32_LIMIT
    }

    predicate Fits(disk: Disk) {
      && Sound()
      && (partition as int) + dataStart + (total as int) * spc <= |disk|
    }

    function FatLba(c: nat): nat {
      (partition as int) + fatStart + 4 * c / 512
    }

    function FatOffset(c: nat): nat {
      4 * c % 512
    }

    function DataLba(c: nat): nat
      requires 2 <= c
    {
      (partition as int) + dataStart + (c - 2) * spc
    }

    predicate InFat(lba: nat) {
      (partition as int) + fatStart <= lba < (partition as int) + fatStart + fatSize
    }

    predicate InData(lba: nat) {
      (partition as int) + dataStart <= lba < (partition as int) + dataStart + (total as int) * spc
    }

    /** The same sector numbers as the driver computes them, in 32-bit arithmetic. */
    function FatSector(c: nat): Word32 {
      Wrap32(partition + Wrap32(fatStart + Wrap32(c * 4) / SECTOR_SIZE))
    }

    function FatEntryOffset(c: nat): nat {
      Wrap32(c * 4) % SECTOR_SIZE
    }

    function ClusterSector(c: nat, i: nat): Word32 {
      Wrap32(Wrap32(partition + Wrap32(dataStart + Wrap32(Wrap32(c - 2) * spc))) + i)
    }
  }

  datatype MountResult = Mounted(g: Geometry) | NotFat32 | DivideFault

  lemma QuotientBelow(a: nat, s: nat)
    requires 0 < s
    ensures 0 <= a / s <= a
  {
    DivideExactly(a, s);
    AtLeastOnce(s, a / s);
  }

  /** fat32_mount: check the boot sector and compute the geometry in 32-bit arithmetic. */
  function Mount(boot: Sector, partition: Word32): MountResult {
    var spc := boot[13];
    var reserved, fats, fatSize := GetU16(boot, 14), boot[16] as int, GetU32(boot, 36);
    if boot[66] != 0x29 || GetU16(boot, 22) != 0 || GetU16(boot, 11) != SECTOR_SIZE then NotFat32
    else if spc == 0 then DivideFault
    else
      var dataStart := Wrap32(reserved + fats * fatSize);
      var dataSectors := Wrap32(GetU32(boot, 32) - dataStart);
      QuotientBelow(dataSectors, spc);
      Mounted(Geometry(partition, reserved, fatSize, dataStart, spc, dataSectors / spc, GetU32(boot, 44)))
  }

  /** Which boot sectors are refused, and where the fields of the others are. */
  lemma MountBytes(boot: Sector, partition: Word32)
    ensures Mount(boot, partition).NotFat32? <==>
      boot[66] != 0x29 || boot[22] != 0 || boot[23] != 0 || boot[11] != 0 || boot[12] != 2
    ensures Mount(boot, partition).DivideFault? <==> !Mount(boot, partition).NotFat32? && boot[13] == 0
    ensures Mount(boot, partition).Mounted? ==>
      var g := Mount(boot, partition).g;
      && g.partition == partition && g.spc == boot[13] && g.fatStart == boot[14] as int + 0x100 * boot[15] as int
      && g.fatSize == boot[36] as int + 0x100 * boot[37] as int + 0x1_0000 * boot[38] as int
        + 0x100_0000 * boot[39] as int
      && g.root == boot[44] as int + 0x100 * boot[45] as int + 0x1_0000 * boot[46] as int + 0x100_0000 * boot[47] as int
      && g.dataStart == (g.fatStart as int + boot[16] as int * g.fatSize as int) % 0x1_0000_0000
      && var sectors := boot[32] as int + 0x100 * boot[33] as int + 0x1_0000 * boot[34] as int
        + 0x100_0000 * boot[35] as int;
        g.total == (sectors - g.dataStart as int) % 0x1_0000_0000 / g.spc as int
  {
    LoadAdds(boot, 36);
    LoadAdds(boot, 44);
    LoadAdds(boot, 32);
    LoadAdds(boot, 14);
    LoadAdds(boot, 22);
    LoadAdds(boot, 11);
    hide GetU16, GetU32;
  }

  function DataStart(boot: Sector): nat {
    GetU16(boot, 14) + (boot[16] as int) * GetU32(boot, 36)
  }

  /** What a boot sector must say for the driver's arithmetic to be meaningful: at least
      one FAT, everything inside total_sectors_32, which itself fits the disk, and a FAT
      long enough for the clusters, whose numbers fit a link. */
  predicate WellFormedBoot(boot: Sector, partition: Word32) {
    && 1 <= boot[16]
    && DataStart(boot) <= GetU32(boot, 32)
    && (partition as int) + GetU32(boot, 32) <= U32_LIMIT
    && (0 < boot[13] ==>
          var clusters := (GetU32(boot, 32) - DataStart(boot)) / (boot[13] as int) + 2;
          4 * clusters <= 512 * (GetU32(boot, 36) as int) && clusters <= CLUSTER_END)
  }

  /** Mounting a well-formed volume gives a sound geometry whose data area ends inside
      the volume, leaving less than a cluster unused. */
  lemma MountIsSound(boot: Sector, partition: Word32)
    requires WellFormedBoot(boot, partition)
    requires Mount(boot, partition).Mounted?
    ensures var g := Mount(boot, partition).g;
      && g.Sound()
      && (g.dataStart as int) + (g.total as int) * g.spc <= GetU32(boot, 32)
      && GetU32(boot, 32) - g.dataStart - (g.total as int) * g.spc < g.spc as int
  {
    hide GetU16, GetU32, Mount;
    MountedAs(boot, partition);
    DivideExactly(GetU32(boot, 32) - DataStart(boot), boot[13]);
    AtLeastOnce(boot[16], GetU32(boot, 36));
  }

  /** Nothing wraps when a well-formed volume is mounted. */
  lemma MountedAs(boot: Sector, partition: Word32)
    requires WellFormedBoot(boot, partition)
    requires Mount(boot, partition).Mounted?
    ensures var g := Mount(boot, partition).g;
      && g.partition == partition && g.fatStart == GetU16(boot, 14) && g.fatSize == GetU32(boot, 36)
      && g.dataStart == DataStart(boot) && g.spc == boot[13] && 0 < g.spc
      && g.total == (GetU32(boot, 32) - DataStart(boot)) / (boot[13] as int)
  {
    hide GetU16, GetU32, Wrap32;
    WrapSmall(DataStart(boot));
    WrapSmall(GetU32(boot, 32) - DataStart(boot));
  }

  lemma DivideExactly(room: nat, s: int)
    requires 0 < s
    ensures room / s * s <= room < room / s * s + s
  {
  }

  lemma AtLeastOnce(n: int, x: int)
    requires 1 <= n && 0 <= x
    ensures x <= n * x
  {
  }

  // ---- The FAT ----

  function Slot(g: Geometry, disk: Disk, c: nat): Word32
    requires g.Fits(disk) && c < g.Limit()
  {
    FatLbaInRange(g, c);
    GetU32(disk[g.FatLba(c)], g.FatOffset(c))
  }

  lemma FatLbaInRange(g: Geometry, c: nat)
    requires g.Sound() && c < g.Limit()
    ensures 4 * c < U32_LIMIT
    ensures (g.partition as int) + g.fatStart <= g.FatLba(c) < (g.partition as int) + g.fatStart + g.fatSize
    ensures g.FatOffset(c) + 4 <= 512
  {
    InSectors(c, g.fatSize);
  }

  lemma InSectors(c: nat, n: nat)
    ensures 4 * c < 512 * n ==> 4 * c / 512 < n
    ensures 4 * c % 512 + 4 <= 512
  {
  }

  /** No sector number wraps, so the driver reads the slot it means to. */
  lemma FatSectorExact(g: Geometry, disk: Disk, c: nat)
    requires g.Fits(disk) && c < g.Limit()
    ensures g.FatSector(c) == g.FatLba(c) < |disk|
    ensures g.FatEntryOffset(c) == g.FatOffset(c) && g.FatOffset(c) + 4 <= 512
  {
    FatLbaInRange(g, c);
    assert g.FatLba(c) < |disk| && g.FatLba(c) < U32_LIMIT by {
      MulMonotone(0, g.total, g.spc);
    }
    FatAddress(g.partition, g.fatStart, c);
  }

  lemma FatAddress(p: nat, f: nat, c: nat)
    requires 4 * c < U32_LIMIT && p + f + 4 * c / 512 < U32_LIMIT
    ensures Wrap32(c * 4) == 4 * c
    ensures Wrap32(p + Wrap32(f + Wrap32(c * 4) / SECTOR_SIZE)) == p + f + 4 * c / 512
  {
  }

  lemma ClusterSectorExact(g: Geometry, disk: Disk, c: nat, i: nat)
    requires g.Fits(disk) && 2 <= c < g.Limit() && i < g.spc as int
    ensures g.ClusterSector(c, i) == g.DataLba(c) + i < |disk|
  {
    hide Wrap32;
    DataRangeFits(g, disk, c);
    var off: int := (c - 2) * g.spc;
    assert off >= 0 by {
      MulMonotone(0, c - 2, g.spc);
    }
    ClusterAddress(g.partition, g.dataStart, c - 2, g.spc, off, i);
  }

  lemma DataInArea(g: Geometry, c: nat)
    requires g.Sound() && 2 <= c < g.Limit()
    ensures forall i :: g.DataLba(c) <= i < g.DataLba(c) + g.spc ==> g.InData(i)
  {
    DataRange(g, c);
  }

  lemma DataRangeFits(g: Geometry, disk: Disk, c: nat)
    requires g.Fits(disk) && 2 <= c < g.Limit()
    ensures g.DataLba(c) + g.spc <= |disk|
    ensures g.DataLba(c) + g.spc <= U32_LIMIT
  {
    DataRange(g, c);
  }

  lemma ClusterAddress(p: nat, d: nat, k: nat, s: int, off: nat, i: nat)
    requires off == k * s && k < U32_LIMIT
    requires p + d + off + i < U32_LIMIT
    ensures Wrap32(Wrap32(p + Wrap32(d + Wrap32(Wrap32(k) * s))) + i) == p + d + off + i
  {
    hide Wrap32;
    WrapSmall(k);
    WrapSmall(off);
    WrapSmall(d + off);
    WrapSmall(p + d + off);
    WrapSmall(p + d + off + i);
  }

  /** fat32_set_cluster's merge of a new link into a slot. */
  function KeepTopBits(slot: Word32, link: Word32): (v: Word32)
    ensures v % LINK_LIMIT == link % LINK_LIMIT && v / LINK_LIMIT == slot / LINK_LIMIT
  {
    slot / LINK_LIMIT * LINK_LIMIT + link % LINK_LIMIT
  }

  /** Two clusters' slots are in different sectors or at disjoint offsets. */
  lemma SlotsDisjoint(g: Geometry, c: nat, d: nat)
    requires c != d
    ensures g.FatLba(c) != g.FatLba(d) || g.FatOffset(c) + 4 <= g.FatOffset(d) || g.FatOffset(d) + 4 <= g.FatOffset(c)
  {
  }

  lemma DataRange(g: Geometry, c: nat)
    requires g.Sound() && 2 <= c < g.Limit()
    ensures (g.partition as int) + g.dataStart <= g.DataLba(c)
    ensures g.DataLba(c) + g.spc <= (g.partition as int) + g.dataStart + (g.total as int) * g.spc
  {
    var k, t, s: int := c - 2, g.total as int, g.spc;
    assert k + 1 <= t;
    assert k * s + s == (k + 1) * s;
    MulMonotone(k + 1, t, s);
    MulMonotone(0, k, s);
  }

  lemma MulMonotone(a: int, b: int, s: int)
    requires a <= b && 0 <= s
    ensures a * s <= b * s
  {
  }

  /** Sector ranges of two clusters never meet, and never meet the FAT. */
  lemma ClustersDisjoint(g: Geometry, c: nat, d: nat)
    requires g.Sound() && 2 <= c < d < g.Limit()
    ensures g.DataLba(c) + g.spc <= g.DataLba(d)
    ensures forall i: nat {:trigger g.InFat(i)} | g.InFat(i) :: i < g.DataLba(c)
  {
    var s: int := g.spc;
    DataRange(g, c);
    MulMonotone(c - 2 + 1, d - 2, s);
    assert (c - 2 + 1) * s == (c - 2) * s + s;
  }

  // ---- Cluster contents ----

  /** k consecutive sectors as one run of bytes. */
  function Sectors(disk: Disk, lba: nat, k: nat): (b: seq<Byte>)
    requires lba + k <= |disk|
    ensures |b| == 512 * k
  {
    if k == 0 then [] else Sectors(disk, lba, k - 1) + disk[lba + k - 1]
  }

  function Cluster(g: Geometry, disk: Disk, c: nat): (b: seq<Byte>)
    requires g.Fits(disk) && 2 <= c < g.Limit()
    ensures |b| == g.ClusterSize()
  {
    DataRange(g, c);
    Sectors(disk, g.DataLba(c), g.spc)
  }

  lemma {:induction false} SectorsAgree(d: Disk, e: Disk, lba: nat, k: nat)
    requires lba + k <= |d| && |d| == |e|
    requires forall i :: lba <= i < lba + k ==> d[i] == e[i]
    ensures Sectors(d, lba, k) == Sectors(e, lba, k)
  {
    if k > 0 {
      SectorsAgree(d, e, lba, k - 1);
    }
  }

  /** Sectors that hold buf piece by piece read back as buf. */
  lemma {:induction false} SectorsHold(disk: Disk, lba: nat, buf: seq<Byte>, k: nat)
    requires lba + k <= |disk| && 512 * k <= |buf|
    requires forall i :: 0 <= i < k ==> disk[lba + i] == buf[512 * i..512 * i + 512]
    ensures Sectors(disk, lba, k) == buf[..512 * k]
  {
    if k > 0 {
      SectorsHold(disk, lba, buf, k - 1);
      assert disk[lba + (k - 1)] == buf[512 * (k - 1)..512 * (k - 1) + 512];
      assert buf[..512 * k] == buf[..512 * (k - 1)] + buf[512 * (k - 1)..512 * k];
    }
  }

  /** Read-modify-write of one FAT sector changes the addressed slot and no other. */
  lemma SlotWrite(g: Geometry, disk: Disk, disk': Disk, c: nat, v: Word32)
    requires g.Fits(disk) && c < g.Limit()
    requires g.FatOffset(c) + 4 <= 512 && g.FatLba(c) < |disk|
    requires disk' == disk[g.FatLba(c) := Splice(disk[g.FatLba(c)], g.FatOffset(c), Bytes32(v))]
    ensures forall d :: 0 <= d < g.Limit() ==> Slot(g, disk', d) == if d == c then v else Slot(g, disk, d)
    ensures forall d :: 2 <= d < g.Limit() ==> Cluster(g, disk', d) == Cluster(g, disk, d)
  {
    hide GetU32, Bytes32, Splice, Sectors;
    FatLbaInRange(g, c);
    forall d | 0 <= d < g.Limit()
      ensures Slot(g, disk', d) == if d == c then v else Slot(g, disk, d)
    {
      SlotAfter(g, disk, c, v, d);
    }
    forall d | 2 <= d < g.Limit()
      ensures Cluster(g, disk', d) == Cluster(g, disk, d)
    {
      DataRange(g, d);
      SectorsAgree(disk', disk, g.DataLba(d), g.spc);
    }
  }

  lemma SlotAfter(g: Geometry, disk: Disk, c: nat, v: Word32, d: nat)
    requires g.Fits(disk) && c < g.Limit() && d < g.Limit()
    requires g.FatOffset(c) + 4 <= 512 && g.FatLba(c) < |disk|
    ensures Slot(g, disk[g.FatLba(c) := Splice(disk[g.FatLba(c)], g.FatOffset(c), Bytes32(v))], d) ==
            if d == c then v else Slot(g, disk, d)
  {
    hide GetU32, Bytes32, Splice;
    FatLbaInRange(g, d);
    if d == c {
      GetAfterSplice32(disk[g.FatLba(c)], g.FatOffset(c), v);
    } else {
      SlotsDisjoint(g, c, d);
      if g.FatLba(c) == g.FatLba(d) {
        GetElsewhere32(disk[g.FatLba(c)], g.FatOffset(c), Bytes32(v), g.FatOffset(d));
      }
    }
  }

  /** Rewriting the sectors of one cluster changes that cluster only. */
  lemma ClusterWrite(g: Geometry, disk: Disk, disk': Disk, c: nat)
    requires g.Fits(disk) && 2 <= c < g.Limit() && |disk'| == |disk|
    requires forall i :: 0 <= i < |disk| && !(g.DataLba(c) <= i < g.DataLba(c) + g.spc) ==> disk'[i] == disk[i]
    ensures forall d :: 0 <= d < g.Limit() ==> Slot(g, disk', d) == Slot(g, disk, d)
    ensures forall d :: 2 <= d < g.Limit() && d != c ==> Cluster(g, disk', d) == Cluster(g, disk, d)
  {
    DataRange(g, c);
    forall d | 0 <= d < g.Limit()
      ensures Slot(g, disk', d) == Slot(g, disk, d)
    {
      FatLbaInRange(g, d);
    }
    forall d | 2 <= d < g.Limit() && d != c
      ensures Cluster(g, disk', d) == Cluster(g, disk, d)
    {
      DataRange(g, d);
      if c < d {
        ClustersDisjoint(g, c, d);
      } else {
        ClustersDisjoint(g, d, c);
      }
      SectorsAgree(disk', disk, g.DataLba(d), g.spc);
    }
  }

  /** Writing buf sector by sector over a cluster makes it the contents of that cluster. */
  lemma ClusterFilled(g: Geometry, disk: Disk, disk': Disk, c: nat, buf: seq<Byte>)
    requires g.Fits(disk) && 2 <= c < g.Limit() && |disk'| == |disk| && |buf| == g.ClusterSize()
    requires forall i :: 0 <= i < |disk| && !(g.DataLba(c) <= i < g.DataLba(c) + g.spc) ==> disk'[i] == disk[i]
    requires g.DataLba(c) + g.spc <= |disk|
    requires forall i :: 0 <= i < g.spc as int ==> disk'[g.DataLba(c) + i] == buf[512 * i..512 * i + 512]
    ensures forall d :: 0 <= d < g.Limit() ==> Slot(g, disk', d) == Slot(g, disk, d)
    ensures forall d :: 2 <= d < g.Limit() ==> Cluster(g, disk', d) == if d == c then buf else Cluster(g, disk, d)
  {
    ClusterWrite(g, disk, disk', c);
    SectorsHold(disk', g.DataLba(c), buf, g.spc);
    assert buf[..512 * (g.spc as int)] == buf;
  }
}
