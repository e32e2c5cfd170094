/** Where the bytes are: links, file contents and directory slots of a volume, each as bytes
    of numbered sectors. */
module Fat32OnDisk {
  import opened LittleEndian
  import opened Fat32Layout
  import opened Fat32Chains
  import opened Fat32Volume
  import opened Fat32Content
  import opened Fat32File
  import opened Fat32Slots
  import opened Fat32Dir

  /** Byte q of consecutive sectors. */
  lemma {:induction false} SectorByte(disk: Disk, lba: nat, k: nat, q: nat)
    requires lba + k <= |disk| && q < 512 * k
    ensures lba + q / 512 < |disk| && Sectors(disk, lba, k)[q] == disk[lba + q / 512][q % 512]
  {
    if q < 512 * (k - 1) {
      SectorByte(disk, lba, k - 1, q);
    }
  }

  /** The link of cluster c is the low 28 bits of the four bytes at 4c in the FAT. */
  lemma LinkOnDisk(v: Volume, c: nat)
    requires v.Valid() && c < v.g.Limit()
    ensures var lba, at := v.g.partition as int + v.g.fatStart as int + 4 * c / 512, 4 * c % 512;
      && 0 <= lba < |v.disk| && 0 <= at <= 508
      && var b := v.disk[lba];
        v.fat[c] == (b[at] as int + 0x100 * b[at + 1] as int + 0x1_0000 * b[at + 2] as int
          + 0x100_0000 * b[at + 3] as int) % 0x1000_0000
  {
    FatSectorExact(v.g, v.disk, c);
    assert v.fat[c] == Slot(v.g, v.disk, c) % LINK_LIMIT;
  }

  /** Byte q of cluster c lies in sector q / 512 of those that start at (c - 2) clusters into
      the data area. */
  lemma ClusterByte(v: Volume, c: nat, q: nat)
    requires v.Valid() && 2 <= c < v.g.Limit() && q < 512 * v.g.spc as int
    ensures c < |v.data| && q < |v.data[c]|
    ensures var lba := v.g.partition as int + v.g.dataStart as int + (c - 2) * v.g.spc as int + q / 512;
      0 <= lba < |v.disk| && v.data[c][q] == v.disk[lba][q % 512]
  {
    DataRange(v.g, c);
    assert v.data[c] == Cluster(v.g, v.disk, c);
    SectorByte(v.disk, v.g.DataLba(c), v.g.spc, q);
  }

  /** What a chain stores from at on, a whole number i of clusters, is its cluster i. */
  lemma ByteOnDisk(v: Volume, ch: Chain, i: nat, q: nat, size: nat, at: nat)
    requires v.Valid() && Readable(v, ch) && i < |ch| && q < size == 512 * v.g.spc as int && at == i * size
    ensures (forall j :: 0 <= j < |ch| ==> ch[j] < |v.data|) && 2 <= ch[i]
    ensures at + q < |Content(v.data, ch)|
    ensures var lba := v.g.partition as int + v.g.dataStart as int + (ch[i] - 2) * v.g.spc as int + q / 512;
      0 <= lba < |v.disk| && Content(v.data, ch)[at + q] == v.disk[lba][q % 512]
  {
    assert Uniform(v.data, ch, size);
    ContentBlock(v.data, ch, size, i);
    ClusterByte(v, ch[i], q);
    assert at == Pos(i, size);
    hide Content;
    assert Content(v.data, ch)[at + q] == Content(v.data, ch)[at..at + size][q];
  }

  /** The slots of a directory are its bytes, 32 by 32. */
  lemma {:induction false} SlotsAreBytes(data: seq<seq<Byte>>, ch: Chain)
    requires forall i :: 0 <= i < |ch| ==> ch[i] < |data| && |data[ch[i]]| % 32 == 0
    ensures |Content(data, ch)| % 32 == 0 && Slots(data, ch) == Entries(Content(data, ch))
  {
    if ch != [] {
      var n := |ch| - 1;
      SlotsAreBytes(data, ch[..n]);
      EntriesAppend(Content(data, ch[..n]), data[ch[n]]);
    }
  }

  /** Byte i of slot k of a directory is byte 32 k + i of what its chain stores. */
  lemma SlotOnDisk(v: Volume, ch: Chain, k: nat, i: nat)
    requires v.Valid() && Readable(v, ch) && k < |Slots(v.data, ch)| && i < 32
    ensures 32 * k + i < |Content(v.data, ch)|
    ensures Slots(v.data, ch)[k][i] == Content(v.data, ch)[32 * k + i]
  {
    hide Content, Slots;
    assert forall j :: 0 <= j < |ch| ==> |v.data[ch[j]]| % 32 == 0;
    SlotsAreBytes(v.data, ch);
    EntryIsSlice(Content(v.data, ch), k);
  }
}
