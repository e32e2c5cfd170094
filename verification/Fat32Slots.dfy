/** Directory slots: the 32-byte entries of a directory, how the driver scans them, and the
    finite map from raw names that a directory stands for. */
module Fat32Slots {
  import opened LittleEndian
  import opened Fat32Names

  const ATTR_LFN := 0x0F
  const ATTR_DIRECTORY: Byte := 0x10
  const ATTR_ARCHIVE: Byte := 0x20

  type Entry = s: seq<Byte> | |s| == 32 witness seq(32, _ => 0)

  // ---- Fields of an entry (FAT32 specification 1.03, FAT Directory Structure) ----

  function Raw(e: Entry): Text {
    e[..11]
  }

  function Attr(e: Entry): Byte {
    e[11]
  }

  function StartCluster(e: Entry): Word32 {
    var hi, lo := GetU16(e, 20), GetU16(e, 26);
    0x1_0000 * hi + lo
  }

  function FileSize(e: Entry): Word32 {
    GetU32(e, 28)
  }

  predicate IsEnd(e: Entry) {
    e[0] == 0
  }

  predicate IsDeleted(e: Entry) {
    e[0] == DELETED
  }

  /** Volume labels, and long-name pieces (whose attribute includes the volume bit). */
  predicate IsHidden(e: Entry) {
    Attr(e) == ATTR_LFN || Attr(e) / 8 % 2 == 1
  }

  predicate IsDirectory(e: Entry) {
    Attr(e) / 16 % 2 == 1
  }

  predicate Visible(e: Entry) {
    !IsDeleted(e) && !IsHidden(e)
  }

  const ZERO_ENTRY: Entry := seq(32, _ => 0)

  /** The entry fat32_create_entry fills in. */
  function NewEntry(raw: Text, attr: Byte, cluster: Word32): (e: Entry)
    requires |raw| == RAW_LENGTH
    ensures Raw(e) == raw && Attr(e) == attr && StartCluster(e) == cluster && FileSize(e) == 0
  {
    SetCluster(raw + [attr] + seq(20, _ => 0), cluster)
  }

  function SetCluster(e: Entry, cluster: Word32): (r: Entry)
    ensures Raw(r) == Raw(e) && Attr(r) == Attr(e) && StartCluster(r) == cluster && FileSize(r) == FileSize(e)
  {
    GetBytes16(cluster / 0x1_0000);
    GetBytes16(cluster % 0x1_0000);
    e[..20] + Bytes16(cluster / 0x1_0000) + e[22..26] + Bytes16(cluster % 0x1_0000) + e[28..]
  }

  /** fat32_update_entry_size on one entry: a cluster of 0 leaves the start cluster alone. */
  function Resized(e: Entry, size: Word32, cluster: Word32): (r: Entry)
    ensures Raw(r) == Raw(e) && Attr(r) == Attr(e) && FileSize(r) == size
    ensures StartCluster(r) == if cluster != 0 then cluster else StartCluster(e)
  {
    var sized: Entry := e[..28] + Bytes32(size);
    GetBytes32(size);
    if cluster != 0 then SetCluster(sized, cluster) else sized
  }

  function Deleted(e: Entry): (r: Entry)
    ensures IsDeleted(r)
  {
    e[0 := DELETED]
  }

  // ---- The same in bytes ----

  /** What the fields of an entry are: the name and the attributes in front, the start cluster's
      low half at 26 and high half at 20, the size in the last four bytes. */
  lemma FieldBytes(e: Entry)
    ensures |Raw(e)| == 11 && (forall i :: 0 <= i < 11 ==> Raw(e)[i] == e[i]) && Attr(e) == e[11]
    ensures StartCluster(e) == (e[26] as int) + 0x100 * e[27] as int + 0x1_0000 * e[20] as int
      + 0x100_0000 * e[21] as int
    ensures FileSize(e) == (e[28] as int) + 0x100 * e[29] as int + 0x1_0000 * e[30] as int + 0x100_0000 * e[31] as int
  {
  }

  /** Entries end at a zero byte and are deleted by 0xE5; volume labels and long-name pieces are
      hidden, and directories marked, by bits 3 and 4 of the attributes. */
  lemma KindBytes(e: Entry)
    ensures (IsEnd(e) <==> e[0] == 0) && (IsDeleted(e) <==> e[0] == 0xE5)
    ensures IsHidden(e) <==> e[11] % 16 >= 8
    ensures IsDirectory(e) <==> e[11] % 32 >= 16
  {
  }

  /** fat32_update_entry_size, byte by byte. */
  ghost predicate SizeStored(e: Entry, r: Entry, size: Word32, cluster: Word32) {
    && (r[28] as int) + 0x100 * r[29] as int + 0x1_0000 * r[30] as int + 0x100_0000 * r[31] as int == size
    && (cluster != 0 ==>
      (r[26] as int) + 0x100 * r[27] as int + 0x1_0000 * r[20] as int + 0x100_0000 * r[21] as int == cluster)
    && (forall i :: 0 <= i < 20 || 22 <= i < 26 ==> r[i] == e[i])
    && (cluster == 0 ==> r[20] == e[20] && r[21] == e[21] && r[26] == e[26] && r[27] == e[27])
  }

  /** In a directory: slot k resized, every other slot as it was. */
  ghost predicate SlotSized(s: seq<Entry>, t: seq<Entry>, k: nat, size: Word32, cluster: Word32) {
    && k < |s| == |t| && SizeStored(s[k], t[k], size, cluster)
    && forall j :: 0 <= j < |s| && j != k ==> t[j] == s[j]
  }

  lemma ResizedSlot(s: seq<Entry>, k: nat, size: Word32, cluster: Word32)
    requires k < |s|
    ensures SlotSized(s, s[k := Resized(s[k], size, cluster)], k, size, cluster)
  {
    ResizedBytes(s[k], size, cluster);
    hide SizeStored, Resized;
  }

  /** In a directory: slot k, the first that starts with 0 or 0xE5, filled, or a directory full
      of entries lengthened by empty ones and the first of those filled. */
  ghost predicate SlotFilled(s: seq<Entry>, t: seq<Entry>, k: nat, raw: Text, attr: Byte, cluster: Word32) {
    && k <= |s| <= |t| && k < |t| && FreshEntry(t[k], raw, attr, cluster)
    && (forall j :: 0 <= j < k ==> s[j][0] != 0 && s[j][0] != 0xE5)
    && (k < |s| ==> s[k][0] == 0 || s[k][0] == 0xE5)
    && (forall j :: 0 <= j < |s| && j != k ==> t[j] == s[j])
    && forall j, i :: |s| <= j < |t| && j != k && 0 <= i < 32 ==> t[j][i] == 0
  }

  lemma ResizedBytes(e: Entry, size: Word32, cluster: Word32)
    ensures SizeStored(e, Resized(e, size, cluster), size, cluster)
  {
    LowByteFirst(size);
    LowByteFirst(cluster % 0x1_0000);
    LowByteFirst(cluster / 0x1_0000);
    hide Bytes32, Bytes16;
  }

  /** The entry fat32_create_entry fills in, byte by byte. */
  ghost predicate FreshEntry(r: Entry, raw: Text, attr: Byte, cluster: Word32) {
    && |raw| == 11 && (forall i :: 0 <= i < 11 ==> r[i] == raw[i]) && r[11] == attr
    && (r[26] as int) + 0x100 * r[27] as int + 0x1_0000 * r[20] as int + 0x100_0000 * r[21] as int == cluster
    && (forall i :: 12 <= i < 20 || 22 <= i < 26 || 28 <= i < 32 ==> r[i] == 0)
  }

  lemma NewEntryBytes(raw: Text, attr: Byte, cluster: Word32)
    requires |raw| == RAW_LENGTH
    ensures FreshEntry(NewEntry(raw, attr, cluster), raw, attr, cluster)
  {
    LowByteFirst(cluster % 0x1_0000);
    LowByteFirst(cluster / 0x1_0000);
    hide Bytes16;
  }

  /** Deleting an entry writes its first byte alone. */
  lemma DeletedBytes(e: Entry)
    ensures Deleted(e)[0] == 0xE5 && forall i :: 1 <= i < 32 ==> Deleted(e)[i] == e[i]
  {
  }

  // ---- A buffer as a list of entries ----

  function Entries(b: seq<Byte>): (s: seq<Entry>)
    requires |b| % 32 == 0
    ensures |s| == |b| / 32
  {
    if b == [] then [] else [b[..32]] + Entries(b[32..])
  }

  function Packed(s: seq<Entry>): (b: seq<Byte>)
    ensures |b| == 32 * |s|
  {
    if s == [] then [] else s[0] + Packed(s[1..])
  }

  lemma {:induction false} EntriesOfPacked(s: seq<Entry>)
    ensures Entries(Packed(s)) == s
  {
    if s != [] {
      EntriesOfPacked(s[1..]);
      assert Packed(s)[..32] == s[0] && Packed(s)[32..] == Packed(s[1..]);
    }
  }

  /** Entry k of a buffer is its k-th 32 bytes. */
  lemma {:induction false} EntryIsSlice(b: seq<Byte>, k: nat)
    requires |b| % 32 == 0 && k < |b| / 32
    ensures Entries(b)[k] == b[32 * k..32 * k + 32]
  {
    if k > 0 {
      EntryIsSlice(b[32..], k - 1);
      assert b[32..][32 * (k - 1)..32 * (k - 1) + 32] == b[32 * k..32 * k + 32];
    }
  }

  lemma {:induction false} PackedEntries(b: seq<Byte>)
    requires |b| % 32 == 0
    ensures Packed(Entries(b)) == b
  {
    if b != [] {
      PackedEntries(b[32..]);
      assert Entries(b)[1..] == Entries(b[32..]);
    }
  }

  lemma {:induction false} EntriesAppend(a: seq<Byte>, b: seq<Byte>)
    requires |a| % 32 == 0 && |b| % 32 == 0
    ensures Entries(a + b) == Entries(a) + Entries(b)
  {
    if a == [] {
      assert a + b == b;
    } else {
      assert (a + b)[..32] == a[..32] && (a + b)[32..] == a[32..] + b;
      EntriesAppend(a[32..], b);
    }
  }

  lemma {:induction false} EntriesOfZeros(n: nat)
    ensures Entries(seq(32 * n, _ => 0)) == seq(n, _ => ZERO_ENTRY)
  {
    if n > 0 {
      var z: seq<Byte> := seq(32 * n, _ => 0);
      assert z[..32] == ZERO_ENTRY;
      assert z[32..] == seq(32 * (n - 1), _ => 0);
      EntriesOfZeros(n - 1);
    }
  }

  // ---- Scans; each returns |s| when it finds nothing ----

  /** fat32_find_entry: the first visible entry whose name matches. */
  function FindFrom(s: seq<Entry>, name: Text, i: nat): (k: nat)
    requires i <= |s|
    ensures i <= k <= |s|
    decreases |s| - i
  {
    if i == |s| || IsEnd(s[i]) then |s|
    else if Visible(s[i]) && Matches(name, Raw(s[i])) then i
    else FindFrom(s, name, i + 1)
  }

  /** fat32_create_entry: the first end or deleted slot. */
  function FreeSlotFrom(s: seq<Entry>, i: nat): (k: nat)
    requires i <= |s|
    ensures i <= k <= |s|
    decreases |s| - i
  {
    if i == |s| || IsEnd(s[i]) || IsDeleted(s[i]) then i else FreeSlotFrom(s, i + 1)
  }

  /** It is the first slot whose first byte is 0 or 0xE5. */
  lemma {:induction false} FreeSlotFirst(s: seq<Entry>, i: nat, k: nat)
    requires i <= k <= |s| && (forall j :: i <= j < k ==> s[j][0] != 0 && s[j][0] != 0xE5)
    requires k < |s| ==> s[k][0] == 0 || s[k][0] == 0xE5
    ensures FreeSlotFrom(s, i) == k
    decreases k - i
  {
    if i < k { FreeSlotFirst(s, i + 1, k); }
  }

  /** fat32_update_entry_size (skipLong) and fat32_vfs_unlink (not skipLong): the first entry
      with this raw name.  The first passes over long-name pieces, the second over nothing. */
  function RawFrom(s: seq<Entry>, raw: Text, skipLong: bool, i: nat): (k: nat)
    requires i <= |s|
    ensures i <= k <= |s|
    decreases |s| - i
  {
    if i == |s| || IsEnd(s[i]) then |s|
    else if HasRaw(s[i], raw, skipLong) then i
    else RawFrom(s, raw, skipLong, i + 1)
  }

  predicate HasRaw(e: Entry, raw: Text, skipLong: bool) {
    !IsDeleted(e) && !(skipLong && Attr(e) == ATTR_LFN) && Raw(e) == raw
  }

  /** In bytes: not deleted, not a long-name piece if these are skipped, and of that name. */
  lemma HasRawBytes(e: Entry, raw: Text, skipLong: bool)
    requires |raw| == 11
    ensures HasRaw(e, raw, skipLong) <==>
      e[0] != 0xE5 && !(skipLong && e[11] == 0x0F) && forall i :: 0 <= i < 11 ==> e[i] == raw[i]
  {
    FieldBytes(e);
    if forall i :: 0 <= i < 11 ==> e[i] == raw[i] { assert Raw(e) == raw; }
    hide Raw, Attr;
  }

  datatype Item = Item(name: Text, size: Word32, attr: Byte)

  function Listed(e: Entry): Item {
    Item(CString(Format(Raw(e))), FileSize(e), Attr(e))
  }

  predicate Listable(e: Entry) {
    Visible(e) && !([DOT] <= Listed(e).name)
  }

  /** fat32_list_dir */
  function ListFrom(s: seq<Entry>, i: nat): seq<Item>
    requires i <= |s|
    decreases |s| - i
  {
    if i == |s| || IsEnd(s[i]) then []
    else if Listable(s[i]) then [Listed(s[i])] + ListFrom(s, i + 1)
    else ListFrom(s, i + 1)
  }
}
