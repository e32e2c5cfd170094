/** A well-formed directory stands for a finite map from raw names to bindings, and each
    directory operation of the driver changes that map at exactly one name. */
module Fat32DirMap {
  import opened LittleEndian
  import opened Fat32Names
  import opened Fat32Slots

  datatype Binding = Binding(attr: Byte, cluster: Word32, size: Word32)
  type Directory = map<Text, Binding>

  function Bound(e: Entry): Binding {
    Binding(Attr(e), StartCluster(e), FileSize(e))
  }

  /** Neither an end mark nor deleted. */
  predicate Present(e: Entry) {
    !IsEnd(e) && !IsDeleted(e)
  }

  predicate Live(e: Entry) {
    Present(e) && !IsHidden(e)
  }

  /** Everything after the first end mark is an end mark too. */
  ghost predicate TailEmpty(s: seq<Entry>) {
    forall i, j :: 0 <= i < j < |s| && IsEnd(s[i]) ==> IsEnd(s[j])
  }

  /** No live entry shares its raw name with another present entry, hidden or not. */
  ghost predicate Distinct(s: seq<Entry>) {
    forall i, j :: 0 <= i < |s| && 0 <= j < |s| && i != j && Live(s[i]) && Present(s[j]) ==> Raw(s[i]) != Raw(s[j])
  }

  /** Live names are as this driver writes them, or start with a dot ("." and ".."). */
  ghost predicate Named(s: seq<Entry>) {
    forall i :: 0 <= i < |s| && Live(s[i]) ==> Canonical(Raw(s[i])) || s[i][0] == DOT
  }

  ghost predicate WellFormed(s: seq<Entry>) {
    TailEmpty(s) && Distinct(s) && Named(s)
  }

  /** m binds exactly the raw names of the live entries, each to what its entry says. */
  ghost predicate Stands(s: seq<Entry>, m: Directory) {
    && (forall i :: 0 <= i < |s| && Live(s[i]) ==> Raw(s[i]) in m && m[Raw(s[i])] == Bound(s[i]))
    && (forall r :: r in m ==> exists i :: 0 <= i < |s| && Live(s[i]) && Raw(s[i]) == r)
  }

  /** The map a directory stands for. */
  ghost function DirMap(s: seq<Entry>): Directory {
    if s == [] then map[]
    else
      var rest := DirMap(s[..|s| - 1]);
      var e := s[|s| - 1];
      if Live(e) then rest[Raw(e) := Bound(e)] else rest
  }

  lemma {:induction false} DirMapStands(s: seq<Entry>)
    requires Distinct(s)
    ensures Stands(s, DirMap(s))
  {
    if s != [] {
      var n := |s| - 1;
      DirMapStands(s[..n]);
      forall r | r in DirMap(s)
        ensures exists i :: 0 <= i < |s| && Live(s[i]) && Raw(s[i]) == r
      {
        if r in DirMap(s[..n]) {
          var i :| 0 <= i < n && Live(s[..n][i]) && Raw(s[..n][i]) == r;
          assert s[i] == s[..n][i];
        } else {
          assert Live(s[n]) && Raw(s[n]) == r;
        }
      }
      forall i | 0 <= i < |s| && Live(s[i])
        ensures Raw(s[i]) in DirMap(s) && DirMap(s)[Raw(s[i])] == Bound(s[i])
      {
        if i < n {
          assert s[..n][i] == s[i];
          assert Live(s[n]) ==> Raw(s[n]) != Raw(s[i]);
        }
      }
    }
  }

  /** A directory stands for one map only. */
  lemma StandsUnique(s: seq<Entry>, m: Directory, m': Directory)
    requires Stands(s, m) && Stands(s, m')
    ensures m == m'
  {
    forall r | r in m
      ensures r in m' && m'[r] == m[r]
    {
      var i :| 0 <= i < |s| && Live(s[i]) && Raw(s[i]) == r;
    }
    forall r | r in m'
      ensures r in m
    {
      var i :| 0 <= i < |s| && Live(s[i]) && Raw(s[i]) == r;
    }
  }

  /** What a binding is on disk: the slot with the name's bytes, neither end nor deleted nor
      hidden, and its attribute, cluster and size bytes. */
  lemma BoundBytes(s: seq<Entry>, raw: Text)
    requires WellFormed(s)
    ensures raw in DirMap(s) <==> |raw| == 11 && exists k :: 0 <= k < |s| && InUseAs(s[k], raw)
    ensures forall k :: 0 <= k < |s| && |raw| == 11 && InUseAs(s[k], raw) ==>
      raw in DirMap(s) && BindingBytes(DirMap(s)[raw], s[k])
  {
    DirMapStands(s);
    hide WellFormed, Live, Raw, Bound, DirMap, InUseAs, BindingBytes;
    if raw in DirMap(s) {
      var k :| 0 <= k < |s| && Live(s[k]) && Raw(s[k]) == raw;
      InUseIs(s[k], raw);
    }
    forall k | 0 <= k < |s| && |raw| == 11 && InUseAs(s[k], raw)
      ensures raw in DirMap(s) && BindingBytes(DirMap(s)[raw], s[k])
    {
      InUseIs(s[k], raw);
      BoundIs(s[k]);
    }
  }

  /** The attribute, cluster and size bytes of an entry, as numbers. */
  ghost predicate BindingBytes(b: Binding, e: Entry) {
    && b.attr == e[11]
    && b.cluster == (e[26] as int) + 0x100 * e[27] as int + 0x1_0000 * e[20] as int + 0x100_0000 * e[21] as int
    && b.size == (e[28] as int) + 0x100 * e[29] as int + 0x1_0000 * e[30] as int + 0x100_0000 * e[31] as int
  }

  lemma BoundIs(e: Entry)
    ensures BindingBytes(Bound(e), e)
  {
    FieldBytes(e);
    hide StartCluster, FileSize;
  }

  /** In use under this name: attribute bit 3 marks what lookups pass over. */
  ghost predicate InUseAs(e: Entry, raw: Text)
    requires |raw| == 11
  {
    e[0] != 0 && e[0] != 0xE5 && e[11] % 16 < 8 && forall i :: 0 <= i < 11 ==> e[i] == raw[i]
  }

  lemma InUseIs(e: Entry, raw: Text)
    ensures Live(e) && Raw(e) == raw <==> |raw| == 11 && InUseAs(e, raw)
  {
    KindBytes(e);
    FieldBytes(e);
    if |raw| == 11 && InUseAs(e, raw) { assert Raw(e) == raw; }
  }

  // ---- Looking up ----

  lemma DotNeverMatches(name: Text, e: Entry)
    requires ValidName(name) && e[0] == DOT
    ensures !Matches(name, Raw(e))
  {
    var f := Format(Raw(e));
    assert Raw(e)[..8][0] == DOT;
    assert f[0] == DOT;
    assert CString(f)[0] == DOT;
    assert UpperAll(CString(f))[0] == DOT;
    assert name[0] == Base(name)[0] != DOT;
    assert UpperAll(name)[0] != DOT;
  }

  /** On a valid name, matching a live entry is having its raw name. */
  lemma LiveMatch(s: seq<Entry>, i: nat, name: Text)
    requires Named(s) && i < |s| && Live(s[i]) && ValidName(name)
    ensures Matches(name, Raw(s[i])) <==> Raw(s[i]) == To83(name)
  {
    hide Matches, ValidName, To83;
    if s[i][0] == DOT {
      DotNeverMatches(name, s[i]);
      FormatUndoesTo83(name);
      ToDotNever(name);
    } else {
      MatchIsRawEquality(name, Raw(s[i]));
    }
  }

  lemma ToDotNever(name: Text)
    requires ValidName(name)
    ensures To83(name)[0] != DOT && To83(name)[0] != 0 && To83(name)[0] != DELETED
  {
    assert To83(name)[0] == Field(Base(name), 8)[0] == Upper(Base(name)[0]);
    assert Base(name)[0] == name[0];
  }

  /** The slot of the live entry with this raw name, or |s|. */
  ghost predicate IsSlotOf(s: seq<Entry>, raw: Text, k: nat) {
    && k <= |s|
    && (k < |s| ==> Live(s[k]) && Raw(s[k]) == raw)
    && (k == |s| ==> forall i :: 0 <= i < |s| && Live(s[i]) ==> Raw(s[i]) != raw)
  }

  /** fat32_find_entry finds exactly the live entry with the name's raw form. */
  lemma {:induction false} FindIsSlot(s: seq<Entry>, name: Text, i: nat)
    requires WellFormed(s) && ValidName(name) && i <= |s|
    requires forall j :: 0 <= j < i ==> Live(s[j]) ==> Raw(s[j]) != To83(name)
    ensures IsSlotOf(s, To83(name), FindFrom(s, name, i))
    decreases |s| - i
  {
    hide Matches, ValidName, To83;
    if i < |s| && !IsEnd(s[i]) {
      if Live(s[i]) {
        LiveMatch(s, i, name);
      }
      if !(Visible(s[i]) && Matches(name, Raw(s[i]))) {
        FindIsSlot(s, name, i + 1);
      }
    }
  }

  /** So find_entry agrees with the map: it succeeds exactly on bound names, and the entry
      it returns carries the binding. */
  lemma FindAgrees(s: seq<Entry>, name: Text)
    requires WellFormed(s) && ValidName(name)
    ensures var k := FindFrom(s, name, 0);
      && (k < |s| <==> To83(name) in DirMap(s))
      && (k < |s| ==> DirMap(s)[To83(name)] == Bound(s[k]) && Live(s[k]))
  {
    hide Matches, ValidName, To83;
    DirMapStands(s);
    FindIsSlot(s, name, 0);
  }

  /** Once a live entry has the raw name, update and unlink reach that same entry. */
  lemma {:induction false} ScansReach(s: seq<Entry>, raw: Text, k: nat, i: nat)
    requires WellFormed(s) && i <= k < |s| && Live(s[k]) && Raw(s[k]) == raw
    ensures RawFrom(s, raw, true, i) == k && RawFrom(s, raw, false, i) == k
    decreases k - i
  {
    if i < k {
      assert !IsEnd(s[i]);
      assert Present(s[i]) ==> Raw(s[i]) != raw;
      ScansReach(s, raw, k, i + 1);
    }
  }

  /** fat32_vfs_unlink looks for the raw name without skipping hidden entries.  Where a live
      entry k has the name, it deletes that entry exactly when no hidden entry before it
      carries the same eleven bytes. */
  lemma UnlinkExact(s: seq<Entry>, raw: Text, k: nat)
    requires TailEmpty(s) && k < |s| && Live(s[k]) && Raw(s[k]) == raw
    requires forall j :: 0 <= j < k && Live(s[j]) ==> Raw(s[j]) != raw
    ensures RawFrom(s, raw, false, 0) == k <==>
      forall j :: 0 <= j < k && Present(s[j]) && IsHidden(s[j]) ==> Raw(s[j]) != raw
  {
    ScanStops(s, raw, false, k, 0);
  }

  lemma {:induction false} ScanStops(s: seq<Entry>, raw: Text, skipLong: bool, k: nat, i: nat)
    requires TailEmpty(s) && i <= k < |s| && Live(s[k]) && Raw(s[k]) == raw
    ensures var f := RawFrom(s, raw, skipLong, i);
      && i <= f <= k && Present(s[f]) && Raw(s[f]) == raw && !(skipLong && Attr(s[f]) == ATTR_LFN)
      && forall j :: i <= j < f && Present(s[j]) && !(skipLong && Attr(s[j]) == ATTR_LFN) ==> Raw(s[j]) != raw
    decreases k - i
  {
    assert !IsEnd(s[i]);
    if i < k && !HasRaw(s[i], raw, skipLong) {
      ScanStops(s, raw, skipLong, k, i + 1);
    }
  }

  /** fat32_update_entry_size passes over long-name pieces, but not over volume labels: it
      reaches the live entry exactly when no other hidden entry before it has its bytes. */
  lemma UpdateExact(s: seq<Entry>, raw: Text, k: nat)
    requires TailEmpty(s) && k < |s| && Live(s[k]) && Raw(s[k]) == raw
    requires forall j :: 0 <= j < k && Live(s[j]) ==> Raw(s[j]) != raw
    ensures RawFrom(s, raw, true, 0) == k <==>
      forall j :: 0 <= j < k && Present(s[j]) && IsHidden(s[j]) && Attr(s[j]) != ATTR_LFN ==> Raw(s[j]) != raw
  {
    ScanStops(s, raw, true, k, 0);
  }

  /** A volume label and a file of the same name behind it. */
  function LabelFirst(raw: Text): seq<Entry>
    requires |raw| == RAW_LENGTH
  {
    [NewEntry(raw, 8, 0), NewEntry(raw, ATTR_ARCHIVE, 2)]
  }

  /** find_entry sees the file. */
  lemma FindSeesFile(name: Text)
    requires ValidName(name)
    ensures FindFrom(LabelFirst(To83(name)), name, 0) == 1
  {
    hide ValidName, To83, Matches, Canonical, NewEntry;
    var raw := To83(name);
    var s := LabelFirst(raw);
    FormatUndoesTo83(name);
    MatchIsRawEquality(name, raw);
    CanonicalStart(raw);
    assert s[0][0] == Raw(s[0])[0] && s[1][0] == Raw(s[1])[0];
    assert FindFrom(s, name, 1) == 1;
  }

  lemma CanonicalStart(raw: Text)
    requires Canonical(raw)
    ensures raw[0] != 0 && raw[0] != DELETED && raw[0] != SPACE
  {
    assert raw[..8][0] == raw[0];
  }

  lemma LabelFirstIs(raw: Text)
    requires |raw| == RAW_LENGTH && raw[0] != 0 && raw[0] != DELETED
    ensures var s := LabelFirst(raw);
      && Raw(s[0]) == Raw(s[1]) == raw && Attr(s[0]) == 8 && s[0][0] == s[1][0] == raw[0]
      && !Live(s[0]) && Live(s[1])
      && forall name :: ValidName(name) && To83(name) == raw ==> FindFrom(s, name, 0) == 1
  {
    hide ValidName, To83, FindFrom;
    var volume, file := NewEntry(raw, 8, 0), NewEntry(raw, ATTR_ARCHIVE, 2);
    hide NewEntry;
    assert volume[0] == Raw(volume)[0] && file[0] == Raw(file)[0];
    forall name | ValidName(name) && To83(name) == raw
      ensures FindFrom(LabelFirst(raw), name, 0) == 1
    {
      FindSeesFile(name);
    }
  }

  /** In that directory a write stores the file's size and cluster in the label. */
  lemma UpdateTakesLabel(raw: Text)
    requires |raw| == RAW_LENGTH && raw[0] != 0 && raw[0] != DELETED
    ensures var s := LabelFirst(raw);
      && RawFrom(s, raw, true, 0) == 0 && !Live(s[0]) && Live(s[1]) && Raw(s[1]) == raw
      && forall name :: ValidName(name) && To83(name) == raw ==> FindFrom(s, name, 0) == 1
  {
    hide ValidName, To83, FindFrom, NewEntry, Raw, Attr;
    LabelFirstIs(raw);
    assert RawFrom(LabelFirst(raw), raw, true, 0) == 0;
  }

  /** And unlink deletes the label. */
  lemma UnlinkTakesLabel(raw: Text)
    requires |raw| == RAW_LENGTH && raw[0] != 0 && raw[0] != DELETED
    ensures var s := LabelFirst(raw);
      && RawFrom(s, raw, false, 0) == 0 && !Live(s[0]) && Live(s[1]) && Raw(s[1]) == raw
      && forall name :: ValidName(name) && To83(name) == raw ==> FindFrom(s, name, 0) == 1
  {
    hide ValidName, To83, FindFrom, NewEntry, Raw, Attr;
    LabelFirstIs(raw);
    assert RawFrom(LabelFirst(raw), raw, false, 0) == 0;
  }

  // ---- Changing ----

  /** Appending empty slots changes nothing. */
  lemma ExtendSlots(s: seq<Entry>, m: Directory, n: nat)
    requires WellFormed(s) && Stands(s, m)
    ensures WellFormed(s + seq(n, _ => ZERO_ENTRY)) && Stands(s + seq(n, _ => ZERO_ENTRY), m)
  {
    hide Canonical, Bound;
    var t := s + seq(n, _ => ZERO_ENTRY);
    forall r | r in m
      ensures exists i :: 0 <= i < |t| && Live(t[i]) && Raw(t[i]) == r
    {
      var i :| 0 <= i < |s| && Live(s[i]) && Raw(s[i]) == r;
      assert t[i] == s[i];
    }
  }

  /** Filling the first free slot with a new name adds one binding. */
  lemma CreateAdds(s: seq<Entry>, m: Directory, k: nat, e: Entry)
    requires WellFormed(s) && Stands(s, m)
    requires k < |s| && !Present(s[k]) && forall j :: 0 <= j < k ==> Present(s[j])
    requires Live(e) && Canonical(Raw(e)) && forall j :: 0 <= j < |s| && Present(s[j]) ==> Raw(s[j]) != Raw(e)
    ensures WellFormed(s[k := e]) && Stands(s[k := e], m[Raw(e) := Bound(e)]) && Raw(e) !in m
  {
    hide Canonical, Bound;
    var t, m' := s[k := e], m[Raw(e) := Bound(e)];
    assert forall i :: 0 <= i < |t| && i != k ==> t[i] == s[i];
    forall r | r in m'
      ensures exists i :: 0 <= i < |t| && Live(t[i]) && Raw(t[i]) == r
    {
      if r == Raw(e) {
        assert Live(t[k]);
      } else {
        var i :| 0 <= i < |s| && Live(s[i]) && Raw(s[i]) == r;
        assert t[i] == s[i];
      }
    }
  }

  /** Replacing a live entry by one with the same name changes one binding. */
  lemma UpdateChanges(s: seq<Entry>, m: Directory, k: nat, e: Entry)
    requires WellFormed(s) && Stands(s, m)
    requires k < |s| && Live(s[k]) && Raw(e) == Raw(s[k]) && Attr(e) == Attr(s[k])
    ensures WellFormed(s[k := e]) && Stands(s[k := e], m[Raw(e) := Bound(e)])
  {
    hide Canonical, Bound;
    var t, m' := s[k := e], m[Raw(e) := Bound(e)];
    assert e[0] == Raw(e)[0] && s[k][0] == Raw(s[k])[0];
    assert forall i :: 0 <= i < |t| && i != k ==> t[i] == s[i];
    forall r | r in m'
      ensures exists i :: 0 <= i < |t| && Live(t[i]) && Raw(t[i]) == r
    {
      if r == Raw(e) {
        assert Live(t[k]);
      } else {
        var i :| 0 <= i < |s| && Live(s[i]) && Raw(s[i]) == r;
        assert t[i] == s[i];
      }
    }
  }

  /** Marking a live entry deleted removes one binding. */
  lemma UnlinkRemoves(s: seq<Entry>, m: Directory, k: nat)
    requires WellFormed(s) && Stands(s, m) && k < |s| && Live(s[k])
    ensures WellFormed(s[k := Deleted(s[k])]) && Stands(s[k := Deleted(s[k])], m - {Raw(s[k])}) && Raw(s[k]) in m
  {
    hide Canonical, Bound;
    var t, m' := s[k := Deleted(s[k])], m - {Raw(s[k])};
    assert forall i :: 0 <= i < |t| && i != k ==> t[i] == s[i];
    forall r | r in m'
      ensures exists i :: 0 <= i < |t| && Live(t[i]) && Raw(t[i]) == r
    {
      var i :| 0 <= i < |s| && Live(s[i]) && Raw(s[i]) == r;
      assert t[i] == s[i];
    }
  }

  // ---- Listing ----

  /** What a listing shows of the name raw. */
  function Shown(m: Directory, raw: Text): Item
    requires raw in m && |raw| == RAW_LENGTH
  {
    Item(Format(raw), m[raw].size, m[raw].attr)
  }

  /** A live entry is listed, under its formatted name, unless the name starts with a dot. */
  lemma ListedIs(e: Entry)
    requires Live(e) && (Canonical(Raw(e)) || e[0] == DOT)
    ensures Listable(e) <==> Raw(e)[0] != DOT
    ensures Raw(e)[0] != DOT ==> Listed(e) == Item(Format(Raw(e)), FileSize(e), Attr(e)) && Canonical(Raw(e))
  {
    var raw := Raw(e);
    assert raw[0] == e[0] == raw[..8][0];
    if e[0] == DOT {
      DotFormats(raw);
    } else {
      To83UndoesFormat(raw);
      FirstFormats(raw);
    }
  }

  lemma DotFormats(raw: Text)
    requires |raw| == RAW_LENGTH && raw[0] == DOT
    ensures [DOT] <= CString(Format(raw))
  {
    assert raw[..8][0] == DOT;
    assert Format(raw)[0] == DOT;
    assert CString(Format(raw))[0] == DOT;
  }

  lemma FirstFormats(raw: Text)
    requires Canonical(raw) && raw[0] != DOT
    ensures !([DOT] <= Format(raw))
  {
    TrimmedText(raw[..8]);
    assert raw[..8][0] == raw[0];
    assert Trim(raw[..8])[0] == raw[0];
    assert Format(raw)[0] == raw[0];
  }

  /** Item j of a listing comes from a listable slot. */
  lemma {:induction false} ListSlot(s: seq<Entry>, i: nat, j: nat) returns (k: nat)
    requires i <= |s| && j < |ListFrom(s, i)|
    ensures i <= k < |s| && !IsEnd(s[k]) && Listable(s[k]) && ListFrom(s, i)[j] == Listed(s[k])
    decreases |s| - i
  {
    hide Listable, Listed;
    if Listable(s[i]) && j == 0 {
      k := i;
    } else {
      var n := if Listable(s[i]) then 1 else 0;
      k := ListSlot(s, i + 1, j - n);
    }
  }

  /** A listable slot before the end mark has its item. */
  lemma {:induction false} SlotListed(s: seq<Entry>, i: nat, k: nat)
    requires TailEmpty(s) && i <= k < |s| && !IsEnd(s[k]) && Listable(s[k])
    ensures Listed(s[k]) in ListFrom(s, i)
    decreases k - i
  {
    hide Listable, Listed;
    assert !IsEnd(s[i]);
    if i < k { SlotListed(s, i + 1, k); }
  }

  /** A listing shows exactly the bound names that do not start with a dot. */
  lemma ListExact(s: seq<Entry>, item: Item)
    requires WellFormed(s)
    ensures item in ListFrom(s, 0) <==>
      exists raw :: raw in DirMap(s) && |raw| == RAW_LENGTH && raw[0] != DOT && item == Shown(DirMap(s), raw)
  {
    hide Listed, Format;
    DirMapStands(s);
    if item in ListFrom(s, 0) {
      var j :| 0 <= j < |ListFrom(s, 0)| && ListFrom(s, 0)[j] == item;
      var k := ListSlot(s, 0, j);
      ListedIs(s[k]);
      assert Raw(s[k]) in DirMap(s) && item == Shown(DirMap(s), Raw(s[k]));
    }
    if raw: Text :| raw in DirMap(s) && |raw| == RAW_LENGTH && raw[0] != DOT && item == Shown(DirMap(s), raw) {
      var k :| 0 <= k < |s| && Live(s[k]) && Raw(s[k]) == raw;
      assert raw[0] == s[k][0];
      ListedIs(s[k]);
      SlotListed(s, 0, k);
    }
  }

  /** In use, and its name does not start with a dot. */
  ghost predicate Shows(e: Entry) {
    e[0] != 0 && e[0] != 0xE5 && e[0] != 0x2E && e[11] % 16 < 8
  }

  /** An item has the entry's formatted name, size and attributes. */
  ghost predicate ItemBytes(item: Item, e: Entry) {
    && item.name == Format(e[..11]) && item.attr == e[11]
    && item.size == (e[28] as int) + 0x100 * e[29] as int + 0x1_0000 * e[30] as int + 0x100_0000 * e[31] as int
  }

  lemma ShowsIs(e: Entry)
    requires !IsEnd(e) && (Live(e) ==> Canonical(Raw(e)) || e[0] == DOT)
    ensures Listable(e) <==> Shows(e)
    ensures Listable(e) ==> ItemBytes(Listed(e), e)
  {
    hide Listed, Format, Canonical;
    KindBytes(e);
    FieldBytes(e);
    assert Raw(e) == e[..11];
    if Live(e) { ListedIs(e); }
  }

  /** ks are the slots from i on that are in use under a name without a dot in front, counting up. */
  ghost predicate Showing(s: seq<Entry>, ks: seq<nat>, i: nat) {
    && (forall j :: 0 <= j < |ks| ==> i <= ks[j] < |s| && Shows(s[ks[j]]))
    && (forall j, l :: 0 <= j < l < |ks| ==> ks[j] < ks[l])
    && (forall k :: i <= k < |s| && Shows(s[k]) ==> k in ks)
  }

  lemma ShowingNext(s: seq<Entry>, ks: seq<nat>, i: nat)
    requires i < |s| && Showing(s, ks, i)
    ensures if Shows(s[i]) then ks != [] && ks[0] == i && Showing(s, ks[1..], i + 1) else Showing(s, ks, i + 1)
  {
    hide Shows;
    if Shows(s[i]) {
      assert i in ks;
      assert ks[0] == i;
      forall k | i + 1 <= k < |s| && Shows(s[k]) ensures k in ks[1..] {
        var m :| 0 <= m < |ks| && ks[m] == k;
        assert ks[1..][m - 1] == k;
      }
    }
  }

  lemma SomeShowing(s: seq<Entry>, ks: seq<nat>, i: nat)
    requires WellFormed(s) && i <= |s| && ks != [] && Showing(s, ks, i)
    ensures i < |s| && !IsEnd(s[i])
  {
    assert !IsEnd(s[ks[0]]);
  }

  lemma ListStep(s: seq<Entry>, i: nat)
    requires WellFormed(s) && i < |s| && !IsEnd(s[i])
    ensures ListFrom(s, i) == if Shows(s[i]) then [Listed(s[i])] + ListFrom(s, i + 1) else ListFrom(s, i + 1)
    ensures Shows(s[i]) ==> ItemBytes(Listed(s[i]), s[i])
  {
    ShowsIs(s[i]);
    hide Listable, Listed, Canonical, ItemBytes, Shows;
  }

  /** Item j shows slot ks[j]. */
  ghost predicate ItemsShow(items: seq<Item>, s: seq<Entry>, ks: seq<nat>) {
    |items| == |ks| && forall j :: 0 <= j < |ks| ==> ks[j] < |s| && ItemBytes(items[j], s[ks[j]])
  }

  lemma ItemsMore(item: Item, items: seq<Item>, s: seq<Entry>, ks: seq<nat>)
    requires ks != [] && ks[0] < |s| && ItemBytes(item, s[ks[0]]) && ItemsShow(items, s, ks[1..])
    ensures ItemsShow([item] + items, s, ks)
  {
    hide ItemBytes;
    forall j | 0 < j < |ks|
      ensures ks[j] < |s| && ItemBytes(items[j - 1], s[ks[j]])
    {
      assert ks[1..][j - 1] == ks[j];
    }
  }

  /** The listing is in the order of the slots. */
  lemma {:induction false} ListIs(s: seq<Entry>, ks: seq<nat>, i: nat)
    requires WellFormed(s) && i <= |s| && Showing(s, ks, i)
    ensures ItemsShow(ListFrom(s, i), s, ks)
    decreases |s| - i
  {
    if ks != [] { SomeShowing(s, ks, i); }
    hide WellFormed, Listable, Listed, Canonical, ItemBytes, Shows, Showing;
    if i < |s| && !IsEnd(s[i]) {
      ListStep(s, i);
      ShowingNext(s, ks, i);
      hide ListFrom, ItemsShow;
      if Shows(s[i]) {
        ListIs(s, ks[1..], i + 1);
        ItemsMore(Listed(s[i]), ListFrom(s, i + 1), s, ks);
      } else {
        ListIs(s, ks, i + 1);
      }
    }
  }

  /** Different items come from different slots. */
  lemma {:induction false} ListSlots(s: seq<Entry>, i: nat, a: nat, b: nat) returns (k: nat, h: nat)
    requires i <= |s| && a < b < |ListFrom(s, i)|
    ensures i <= k < h < |s| && !IsEnd(s[k]) && !IsEnd(s[h]) && Listable(s[k]) && Listable(s[h])
    ensures ListFrom(s, i)[a] == Listed(s[k]) && ListFrom(s, i)[b] == Listed(s[h])
    decreases |s| - i
  {
    hide Listable, Listed;
    if Listable(s[i]) && a == 0 {
      k := i;
      h := ListSlot(s, i + 1, b - 1);
    } else {
      var n := if Listable(s[i]) then 1 else 0;
      k, h := ListSlots(s, i + 1, a - n, b - n);
    }
  }

  /** A listing shows each name once. */
  lemma ListOnce(s: seq<Entry>, a: nat, b: nat)
    requires WellFormed(s) && a < b < |ListFrom(s, 0)|
    ensures ListFrom(s, 0)[a].name != ListFrom(s, 0)[b].name
  {
    hide Listed, Format, ListFrom, Canonical;
    var k, h := ListSlots(s, 0, a, b);
    ListedIs(s[k]);
    ListedIs(s[h]);
    To83UndoesFormat(Raw(s[k]));
    To83UndoesFormat(Raw(s[h]));
  }

  /** And a listed name is found: it is valid, and bound to what the listing shows. */
  lemma ListedIsFound(s: seq<Entry>, item: Item)
    requires WellFormed(s) && item in ListFrom(s, 0)
    ensures ValidName(item.name) && To83(item.name) in DirMap(s)
    ensures DirMap(s)[To83(item.name)].size == item.size && DirMap(s)[To83(item.name)].attr == item.attr
  {
    hide Listed, Format, ListFrom, Canonical, ValidName, To83;
    var j :| 0 <= j < |ListFrom(s, 0)| && ListFrom(s, 0)[j] == item;
    var k := ListSlot(s, 0, j);
    ListedIs(s[k]);
    To83UndoesFormat(Raw(s[k]));
    DirMapStands(s);
  }
}
