/** A volume as its users see it: the chains and the directories' maps.  Every file's size
    fits its chain, every chain has at most one owner, and a chain without one is an orphan. */
module Fat32View {
  import opened Common
  import opened LittleEndian
  import opened Fat32Chains
  import opened Fat32Content
  import opened Fat32Grow
  import opened Fat32File
  import opened Fat32Write
  import opened Fat32FileLaws
  import opened Fat32Names
  import opened Fat32Slots
  import opened Fat32DirMap
  import opened Fat32Dir
  import opened Fat32Create
  import opened Fat32Tree

  type Chains = map<nat, Chain>
  type Maps = map<nat, Directory>

  /** The maps of all directories. */
  ghost function MapsOf(l: Ledger, data: seq<seq<Byte>>, dirs: set<nat>): Maps {
    map d | d in dirs && d in l.chains && InTable(data, l.chains[d]) :: MapAt(l, data, d)
  }

  /** In directory d the name raw is bound to a file. */
  predicate FileAt(maps: Maps, d: nat, raw: Text) {
    d in maps && raw in maps[d] && !MakesDirectory(maps[d][raw].attr)
  }

  // ---- Sizes ----

  /** A file's recorded size fits the clusters it has: 0 without a chain. */
  ghost predicate Fits(chains: Chains, b: Binding, size: nat) {
    && (b.cluster == 0 || b.cluster in chains)
    && b.size <= Pos(|FileChain(chains, b.cluster)|, size)
  }

  ghost predicate Sized(chains: Chains, maps: Maps, size: nat) {
    forall d, raw :: FileAt(maps, d, raw) ==> Fits(chains, maps[d][raw], size)
  }

  /** Chains of chains are chains of chains', at least as long. */
  ghost predicate Longer(chains: Chains, chains': Chains) {
    forall h :: h in chains ==> h in chains' && |chains[h]| <= |chains'[h]|
  }

  lemma LongerTwice(a: Chains, b: Chains, c: Chains)
    requires Longer(a, b) && Longer(b, c)
    ensures Longer(a, c)
  {
  }

  lemma FitsLonger(chains: Chains, chains': Chains, b: Binding, size: nat)
    requires Fits(chains, b, size) && Longer(chains, chains')
    ensures Fits(chains', b, size)
  {
    hide Pos;
    if b.cluster != 0 {
      PosMonotone(|chains[b.cluster]|, |chains'[b.cluster]|, size);
    }
  }

  lemma SizedLonger(chains: Chains, chains': Chains, maps: Maps, size: nat)
    requires Sized(chains, maps, size) && Longer(chains, chains')
    ensures Sized(chains', maps, size)
  {
    hide Fits, Longer;
    forall d, raw | FileAt(maps, d, raw)
      ensures Fits(chains', maps[d][raw], size)
    {
      FitsLonger(chains, chains', maps[d][raw], size);
    }
  }

  /** Binding a name to something that fits keeps every size fitting. */
  lemma SizedBind(chains: Chains, maps: Maps, size: nat, d: nat, raw: Text, b: Binding)
    requires Sized(chains, maps, size) && d in maps && (MakesDirectory(b.attr) || Fits(chains, b, size))
    ensures Sized(chains, maps[d := maps[d][raw := b]], size)
  {
    hide Fits;
    var maps' := maps[d := maps[d][raw := b]];
    forall x, r | FileAt(maps', x, r)
      ensures Fits(chains, maps'[x][r], size)
    {
      if x != d || r != raw {
        assert FileAt(maps, x, r);
      }
    }
  }

  lemma SizedNewDirectory(chains: Chains, maps: Maps, size: nat, c: nat)
    requires Sized(chains, maps, size) && c !in maps
    ensures Sized(chains, maps[c := map[]], size)
  {
    hide Fits;
    forall x, r | FileAt(maps[c := map[]], x, r)
      ensures Fits(chains, maps[x][r], size)
    {
      assert FileAt(maps, x, r);
    }
  }

  // ---- Owners ----

  /** No two names, in the same directory or not, are bound to the same chain. */
  ghost predicate OneOwner(maps: Maps) {
    forall d, r, e, q :: FileAt(maps, d, r) && FileAt(maps, e, q) && maps[d][r].cluster == maps[e][q].cluster != 0 ==>
      d == e && r == q
  }

  ghost predicate Owned(maps: Maps, h: nat) {
    exists d, raw :: FileAt(maps, d, raw) && maps[d][raw].cluster == h
  }

  /** The chains that are neither a directory nor a file's. */
  ghost function Orphans(chains: Chains, maps: Maps): set<nat> {
    set h | h in chains && h !in maps && !Owned(maps, h)
  }

  lemma EntryBinds(s: seq<Entry>, raw: Text) returns (k: nat)
    requires WellFormed(s) && raw in DirMap(s)
    ensures k < |s| && Live(s[k]) && Raw(s[k]) == raw && DirMap(s)[raw] == Bound(s[k])
  {
    DirMapStands(s);
    k :| 0 <= k < |s| && Live(s[k]) && Raw(s[k]) == raw;
  }

  /** A file binding of a tree comes from the slot that owns its chain. */
  lemma OwnerSlot(l: Ledger, data: seq<seq<Byte>>, dirs: set<nat>, refs: Refs, d: nat, raw: Text) returns (k: nat)
    requires Tree(l, data, dirs, refs) && FileAt(MapsOf(l, data, dirs), d, raw)
    ensures d in dirs && DirOk(l, data, dirs, refs, d)
    ensures var s, b := Slots(data, l.chains[d]), MapsOf(l, data, dirs)[d][raw];
      && k < |s| && Raw(s[k]) == raw && (b.cluster == 0 || (b.cluster in l.chains && b.cluster !in dirs))
      && (b.cluster != 0 ==> b.cluster as nat in refs && refs[b.cluster as nat] == (d, k))
  {
    hide Slots, WellFormed;
    assert DirOk(l, data, dirs, refs, d);
    var s := Slots(data, l.chains[d]);
    k := EntryBinds(s, raw);
    assert EntryOk(l.chains.Keys, dirs, refs, d, k, s[k]);
  }

  /** So every chain has at most one owner. */
  lemma TreeOneOwner(l: Ledger, data: seq<seq<Byte>>, dirs: set<nat>, refs: Refs)
    requires Tree(l, data, dirs, refs)
    ensures OneOwner(MapsOf(l, data, dirs))
  {
    var maps := MapsOf(l, data, dirs);
    forall d, r, e, q | FileAt(maps, d, r) && FileAt(maps, e, q) && maps[d][r].cluster == maps[e][q].cluster != 0
      ensures d == e && r == q
    {
      hide Tree, DirOk, Slots, MapsOf;
      var i := OwnerSlot(l, data, dirs, refs, d, r);
      var j := OwnerSlot(l, data, dirs, refs, e, q);
    }
  }

  // ---- The operations on the view ----

  /** Directories other than d kept, the map of d replaced. */
  lemma MapsStep(l: Ledger, data: seq<seq<Byte>>, l': Ledger, data': seq<seq<Byte>>, dirs: set<nat>, refs: Refs, d: nat)
    requires Tree(l, data, dirs, refs) && d in dirs && OthersSame(l, data, l', data', dirs, d)
    requires d in l'.chains && InTable(data', l'.chains[d])
    ensures MapsOf(l, data, dirs).Keys == dirs
    ensures MapsOf(l', data', dirs) == MapsOf(l, data, dirs)[d := MapAt(l', data', d)]
    ensures d in l.chains && InTable(data, l.chains[d])
    ensures MapAt(l', data', d) == MapAt(l, data, d) ==> MapsOf(l', data', dirs) == MapsOf(l, data, dirs)
  {
    hide Slots, WellFormed;
    forall x | x in dirs
      ensures DirOk(l, data, dirs, refs, x) && (x != d ==> SameDir(l, data, l', data', x))
    {
    }
  }

  lemma MapsKeys(l: Ledger, data: seq<seq<Byte>>, dirs: set<nat>, refs: Refs)
    requires Tree(l, data, dirs, refs)
    ensures MapsOf(l, data, dirs).Keys == dirs
  {
    hide Slots, WellFormed;
    forall x | x in dirs
      ensures DirOk(l, data, dirs, refs, x)
    {
    }
  }

  /** A new, empty directory joins. */
  lemma MapsGrow(l: Ledger, data: seq<seq<Byte>>, dirs: set<nat>, c: nat)
    requires c in l.chains && InTable(data, l.chains[c]) && c !in dirs
    ensures MapsOf(l, data, dirs + {c}) == MapsOf(l, data, dirs)[c := MapAt(l, data, c)]
  {
    hide Slots;
  }

  /** Unlinking keeps sizes and makes no orphan: the freed chain had no other owner. */
  lemma ViewUnlink(chains: Chains, maps: Maps, size: nat, d: nat, raw: Text, chains': Chains)
    requires Sized(chains, maps, size) && OneOwner(maps) && FileAt(maps, d, raw) && maps.Keys <= chains.Keys
    requires var c := maps[d][raw].cluster; c !in maps && chains' == chains - {c}
    ensures var maps' := maps[d := maps[d] - {raw}];
      Sized(chains', maps', size) && Orphans(chains', maps') == Orphans(chains, maps)
  {
    hide Pos;
    var c, maps' := maps[d][raw].cluster, maps[d := maps[d] - {raw}];
    forall x, r | FileAt(maps', x, r)
      ensures FileAt(maps, x, r) && maps'[x][r] == maps[x][r] && (maps[x][r].cluster != 0 ==> maps[x][r].cluster != c)
      ensures Fits(chains', maps'[x][r], size)
    {
      assert FileAt(maps, x, r);
      assert Fits(chains, maps[x][r], size);
    }
    forall h | h in chains'
      ensures Owned(maps', h) <==> Owned(maps, h)
    {
      if Owned(maps, h) {
        var x: nat, r: Text :| FileAt(maps, x, r) && maps[x][r].cluster == h;
        assert FileAt(maps', x, r);
      }
    }
    assert c in chains ==> Owned(maps, c);
  }

  /** Binding a new name to a file without a chain, or to a new directory, makes no orphan. */
  lemma ViewCreate(chains: Chains, maps: Maps, size: nat, d: nat, raw: Text, attr: Byte, c: Word32, chains': Chains)
    requires Sized(chains, maps, size) && d in maps && raw !in maps[d] && Longer(chains, chains')
    requires if MakesDirectory(attr) then c !in chains && c !in maps && chains'.Keys == chains.Keys + {c as nat}
             else c == 0 && chains'.Keys == chains.Keys
    ensures var maps' := MapsCreated(maps, d, maps[d], raw, attr, c);
      && Sized(chains', maps', size)
      && (0 !in chains ==> Orphans(chains', maps') == Orphans(chains, maps))
  {
    hide Pos, Fits;
    var b := Binding(attr, c, 0);
    var m1 := maps[d := maps[d][raw := b]];
    var maps': Maps := if MakesDirectory(attr) then m1[c as nat := map[]] else m1;
    SizedLonger(chains, chains', maps, size);
    if !MakesDirectory(attr) { EmptyFits(chains', b, size); }
    SizedBind(chains', maps, size, d, raw, b);
    if MakesDirectory(attr) { SizedNewDirectory(chains', m1, size, c); }
    forall h | h in chains && h != 0
      ensures Owned(maps', h) <==> Owned(maps, h)
    {
      if Owned(maps, h) {
        var x: nat, r: Text :| FileAt(maps, x, r) && maps[x][r].cluster == h;
        assert FileAt(maps', x, r);
      }
      if Owned(maps', h) {
        var x: nat, r: Text :| FileAt(maps', x, r) && maps'[x][r].cluster == h;
        assert FileAt(maps, x, r);
      }
    }
  }

  lemma EmptyFits(chains: Chains, b: Binding, size: nat)
    requires b.cluster == 0 && b.size == 0
    ensures Fits(chains, b, size)
  {
  }

  /** Writing to a file of maps that ends up on the chain at start: if its entry is updated
      there is no new orphan, and if it is not, a fresh chain becomes one. */
  lemma ViewWrite(chains: Chains, maps: Maps, size: nat, d: nat, raw: Text, start: nat, chains': Chains)
    requires Sized(chains, maps, size) && FileAt(maps, d, raw) && Longer(chains, chains') && 0 !in chains' && start != 0
    requires chains'.Keys == chains.Keys + {start} && start !in maps
    requires var c := maps[d][raw].cluster; if c != 0 then start == c else start !in chains
    ensures Sized(chains', maps, size)
    ensures Orphans(chains', maps) == Orphans(chains, maps) + (if maps[d][raw].cluster == 0 then {start} else {})
  {
    hide Pos;
    SizedLonger(chains, chains', maps, size);
    if maps[d][raw].cluster == 0 {
      forall x, r | FileAt(maps, x, r)
        ensures maps[x][r].cluster != start
      {
        assert Fits(chains, maps[x][r], size);
      }
    } else {
      assert Owned(maps, start);
    }
  }

  lemma ViewRecord(chains: Chains, maps: Maps, size: nat, d: nat, raw: Text, b: Binding)
    requires Sized(chains, maps, size) && FileAt(maps, d, raw) && Fits(chains, b, size) && b.attr == maps[d][raw].attr
      && b.cluster != 0
    requires b.cluster == maps[d][raw].cluster || maps[d][raw].cluster == 0
    requires 0 !in chains
    ensures var maps' := maps[d := maps[d][raw := b]];
      Sized(chains, maps', size) && Orphans(chains, maps') == Orphans(chains, maps) - {b.cluster as nat}
  {
    hide Pos, Fits;
    SizedBind(chains, maps, size, d, raw, b);
    var maps' := maps[d := maps[d][raw := b]];
    assert FileAt(maps', d, raw);
    assert Owned(maps', b.cluster);
    forall h | h in chains && h != b.cluster
      ensures Owned(maps', h) <==> Owned(maps, h)
    {
      if Owned(maps, h) {
        var x: nat, r: Text :| FileAt(maps, x, r) && maps[x][r].cluster == h;
        assert FileAt(maps', x, r);
      }
      if Owned(maps', h) {
        var x: nat, r: Text :| FileAt(maps', x, r) && maps'[x][r].cluster == h;
        assert FileAt(maps, x, r);
      }
    }
  }

  /** The view after a create: one binding more, and an empty directory if it made one. */
  ghost function MapsCreated(maps: Maps, d: nat, m: Directory, raw: Text, attr: Byte, c: Word32): Maps {
    var m1 := maps[d := m[raw := Binding(attr, c, 0)]];
    if MakesDirectory(attr) then m1[c as nat := map[]] else m1
  }

  lemma MapsFound(l: Ledger, data: seq<seq<Byte>>, dirs: set<nat>, d: nat)
    requires d in dirs && d in l.chains && InTable(data, l.chains[d])
    ensures d in MapsOf(l, data, dirs) && MapsOf(l, data, dirs)[d] == MapAt(l, data, d)
  {
    hide Slots;
  }

  lemma OrphansSame(chains: Chains, chains': Chains, maps: Maps)
    requires chains'.Keys == chains.Keys
    ensures Orphans(chains', maps) == Orphans(chains, maps)
  {
    hide Owned;
  }

  // ---- The bytes of a file ----

  /** The bytes a binding stands for: its size's worth of what its chain stores. */
  ghost function BytesOf(chains: Chains, data: seq<seq<Byte>>, b: Binding): seq<Byte> {
    if (b.cluster == 0 || b.cluster in chains) && InTable(data, FileChain(chains, b.cluster))
       && b.size <= |Content(data, FileChain(chains, b.cluster))|
    then FileBytes(data, FileChain(chains, b.cluster), b.size) else []
  }

  /** A size that fits is the number of bytes. */
  lemma BytesLength(chains: Chains, data: seq<seq<Byte>>, b: Binding, size: nat)
    requires Fits(chains, b, size) && Uniform(data, FileChain(chains, b.cluster), size)
    ensures InTable(data, FileChain(chains, b.cluster)) && b.size <= |Content(data, FileChain(chains, b.cluster))|
    ensures BytesOf(chains, data, b) == FileBytes(data, FileChain(chains, b.cluster), b.size)
    ensures |BytesOf(chains, data, b)| == b.size
  {
    hide Pos, Content;
    ContentLength(data, FileChain(chains, b.cluster), size);
  }

  // ---- Writing, seen from the file ----

  lemma GrownView(l: Ledger, l': Ledger, h: nat, before: Chain)
    requires Grown(l, l', h, before) && (h in l.chains ==> before == l.chains[h])
    ensures Longer(l.chains, l'.chains) && l'.chains.Keys == l.chains.Keys + {h}
  {
  }

  lemma ExtendedView(l: Ledger, data: seq<seq<Byte>>, l': Ledger, data': seq<seq<Byte>>, d: nat, m: nat)
    requires DirExtended(l, data, l', data', d, m)
    ensures Longer(l.chains, l'.chains) && l'.chains.Keys == l.chains.Keys
  {
    hide Slots, Grown;
    if l' != l { GrownView(l, l', d, l.chains[d]); }
  }

  lemma PlacedView(l: Ledger, data: seq<seq<Byte>>, l': Ledger, data': seq<seq<Byte>>, ch: Chain, k: nat, raw: Text,
                   attr: Byte, c: nat, m: nat)
    requires Placed(l, data, l', data', ch, k, raw, attr, c, m)
    ensures Longer(l.chains, l'.chains)
    ensures l'.chains.Keys == l.chains.Keys + if MakesDirectory(attr) then {c} else {}
  {
    hide Slots, Grown, NewEntry;
    if MakesDirectory(attr) { GrownView(l, l', c, []); }
  }

  /** However a write that stored anything ends, the size it records fits the file's chain. */
  lemma WrittenFits(data: seq<seq<Byte>>, data': seq<seq<Byte>>, chains: Chains, chains': Chains, b: Binding,
                    start: Word32, size: nat, offset: Word32, count: nat, buf: seq<Byte>)
    requires Fits(chains, b, size) && Longer(chains, chains') && start in chains' && start != 0
    requires 0 < count <= |buf| && Written(data, data', chains'[start], size, offset, buf[..count])
    requires b.cluster == start || b.cluster == 0
    ensures Fits(chains', Binding(b.attr, start, SizeAfter(b.size, offset, count, |buf|)), size)
  {
    hide Pos, Content;
    FitsLonger(chains, chains', b, size);
    ContentLength(data, chains'[start], size);
    WrapAtMost(offset + count);
    NothingAtZero(size);
    hide Wrap32;
  }

  lemma WrapAtMost(x: nat)
    ensures Wrap32(x) <= x
  {
  }

  lemma NothingAtZero(size: nat)
    ensures Pos(0, size) == 0
  {
  }

  /** A full write inside the file or at its end, without wrap, overwrites exactly its range
      of the file's bytes. */
  lemma WriteOverwrites(data: seq<seq<Byte>>, data': seq<seq<Byte>>, chains: Chains, chains': Chains, b: Binding,
                        start: Word32, size: nat, offset: Word32, buf: seq<Byte>)
    requires Fits(chains, b, size) && start in chains' && start != 0 && FileChain(chains, b.cluster) <= chains'[start]
    requires buf != [] && Written(data, data', chains'[start], size, offset, buf)
    requires offset <= b.size && offset + |buf| < U32_LIMIT
    ensures var b' := Binding(b.attr, start, SizeAfter(b.size, offset, |buf|, |buf|));
      && b'.size == Max(b.size, offset + |buf|)
      && |BytesOf(chains, data, b)| == b.size
      && BytesOf(chains', data', b') == Overwrite(BytesOf(chains, data, b), offset, buf)
  {
    hide Pos, Content;
    var before, ch := FileChain(chains, b.cluster), chains'[start];
    assert forall i :: 0 <= i < |before| ==> before[i] == ch[i];
    BytesLength(chains, data, b, size);
    WriteReplacesRange(data, data', before, ch, size, b.size, offset, buf);
  }

  /** The bytes of a file are those of its chain, whatever else changes. */
  lemma BytesKept(chains: Chains, data: seq<seq<Byte>>, data': seq<seq<Byte>>, b: Binding)
    requires b.cluster in chains && InTable(data, chains[b.cluster]) && InTable(data', chains[b.cluster])
      && b.cluster != 0
    requires Content(data', chains[b.cluster]) == Content(data, chains[b.cluster])
    ensures BytesOf(chains, data', b) == BytesOf(chains, data, b)
  {
    hide Content;
  }

  /** A read without wrap returns its range of the file's bytes. */
  lemma ReadSlices(chains: Chains, data: seq<seq<Byte>>, b: Binding, size: nat, offset: Word32, want: Word32)
    requires Fits(chains, b, size) && Uniform(data, FileChain(chains, b.cluster), size)
    requires offset < b.size && offset + want < U32_LIMIT
    ensures InTable(data, FileChain(chains, b.cluster)) && |BytesOf(chains, data, b)| == b.size
    ensures ReadBack(Content(data, FileChain(chains, b.cluster)), offset, ClippedSize(b.size, offset, want))
      == BytesOf(chains, data, b)[offset..Min(offset + want, b.size)]
  {
    hide Pos, Content;
    BytesLength(chains, data, b, size);
    ClipExact(b.size, offset, want);
    var c := Content(data, FileChain(chains, b.cluster));
    SliceOfPrefix(c, b.size, offset, Min(offset + want, b.size));
  }

  lemma SliceOfPrefix<T>(s: seq<T>, n: nat, a: nat, b: nat)
    requires a <= b <= n <= |s|
    ensures s[..n][a..b] == s[a..b]
  {
  }

  /** What a write that reached its chain does to the view, before and after its entry is
      updated: only a fresh chain whose entry is not updated becomes an orphan. */
  lemma WriteView(l: Ledger, data: seq<seq<Byte>>, l': Ledger, data1: seq<seq<Byte>>, maps: Maps, d: nat, raw: Text,
                  start: Word32, size: nat, offset: Word32, count: nat, buf: seq<Byte>)
    requires Sized(l.chains, maps, size) && FileAt(maps, d, raw) && maps.Keys <= l.chains.Keys && 0 !in l'.chains
      && start !in maps
    requires var c := maps[d][raw].cluster; if c != 0 then start == c else start !in l.chains
    requires maps[d][raw].cluster == 0 || maps[d][raw].cluster in l.chains
    requires count <= |buf| && Uniform(data, FileChain(l.chains, maps[d][raw].cluster), size)
    requires FileWritten(l, data, l', data1, start, FileChain(l.chains, maps[d][raw].cluster), size, offset,
      buf[..count])
    ensures Sized(l'.chains, maps, size)
    ensures Orphans(l'.chains, maps) == Orphans(l.chains, maps)
      + (if maps[d][raw].cluster == 0 then {start as nat} else {})
    ensures count > 0 ==>
      var b := maps[d][raw];
      var b' := Binding(b.attr, start, SizeAfter(b.size, offset, count, |buf|));
      var maps' := maps[d := maps[d][raw := b']];
      && Sized(l'.chains, maps', size) && Orphans(l'.chains, maps') == Orphans(l.chains, maps)
      && |BytesOf(l.chains, data, b)| == b.size
      && (count == |buf| && offset <= b.size && offset + |buf| < U32_LIMIT ==>
            BytesOf(l'.chains, data1, b') == Overwrite(BytesOf(l.chains, data, b), offset, buf))
  {
    hide Pos, Content, Written, Fits, Sized, Orphans, Grown, BytesOf;
    var b := maps[d][raw];
    SizedAt(l.chains, maps, size, d, raw);
    GrownView(l, l', start, FileChain(l.chains, b.cluster));
    assert start as nat in l'.chains;
    ViewWrite(l.chains, maps, size, d, raw, start, l'.chains);
    if count > 0 {
      var b' := Binding(b.attr, start, SizeAfter(b.size, offset, count, |buf|));
      WrittenFits(data, data1, l.chains, l'.chains, b, start, size, offset, count, buf);
      ViewRecord(l'.chains, maps, size, d, raw, b');
      NotOrphan(l.chains, maps, d, raw);
      BytesLength(l.chains, data, b, size);
      if count == |buf| && offset <= b.size && offset + |buf| < U32_LIMIT {
        assert buf[..count] == buf;
        GrownPrefix(l, l', start, FileChain(l.chains, b.cluster));
        WriteOverwrites(data, data1, l.chains, l'.chains, b, start, size, offset, buf);
      }
    }
  }

  lemma SizedAt(chains: Chains, maps: Maps, size: nat, d: nat, raw: Text)
    requires Sized(chains, maps, size) && FileAt(maps, d, raw)
    ensures Fits(chains, maps[d][raw], size)
  {
  }

  /** A file's own chain is no orphan, and a chain not there is none. */
  lemma NotOrphan(chains: Chains, maps: Maps, d: nat, raw: Text)
    requires FileAt(maps, d, raw)
    ensures maps[d][raw].cluster !in Orphans(chains, maps)
    ensures forall h :: h in Orphans(chains, maps) ==> h in chains
  {
  }

  /** With one cluster free and the first byte beyond it, nothing is written. */
  lemma NothingWritten(l: Ledger, data: seq<seq<Byte>>, l': Ledger, data1: seq<seq<Byte>>, start: nat, size: nat,
                       offset: nat, count: nat, buf: seq<Byte>)
    requires Accounted(l.fat, l.chains, l.own) && Accounted(l'.fat, l'.chains, l'.own) && |FreeClusters(l.fat)| == 1
    requires count <= |buf| && size <= offset && start !in l.chains
    requires FileWritten(l, data, l', data1, start, [], size, offset, buf[..count])
    ensures count == 0
  {
    hide Content, Accounted;
    var ch := l'.chains[start];
    ChainLinks(l'.fat, l'.chains, l'.own, start);
    if |ch| > 1 {
      assert l'.own[ch[0]] == Part(start, 0) && l'.own[ch[1]] == Part(start, 1);
      OneMember(FreeClusters(l.fat), ch[0], ch[1]);
    }
    ContentLength(data, ch, size);
    assert |ch| <= 1;
    PosMonotone(|ch|, 1, size);
    PosNext(0, size);
  }

  lemma OneMember(s: set<nat>, a: nat, b: nat)
    requires |s| == 1 && a in s && b in s
    ensures a == b
  {
    assert |s - {a}| == 0;
  }
}
