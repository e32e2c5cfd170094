/** Writing a range of a file: extend the chain as far as needed, then rewrite the
    clusters the range touches. */
module Fat32Write {
  import opened Common
  import opened LittleEndian
  import opened Fat32Layout
  import opened Fat32Chains
  import opened Fat32Volume
  import opened Fat32Content
  import opened Fat32Grow
  import opened Fat32File

  /** From data to data', piece was written at offset of the content of ch and nothing
      else changed: no other byte of the content, no cluster outside ch. */
  ghost predicate Written(data: seq<seq<Byte>>, data': seq<seq<Byte>>, ch: Chain, size: nat, offset: nat,
                          piece: seq<Byte>) {
    && |data'| == |data| && Uniform(data, ch, size) && Uniform(data', ch, size)
    && (forall c :: 0 <= c < |data| && c !in ch ==> data'[c] == data[c])
    && (piece == [] ==> data' == data)
    && (piece != [] ==>
          && offset + |piece| <= |Content(data, ch)|
          && Content(data', ch) == Splice(Content(data, ch), offset, piece))
  }

  lemma WriteStep(data: seq<seq<Byte>>, now: seq<seq<Byte>>, ch: Chain, size: nat, offset: nat, piece: seq<Byte>,
                  index: nat, skip: nat, b: seq<Byte>)
    requires Written(data, now, ch, size, offset, piece)
    requires index < |ch| && skip + |b| <= size && b != []
    requires offset + |piece| == Pos(index, size) + skip
    requires forall i, j :: 0 <= i < j < |ch| ==> ch[i] != ch[j]
    ensures Written(data, now[ch[index] := Splice(now[ch[index]], skip, b)], ch, size, offset, piece + b)
  {
    hide Pos;
    hide Content;
    var block := Splice(now[ch[index]], skip, b);
    var was, mid := Content(data, ch), Content(now, ch);
    var at := Pos(index, size);
    ContentBlock(data, ch, size, index);
    ContentBlock(now, ch, size, index);
    ContentUpdate(now, ch, size, index, block);
    assert ch[index] in ch;
    SpliceInBlock(mid, at, size, skip, b);
    if piece == [] {
      assert piece + b == b;
    } else {
      SpliceAdjacent(was, offset, piece, b);
    }
  }

  lemma WrittenGrow(data: seq<seq<Byte>>, now: seq<seq<Byte>>, ch: Chain, size: nat, offset: nat, piece: seq<Byte>,
                    c: nat)
    requires Written(data, now, ch, size, offset, piece)
    requires c !in ch && c < |now| && |now[c]| == size
    ensures Written(data, now, ch + [c], size, offset, piece)
  {
    hide Content;
    ContentExtend(data, ch, c);
    ContentExtend(now, ch, c);
    if piece != [] {
      SpliceAppend(Content(data, ch), offset, piece, data[c]);
    }
  }

  /** The first loop of fat32_write_file: reach cluster target of the chain at h, extending
      the chain when it is shorter. */
  method SeekExtending(v: Volume, h: nat, target: nat) returns (cluster: nat, index: nat)
    requires v.Consistent() && h in v.chains
    modifies v`disk, v`fat, v`chains, v`own
    ensures v.Consistent() && v.Untouched()
    ensures Grown(old(v.Ledger()), v.Ledger(), h, old(v.chains[h]))
    ensures h in v.chains && index < |v.chains[h]| && v.chains[h][index] == cluster && index <= target
    ensures index < target ==> FreeClusters(v.fat) == {}
    ensures |v.chains[h]| == Max(|old(v.chains[h])|, index + 1)
  {
    hide Accounted;
    hide Grown;
    ChainLinks(v.fat, v.chains, v.own, h);
    GrownSame(v.Ledger(), h);
    cluster, index := h, 0;
    while index < target
      invariant v.Consistent() && v.Untouched()
      invariant Grown(old(v.Ledger()), v.Ledger(), h, old(v.chains[h]))
      invariant h in v.chains && index < |v.chains[h]| && v.chains[h][index] == cluster && index <= target
      invariant |v.chains[h]| == Max(|old(v.chains[h])|, index + 1)
    {
      ghost var ledger1 := v.Ledger();
      ChainLinks(v.fat, v.chains, v.own, h);
      var next, _ := NextOrExtend(v, cluster, h, index);
      if next == 0 {
        return;
      }
      GrownTwice(old(v.Ledger()), ledger1, v.Ledger(), h, old(v.chains[h]));
      cluster := next;
      index := index + 1;
    }
  }

  /** Read, patch and write back one cluster of the chain at h. */
  method PatchCluster(v: Volume, cluster: nat, skip: nat, piece: seq<Byte>,
                      ghost h: nat, ghost index: nat, ghost data0: seq<seq<Byte>>, ghost offset: nat,
                        ghost done: seq<Byte>)
    requires v.Consistent() && h in v.chains && index < |v.chains[h]| && v.chains[h][index] == cluster
    requires skip + |piece| <= v.g.ClusterSize() && piece != []
    requires Written(data0, v.data, v.chains[h], v.g.ClusterSize(), offset, done)
    requires offset + |done| == Pos(index, v.g.ClusterSize()) + skip
    modifies v`disk, v`data
    ensures v.Consistent() && v.Untouched()
    ensures Written(data0, v.data, v.chains[h], v.g.ClusterSize(), offset, done + piece)
  {
    hide Accounted;
    hide Pos;
    hide Written;
    ChainLinks(v.fat, v.chains, v.own, h);
    ChainContent(v, h);
    var ok, block := v.ReadCluster(cluster);
    WriteStep(data0, v.data, v.chains[h], v.g.ClusterSize(), offset, done, index, skip, piece);
    ok := v.WriteCluster(cluster, Splice(block, skip, piece));
  }

  /** The second loop of fat32_write_file: from cluster target on, read, patch and write
      back one cluster at a time until buf is written or the volume is full. */
  method WriteClusters(v: Volume, h: nat, first: nat, target: nat, rest: nat, offset: nat, buf: seq<Byte>)
    returns (written: nat)
    requires v.Consistent() && h in v.chains
    requires target < |v.chains[h]| && v.chains[h][target] == first
    requires offset == Pos(target, v.g.ClusterSize()) + rest && rest < v.g.ClusterSize() && buf != []
    modifies v`disk, v`fat, v`data, v`chains, v`own
    ensures v.Consistent() && v.Untouched()
    ensures Grown(old(v.Ledger()), v.Ledger(), h, old(v.chains[h]))
    ensures h in v.chains && 0 < written <= |buf|
    ensures Written(old(v.data), v.data, v.chains[h], v.g.ClusterSize(), offset, buf[..written])
    ensures written < |buf| ==> FreeClusters(v.fat) == {}
    ensures |v.chains[h]| > |old(v.chains[h])| ==> Pos(|v.chains[h]| - 1, v.g.ClusterSize()) < offset + written
  {
    hide Accounted;
    hide Grown;
    hide Pos;
    hide Written;
    hide FreeClusters;
    GrownSame(v.Ledger(), h);
    WrittenNothing(v, h, offset);
    var size := v.g.ClusterSize();
    var cluster, index := first, target;
    written := 0;
    while true
      invariant v.Consistent() && v.Untouched()
      invariant Grown(old(v.Ledger()), v.Ledger(), h, old(v.chains[h]))
      invariant h in v.chains && target <= index < |v.chains[h]| && v.chains[h][index] == cluster
      invariant 0 <= written < |buf|
      invariant index == target ==> written == 0
      invariant offset + written == Pos(index, size) + (if index == target then rest else 0)
      invariant Written(old(v.data), v.data, v.chains[h], size, offset, buf[..written])
      invariant |v.chains[h]| == Max(|old(v.chains[h])|, index + 1)
      decreases |buf| - written
    {
      var skip := if index == target then rest else 0;
      var n := Min(size - skip, |buf| - written);
      assert buf[..written + n] == buf[..written] + buf[written..written + n];
      PatchCluster(v, cluster, skip, buf[written..written + n], h, index, old(v.data), offset, buf[..written]);
      written := written + n;
      if written == |buf| {
        break;
      }
      PosNext(index, size);
      var next := AdvanceWriting(v, cluster, h, index, old(v.Ledger()), old(v.data), offset, buf[..written]);
      if next == 0 {
        break;
      }
      cluster := next;
      index := index + 1;
    }
  }

  /** NextOrExtend between two clusters of a write. */
  method AdvanceWriting(v: Volume, cluster: nat, ghost h: nat, ghost index: nat,
                        ghost ledger0: Ledger, ghost data0: seq<seq<Byte>>, ghost offset: nat, ghost done: seq<Byte>)
    returns (next: nat)
    requires v.Consistent() && h in v.chains && index < |v.chains[h]| && v.chains[h][index] == cluster
    requires h in ledger0.chains && Grown(ledger0, v.Ledger(), h, ledger0.chains[h])
    requires Written(data0, v.data, v.chains[h], v.g.ClusterSize(), offset, done)
    requires |v.chains[h]| == Max(|ledger0.chains[h]|, index + 1)
    modifies v`disk, v`fat, v`chains, v`own
    ensures v.Consistent() && v.Untouched() && h in v.chains
    ensures Grown(ledger0, v.Ledger(), h, ledger0.chains[h])
    ensures Written(data0, v.data, v.chains[h], v.g.ClusterSize(), offset, done)
    ensures next == 0 ==> FreeClusters(v.fat) == {} && v.chains == old(v.chains)
    ensures next != 0 ==> index + 1 < |v.chains[h]| && v.chains[h][index + 1] == next
    ensures next != 0 ==> |v.chains[h]| == Max(|ledger0.chains[h]|, index + 2)
  {
    hide Accounted;
    hide Grown;
    hide Written;
    hide FreeClusters;
    ghost var ch, ledger1 := v.chains[h], v.Ledger();
    ChainLinks(v.fat, v.chains, v.own, h);
    var grown;
    next, grown := NextOrExtend(v, cluster, h, index);
    if next != 0 {
      GrownTwice(ledger0, ledger1, v.Ledger(), h, ledger0.chains[h]);
      if v.chains[h] != ch {
        ChainLinks(v.fat, v.chains, v.own, h);
        FreshLast(v, h);
        assert v.chains[h][..|v.chains[h]| - 1] == ch;
        WrittenGrow(data0, v.data, ch, v.g.ClusterSize(), offset, done, next);
      }
    }
  }

  lemma WrittenNothing(v: Volume, h: nat, offset: nat)
    requires v.Consistent() && h in v.chains
    ensures Written(v.data, v.data, v.chains[h], v.g.ClusterSize(), offset, [])
  {
    hide Accounted;
    ChainContent(v, h);
  }

  lemma SizePositive(v: Volume)
    requires v.Consistent()
    ensures 0 < v.g.ClusterSize()
  {
    hide Accounted;
  }

  /** Both loops of fat32_write_file on a file that has a chain. */
  method WriteRange(v: Volume, h: nat, offset: nat, buf: seq<Byte>) returns (written: nat)
    requires v.Consistent() && h in v.chains && buf != []
    modifies v`disk, v`fat, v`data, v`chains, v`own
    ensures v.Consistent() && v.Untouched()
    ensures Grown(old(v.Ledger()), v.Ledger(), h, old(v.chains[h]))
    ensures h in v.chains && written <= |buf|
    ensures Written(old(v.data), v.data, v.chains[h], v.g.ClusterSize(), offset, buf[..written])
    ensures written < |buf| ==> FreeClusters(v.fat) == {}
    ensures written == |buf| && |v.chains[h]| > |old(v.chains[h])| ==>
      Pos(|v.chains[h]| - 1, v.g.ClusterSize()) < offset + written
  {
    hide Accounted;
    hide Grown;
    hide Pos;
    hide Written;
    hide FreeClusters, Slot, Cluster, Geometry.InData, Geometry.InFat, Content, Volume.Valid;
    SizePositive(v);
    var target, rest := Locate(offset, v.g.ClusterSize());
    var cluster, index := SeekExtending(v, h, target);
    if index < target {
      WrittenNothing(v, h, offset);
      assert buf[..0] == [];
      return 0;
    }
    ghost var ledger1 := v.Ledger();
    ChainLinks(v.fat, v.chains, v.own, h);
    written := WriteClusters(v, h, cluster, target, rest, offset, buf);
    GrownPrefix(ledger1, v.Ledger(), h, ledger1.chains[h]);
    assert ledger1.chains[h] <= v.chains[h];
    GrownTwice(old(v.Ledger()), ledger1, v.Ledger(), h, old(v.chains[h]));
  }

  /** What a fat32_write_file call that had a chain to write to did: the chain of the file
      grew by free clusters, and the bytes written went where they belong. */
  ghost predicate FileWritten(l: Ledger, data: seq<seq<Byte>>, l': Ledger, data': seq<seq<Byte>>,
                              h: nat, before: Chain, size: nat, offset: nat, done: seq<Byte>)
  {
    Grown(l, l', h, before) && Written(data, data', l'.chains[h], size, offset, done)
  }

  /** The size fat32_write_file reports. */
  function SizeAfter(size: Word32, offset: Word32, count: int, want: nat): Word32 {
    if 0 < count == want && Wrap32(offset + count) > size then Wrap32(offset + count) else size
  }

  /** For a full write past the old end, the reported size is the end of the range exactly
      when offset plus length does not wrap. */
  lemma SizeExact(size: Word32, offset: Word32, n: nat)
    requires 0 < n < U32_LIMIT && offset + n > size
    ensures SizeAfter(size, offset, n, n) == Max(size, offset + n) <==> offset + n < U32_LIMIT
  {
  }

  /** A write that ends early, is empty, or ends within the file reports the old size. */
  lemma SizeKept(size: Word32, offset: Word32, count: int, want: nat)
    requires count != want || want == 0 || offset + want <= size
    ensures SizeAfter(size, offset, count, want) == size
  {
  }

  /** A write of 32 bytes to an empty file at offset 2^32 - 16 reports a size of 16. */
  lemma SizeWraps()
    ensures SizeAfter(0, 0xFFFF_FFF0, 32, 32) == 16
  {
  }

  /** fat32_write_file.  start and fileSize are in-out parameters of the source; the result
      is the number of bytes written, or -1. */
  method WriteFile(v: Volume, start: nat, fileSize: Word32, offset: Word32, buf: seq<Byte>)
    returns (ret: int, start': nat, fileSize': Word32)
    requires v.Consistent() && (start == 0 || start in v.chains) && |buf| < U32_LIMIT
    modifies v`disk, v`fat, v`data, v`chains, v`own
    ensures v.Consistent() && v.Untouched()
    ensures ret == -1 <==> buf != [] && start == 0 && FreeClusters(old(v.fat)) == {}
    ensures ret == -1 || buf == [] ==>
      v.Ledger() == old(v.Ledger()) && v.data == old(v.data) && start' == start
    ensures -1 <= ret <= |buf| && (0 <= ret < |buf| ==> FreeClusters(v.fat) == {})
    ensures 0 <= ret && buf != [] ==>
      && (start != 0 ==> start' == start) && (start == 0 ==> start' !in old(v.chains))
      && FileWritten(old(v.Ledger()), old(v.data), v.Ledger(), v.data, start', FileChain(old(v.chains), start),
        v.g.ClusterSize(), offset, buf[..ret])
    ensures 0 < ret == |buf| && |v.chains[start']| > |FileChain(old(v.chains), start)| ==>
      |v.chains[start']| == 1 || Pos(|v.chains[start']| - 1, v.g.ClusterSize()) < offset + ret
    ensures fileSize' == SizeAfter(fileSize, offset, ret, |buf|)
  {
    hide Accounted;
    hide Grown;
    hide Pos;
    hide Written;
    hide FreeClusters;
    hide Wrap32;
    ret, start', fileSize' := 0, start, fileSize;
    if buf == [] {
      return;
    }
    if start == 0 {
      ret, start' := WriteNewFile(v, offset, buf);
    } else {
      ret := WriteRange(v, start, offset, buf);
    }
    if ret == |buf| && Wrap32(offset + ret) > fileSize {
      fileSize' := Wrap32(offset + ret);
    }
  }

  /** fat32_write_file on a file without a chain. */
  method WriteNewFile(v: Volume, offset: nat, buf: seq<Byte>) returns (ret: int, start: nat)
    requires v.Consistent() && buf != []
    modifies v`disk, v`fat, v`data, v`chains, v`own
    ensures v.Consistent() && v.Untouched()
    ensures ret == -1 <==> FreeClusters(old(v.fat)) == {}
    ensures ret == -1 ==>
      v.Ledger() == old(v.Ledger()) && v.data == old(v.data) && start == 0
    ensures -1 <= ret <= |buf| && (0 <= ret < |buf| ==> FreeClusters(v.fat) == {})
    ensures 0 <= ret ==>
      && start !in old(v.chains)
      && FileWritten(old(v.Ledger()), old(v.data), v.Ledger(), v.data, start, [], v.g.ClusterSize(), offset, buf[..ret])
    ensures ret == |buf| ==> |v.chains[start]| == 1 || Pos(|v.chains[start]| - 1, v.g.ClusterSize()) < offset + ret
  {
    hide Accounted;
    hide Grown;
    hide Pos;
    hide Written;
    start := StartChain(v);
    if start == 0 {
      ret := -1;
      return;
    }
    hide FreeClusters;
    ghost var ledger1 := v.Ledger();
    ChainLinks(v.fat, v.chains, v.own, start);
    ret := WriteRange(v, start, offset, buf);
    GrownPrefix(ledger1, v.Ledger(), start, ledger1.chains[start]);
    GrownTwice(old(v.Ledger()), ledger1, v.Ledger(), start, []);
  }

}
