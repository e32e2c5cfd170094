/** Reading and writing the bytes of a file, whose content is a cluster chain. */
module Fat32File {
  import opened Common
  import opened LittleEndian
  import opened Fat32Layout
  import opened Fat32Chains
  import opened Fat32Volume
  import opened Fat32Content

  /** The clusters of a file: none while its start cluster is 0. */
  ghost function FileChain(chains: map<nat, Chain>, start: nat): Chain
    requires start == 0 || start in chains
  {
    if start == 0 then [] else chains[start]
  }

  /** What walking and reading the clusters of a file relies on. */
  ghost predicate Readable(v: Volume, ch: Chain)
    reads v
  {
    && |v.fat| == |v.data| == v.g.Limit()
    && Uniform(v.data, ch, v.g.ClusterSize())
    && (forall i :: 0 <= i < |ch| ==> 2 <= ch[i])
    && (forall i {:trigger v.fat[ch[i]]} :: 0 <= i < |ch| ==> Next(v.fat[ch[i]]) == ClusterAt(ch, i + 1))
    && (forall i, j :: 0 <= i < j < |ch| ==> ch[i] != ch[j])
  }

  lemma FileReadable(v: Volume, start: nat)
    requires v.Consistent() && (start == 0 || start in v.chains)
    ensures Readable(v, FileChain(v.chains, start))
    ensures start == ClusterAt(FileChain(v.chains, start), 0)
  {
    hide Accounted;
    if start != 0 {
      var ch := v.chains[start];
      ChainLinks(v.fat, v.chains, v.own, start);
      forall i, j | 0 <= i < j < |ch|
        ensures ch[i] != ch[j]
      {
        assert v.own[ch[i]] == Part(start, i) && v.own[ch[j]] == Part(start, j);
      }
    }
  }

  /** A chain of the volume as content: in range, uniform, acyclic. */
  lemma ChainContent(v: Volume, h: nat)
    requires v.Consistent() && h in v.chains
    ensures Uniform(v.data, v.chains[h], v.g.ClusterSize())
    ensures forall i, j :: 0 <= i < j < |v.chains[h]| ==> v.chains[h][i] != v.chains[h][j]
    ensures |Content(v.data, v.chains[h])| == Pos(|v.chains[h]|, v.g.ClusterSize())
  {
    FileReadable(v, h);
    assert h != 0 by {
      ChainLinks(v.fat, v.chains, v.own, h);
    }
    ContentLength(v.data, v.chains[h], v.g.ClusterSize());
  }

  /** The last cluster of a chain appears nowhere before. */
  lemma FreshLast(v: Volume, h: nat)
    requires v.Consistent() && h in v.chains && 0 < |v.chains[h]|
    ensures v.chains[h][|v.chains[h]| - 1] !in v.chains[h][..|v.chains[h]| - 1]
  {
    hide Accounted;
    ChainContent(v, h);
  }

  // ---- Reading ----

  /** How many bytes fat32_read_file sets out to read. */
  function ClippedSize(fileSize: Word32, offset: Word32, size: Word32): nat
    requires offset < fileSize
  {
    if Wrap32(offset + size) > fileSize then fileSize - offset else size
  }

  /** The clip keeps reads inside the file exactly when offset + size does not wrap. */
  lemma ClipExact(fileSize: Word32, offset: Word32, size: Word32)
    requires offset < fileSize
    ensures ClippedSize(fileSize, offset, size) <= fileSize - offset <==> (offset as int) + size < U32_LIMIT
    ensures (offset as int) + size < U32_LIMIT ==>
      ClippedSize(fileSize, offset, size) == Min(size, fileSize - offset)
  {
  }

  /** A wrapped read request passes the clip unchanged. */
  lemma ClipWraps()
    ensures ClippedSize(100, 50, 0xFFFF_FFF0) == 0xFFFF_FFF0
  {
  }

  /** The bytes a read returns: what the chain holds from offset on, up to the clipped size. */
  ghost function ReadBack(content: seq<Byte>, offset: nat, want: nat): seq<Byte> {
    if offset <= |content| then content[offset..Min(offset + want, |content|)] else []
  }

  lemma SliceOfSlice<T>(s: seq<T>, a: nat, b: nat, c: nat, d: nat)
    requires a <= b <= |s| && c <= d <= b - a
    ensures s[a..b][c..d] == s[a + c..a + d]
  {
    forall k | 0 <= k < d - c
      ensures s[a..b][c..d][k] == s[a + c..a + d][k]
    {
    }
  }

  lemma ReadStep(content: seq<Byte>, offset: nat, out: seq<Byte>, buf: seq<Byte>, at: nat, skip: nat, n: nat)
    requires at + |buf| <= |content| && content[at..at + |buf|] == buf
    requires offset + |out| == at + skip && skip + n <= |buf|
    requires out == ReadBack(content, offset, |out|)
    ensures out + buf[skip..skip + n] == ReadBack(content, offset, |out| + n)
  {
    SliceOfSlice(content, at, at + |buf|, skip, skip + n);
  }

  lemma ReadDone(content: seq<Byte>, offset: nat, out: seq<Byte>, want: nat)
    requires out == ReadBack(content, offset, |out|) && |out| <= want
    requires |out| == want || |content| <= offset + |out|
    ensures out == ReadBack(content, offset, want)
  {
  }

  method Locate(offset: nat, size: nat) returns (index: nat, rest: nat)
    requires 0 < size
    ensures offset == Pos(index, size) + rest && rest < size
  {
    index, rest := offset / size, offset % size;
    PosDivide(offset, size);
  }

  /** Walk target links, stopping early at the end of the chain. */
  method Seek(v: Volume, start: nat, target: nat, ghost ch: Chain) returns (cluster: nat, index: nat)
    requires v.Valid() && Readable(v, ch) && start == ClusterAt(ch, 0)
    ensures index == Min(target, |ch|) && cluster == ClusterAt(ch, index)
  {
    cluster, index := start, 0;
    while index < target && cluster != 0
      invariant 0 <= index <= target && index <= |ch| && cluster == ClusterAt(ch, index)
    {
      cluster := v.NextCluster(cluster);
      index := index + 1;
    }
  }

  /** fat32_read_file, for a file whose chain starts at start (0: no chain yet). */
  method ReadFile(v: Volume, start: nat, fileSize: Word32, offset: Word32, size: Word32) returns (out: seq<Byte>)
    requires v.Consistent() && (start == 0 || start in v.chains)
    ensures Readable(v, FileChain(v.chains, start))
    ensures out == if offset >= fileSize then [] else
      ReadBack(Content(v.data, FileChain(v.chains, start)), offset, ClippedSize(fileSize, offset, size))
  {
    FileReadable(v, start);
    if offset >= fileSize {
      return [];
    }
    out := ReadChain(v, start, offset, ClippedSize(fileSize, offset, size), FileChain(v.chains, start));
  }

  /** The cluster loop of fat32_read_file. */
  method ReadChain(v: Volume, start: nat, offset: nat, want: nat, ghost ch: Chain) returns (out: seq<Byte>)
    requires v.Valid() && Readable(v, ch) && start == ClusterAt(ch, 0)
    ensures out == ReadBack(Content(v.data, ch), offset, want)
  {
    hide Content;
    hide Pos;
    out := [];
    var clusterSize := v.g.ClusterSize();
    ghost var content := Content(v.data, ch);
    ContentLength(v.data, ch, clusterSize);
    var target, rest := Locate(offset, clusterSize);
    var cluster, index := Seek(v, start, target, ch);
    if index < target {
      PosMonotone(|ch|, target, clusterSize);
    }
    while |out| < want && cluster != 0 && cluster < CLUSTER_END
      invariant index <= |ch| && cluster == ClusterAt(ch, index)
      invariant |out| <= want && (index < |ch| ==> target <= index)
      invariant out == ReadBack(content, offset, |out|)
      invariant |out| < want && target <= index ==>
        offset + |out| == Pos(index, clusterSize) + (if index == target then rest else 0)
      invariant index < target ==> |content| <= offset
      decreases |ch| - index
    {
      var ok, buf := v.ReadCluster(cluster);
      ContentBlock(v.data, ch, clusterSize, index);
      PosNext(index, clusterSize);
      var skip := if index == target then rest else 0;
      var n := Min(clusterSize - skip, want - |out|);
      ReadStep(content, offset, out, buf, Pos(index, clusterSize), skip, n);
      out := out + buf[skip..skip + n];
      cluster := v.NextCluster(cluster);
      index := index + 1;
    }
    ReadDone(content, offset, out, want);
  }
}
