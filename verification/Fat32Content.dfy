/** What a cluster chain stores, as one sequence: bytes for files, entries for directories. */
module Fat32Content {
  import opened LittleEndian
  import opened Fat32Chains

  /** The clusters of a chain, end to end. */
  ghost function Content<T>(data: seq<seq<T>>, ch: Chain): seq<T>
    requires forall i :: 0 <= i < |ch| ==> ch[i] < |data|
  {
    if ch == [] then [] else Content(data, ch[..|ch| - 1]) + data[ch[|ch| - 1]]
  }

  ghost predicate Uniform<T>(data: seq<seq<T>>, ch: Chain, size: nat) {
    forall i :: 0 <= i < |ch| ==> ch[i] < |data| && |data[ch[i]]| == size
  }

  /** Where block i of size bytes starts. */
  ghost function Pos(i: nat, size: nat): nat {
    i * size
  }

  lemma PosNext(i: nat, size: nat)
    ensures Pos(0, size) == 0 && Pos(i + 1, size) == Pos(i, size) + size
  {
  }

  lemma PosMonotone(i: nat, j: nat, size: nat)
    requires i <= j
    ensures Pos(i, size) <= Pos(j, size)
  {
  }

  /** An offset is a whole number of blocks and a rest. */
  lemma PosDivide(offset: nat, size: nat)
    requires 0 < size
    ensures offset == Pos(offset / size, size) + offset % size && offset % size < size
  {
  }

  lemma {:induction false} ContentLength<T>(data: seq<seq<T>>, ch: Chain, size: nat)
    requires Uniform(data, ch, size)
    ensures |Content(data, ch)| == Pos(|ch|, size)
  {
    if ch != [] {
      ContentLength(data, ch[..|ch| - 1], size);
      PosNext(|ch| - 1, size);
    }
  }

  lemma ContentExtend<T>(data: seq<seq<T>>, ch: Chain, c: nat)
    requires forall i :: 0 <= i < |ch| ==> ch[i] < |data|
    requires c < |data|
    ensures Content(data, ch + [c]) == Content(data, ch) + data[c]
  {
    assert (ch + [c])[..|ch|] == ch;
  }

  /** Cluster i of a chain is the i-th block of its content. */
  lemma {:induction false} ContentBlock<T>(data: seq<seq<T>>, ch: Chain, size: nat, i: nat)
    requires Uniform(data, ch, size) && i < |ch|
    ensures |Content(data, ch)| == Pos(|ch|, size) && Pos(i, size) + size <= Pos(|ch|, size)
    ensures Content(data, ch)[Pos(i, size)..Pos(i, size) + size] == data[ch[i]]
  {
    var n := |ch| - 1;
    ContentLength(data, ch, size);
    ContentLength(data, ch[..n], size);
    PosNext(n, size);
    if i < n {
      ContentBlock(data, ch[..n], size, i);
    }
  }

  lemma {:induction false} ContentAgree<T>(data: seq<seq<T>>, data': seq<seq<T>>, ch: Chain)
    requires forall i :: 0 <= i < |ch| ==> ch[i] < |data| && ch[i] < |data'| && data'[ch[i]] == data[ch[i]]
    ensures Content(data', ch) == Content(data, ch)
  {
    if ch != [] {
      ContentAgree(data, data', ch[..|ch| - 1]);
    }
  }

  /** Rewriting one cluster of an acyclic chain replaces one block of the content. */
  lemma {:induction false} ContentUpdate<T>(data: seq<seq<T>>, ch: Chain, size: nat, i: nat, b: seq<T>)
    requires Uniform(data, ch, size) && i < |ch| && |b| == size
    requires forall j, k :: 0 <= j < k < |ch| ==> ch[j] != ch[k]
    ensures |Content(data, ch)| == Pos(|ch|, size) && Pos(i, size) + size <= Pos(|ch|, size)
    ensures Content(data[ch[i] := b], ch) == Splice(Content(data, ch), Pos(i, size), b)
  {
    hide Pos;
    var n := |ch| - 1;
    ContentBlock(data, ch, size, i);
    ContentLength(data, ch[..n], size);
    PosNext(n, size);
    var data' := data[ch[i] := b];
    assert Content(data', ch) == Content(data', ch[..n]) + data'[ch[n]];
    if i < n {
      ContentUpdate(data, ch[..n], size, i, b);
      assert ch[..n][i] == ch[i] && data'[ch[n]] == data[ch[n]];
      ContentLength(data, ch[..n], size);
      PosMonotone(i + 1, n, size);
      PosNext(i, size);
      SpliceAppend(Content(data, ch[..n]), Pos(i, size), b, data[ch[n]]);
    } else {
      ContentAgree(data, data', ch[..n]);
    }
  }

  // ---- Splicing ----

  lemma SpliceInBlock<T>(s: seq<T>, at: nat, size: nat, skip: nat, b: seq<T>)
    requires at + size <= |s| && skip + |b| <= size
    ensures Splice(s, at, Splice(s[at..at + size], skip, b)) == Splice(s, at + skip, b)
  {
  }

  lemma SpliceAdjacent<T>(s: seq<T>, at: nat, a: seq<T>, b: seq<T>)
    requires at + |a| + |b| <= |s|
    ensures Splice(Splice(s, at, a), at + |a|, b) == Splice(s, at, a + b)
  {
  }

  lemma SpliceAppend<T>(s: seq<T>, at: nat, a: seq<T>, z: seq<T>)
    requires at + |a| <= |s|
    ensures Splice(s + z, at, a) == Splice(s, at, a) + z
  {
  }

}
