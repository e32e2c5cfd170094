/** What a write means for files, seen as byte strings. */
module Fat32FileLaws {
  import opened Common
  import opened LittleEndian
  import opened Fat32Chains
  import opened Fat32Content
  import opened Fat32File
  import opened Fat32Write

  /** The bytes of a file: the first fileSize bytes of its chain. */
  ghost function FileBytes(data: seq<seq<Byte>>, ch: Chain, fileSize: nat): seq<Byte>
    requires forall i :: 0 <= i < |ch| ==> ch[i] < |data|
    requires fileSize <= |Content(data, ch)|
  {
    Content(data, ch)[..fileSize]
  }

  /** s with its bytes from at on replaced by b, growing when b reaches past the end. */
  function Overwrite(s: seq<Byte>, at: nat, b: seq<Byte>): (r: seq<Byte>)
    requires at <= |s|
    ensures |r| == Max(|s|, at + |b|)
  {
    s[..at] + b + (if at + |b| <= |s| then s[at + |b|..] else [])
  }

  lemma OverwriteBytes(s: seq<Byte>, at: nat, b: seq<Byte>)
    requires at <= |s|
    ensures forall i :: 0 <= i < |Overwrite(s, at, b)| ==>
      Overwrite(s, at, b)[i] == if at <= i < at + |b| then b[i - at] else s[i]
  {
  }

  lemma {:induction false} ContentPrefix(data: seq<seq<Byte>>, a: Chain, b: Chain)
    requires a <= b && forall i :: 0 <= i < |b| ==> b[i] < |data|
    ensures Content(data, a) <= Content(data, b)
  {
    if a != b {
      ContentPrefix(data, a, b[..|b| - 1]);
    } else {
      assert a == b;
    }
  }

  /** A write at an offset inside the file or at its end replaces exactly that range, and
      the new size is the larger of the old size and the end of the range. */
  lemma WriteReplacesRange(data: seq<seq<Byte>>, data': seq<seq<Byte>>, before: Chain, ch: Chain, size: nat,
                           fileSize: nat, offset: nat, piece: seq<Byte>)
    requires Written(data, data', ch, size, offset, piece) && piece != [] && before <= ch
    requires fileSize <= |Content(data, before)| && offset <= fileSize
    ensures Max(fileSize, offset + |piece|) <= |Content(data', ch)|
    ensures FileBytes(data', ch, Max(fileSize, offset + |piece|)) ==
      Overwrite(FileBytes(data, before, fileSize), offset, piece)
  {
    hide Content;
    ContentPrefix(data, before, ch);
    var full, now := Content(data, ch), Content(data', ch);
    var was := FileBytes(data, before, fileSize);
    assert was == full[..fileSize];
    var n := Max(fileSize, offset + |piece|);
    var want := Overwrite(was, offset, piece);
    forall i | 0 <= i < n
      ensures now[..n][i] == want[i]
    {
      assert want[i] == if i < offset then full[i] else if i < offset + |piece| then piece[i - offset] else full[i];
    }
  }

  /** Reading back the range just written returns the bytes written, with the size
      fat32_write_file reports. */
  lemma ReadAfterWrite(data: seq<seq<Byte>>, data': seq<seq<Byte>>, ch: Chain, size: nat,
                       fileSize: Word32, offset: Word32, piece: seq<Byte>)
    requires Written(data, data', ch, size, offset, piece) && piece != [] && (offset as int) + |piece| < U32_LIMIT
    ensures var fileSize' := if Wrap32(offset + |piece|) > fileSize then Wrap32(offset + |piece|) else fileSize;
      && offset < fileSize'
      && ReadBack(Content(data', ch), offset, ClippedSize(fileSize', offset, |piece|)) == piece
  {
    hide Content;
    assert Splice(Content(data, ch), offset, piece)[offset..(offset as int) + |piece|] == piece;
  }

  /** A write changes no FAT slot and no byte of any other chain. */
  lemma OtherFilesKept(l: Ledger, data: seq<seq<Byte>>, l': Ledger, data': seq<seq<Byte>>,
                       h: nat, before: Chain, size: nat, offset: nat, done: seq<Byte>, k: nat)
    requires FileWritten(l, data, l', data', h, before, size, offset, done)
    requires Accounted(l'.fat, l'.chains, l'.own) && |l'.fat| == |data| && k in l.chains && k != h
    ensures k in l'.chains && l'.chains[k] == l.chains[k]
    ensures forall i :: 0 <= i < |l.chains[k]| ==>
      l.chains[k][i] < |data| && l'.fat[l.chains[k][i]] == l.fat[l.chains[k][i]]
    ensures Content(data', l.chains[k]) == Content(data, l.chains[k])
  {
    hide Accounted;
    ChainLinks(l'.fat, l'.chains, l'.own, k);
    ChainsApart(l', k, h);
    ContentAgree(data, data', l.chains[k]);
  }

  /** However a write ends, the old clusters of the file come first, in order, in its chain,
      and no cluster is created or lost. */
  lemma WriteConserves(l: Ledger, data: seq<seq<Byte>>, l': Ledger, data': seq<seq<Byte>>,
                       h: nat, before: Chain, size: nat, offset: nat, done: seq<Byte>)
    requires FileWritten(l, data, l', data', h, before, size, offset, done) && 2 <= |l.fat|
    requires Accounted(l.fat, l.chains, l.own) && Accounted(l'.fat, l'.chains, l'.own)
    ensures before <= l'.chains[h]
    ensures |FreeClusters(l'.fat)| + TotalLength(l'.chains) == |FreeClusters(l.fat)| + TotalLength(l.chains)
  {
    Conservation(l.fat, l.chains, l.own);
    Conservation(l'.fat, l'.chains, l'.own);
    assert LostClusters(l'.own) == LostClusters(l.own);
  }
}
