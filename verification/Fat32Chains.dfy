/** Cluster chains over an abstract FAT (one link per cluster), and the account that
    says which chain, if any, owns each cluster. */
module Fat32Chains {
  import opened Fat32Layout

  type Fat = seq<nat>
  type Chain = seq<nat>

  /** fat32_next_cluster on a link value: end marks read as 0. */
  function Next(link: nat): nat {
    if link >= CLUSTER_END then 0 else link
  }

  ghost predicate IsChain(fat: Fat, ch: Chain) {
    && 0 < |ch|
    && (forall i :: 0 <= i < |ch| ==> 2 <= ch[i] < |fat|)
    && (forall i :: 0 <= i < |ch| - 1 ==> fat[ch[i]] == ch[i + 1])
    && fat[ch[|ch| - 1]] >= CLUSTER_END
  }

  /** From the clusters of reach, links lead back into reach or stop. */
  ghost predicate LinksWithin(fat: Fat, reach: set<nat>) {
    forall c :: c in reach ==> 2 <= c < |fat| && (Next(fat[c]) in reach || Next(fat[c]) < 2)
  }

  /** Two chains through the same cluster continue alike, so their tails have equal length. */
  lemma {:induction false} SharedTail(fat: Fat, a: Chain, b: Chain, i: nat, j: nat)
    requires IsChain(fat, a) && IsChain(fat, b) && |fat| <= CLUSTER_END
    requires i < |a| && j < |b| && a[i] == b[j]
    ensures a[i..] == b[j..]
    decreases |a| - i
  {
    assert i + 1 < |a| ==> fat[a[i]] == a[i + 1];
    assert j + 1 < |b| ==> fat[b[j]] == b[j + 1];
    if i + 1 < |a| && j + 1 < |b| {
      SharedTail(fat, a, b, i + 1, j + 1);
      assert a[i..] == [a[i]] + a[i + 1..];
      assert b[j..] == [b[j]] + b[j + 1..];
    }
  }

  /** A chain that reaches an end mark never repeats a cluster. */
  lemma ChainAcyclic(fat: Fat, ch: Chain)
    requires IsChain(fat, ch) && |fat| <= CLUSTER_END
    ensures forall i, j :: 0 <= i < j < |ch| ==> ch[i] != ch[j]
  {
    forall i, j | 0 <= i < j < |ch|
      ensures ch[i] != ch[j]
    {
      if ch[i] == ch[j] {
        SharedTail(fat, ch, ch, i, j);
      }
    }
  }

  // ---- Freeing ----

  ghost function FreeClusters(fat: Fat): set<nat> {
    set c: nat | 2 <= c < |fat| && fat[c] == CLUSTER_FREE
  }

  ghost function UsedClusters(fat: Fat): set<nat> {
    set c: nat | 2 <= c < |fat| && fat[c] != CLUSTER_FREE
  }

  /** What fat32_free_cluster_chain leaves of a FAT, whatever shape the links have. */
  ghost function FreeFrom(fat: Fat, c: nat): (r: Fat)
    ensures |r| == |fat|
    decreases UsedClusters(fat), if 2 <= c < |fat| then 1 else 0
  {
    if 2 <= c < CLUSTER_END && c < |fat| then
      FreeStepShrinks(fat, c);
      FreeFrom(fat[c := CLUSTER_FREE], Next(fat[c]))
    else fat
  }

  /** Each freeing step either empties a slot that was in use or is about to stop:
      that is why the walk ends even on a cyclic FAT. */
  lemma FreeStepShrinks(fat: Fat, c: nat)
    requires 2 <= c < |fat|
    ensures if fat[c] == CLUSTER_FREE then fat[c := CLUSTER_FREE] == fat && Next(fat[c]) == 0
            else UsedClusters(fat[c := CLUSTER_FREE]) < UsedClusters(fat)
  {
    var fat' := fat[c := CLUSTER_FREE];
    if fat[c] != CLUSTER_FREE {
      assert c in UsedClusters(fat) && c !in UsedClusters(fat');
    }
  }

  /** Freeing never marks a cluster as used: every slot is kept or emptied. */
  lemma {:induction false} FreeOnlyEmpties(fat: Fat, c: nat)
    ensures forall d :: 0 <= d < |fat| ==>
      FreeFrom(fat, c)[d] == fat[d] || (2 <= d && FreeFrom(fat, c)[d] == CLUSTER_FREE)
    decreases UsedClusters(fat), if 2 <= c < |fat| then 1 else 0
  {
    if 2 <= c < CLUSTER_END && c < |fat| {
      FreeStepShrinks(fat, c);
      FreeOnlyEmpties(fat[c := CLUSTER_FREE], Next(fat[c]));
    }
  }

  ghost function Cleared(fat: Fat, ch: Chain): (r: Fat)
    ensures |r| == |fat|
    ensures forall c :: 0 <= c < |fat| ==> r[c] == if c in ch then CLUSTER_FREE else fat[c]
  {
    seq(|fat|, c requires 0 <= c < |fat| => if c in ch then CLUSTER_FREE else fat[c])
  }

  /** On a chain, freeing from its head empties exactly the slots of the chain. */
  lemma FreeFromChain(fat: Fat, ch: Chain)
    requires |fat| <= CLUSTER_END && IsChain(fat, ch)
    ensures FreeFrom(fat, ch[0]) == Cleared(fat, ch)
    ensures LinksWithin(fat, set c | c in ch)
  {
    ChainCloses(fat, ch);
    hide FreeFrom, LinksWithin;
    assert Cleared(fat, []) == fat;
    assert ch[..0] == [];
    FreeFromRest(fat, ch, 0);
  }

  /** The links of a chain stay in the chain. */
  lemma ChainCloses(fat: Fat, ch: Chain)
    requires IsChain(fat, ch)
    ensures LinksWithin(fat, set c | c in ch)
  {
    hide FreeFrom, Cleared;
    forall c | c in ch
      ensures 2 <= c < |fat| && (Next(fat[c]) in ch || Next(fat[c]) < 2)
    {
      var i :| 0 <= i < |ch| && ch[i] == c;
      assert i < |ch| - 1 ==> fat[ch[i]] == ch[i + 1] && ch[i + 1] in ch;
    }
  }

  lemma {:induction false} FreeFromRest(fat: Fat, ch: Chain, i: nat)
    requires |fat| <= CLUSTER_END && IsChain(fat, ch) && i <= |ch|
    ensures FreeFrom(Cleared(fat, ch[..i]), if i < |ch| then ch[i] else 0) == Cleared(fat, ch)
    decreases |ch| - i
  {
    if i == |ch| {
      assert ch[..i] == ch;
    } else {
      var now := Cleared(fat, ch[..i]);
      ChainAcyclic(fat, ch);
      assert ch[i] !in ch[..i];
      assert ch[..i + 1] == ch[..i] + [ch[i]];
      assert now[ch[i] := CLUSTER_FREE] == Cleared(fat, ch[..i + 1]);
      FreeFromRest(fat, ch, i + 1);
    }
  }

  /** Where every link of the volume stays inside it, cycles or not, all clusters may be
      walked: fat32_free_cluster_chain ends from any start. */
  lemma AllLinksWithin(fat: Fat)
    requires 2 <= |fat| <= CLUSTER_END
    requires forall c :: 2 <= c < |fat| ==> fat[c] < |fat| || fat[c] >= CLUSTER_END
    ensures LinksWithin(fat, ClusterNumbers(|fat|))
  {
  }

  // ---- The account ----

  /** Free, in no known chain (bad or lost), or the pos-th cluster of the chain at head. */
  datatype Owner = Free | Lost | Part(head: nat, pos: nat)

  type Account = seq<Owner>

  /** The FAT with the account that explains it. */
  datatype Ledger = Ledger(fat: Fat, chains: map<nat, Chain>, own: Account)

  /** own agrees with every chain about the owner of its clusters. */
  ghost predicate Agrees(chains: map<nat, Chain>, own: Account) {
    forall h, i :: h in chains && 0 <= i < |chains[h]| ==> chains[h][i] < |own| && own[chains[h][i]] == Part(h, i)
  }

  /** A cluster said to be part of a chain is where own says it is. */
  ghost predicate Claims(chains: map<nat, Chain>, own: Account) {
    forall c :: 2 <= c < |own| && own[c].Part? ==>
      && own[c].head in chains && own[c].pos < |chains[own[c].head]|
      && chains[own[c].head][own[c].pos] == c
  }

  ghost predicate AllChains(fat: Fat, chains: map<nat, Chain>) {
    forall h :: h in chains ==> IsChain(fat, chains[h]) && chains[h][0] == h
  }

  /** Every cluster has exactly one owner, and chains is exactly what own says. */
  ghost predicate Accounted(fat: Fat, chains: map<nat, Chain>, own: Account) {
    && |own| == |fat| <= CLUSTER_END
    && (forall c :: 2 <= c < |fat| ==> (own[c].Free? <==> fat[c] == CLUSTER_FREE))
    && AllChains(fat, chains) && Claims(chains, own) && Agrees(chains, own)
  }

  /** Cluster i of ch, or 0 past its end. */
  ghost function ClusterAt(ch: Chain, i: nat): nat {
    if i < |ch| then ch[i] else 0
  }

  /** What the account says about one chain. */
  lemma ChainLinks(fat: Fat, chains: map<nat, Chain>, own: Account, h: nat)
    requires Accounted(fat, chains, own) && h in chains
    ensures |own| == |fat| && 0 < |chains[h]| && chains[h][0] == h
    ensures forall i :: 0 <= i < |chains[h]| ==> 2 <= chains[h][i] < |fat| && own[chains[h][i]] == Part(h, i)
    ensures forall i {:trigger fat[chains[h][i]]} :: 0 <= i < |chains[h]| ==>
      fat[chains[h][i]] != CLUSTER_FREE && Next(fat[chains[h][i]]) == ClusterAt(chains[h], i + 1)
  {
    var ch := chains[h];
    assert IsChain(fat, ch);
    forall i | 0 <= i < |ch|
      ensures Next(fat[ch[i]]) == ClusterAt(ch, i + 1)
    {
      assert i + 1 < |ch| ==> fat[ch[i]] == ch[i + 1];
    }
  }

  /** Chains that the account keeps apart do not meet. */
  lemma ChainsApart(l: Ledger, d: nat, h: nat)
    requires Accounted(l.fat, l.chains, l.own) && d in l.chains && h in l.chains && d != h
    ensures forall i :: 0 <= i < |l.chains[d]| ==> l.chains[d][i] !in l.chains[h]
  {
    hide Accounted;
    ChainLinks(l.fat, l.chains, l.own, d);
    ChainLinks(l.fat, l.chains, l.own, h);
    forall i, j | 0 <= i < |l.chains[d]| && 0 <= j < |l.chains[h]|
      ensures l.chains[h][j] != l.chains[d][i]
    {
      assert l.own[l.chains[h][j]] == Part(h, j) && l.own[l.chains[d][i]] == Part(d, i);
    }
  }

  /** Chains are acyclic and pairwise disjoint. */
  lemma ChainsDisjoint(fat: Fat, chains: map<nat, Chain>, own: Account)
    requires Accounted(fat, chains, own)
    ensures forall h, k, i, j | h in chains && k in chains && 0 <= i < |chains[h]| && 0 <= j < |chains[k]| ::
              chains[h][i] == chains[k][j] ==> h == k && i == j
  {
    forall h, k, i, j | h in chains && k in chains && 0 <= i < |chains[h]| && 0 <= j < |chains[k]|
        && chains[h][i] == chains[k][j]
      ensures h == k && i == j
    {
      assert own[chains[h][i]] == Part(h, i) && own[chains[k][j]] == Part(k, j);
    }
  }

  ghost function LostClusters(own: Account): set<nat> {
    set c: nat | 2 <= c < |own| && own[c].Lost?
  }

  ghost function Members(chains: map<nat, Chain>): set<nat> {
    set h, i | h in chains && 0 <= i < |chains[h]| :: chains[h][i]
  }

  ghost function TotalLength(chains: map<nat, Chain>): nat {
    if chains == map[] then 0
    else
      var h :| h in chains;
      |chains[h]| + TotalLength(chains - {h})
  }

  ghost function Elements(s: seq<nat>): set<nat> {
    set c | c in s
  }

  lemma {:induction false} DistinctCount(s: seq<nat>)
    requires forall i, j :: 0 <= i < j < |s| ==> s[i] != s[j]
    ensures |Elements(s)| == |s|
  {
    if s == [] {
      assert Elements(s) == {};
    } else {
      var n := |s| - 1;
      DistinctCount(s[..n]);
      assert s == s[..n] + [s[n]];
      assert s[n] !in s[..n];
      assert Elements(s) == Elements(s[..n]) + {s[n]};
    }
  }

  lemma MembersSplit(chains: map<nat, Chain>, h: nat)
    requires h in chains
    ensures Members(chains) == Elements(chains[h]) + Members(chains - {h})
  {
    var here, rest := Elements(chains[h]), chains - {h};
    forall c | c in Members(chains)
      ensures c in here + Members(rest)
    {
      var k, i :| k in chains && 0 <= i < |chains[k]| && chains[k][i] == c;
      if k != h {
        assert rest[k][i] == c;
      }
    }
    forall c | c in here + Members(rest)
      ensures c in Members(chains)
    {
      if c in here {
        var i :| 0 <= i < |chains[h]| && chains[h][i] == c;
      } else {
        var k, i :| k in rest && 0 <= i < |rest[k]| && rest[k][i] == c;
        assert chains[k][i] == c;
      }
    }
  }

  lemma AgreesDisjoint(chains: map<nat, Chain>, own: Account, h: nat)
    requires Agrees(chains, own) && h in chains
    ensures Agrees(chains - {h}, own)
    ensures Elements(chains[h]) !! Members(chains - {h})
    ensures |Elements(chains[h])| == |chains[h]|
  {
    var ch := chains[h];
    forall i, j | 0 <= i < j < |ch|
      ensures ch[i] != ch[j]
    {
      assert own[ch[i]] == Part(h, i) && own[ch[j]] == Part(h, j);
    }
    DistinctCount(ch);
    forall c | c in Elements(ch)
      ensures c !in Members(chains - {h})
    {
      var i :| 0 <= i < |ch| && ch[i] == c;
      assert own[c] == Part(h, i);
    }
  }

  lemma {:induction false} MembersCount(chains: map<nat, Chain>, own: Account)
    requires Agrees(chains, own)
    ensures |Members(chains)| == TotalLength(chains)
  {
    if chains == map[] {
      assert Members(chains) == {};
    } else {
      var h :| h in chains && TotalLength(chains) == |chains[h]| + TotalLength(chains - {h});
      AgreesDisjoint(chains, own, h);
      MembersCount(chains - {h}, own);
      MembersSplit(chains, h);
    }
  }

  /** The cluster numbers of a volume whose FAT has n slots. */
  ghost function ClusterNumbers(n: nat): (r: set<nat>)
    requires 2 <= n
    ensures forall c :: c in r <==> 2 <= c < n
    ensures |r| == n - 2
  {
    if n == 2 then {} else ClusterNumbers(n - 1) + {n - 1}
  }

  /** Free, lost and owned clusters split the cluster numbers three ways. */
  lemma SplitCount(fat: Fat, own: Account, mem: set<nat>)
    requires |own| == |fat| >= 2
    requires forall c :: 2 <= c < |fat| ==> (own[c].Free? <==> fat[c] == CLUSTER_FREE)
    requires forall c :: c in mem <==> 2 <= c < |fat| && own[c].Part?
    ensures |FreeClusters(fat)| + |mem| + |LostClusters(own)| == |fat| - 2
  {
    var free, lost, all := FreeClusters(fat), LostClusters(own), ClusterNumbers(|fat|);
    assert all == free + lost + mem;
    assert free !! lost && free + lost !! mem;
    assert |free + lost| == |free| + |lost|;
  }

  /** A cluster is a member of a chain exactly when the account says so. */
  lemma MembersOwned(fat: Fat, chains: map<nat, Chain>, own: Account, c: nat)
    requires Accounted(fat, chains, own)
    ensures c in Members(chains) <==> 2 <= c < |fat| && own[c].Part?
  {
    if c in Members(chains) {
      var h, i :| h in chains && 0 <= i < |chains[h]| && chains[h][i] == c;
      assert own[c] == Part(h, i);
      assert IsChain(fat, chains[h]);
    }
    if 2 <= c < |fat| && own[c].Part? {
      assert chains[own[c].head][own[c].pos] == c;
    }
  }

  /** Conservation: free clusters, chain lengths and lost clusters add up to the volume. */
  lemma Conservation(fat: Fat, chains: map<nat, Chain>, own: Account)
    requires Accounted(fat, chains, own) && 2 <= |fat|
    ensures |FreeClusters(fat)| + TotalLength(chains) + |LostClusters(own)| == |fat| - 2
  {
    MembersCount(chains, own);
    forall c
      ensures c in Members(chains) <==> 2 <= c < |fat| && own[c].Part?
    {
      if c >= 0 {
        MembersOwned(fat, chains, own, c);
      }
    }
    SplitCount(fat, own, Members(chains));
  }

  /** Taking a free cluster makes it a chain of its own. */
  lemma AllocateAccounted(fat: Fat, chains: map<nat, Chain>, own: Account, c: nat)
    requires Accounted(fat, chains, own) && 2 <= c < |fat| && fat[c] == CLUSTER_FREE
    ensures c !in chains && own[c].Free?
    ensures Accounted(fat[c := END_MARK], chains[c := [c]], own[c := Part(c, 0)])
  {
    var fat', chains', own' := fat[c := END_MARK], chains[c := [c]], own[c := Part(c, 0)];
    forall h, i | h in chains && 0 <= i < |chains[h]|
      ensures chains[h][i] != c
    {
      assert own[chains[h][i]] == Part(h, i);
    }
    assert forall h :: h in chains ==> chains[h][0] == h;
    forall h | h in chains'
      ensures IsChain(fat', chains'[h])
    {
      assert h != c ==> IsChain(fat, chains[h]);
    }
  }

  /** Hanging a one-cluster chain after the last cluster of another. */
  lemma LinkAccounted(fat: Fat, chains: map<nat, Chain>, own: Account, h: nat, c: nat)
    requires Accounted(fat, chains, own)
    requires h in chains && c in chains && h != c && chains[c] == [c]
    ensures var ch := chains[h];
      Accounted(fat[ch[|ch| - 1] := c], (chains - {c})[h := ch + [c]], own[c := Part(h, |ch|)])
  {
    ChainLinks(fat, chains, own, h);
    ChainLinks(fat, chains, own, c);
    LinkedChains(fat, chains, own, h, c);
    LinkedAccount(chains, own, h, c);
    hide IsChain;
    hide AllChains;
    hide Claims;
    hide Agrees;
    assert own[chains[c][0]] == Part(c, 0);
    assert own[chains[h][|chains[h]| - 1]].Part?;
  }

  lemma LinkedAccount(chains: map<nat, Chain>, own: Account, h: nat, c: nat)
    requires Claims(chains, own) && Agrees(chains, own) && c < |own|
    requires h in chains && c in chains && h != c && chains[c] == [c]
    ensures Claims((chains - {c})[h := chains[h] + [c]], own[c := Part(h, |chains[h]|)])
    ensures Agrees((chains - {c})[h := chains[h] + [c]], own[c := Part(h, |chains[h]|)])
  {
    var ch := chains[h];
    var chains', own' := (chains - {c})[h := ch + [c]], own[c := Part(h, |ch|)];
    assert own[chains[c][0]] == Part(c, 0);
    forall k, i | k in chains' && 0 <= i < |chains'[k]|
      ensures chains'[k][i] < |own'| && own'[chains'[k][i]] == Part(k, i)
    {
      if k != h || i < |ch| {
        assert own[chains[k][i]] == Part(k, i);
      }
    }
    forall d | 2 <= d < |own'| && own'[d].Part?
      ensures own'[d].head in chains' && own'[d].pos < |chains'[own'[d].head]|
        && chains'[own'[d].head][own'[d].pos] == d
    {
      if d != c {
        assert chains[own[d].head][own[d].pos] == d;
        assert own[d].head != c;
      }
    }
  }

  lemma KeptChain(fat: Fat, ch: Chain, last: nat, c: nat)
    requires IsChain(fat, ch) && last < |fat| && last !in ch
    ensures IsChain(fat[last := c], ch)
  {
  }

  lemma ExtendedChain(fat: Fat, ch: Chain, c: nat)
    requires IsChain(fat, ch) && IsChain(fat, [c]) && c != ch[|ch| - 1] && ch[|ch| - 1] !in ch[..|ch| - 1]
    ensures IsChain(fat[ch[|ch| - 1] := c], ch + [c])
  {
    assert [c][0] == c;
    forall i | 0 <= i < |ch|
      ensures fat[ch[|ch| - 1] := c][(ch + [c])[i]] == (ch + [c])[i + 1]
    {
      if i < |ch| - 1 {
        assert ch[i] == ch[..|ch| - 1][i] && fat[ch[i]] == ch[i + 1];
      }
    }
  }

  lemma LinkedChains(fat: Fat, chains: map<nat, Chain>, own: Account, h: nat, c: nat)
    requires Accounted(fat, chains, own)
    requires h in chains && c in chains && h != c && chains[c] == [c]
    ensures 0 < |chains[h]| && 2 <= chains[h][|chains[h]| - 1] < |fat|
    ensures AllChains(fat[chains[h][|chains[h]| - 1] := c], (chains - {c})[h := chains[h] + [c]])
  {
    var ch := chains[h];
    var n := |ch| - 1;
    assert IsChain(fat, ch) && IsChain(fat, chains[c]);
    assert own[ch[n]] == Part(h, n) && own[chains[c][0]] == Part(c, 0);
    ExtendedChain(fat, ch, c);
    hide IsChain;
    forall k | k in chains && k != c && k != h
      ensures IsChain(fat[ch[n] := c], chains[k]) && chains[k][0] == k
    {
      KeptChain(fat, chains[k], ch[n], c);
    }
  }

  ghost function Release(own: Account, h: nat): (r: Account)
    ensures |r| == |own|
    ensures forall c :: 0 <= c < |own| ==> r[c] == if own[c].Part? && own[c].head == h then Free else own[c]
  {
    seq(|own|, c requires 0 <= c < |own| => if own[c].Part? && own[c].head == h then Free else own[c])
  }

  /** Clearing a whole chain returns its clusters to the free pool and touches no other chain. */
  lemma FreeAccounted(fat: Fat, chains: map<nat, Chain>, own: Account, h: nat)
    requires Accounted(fat, chains, own) && h in chains
    ensures Accounted(Cleared(fat, chains[h]), chains - {h}, Release(own, h))
  {
    var ch := chains[h];
    var fat', chains', own' := Cleared(fat, ch), chains - {h}, Release(own, h);
    forall c | 2 <= c < |fat|
      ensures c in ch <==> own[c].Part? && own[c].head == h
    {
      if c in ch {
        var i :| 0 <= i < |ch| && ch[i] == c;
        assert own[ch[i]] == Part(h, i);
      }
    }
    forall k | k in chains'
      ensures IsChain(fat', chains'[k]) && chains'[k][0] == k
    {
      assert IsChain(fat, chains[k]);
      forall i | 0 <= i < |chains[k]|
        ensures chains[k][i] !in ch
      {
        assert own[chains[k][i]] == Part(k, i);
      }
    }
    forall k, i | k in chains' && 0 <= i < |chains'[k]|
      ensures own'[chains'[k][i]] == Part(k, i)
    {
      assert own[chains[k][i]] == Part(k, i);
    }
  }
}
