/** The step fat32_write_file and fat32_create_entry share: follow the chain, or append a
    fresh cluster when it ends. */
module Fat32Grow {
  import opened Fat32Layout
  import opened Fat32Chains
  import opened Fat32Volume

  /** The chain at h went from before to its present state by taking free clusters; every
      other chain, every other FAT slot and the set of lost clusters are as they were. */
  ghost predicate Grown(l: Ledger, l': Ledger, h: nat, before: Chain) {
    && |l'.fat| == |l.fat| == |l.own| == |l'.own|
    && h in l'.chains && before <= l'.chains[h] && l'.chains == l.chains[h := l'.chains[h]]
    && (forall i :: |before| <= i < |l'.chains[h]| ==>
      2 <= l'.chains[h][i] < |l.fat| && l.fat[l'.chains[h][i]] == CLUSTER_FREE)
    && (forall c :: 0 <= c < |l.fat| && c !in l'.chains[h] ==> l'.fat[c] == l.fat[c])
    && (forall c :: 2 <= c < |l.own| ==> (l'.own[c].Lost? <==> l.own[c].Lost?))
  }

  /** A chain that grew by one took exactly one free cluster. */
  lemma OneTaken(l: Ledger, l': Ledger, h: nat, before: Chain)
    requires Grown(l, l', h, before) && |l'.chains[h]| == |before| + 1
    requires before == if h in l.chains then l.chains[h] else []
    requires Accounted(l.fat, l.chains, l.own) && Accounted(l'.fat, l'.chains, l'.own)
    ensures |FreeClusters(l.fat)| == |FreeClusters(l'.fat)| + 1
  {
    hide Accounted;
    var ch := l'.chains[h];
    var c := ch[|before|];
    ChainLinks(l'.fat, l'.chains, l'.own, h);
    if h in l.chains { ChainLinks(l.fat, l.chains, l.own, h); }
    assert ch == before + [c];
    assert FreeClusters(l.fat) == FreeClusters(l'.fat) + {c};
  }

  lemma GrownTwice(l0: Ledger, l1: Ledger, l2: Ledger, h: nat, before: Chain)
    requires Grown(l0, l1, h, before)
    requires Grown(l1, l2, h, l1.chains[h])
    requires forall i :: 0 <= i < |l1.chains[h]| ==>
      l1.chains[h][i] < |l1.fat| && l1.fat[l1.chains[h][i]] != CLUSTER_FREE
    ensures Grown(l0, l2, h, before)
  {
    var was, now := l1.chains[h], l2.chains[h];
    assert forall c :: c in was ==> c in now;
    forall i | |before| <= i < |now|
      ensures 2 <= now[i] < |l0.fat| && l0.fat[now[i]] == CLUSTER_FREE
    {
      if i < |was| {
        assert now[i] == was[i];
      } else {
        assert now[i] !in was;
      }
    }
  }

  /** Appending a freshly started one-cluster chain to the chain at h grows h by it. */
  lemma GrownByOne(l: Ledger, l': Ledger, h: nat, last: nat, next: nat)
    requires h in l.chains && h != next && next !in l.chains && last in l.chains[h] && last < |l'.fat|
      && next < |l'.own|
    requires Grown(l, l', next, []) && l'.chains[next] == [next] && l'.own[next] == Part(next, 0)
    ensures var ch := l.chains[h];
      Grown(l, Ledger(l'.fat[last := next], (l'.chains - {next})[h := ch + [next]], l'.own[next := Part(h, |ch|)]), h,
        ch)
  {
    var ch := l.chains[h];
    assert l'.chains[next][0] == next;
    assert (l'.chains - {next})[h := ch + [next]] == l.chains[h := ch + [next]];
  }

  lemma GrownPrefix(l: Ledger, l': Ledger, h: nat, before: Chain)
    requires Grown(l, l', h, before)
    ensures h in l'.chains && before <= l'.chains[h] && l'.chains == l.chains[h := l'.chains[h]]
  {
  }

  lemma GrownSame(l: Ledger, h: nat)
    requires h in l.chains && |l.fat| == |l.own|
    ensures Grown(l, l, h, l.chains[h])
  {
    assert l.chains[h := l.chains[h]] == l.chains;
  }

  /** A chain of one fresh cluster, or nothing when the volume is full. */
  method StartChain(v: Volume) returns (cluster: nat)
    requires v.Consistent()
    modifies v`disk, v`fat, v`chains, v`own
    ensures v.Consistent() && v.Untouched()
    ensures cluster == 0 ==> FreeClusters(v.fat) == {} && v.Ledger() == old(v.Ledger()) && v.disk == old(v.disk)
    ensures cluster != 0 ==>
      && cluster in FreeClusters(old(v.fat))
      && cluster !in old(v.chains) && v.chains == old(v.chains)[cluster := [cluster]]
      && Grown(old(v.Ledger()), v.Ledger(), cluster, [])
      && cluster < |v.own| && v.own[cluster] == Part(cluster, 0)
  {
    hide Accounted;
    cluster := v.AllocCluster();
    if cluster != 0 {
      AllocateAccounted(old(v.fat), v.chains, v.own, cluster);
      v.chains := v.chains[cluster := [cluster]];
      v.own := v.own[cluster := Part(cluster, 0)];
    }
  }

  /** Next cluster after the i-th of the chain at h, appending one when i is the last. */
  method NextOrExtend(v: Volume, cluster: nat, ghost h: nat, ghost i: nat) returns (next: nat, grown: bool)
    requires v.Consistent()
    requires h in v.chains && i < |v.chains[h]| && v.chains[h][i] == cluster
    modifies v`disk, v`fat, v`chains, v`own
    ensures v.Consistent() && v.Untouched()
    ensures h in v.chains && (grown <==> i + 1 == |old(v.chains[h])|)
    ensures next == 0 ==> grown && FreeClusters(v.fat) == {}
    ensures next == 0 || !grown ==> v.Ledger() == old(v.Ledger()) && v.disk == old(v.disk)
    ensures next != 0 ==>
      && Grown(old(v.Ledger()), v.Ledger(), h, old(v.chains[h]))
      && i + 1 < |v.chains[h]| && v.chains[h][i + 1] == next
      && v.chains[h] == if grown then old(v.chains[h]) + [next] else old(v.chains[h])
  {
    hide Accounted;
    hide Grown;
    ghost var ch := v.chains[h];
    ChainLinks(v.fat, v.chains, v.own, h);
    GrownSame(v.Ledger(), h);
    next := v.NextCluster(cluster);
    grown := next == 0;
    if next == 0 || next >= CLUSTER_END {
      assert i + 1 == |ch| && ch[i] in ch;
      next := StartChain(v);
      if next != 0 {
        GrownByOne(old(v.Ledger()), v.Ledger(), h, cluster, next);
        AppendTo(v, h, cluster, next);
      }
    }
  }

  /** Set the end mark of the chain at h to point to the one-cluster chain at next. */
  method AppendTo(v: Volume, ghost h: nat, cluster: nat, next: nat)
    requires v.Consistent()
    requires h in v.chains && next in v.chains && h != next && v.chains[next] == [next]
    requires 0 < |v.chains[h]| && v.chains[h][|v.chains[h]| - 1] == cluster
    modifies v`disk, v`fat, v`chains, v`own
    ensures v.Consistent() && v.Untouched()
    ensures v.fat == old(v.fat)[cluster := next]
    ensures v.chains == (old(v.chains) - {next})[h := old(v.chains[h]) + [next]]
    ensures v.own == old(v.own)[next := Part(h, |old(v.chains[h])|)]
  {
    hide Accounted;
    hide Slot;
    hide Cluster;
    ghost var ch := v.chains[h];
    ChainLinks(v.fat, v.chains, v.own, h);
    ChainLinks(v.fat, v.chains, v.own, next);
    LinkAccounted(v.fat, v.chains, v.own, h, next);
    assert 2 <= ch[|ch| - 1] < |v.fat| && 2 <= v.chains[next][0] < |v.fat|;
    v.SetCluster(cluster, next);
    assert Accounted(v.fat, (v.chains - {next})[h := ch + [next]], v.own[next := Part(h, |ch|)]);
    v.chains := (v.chains - {next})[h := ch + [next]];
    v.own := v.own[next := Part(h, |ch|)];
  }
}
