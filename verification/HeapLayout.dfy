/** The kernel heap as a sequence of blocks in address order, and the arithmetic of
    requests.  Blocks do not tile the heap: expanding it leaves gaps at page ends. */
module HeapLayout {
  import opened Common
  import opened LittleEndian

  const HEADER := 24
  const GUARD_SIZE := 4
  const MIN_SIZE := 16
  const MAX_REQUEST := 0xFFFF_FFEC

  datatype Status = Free | Live(user: nat)
  datatype Block = Block(addr: nat, size: nat, status: Status)

  /** ALIGN_UP for a power of two, in 32-bit arithmetic. */
  function AlignUp(x: int, align: nat): Word32
    requires 0 < align < U32_LIMIT
  {
    var y := Wrap32(x + (align - 1));
    y - y % align
  }

  /** The payload size kmalloc reserves for a request. */
  function Reserved(size: Word32): nat {
    var s := AlignUp(Wrap32(size + GUARD_SIZE), 16);
    if s < MIN_SIZE then MIN_SIZE else s
  }

  /** The reservation holds the request and its guard word exactly when the rounding does
      not wrap. */
  lemma ReservedFits(size: Word32)
    ensures (size as int) + GUARD_SIZE <= Reserved(size) <==> size <= MAX_REQUEST
    ensures size <= MAX_REQUEST ==> Reserved(size) < (size as int) + GUARD_SIZE + 16 && Reserved(size) % 16 == 0
  {
    var w: int := Wrap32(size + GUARD_SIZE);
    if size <= MAX_REQUEST {
      WrapSmall(size + GUARD_SIZE);
      WrapSmall(w + 15);
      Sixteenths(w + 15);
    } else {
      assert w < 16 || w >= 0xFFFF_FFF1;
      Sixteenths(Wrap32(w + 15));
    }
    hide AlignUp;
    assert Reserved(size) == if AlignUp(w, 16) < MIN_SIZE then MIN_SIZE else AlignUp(w, 16);
  }

  lemma Sixteenths(y: nat)
    ensures (y - y % 16) % 16 == 0 && y - 16 < y - y % 16 <= y
  {
  }

  lemma ReservedWraps()
    ensures Reserved(0xFFFF_FFF0) == 16
  {
  }

  /** The size kmalloc_aligned asks kmalloc for. */
  function AlignedTotal(size: Word32, alignment: Word32): Word32 {
    Wrap32(Wrap32(size + alignment) + 4)
  }

  /** That reservation holds the range, the room to align it and the guard word exactly when
      neither the sum nor the rounding wraps. */
  lemma AlignedFits(size: Word32, alignment: Word32)
    ensures (size as int) + alignment + 4 + GUARD_SIZE <= Reserved(AlignedTotal(size, alignment)) <==>
            (size as int) + alignment + 4 <= MAX_REQUEST
  {
    var sum := (size as int) + alignment + 4;
    assert sum <= MAX_REQUEST ==> AlignedTotal(size, alignment) == sum;
    ReservedFits(AlignedTotal(size, alignment));
  }

  /** A sum that wraps: nearly 4 GB at a page boundary get a block of 16 bytes. */
  lemma AlignedWraps()
    ensures AlignedTotal(0xFFFF_F000, PAGE) == 4 && Reserved(AlignedTotal(0xFFFF_F000, PAGE)) == 16
  {
  }

  /** heap_expand's new end is past the bytes asked for exactly when the sum does not wrap. */
  lemma ExpandExact(end: Word32, size: Word32)
    ensures (end as int) + size <= AlignUp(Wrap32(end + size), PAGE) <==> (end as int) + size + PAGE - 1 < U32_LIMIT
  {
  }

  /** A request that fits the wrap-free bound of ReservedFits can still wrap the heap's end
      around to the first page. */
  lemma ExpandWraps()
    ensures 0x2FC0_0000 <= MAX_REQUEST
    ensures AlignUp(Wrap32(0xD040_0000 + (HEADER + Reserved(0x2FC0_0000))), PAGE) == PAGE
  {
    assert Reserved(0x2FC0_0000) == 0x2FC0_0010;
    assert Wrap32(0x1_0000_0028) == 0x28;
  }

  // ---- Layout ----

  function End(b: Block): nat {
    b.addr + HEADER + b.size
  }

  /** Blocks lie in [lo, hi), one after another, perhaps with gaps. */
  ghost predicate Laid(bs: seq<Block>, lo: nat, hi: nat) {
    && (forall i :: 0 <= i < |bs| ==> lo <= bs[i].addr && End(bs[i]) <= hi)
    && (forall i, j :: 0 <= i < j < |bs| ==> End(bs[i]) <= bs[j].addr)
  }

  /** No two neighbours are both free. */
  ghost predicate Coalesced(bs: seq<Block>) {
    forall i :: 0 <= i < |bs| - 1 ==> bs[i].status.Live? || bs[i + 1].status.Live?
  }

  /** Live blocks hold their user's bytes and the guard word. */
  ghost predicate Roomy(bs: seq<Block>) {
    forall i :: 0 <= i < |bs| && bs[i].status.Live? ==>
      0 < bs[i].status.user && bs[i].status.user + GUARD_SIZE <= bs[i].size
  }

  /** Extents, headers included, are pairwise disjoint; so are user areas with their guards. */
  lemma ExtentsDisjoint(bs: seq<Block>, lo: nat, hi: nat, i: nat, j: nat, p: nat)
    requires Laid(bs, lo, hi) && Roomy(bs) && i < |bs| && j < |bs|
    requires bs[i].addr <= p < End(bs[i]) && bs[j].addr <= p < End(bs[j])
    ensures i == j && lo <= p < hi
    ensures bs[i].status.Live? ==> bs[i].addr + HEADER + bs[i].status.user + GUARD_SIZE <= End(bs[i]) <= hi
  {
  }

  // ---- Counting ----

  ghost function LiveCount(bs: seq<Block>): nat {
    if bs == [] then 0 else LiveCount(bs[..|bs| - 1]) + (if bs[|bs| - 1].status.Live? then 1 else 0)
  }

  ghost function LiveBytes(bs: seq<Block>): nat {
    if bs == [] then 0
    else LiveBytes(bs[..|bs| - 1]) + (if bs[|bs| - 1].status.Live? then bs[|bs| - 1].status.user else 0)
  }

  lemma {:induction false} CountAppend(a: seq<Block>, b: seq<Block>)
    ensures LiveCount(a + b) == LiveCount(a) + LiveCount(b)
    ensures LiveBytes(a + b) == LiveBytes(a) + LiveBytes(b)
  {
    if b == [] {
      assert a + b == a;
    } else {
      assert (a + b)[..|a + b| - 1] == a + b[..|b| - 1];
      CountAppend(a, b[..|b| - 1]);
    }
  }

  lemma CountOne(b: Block)
    ensures LiveCount([b]) == if b.status.Live? then 1 else 0
    ensures LiveBytes([b]) == if b.status.Live? then b.status.user else 0
  {
    assert [b][..0] == [];
  }

  /** Live bytes fit between the bounds: the byte counter never wraps. */
  lemma {:induction false} BytesFit(bs: seq<Block>, lo: nat, hi: nat)
    requires Laid(bs, lo, hi) && Roomy(bs)
    ensures LiveBytes(bs) + 28 * LiveCount(bs) <= (if bs == [] then 0 else End(bs[|bs| - 1]) - lo)
  {
    if bs != [] {
      var n := |bs| - 1;
      BytesFit(bs[..n], lo, hi);
      assert n > 0 ==> End(bs[n - 1]) <= bs[n].addr;
    }
  }

  // ---- Allocation ----

  /** The first free block of at least need bytes, or |bs|. */
  function FirstFit(bs: seq<Block>, need: nat, i: nat): (k: nat)
    requires i <= |bs|
    ensures i <= k <= |bs|
    decreases |bs| - i
  {
    if i == |bs| || (bs[i].status.Free? && need <= bs[i].size) then i else FirstFit(bs, need, i + 1)
  }

  /** First fit is the lowest-address free block that fits, and finds one if there is one. */
  lemma FirstFitLowest(bs: seq<Block>, lo: nat, hi: nat, need: nat)
    requires Laid(bs, lo, hi)
    ensures var k := FirstFit(bs, need, 0);
      && (k < |bs| ==> bs[k].status.Free? && need <= bs[k].size)
      && forall j :: 0 <= j < |bs| && bs[j].status.Free? && need <= bs[j].size ==> k < |bs| && bs[k].addr <= bs[j].addr
  {
    FirstFitSkips(bs, need, 0);
  }

  lemma {:induction false} FirstFitSkips(bs: seq<Block>, need: nat, i: nat)
    requires i <= |bs|
    ensures var k := FirstFit(bs, need, i);
      && (k < |bs| ==> bs[k].status.Free? && need <= bs[k].size)
      && forall j :: i <= j < k ==> !(bs[j].status.Free? && need <= bs[j].size)
    decreases |bs| - i
  {
    if i < |bs| && !(bs[i].status.Free? && need <= bs[i].size) {
      FirstFitSkips(bs, need, i + 1);
    }
  }

  predicate Splits(b: Block, need: nat) {
    need + HEADER + MIN_SIZE <= b.size
  }

  /** Block k goes live; what it does not need becomes a free block if big enough. */
  function Carve(bs: seq<Block>, k: nat, need: nat, user: nat): seq<Block>
    requires k < |bs|
  {
    var b := bs[k];
    if Splits(b, need) then
      bs[..k]
        + [Block(b.addr, need, Live(user)), Block(b.addr + HEADER + need, b.size - need - HEADER, Free)] + bs[k + 1..]
    else bs[k := Block(b.addr, b.size, Live(user))]
  }

  /** Block k served a request, in numbers: it is cut to need bytes exactly when at least 40 are
      left, and then the rest is a free block right behind it; the others stay. */
  ghost predicate Served(bs: seq<Block>, cs: seq<Block>, k: nat, need: nat, user: nat) {
    && k < |bs| <= |cs| <= |bs| + 1 && (|cs| == |bs| + 1 <==> need + 40 <= bs[k].size)
    && cs[k] == Block(bs[k].addr, if need + 40 <= bs[k].size then need else bs[k].size, Live(user))
    && (need + 40 <= bs[k].size ==> cs[k + 1] == Block(bs[k].addr + 24 + need, bs[k].size - need - 24, Free))
    && (forall i :: 0 <= i < k ==> cs[i] == bs[i])
    && (forall i :: k < i < |bs| ==> cs[i + |cs| - |bs|] == bs[i])
  }

  lemma CarveServes(bs: seq<Block>, k: nat, need: nat, user: nat)
    requires k < |bs|
    ensures Served(bs, Carve(bs, k, need, user), k, need, user)
  {
  }

  /** Two requests for which one free block has room, headers included, and for which it is the
      first that fits, are served from it one behind the other. */
  lemma ServedTwice(bs: seq<Block>, cs: seq<Block>, k: nat, need: nat, user: nat, next: nat)
    requires Served(bs, cs, k, need, user) && FirstFit(bs, next, 0) == k
    requires need + 24 + next <= bs[k].size && 16 <= next
    ensures FirstFit(cs, next, 0) == k + 1 < |cs| && cs[k + 1].addr == bs[k].addr + 24 + need
  {
    FirstFitSkips(bs, next, 0);
    FirstFitIs(cs, next, k + 1, 0);
  }

  lemma {:induction false} FirstFitIs(bs: seq<Block>, need: nat, k: nat, i: nat)
    requires i <= k < |bs| && bs[k].status.Free? && need <= bs[k].size
    requires forall j :: i <= j < k ==> !(bs[j].status.Free? && need <= bs[j].size)
    ensures FirstFit(bs, need, i) == k
    decreases k - i
  {
    if i < k { FirstFitIs(bs, need, k, i + 1); }
  }

  /** What kmalloc reserves: the next multiple of 16 that holds the request and four bytes. */
  lemma ReservedIs(size: Word32)
    requires 0 < size <= 0xFFFF_FFEC
    ensures Reserved(size) % 16 == 0 && size as int + 4 <= Reserved(size)
      && (Reserved(size) == 16 || Reserved(size) < size as int + 20)
  {
    ReservedFits(size);
  }

  lemma CarveKeeps(bs: seq<Block>, lo: nat, hi: nat, k: nat, need: nat, user: nat)
    requires Laid(bs, lo, hi) && Coalesced(bs) && Roomy(bs)
    requires k < |bs| && bs[k].status.Free? && need <= bs[k].size && 0 < user && user + GUARD_SIZE <= need
    ensures Laid(Carve(bs, k, need, user), lo, hi) && Coalesced(Carve(bs, k, need, user))
      && Roomy(Carve(bs, k, need, user))
    ensures LiveCount(Carve(bs, k, need, user)) == LiveCount(bs) + 1
    ensures LiveBytes(Carve(bs, k, need, user)) == LiveBytes(bs) + user
  {
    CarveLaid(bs, lo, hi, k, need, user);
    CarveCounts(bs, k, need, user);
    var cs := Carve(bs, k, need, user);
    assert k > 0 ==> bs[k - 1].status.Live?;
    forall i | 0 <= i < |cs| - 1
      ensures cs[i].status.Live? || cs[i + 1].status.Live?
    {
      if i > k {
        if Splits(bs[k], need) {
          assert cs[i + 1] == bs[i];
          assert bs[i - 1].status.Live? || bs[i].status.Live?;
          assert i > k + 1 ==> cs[i] == bs[i - 1];
        } else {
          assert cs[i] == bs[i] && cs[i + 1] == bs[i + 1];
        }
      } else if i < k - 1 {
        assert cs[i] == bs[i] && cs[i + 1] == bs[i + 1];
      }
    }
  }

  /** n blocks from k on replaced by mid. */
  function Replaced(bs: seq<Block>, k: nat, n: nat, mid: seq<Block>): seq<Block>
    requires k + n <= |bs|
  {
    bs[..k] + mid + bs[k + n..]
  }

  /** Replacing blocks by blocks within the same extent keeps the layout. */
  lemma ReplacedLaid(bs: seq<Block>, lo: nat, hi: nat, k: nat, n: nat, mid: seq<Block>)
    requires Laid(bs, lo, hi) && 0 < n && k + n <= |bs| && Laid(mid, bs[k].addr, End(bs[k + n - 1]))
    ensures Laid(Replaced(bs, k, n, mid), lo, hi)
  {
    var cs := Replaced(bs, k, n, mid);
    var m := |mid|;
    assert bs[k].addr <= bs[k + n - 1].addr;
    forall i, j | 0 <= i < j < |cs|
      ensures End(cs[i]) <= cs[j].addr
    {
      if i < k && k <= j < k + m {
        assert End(bs[i]) <= bs[k].addr <= mid[j - k].addr;
      } else if k <= i < k + m && k + m <= j {
        assert End(mid[i - k]) <= End(bs[k + n - 1]) <= bs[j - m + n].addr;
      } else if k <= i && j < k + m {
        assert End(mid[i - k]) <= mid[j - k].addr;
      } else if j < k {
        assert End(bs[i]) <= bs[j].addr;
      } else if i >= k + m {
        assert End(bs[i - m + n]) <= bs[j - m + n].addr;
      } else {
        assert End(bs[i]) <= bs[j - m + n].addr;
      }
    }
  }

  lemma ReplacedCounts(bs: seq<Block>, k: nat, n: nat, mid: seq<Block>)
    requires k + n <= |bs|
    ensures LiveCount(Replaced(bs, k, n, mid)) + LiveCount(bs[k..k + n]) == LiveCount(bs) + LiveCount(mid)
    ensures LiveBytes(Replaced(bs, k, n, mid)) + LiveBytes(bs[k..k + n]) == LiveBytes(bs) + LiveBytes(mid)
  {
    hide LiveCount, LiveBytes;
    assert bs == bs[..k] + bs[k..k + n] + bs[k + n..];
    CountThree(bs[..k], bs[k..k + n], bs[k + n..]);
    CountThree(bs[..k], mid, bs[k + n..]);
  }

  lemma CarveIsReplaced(bs: seq<Block>, k: nat, need: nat, user: nat)
    requires k < |bs|
    ensures Carve(bs, k, need, user) == Replaced(bs, k, 1, Carve([bs[k]], 0, need, user))
    ensures bs[k..k + 1] == [bs[k]]
  {
  }

  lemma CarveLaid(bs: seq<Block>, lo: nat, hi: nat, k: nat, need: nat, user: nat)
    requires Laid(bs, lo, hi) && Roomy(bs)
    requires k < |bs| && need <= bs[k].size && 0 < user && user + GUARD_SIZE <= need
    ensures Laid(Carve(bs, k, need, user), lo, hi) && Roomy(Carve(bs, k, need, user))
  {
    CarveIsReplaced(bs, k, need, user);
    ReplacedLaid(bs, lo, hi, k, 1, Carve([bs[k]], 0, need, user));
  }

  lemma CarveCounts(bs: seq<Block>, k: nat, need: nat, user: nat)
    requires k < |bs| && bs[k].status.Free?
    ensures LiveCount(Carve(bs, k, need, user)) == LiveCount(bs) + 1
    ensures LiveBytes(Carve(bs, k, need, user)) == LiveBytes(bs) + user
  {
    var mid := Carve([bs[k]], 0, need, user);
    CarveIsReplaced(bs, k, need, user);
    ReplacedCounts(bs, k, 1, mid);
    hide LiveCount, LiveBytes;
    CountOne(bs[k]);
    CountOne(mid[0]);
    if Splits(bs[k], need) {
      CountOne(mid[1]);
      CountAppend([mid[0]], [mid[1]]);
      assert mid == [mid[0]] + [mid[1]];
    } else {
      assert mid == [mid[0]];
    }
  }

  lemma CountThree(a: seq<Block>, b: seq<Block>, c: seq<Block>)
    ensures LiveCount(a + b + c) == LiveCount(a) + LiveCount(b) + LiveCount(c)
    ensures LiveBytes(a + b + c) == LiveBytes(a) + LiveBytes(b) + LiveBytes(c)
  {
    CountAppend(a + b, c);
    CountAppend(a, b);
  }

  // ---- Expansion ----

  /** A new block at the old end of an expanded heap. */
  lemma AppendKeeps(bs: seq<Block>, lo: nat, hi: nat, hi': nat, need: nat, user: nat)
    requires Laid(bs, lo, hi) && Coalesced(bs) && Roomy(bs) && lo <= hi && hi + HEADER + need <= hi'
    requires 0 < user && user + GUARD_SIZE <= need
    ensures var cs := bs + [Block(hi, need, Live(user))];
      && Laid(cs, lo, hi') && Coalesced(cs) && Roomy(cs)
      && LiveCount(cs) == LiveCount(bs) + 1 && LiveBytes(cs) == LiveBytes(bs) + user
  {
    hide LiveCount, LiveBytes;
    var b := Block(hi, need, Live(user));
    CountAppend(bs, [b]);
    CountOne(b);
  }

  // ---- Release ----

  /** Two neighbours as one free block: the second header joins the payload, a gap between
      them is left unused at the far end. */
  function Merge(a: Block, b: Block): Block {
    Block(a.addr, a.size + HEADER + b.size, Free)
  }

  /** Across a gap the merged block ends short of the second block by exactly the gap. */
  lemma MergeAcrossGap(a: Block, b: Block)
    requires End(a) <= b.addr
    ensures Merge(a, b).addr == a.addr && End(Merge(a, b)) + (b.addr - End(a)) == End(b)
  {
  }

  function FreeWithNext(bs: seq<Block>, k: nat): seq<Block>
    requires k < |bs|
  {
    var b := Block(bs[k].addr, bs[k].size, Free);
    if k + 1 < |bs| && bs[k + 1].status.Free? then Replaced(bs, k, 2, [Merge(b, bs[k + 1])])
    else Replaced(bs, k, 1, [b])
  }

  function JoinPrevious(bs: seq<Block>, k: nat): seq<Block>
    requires k < |bs|
  {
    if k > 0 && bs[k - 1].status.Free? then Replaced(bs, k - 1, 2, [Merge(bs[k - 1], bs[k])]) else bs
  }

  /** What kfree leaves. */
  function Release(bs: seq<Block>, k: nat): seq<Block>
    requires k < |bs|
  {
    JoinPrevious(FreeWithNext(bs, k), k)
  }

  /** Block k freed, in numbers: it and its free neighbours are one free block of all their
      payloads and the headers between them; the others stay. */
  ghost predicate GivenBack(bs: seq<Block>, cs: seq<Block>, k: nat) {
    && k < |bs|
    && var before, after := k > 0 && bs[k - 1].status.Free?, k + 1 < |bs| && bs[k + 1].status.Free?;
      var lo, hi := if before then k - 1 else k, if after then k + 1 else k;
      var size := bs[k].size + (if before then 24 + bs[k - 1].size else 0) + if after then 24 + bs[k + 1].size else 0;
      cs == bs[..lo] + [Block(bs[lo].addr, size, Free)] + bs[hi + 1..]
  }

  lemma ReleaseGives(bs: seq<Block>, k: nat)
    requires k < |bs|
    ensures GivenBack(bs, Release(bs, k), k)
  {
    var fs := FreeWithNext(bs, k);
    assert fs[..k] == bs[..k];
    var cs := Release(bs, k);
    if k > 0 && bs[k - 1].status.Free? {
      assert fs[k - 1] == bs[k - 1];
      assert fs[k - 1..][..2] == [fs[k - 1], fs[k]];
      assert cs == fs[..k - 1] + [Merge(fs[k - 1], fs[k])] + fs[k + 1..];
      assert fs[..k - 1] == bs[..k - 1];
    }
  }

  lemma PairCount(a: Block, b: Block)
    ensures LiveCount([a, b]) == LiveCount([a]) + LiveCount([b])
    ensures LiveBytes([a, b]) == LiveBytes([a]) + LiveBytes([b])
  {
    CountAppend([a], [b]);
    assert [a, b] == [a] + [b];
  }

  /** Two laid-out neighbours merge within their joint extent. */
  lemma MergedLaid(bs: seq<Block>, lo: nat, hi: nat, k: nat)
    requires Laid(bs, lo, hi) && k + 1 < |bs|
    ensures Laid(Replaced(bs, k, 2, [Merge(bs[k], bs[k + 1])]), lo, hi)
  {
    assert End(bs[k]) <= bs[k + 1].addr;
    MergeAcrossGap(bs[k], bs[k + 1]);
    ReplacedLaid(bs, lo, hi, k, 2, [Merge(bs[k], bs[k + 1])]);
  }

  lemma MergedCounts(bs: seq<Block>, k: nat)
    requires k + 1 < |bs| && bs[k].status.Free? && bs[k + 1].status.Free?
    ensures var cs := Replaced(bs, k, 2, [Merge(bs[k], bs[k + 1])]);
      LiveCount(cs) == LiveCount(bs) && LiveBytes(cs) == LiveBytes(bs)
  {
    var m := Merge(bs[k], bs[k + 1]);
    ReplacedCounts(bs, k, 2, [m]);
    hide LiveCount, LiveBytes;
    CountOne(bs[k]);
    CountOne(bs[k + 1]);
    CountOne(m);
    PairCount(bs[k], bs[k + 1]);
    assert bs[k..k + 2] == [bs[k], bs[k + 1]];
  }

  /** Block k marked free, nothing joined yet. */
  function Freed(bs: seq<Block>, k: nat): seq<Block>
    requires k < |bs|
  {
    bs[k := Block(bs[k].addr, bs[k].size, Free)]
  }

  lemma FreedLaid(bs: seq<Block>, lo: nat, hi: nat, k: nat)
    requires Laid(bs, lo, hi) && Roomy(bs) && k < |bs|
    ensures Laid(Freed(bs, k), lo, hi) && Roomy(Freed(bs, k))
  {
  }

  lemma FreedCounts(bs: seq<Block>, k: nat)
    requires k < |bs| && bs[k].status.Live?
    ensures LiveCount(Freed(bs, k)) + 1 == LiveCount(bs)
    ensures LiveBytes(Freed(bs, k)) + bs[k].status.user == LiveBytes(bs)
  {
    hide LiveCount, LiveBytes;
    var b := Freed(bs, k)[k];
    ReplacedCounts(bs, k, 1, [b]);
    CountOne(bs[k]);
    CountOne(b);
    assert bs[k..k + 1] == [bs[k]];
    assert Replaced(bs, k, 1, [b]) == Freed(bs, k);
  }

  lemma FreeWithNextIs(bs: seq<Block>, k: nat)
    requires k < |bs|
    ensures var fs := Freed(bs, k);
      FreeWithNext(bs, k) ==
        if k + 1 < |fs| && fs[k + 1].status.Free? then Replaced(fs, k, 2, [Merge(fs[k], fs[k + 1])]) else fs
  {
  }

  /** Marking free and joining the next block. */
  lemma FreeWithNextKeeps(bs: seq<Block>, lo: nat, hi: nat, k: nat)
    requires Laid(bs, lo, hi) && Roomy(bs) && k < |bs| && bs[k].status.Live?
    ensures var cs := FreeWithNext(bs, k);
      && Laid(cs, lo, hi) && Roomy(cs)
      && LiveCount(cs) + 1 == LiveCount(bs) && LiveBytes(cs) + bs[k].status.user == LiveBytes(bs)
  {
    hide LiveCount, LiveBytes, Laid;
    FreedLaid(bs, lo, hi, k);
    FreedCounts(bs, k);
    FreeWithNextIs(bs, k);
    var fs := Freed(bs, k);
    if k + 1 < |fs| && fs[k + 1].status.Free? {
      MergedLaid(fs, lo, hi, k);
      MergedCounts(fs, k);
    }
  }

  lemma FreeWithNextShape(bs: seq<Block>, k: nat)
    requires Coalesced(bs) && k < |bs| && bs[k].status.Live?
    ensures var cs := FreeWithNext(bs, k);
      && k < |cs| && cs[k].status.Free? && (forall i :: 0 <= i < k ==> cs[i] == bs[i])
      && (k + 1 < |cs| ==> cs[k + 1].status.Live?)
      && (forall i :: k < i < |cs| - 1 ==> cs[i].status.Live? || cs[i + 1].status.Live?)
  {
    var cs := FreeWithNext(bs, k);
    var n := if k + 1 < |bs| && bs[k + 1].status.Free? then 1 else 0;
    forall i | k < i < |cs|
      ensures cs[i] == bs[i + n]
    {
    }
    forall i | k < i < |cs| - 1
      ensures cs[i].status.Live? || cs[i + 1].status.Live?
    {
      assert bs[i + n].status.Live? || bs[i + n + 1].status.Live?;
    }
    assert n == 1 ==> k + 2 < |bs| ==> bs[k + 1].status.Live? || bs[k + 2].status.Live?;
  }

  lemma ReleaseCoalesced(bs: seq<Block>, k: nat)
    requires Coalesced(bs) && k < |bs| && bs[k].status.Live?
    ensures Coalesced(Release(bs, k))
  {
    FreeWithNextShape(bs, k);
    var cs, ds := FreeWithNext(bs, k), Release(bs, k);
    hide FreeWithNext;
    var n := if k > 0 && cs[k - 1].status.Free? then 1 else 0;
    assert n == 1 ==> forall i :: 0 <= i < |ds| && i != k - 1 ==> ds[i] == if i < k then cs[i] else cs[i + 1];
    forall i | 0 <= i < |ds| - 1
      ensures ds[i].status.Live? || ds[i + 1].status.Live?
    {
      assert i + 1 < k ==> bs[i].status.Live? || bs[i + 1].status.Live?;
      assert k < i + n < |cs| - 1 ==> cs[i + n].status.Live? || cs[i + n + 1].status.Live?;
    }
  }

  /** Releasing a live block keeps the layout, leaves no free neighbours and takes exactly
      that block out of the counts. */
  lemma ReleaseKeeps(bs: seq<Block>, lo: nat, hi: nat, k: nat)
    requires Laid(bs, lo, hi) && Coalesced(bs) && Roomy(bs) && k < |bs| && bs[k].status.Live?
    ensures Laid(Release(bs, k), lo, hi) && Coalesced(Release(bs, k)) && Roomy(Release(bs, k))
    ensures LiveCount(Release(bs, k)) + 1 == LiveCount(bs)
    ensures LiveBytes(Release(bs, k)) + bs[k].status.user == LiveBytes(bs)
  {
    hide LiveCount, LiveBytes, Laid, Coalesced, FreeWithNext;
    ReleaseCoalesced(bs, k);
    FreeWithNextKeeps(bs, lo, hi, k);
    FreeWithNextShape(bs, k);
    var cs := FreeWithNext(bs, k);
    if k > 0 && cs[k - 1].status.Free? {
      MergedLaid(cs, lo, hi, k - 1);
      MergedCounts(cs, k - 1);
    }
  }
}
