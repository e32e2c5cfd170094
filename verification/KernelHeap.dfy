/** The kernel heap: kmalloc and kfree over raw memory. */
module KernelHeap {
  import opened Common
  import opened LittleEndian
  import opened HeapLayout
  import opened HeapMemory
  import opened Division
  import opened PageTables
  import FrameAllocator
  import opened VirtualMemory
  import opened PageRuns
  import opened HeapPages

  ghost predicate GuardIntact(m: seq<Byte>, ptr: nat, user: nat) {
    ptr + user + GUARD_SIZE <= |m| && GetU32(m, ptr + user) == HEAP_GUARD
  }

  lemma GuardBytes(m: seq<Byte>, ptr: nat, user: nat)
    ensures GuardIntact(m, ptr, user) <==>
      && ptr + user + 4 <= |m|
      && m[ptr + user] == 0xBE && m[ptr + user + 1] == 0xBA && m[ptr + user + 2] == 0xFE && m[ptr + user + 3] == 0xCA
  {
    if ptr + user + 4 <= |m| { MagicBytes(m, ptr + user); }
    hide GetU32;
  }

  /** A live block holds the aligned range at ptr, with its own pointer in the word before
      and the guard word behind. */
  ghost predicate AlignedIn(m: seq<Byte>, b: Block, ptr: nat, size: nat, alignment: nat) {
    && 0 < alignment && ptr % alignment == 0 && b.status == Live(size + alignment + 4)
    && b.addr + HEADER + 4 <= ptr <= |m| && ptr + size <= b.addr + HEADER + b.status.user
    && GetU32(m, ptr - 4) == b.addr + HEADER && GuardIntact(m, b.addr + HEADER, b.status.user)
  }

  /** The list after a fitting block has been cut down, before it is marked. */
  ghost function CutBlocks(bs: seq<Block>, k: nat, need: nat): seq<Block>
    requires k < |bs|
  {
    if Splits(bs[k], need) then SplitBlocks(bs, k, need) else bs
  }

  lemma CarveIsCut(bs: seq<Block>, k: nat, need: nat, user: nat)
    requires k < |bs| && bs[k].status.Free?
    ensures var ss := CutBlocks(bs, k, need);
      && k < |ss| && ss[k].addr == bs[k].addr && ss[k].status.Free?
      && Carve(bs, k, need, user) == ss[k := Block(ss[k].addr, ss[k].size, Live(user))]
  {
  }

  lemma StorableAt(bs: seq<Block>, i: int)
    requires -1 <= i <= |bs|
    ensures AddrAt(bs, i) == 0 || Storable(bs, AddrAt(bs, i))
  {
  }

  lemma RestStorable(bs: seq<Block>, k: nat, need: nat)
    requires k < |bs| && bs[k].status.Free? && Splits(bs[k], need)
    ensures Storable(bs, RestAddr(bs[k].addr, need))
  {
  }

  lemma SplitLaid(bs: seq<Block>, lo: nat, hi: nat, k: nat, need: nat)
    requires Laid(bs, lo, hi) && k < |bs| && Splits(bs[k], need)
    ensures Laid(SplitBlocks(bs, k, need), lo, hi)
  {
    var a := bs[k].addr;
    ReplacedLaid(bs, lo, hi, k, 1, [Block(a, need, Free), Block(RestAddr(a, need), bs[k].size - need - HEADER, Free)]);
  }

  /** Everything about a split: order, links, and that no live payload moves. */
  lemma SplitKeeps(m: seq<Byte>, first: nat, bs: seq<Block>, lo: nat, hi: nat, k: nat, need: Word32)
    requires Placed(m, bs, lo, hi) && 16 <= lo && Linked(m, first, bs) && k < |bs| && bs[k].status.Free?
      && need <= bs[k].size
    ensures bs[k].addr < U32_LIMIT && bs[k].addr + HEADER <= |m| && HeaderAt(m, bs[k].addr).size == bs[k].size
    ensures need + HEADER + MIN_SIZE < U32_LIMIT
    ensures Splits(bs[k], need) ==>
      && SplitReady(m, bs[k].addr, need) && Untouched(m, SplitMemory(m, bs[k].addr, need), bs, lo, hi)
      && Placed(SplitMemory(m, bs[k].addr, need), SplitBlocks(bs, k, need), lo, hi)
      && Linked(SplitMemory(m, bs[k].addr, need), first, SplitBlocks(bs, k, need))
  {
    hide HeaderAt, SplitMemory, Untouched, Linked, Laid, SplitBlocks, SplitReady, Storable;
    var a := bs[k].addr;
    LinkedAt(m, first, bs, k);
    BlocksApart(m, bs, lo, hi, k, k);
    if Splits(bs[k], need) {
      SplitLaid(bs, lo, hi, k, need);
      SplitLinked(m, first, bs, lo, hi, k, need);
      StorableAt(bs, k + 1);
      StorableAt(bs, k);
      RestStorable(bs, k, need);
      SplitUntouched(m, bs, lo, hi, a, need);
    }
  }

  /** Marking block k live and setting its guard. */
  lemma MarkKeeps(m: seq<Byte>, first: nat, bs: seq<Block>, lo: nat, hi: nat, k: nat, user: Word32)
    requires Placed(m, bs, lo, hi) && Linked(m, first, bs) && k < |bs| && bs[k].status.Free?
      && user + GUARD_SIZE <= bs[k].size
    ensures bs[k].addr + HEADER + user + GUARD_SIZE <= |m|
    ensures var m1 := Put(m, bs[k].addr, HeaderAt(m, bs[k].addr).(free := 0, userSize := user));
      var m2 := Splice(m1, bs[k].addr + HEADER + user, Bytes32(HEAP_GUARD));
      var cs := bs[k := Block(bs[k].addr, bs[k].size, Live(user))];
      && Placed(m2, cs, lo, hi) && Linked(m2, first, cs)
      && Untouched(m, m2, bs, lo, hi) && GuardIntact(m2, bs[k].addr + HEADER, user)
  {
    hide HeaderAt, Linked, Untouched, Put, Splice, Laid;
    BlocksApart(m, bs, lo, hi, k, k);
    LinkedAt(m, first, bs, k);
    var h := HeaderAt(m, bs[k].addr).(free := 0, userSize := user);
    var m1 := Put(m, bs[k].addr, h);
    var b := Block(bs[k].addr, bs[k].size, Live(user));
    var cs, at := bs[k := b], bs[k].addr + HEADER + user;
    MarkLaid(bs, lo, hi, k, b);
    MarkLinked(m, first, bs, lo, hi, k, b, h);
    assert bs[k].addr == b.addr;
    PayloadLinked(m1, first, cs, lo, hi, k, at, Bytes32(HEAP_GUARD));
    StorableAt(bs, k);
    PutUntouched(m, bs, lo, hi, bs[k].addr, h);
    PayloadUntouched(m1, bs, lo, hi, k, at, Bytes32(HEAP_GUARD), bs);
    UntouchedTwice(m, m1, Splice(m1, at, Bytes32(HEAP_GUARD)), bs, lo, hi);
    GetAfterSplice32(m1, at, HEAP_GUARD);
  }

  lemma MarkLaid(bs: seq<Block>, lo: nat, hi: nat, k: nat, b: Block)
    requires Laid(bs, lo, hi) && k < |bs| && b.addr == bs[k].addr && b.size == bs[k].size
    ensures Laid(bs[k := b], lo, hi)
  {
  }

  /** Writing a new block at the old end. */
  lemma AppendAll(m: seq<Byte>, first: nat, bs: seq<Block>, lo: nat, hi: nat, hi': nat, need: Word32, user: Word32)
    requires Placed(m, bs, lo, hi) && Linked(m, first, bs) && hi + HEADER + need <= hi' < U32_LIMIT
    requires user + GUARD_SIZE <= need
    ensures AddrAt(bs, |bs| - 1) < U32_LIMIT && AddrAt(bs, |bs| - 1) + HEADER <= |m|
    ensures var m1 := AppendMemory(m, hi, need, user, AddrAt(bs, |bs| - 1));
      var m2 := Splice(m1, hi + HEADER + user, Bytes32(HEAP_GUARD));
      var cs := bs + [Block(hi, need, Live(user))];
      && Placed(m2, cs, lo, hi') && Linked(m2, if bs == [] then hi else first, cs)
      && Untouched(m, m2, bs, lo, hi') && GuardIntact(m2, hi + HEADER, user)
  {
    hide HeaderAt, Linked, Untouched, AppendMemory, Splice, Laid;
    var b, at, last := Block(hi, need, Live(user)), hi + HEADER + user, AddrAt(bs, |bs| - 1);
    var cs := bs + [b];
    AppendLaid(bs, lo, hi, hi', b);
    AppendLinked(m, first, bs, lo, hi, need, user);
    var m1 := AppendMemory(m, hi, need, user, last);
    StorableAt(cs, |bs| - 1);
    AppendUntouched(m, bs, lo, hi', b, user, last);
    PayloadLinked(m1, if bs == [] then hi else first, cs, lo, hi', |bs|, at, Bytes32(HEAP_GUARD));
    assert cs[|bs|] == b;
    forall x | x in bs && x.status.Live?
      ensures x in cs && x != b
    {
      var i :| 0 <= i < |bs| && bs[i] == x;
      BlocksApart(m, bs, lo, hi, i, i);
    }
    PayloadUntouched(m1, cs, lo, hi', |bs|, at, Bytes32(HEAP_GUARD), bs);
    UntouchedTwice(m, m1, Splice(m1, at, Bytes32(HEAP_GUARD)), bs, lo, hi');
    GetAfterSplice32(m1, at, HEAP_GUARD);
  }

  lemma AppendLaid(bs: seq<Block>, lo: nat, hi: nat, hi': nat, b: Block)
    requires Laid(bs, lo, hi) && lo <= hi == b.addr && End(b) <= hi'
    ensures Laid(bs + [b], lo, hi')
  {
  }

  /** With a header stored at the old end, the list can still be walked. */
  lemma WalkPast(m: seq<Byte>, first: nat, bs: seq<Block>, lo: nat, hi: nat, h: Header)
    requires Placed(m, bs, lo, hi) && Linked(m, first, bs) && hi + HEADER <= |m|
    ensures first == AddrAt(bs, 0)
    ensures forall i :: 0 <= i < |bs| ==> 0 < bs[i].addr == AddrAt(bs, i) && bs[i].addr + HEADER <= |m|
    ensures forall i :: 0 <= i < |bs| ==> HeaderAt(Put(m, hi, h), bs[i].addr).next == AddrAt(bs, i + 1)
    ensures AddrAt(bs, |bs|) == 0 && AddrAt(bs, -1) == 0
  {
    hide HeaderAt, Put, Laid, Linked;
    assert first == AddrAt(bs, 0) by { LinkedFirst(m, first, bs); }
    forall i | 0 <= i < |bs|
      ensures 0 < bs[i].addr && bs[i].addr + HEADER <= |m|
      ensures HeaderAt(Put(m, hi, h), bs[i].addr).next == AddrAt(bs, i + 1)
    {
      BlocksApart(m, bs, lo, hi, i, i);
      LinkedAt(m, first, bs, i);
      PutApart(m, hi, h, bs[i].addr);
    }
  }

  lemma LinkedFirst(m: seq<Byte>, first: nat, bs: seq<Block>)
    requires Linked(m, first, bs)
    ensures first == AddrAt(bs, 0)
  {
  }

  lemma AlignedToPage(x: int)
    ensures AlignUp(x, PAGE) % PAGE == 0
  {
    var y := Wrap32(x + (PAGE - 1));
    assert (y - y % PAGE) % PAGE == 0;
  }

  lemma StartAligned(start: Word32)
    requires 0 < start && start + 15 < U32_LIMIT
    ensures start <= AlignUp(start, 16) < (start as int) + 16 && AlignUp(start, 16) % 16 == 0
    ensures 16 <= AlignUp(start, 16)
  {
    AlignUpBounds(start, 16);
    hide AlignUp;
  }

  lemma NothingLaid(m: seq<Byte>, lo: Word32)
    requires |m| == U32_LIMIT && 0 < lo
    ensures Placed(m, [], lo, lo) && Linked(m, 0, []) && Coalesced([]) && Roomy([])
    ensures LiveCount([]) == 0 == LiveBytes([])
  {
  }

  lemma PlacedInOrder(m: seq<Byte>, bs: seq<Block>, lo: nat, hi: nat)
    requires Placed(m, bs, lo, hi)
    ensures 0 < lo <= hi < U32_LIMIT
  {
  }

  lemma FitAddress(m: seq<Byte>, bs: seq<Block>, lo: nat, hi: nat, k: nat)
    requires Placed(m, bs, lo, hi) && k < |bs|
    ensures AddrAt(bs, k) == bs[k].addr && bs[k].addr + HEADER < U32_LIMIT
  {
    BlocksApart(m, bs, lo, hi, k, k);
  }

  lemma CutFits(bs: seq<Block>, k: nat, need: nat)
    requires k < |bs| && need <= bs[k].size
    ensures k < |CutBlocks(bs, k, need)| && need <= CutBlocks(bs, k, need)[k].size
  {
  }

  lemma CutContains(bs: seq<Block>, k: nat, need: nat)
    requires k < |bs| && bs[k].status.Free?
    ensures forall b :: b in bs && b.status.Live? ==> b in CutBlocks(bs, k, need)
  {
    var ss := CutBlocks(bs, k, need);
    if Splits(bs[k], need) {
      forall b | b in bs && b.status.Live?
        ensures b in ss
      {
        var i :| 0 <= i < |bs| && bs[i] == b;
        assert i < k ==> ss[i] == b;
        assert i > k ==> ss[i + 1] == b;
      }
    }
  }

  /** One more live block leaves both counters within 32 bits. */
  lemma CountersFit(bs: seq<Block>, lo: nat, hi: nat)
    requires Laid(bs, lo, hi) && Roomy(bs) && hi < U32_LIMIT
    ensures LiveCount(bs) < U32_LIMIT && LiveBytes(bs) < U32_LIMIT
  {
    BytesFit(bs, lo, hi);
  }

  // ---- Release ----

  lemma MarkFreeKeeps(m: seq<Byte>, first: nat, bs: seq<Block>, lo: nat, hi: nat, k: nat)
    requires Placed(m, bs, lo, hi) && Linked(m, first, bs) && k < |bs|
    ensures bs[k].addr + HEADER <= |m|
    ensures var m1 := Put(m, bs[k].addr, HeaderAt(m, bs[k].addr).(free := 1));
      Placed(m1, Freed(bs, k), lo, hi) && Linked(m1, first, Freed(bs, k)) && Untouched(m, m1, Freed(bs, k), lo, hi)
  {
    hide HeaderAt, Linked, Untouched, Put, Laid;
    BlocksApart(m, bs, lo, hi, k, k);
    LinkedAt(m, first, bs, k);
    var h := HeaderAt(m, bs[k].addr).(free := 1);
    var b := Block(bs[k].addr, bs[k].size, Free);
    MarkLaid(bs, lo, hi, k, b);
    MarkLinked(m, first, bs, lo, hi, k, b, h);
    StorableAt(Freed(bs, k), k);
    PutUntouched(m, Freed(bs, k), lo, hi, b.addr, h);
  }

  lemma MergeKeeps(m: seq<Byte>, first: nat, bs: seq<Block>, lo: nat, hi: nat, k: nat)
    requires Placed(m, bs, lo, hi) && Linked(m, first, bs) && k + 1 < |bs| && bs[k].status.Free?
    ensures MergeReady(m, bs[k].addr) && HeaderAt(m, bs[k].addr).next == bs[k + 1].addr
    ensures Placed(MergeMemory(m, bs[k].addr), MergeBlocks(bs, k), lo, hi)
    ensures Linked(MergeMemory(m, bs[k].addr), first, MergeBlocks(bs, k))
    ensures Untouched(m, MergeMemory(m, bs[k].addr), bs, lo, hi)
  {
    hide HeaderAt, Linked, Untouched, Put, Laid, Storable, MergeMemory;
    MergedLaid(bs, lo, hi, k);
    MergeLinked(m, first, bs, lo, hi, k);
    LinkedAt(m, first, bs, k);
    LinkedAt(m, first, bs, k + 1);
    NextNeighbour(bs, k);
    StorableAt(bs, k);
    StorableAt(bs, k + 2);
    BlocksApart(m, bs, lo, hi, k, k);
    MergeUntouched(m, bs, lo, hi, bs[k].addr, AddrAt(bs, k + 2));
  }

  /** What a header says about its neighbours. */
  lemma Neighbours(m: seq<Byte>, first: nat, bs: seq<Block>, lo: nat, hi: nat, k: nat)
    requires Placed(m, bs, lo, hi) && Linked(m, first, bs) && k < |bs|
    ensures bs[k].addr + HEADER <= |m|
    ensures var h := HeaderAt(m, bs[k].addr);
      && h.magic == HEAP_MAGIC && h.size == bs[k].size && (bs[k].status.Live? ==> h.userSize == bs[k].status.user)
      && (h.next != 0 <==> k + 1 < |bs|) && (h.prev != 0 <==> k > 0)
      && (h.next != 0 ==>
        && h.next + HEADER <= |m| && h.next == bs[k + 1].addr
        && (HeaderAt(m, h.next).free != 0 <==> bs[k + 1].status.Free?))
      && (h.prev != 0 ==>
        && h.prev + HEADER <= |m| && h.prev == bs[k - 1].addr
        && (HeaderAt(m, h.prev).free != 0 <==> bs[k - 1].status.Free?))
  {
    hide HeaderAt, Laid, Linked;
    LinkedAt(m, first, bs, k);
    if k + 1 < |bs| {
      LinkedAt(m, first, bs, k + 1);
      BlocksApart(m, bs, lo, hi, k, k + 1);
    }
    if k > 0 {
      LinkedAt(m, first, bs, k - 1);
      BlocksApart(m, bs, lo, hi, k, k - 1);
    }
  }

  lemma ReleaseLive(bs: seq<Block>, k: nat)
    requires k < |bs|
    ensures forall b :: b in FreeWithNext(bs, k) && b.status.Live? ==> b in Freed(bs, k)
    ensures forall b :: b in Release(bs, k) && b.status.Live? ==> b in FreeWithNext(bs, k)
  {
    FreeWithNextIs(bs, k);
  }

  lemma FreedAt(bs: seq<Block>, k: nat)
    requires k < |bs|
    ensures |Freed(bs, k)| == |bs| && Freed(bs, k)[k] == Block(bs[k].addr, bs[k].size, Free)
  {
  }

  /** kfree's two joins make up Release. */
  lemma ReleaseSteps(bs: seq<Block>, k: nat)
    requires k < |bs|
    ensures var fs, cs := Freed(bs, k), FreeWithNext(bs, k);
      && k < |fs| && k < |cs| && cs[k].status.Free? && cs[k].addr == bs[k].addr
      && cs == (if k + 1 < |fs| && fs[k + 1].status.Free? then MergeBlocks(fs, k) else fs)
      && Release(bs, k) == JoinPrevious(cs, k)
  {
    FreeWithNextIs(bs, k);
  }

  lemma WrapDifference(a: Word32, f: Word32)
    ensures Wrap32(a - f) == if f <= a then a - f else a - f + U32_LIMIT
    ensures Wrap32(a + 1) == if a + 1 < U32_LIMIT then a + 1 else 0
  {
  }

  /** Totals kept modulo 2^32 still differ by the number of live blocks. */
  lemma TotalsStep(allocs: Word32, frees: Word32, live: nat)
    requires Wrap32(allocs - frees) == live
    ensures live + 1 < U32_LIMIT ==> Wrap32(Wrap32(allocs + 1) - frees) == live + 1
    ensures live > 0 ==> Wrap32(allocs - Wrap32(frees + 1)) == live - 1
  {
    hide Wrap32;
    WrapDifference(allocs, frees);
    WrapDifference(Wrap32(allocs + 1), frees);
    WrapDifference(frees, frees);
    WrapDifference(allocs, Wrap32(frees + 1));
  }

  lemma FreedLive(bs: seq<Block>, lo: nat, hi: nat, k: nat)
    requires Laid(bs, lo, hi) && k < |bs|
    ensures forall b :: b in Freed(bs, k) && b.status.Live? ==> b in bs && b != bs[k]
  {
    forall b | b in Freed(bs, k) && b.status.Live?
      ensures b in bs && b != bs[k]
    {
      var i :| 0 <= i < |bs| && Freed(bs, k)[i] == b;
      assert i < k ==> End(bs[i]) <= bs[k].addr;
      assert k < i ==> End(bs[k]) <= bs[i].addr;
    }
  }

  /** A guard stays intact while its block's payload, or just the guard itself, is untouched. */
  lemma GuardKept(m: seq<Byte>, m': seq<Byte>, bs: seq<Block>, lo: nat, hi: nat, b: Block)
    requires Untouched(m, m', bs, lo, hi) && b in bs && b.status.Live? && b.status.user + GUARD_SIZE <= b.size
      && End(b) <= |m|
    ensures GuardIntact(m', b.addr + HEADER, b.status.user) <==> GuardIntact(m, b.addr + HEADER, b.status.user)
  {
    var at := b.addr + HEADER + b.status.user;
    assert forall p :: at <= p < at + 4 ==> m'[p] == m[p];
  }

  /** A store into the user's own bytes cannot break the block's guard. */
  lemma GuardAfterStore(m: seq<Byte>, at: nat, v: seq<Byte>, ptr: nat, user: nat)
    requires GuardIntact(m, ptr, user) && at + |v| <= ptr + user
    ensures GuardIntact(Splice(m, at, v), ptr, user)
  {
    GetElsewhere32(m, at, v, ptr + user);
  }

  // ---- Aligned allocation ----

  predicate PowerOfTwo(a: nat) {
    a == 1 || (a > 0 && a % 2 == 0 && PowerOfTwo(a / 2))
  }

  /** Rounding up lands on a multiple within one alignment. */
  lemma AlignUpBounds(x: nat, align: nat)
    requires 0 < align < U32_LIMIT && x + align - 1 < U32_LIMIT
    ensures x <= AlignUp(x, align) <= x + align - 1 && AlignUp(x, align) % align == 0
  {
    RoundDown(x + (align - 1), align);
  }

  lemma RoundDown(y: nat, a: nat)
    requires a > 0
    ensures (y - y % a) % a == 0 && y - a < y - y % a <= y
  {
    assert y - y % a == a * (y / a);
    DivIs(y - y % a, a, y / a, 0);
  }

  /** kmalloc's new block: at position k either way, not there before, the others kept. */
  lemma FreshBlock(bs: seq<Block>, cs: seq<Block>, lo: nat, hi: nat, hi': nat, k: nat, need: nat, user: nat, a: nat)
    requires Laid(bs, lo, hi) && Laid(cs, lo, hi')
    requires
      if k < |bs| then bs[k].status.Free? && cs == Carve(bs, k, need, user)
      else k == |bs| && cs == bs + [Block(a, need, Live(user))]
    ensures k < |cs| && cs[k].status == Live(user) && cs[k] !in bs
    ensures k < |bs| ==> cs[k].addr == bs[k].addr
    ensures forall b :: b in bs && b.status.Live? ==> b in Freed(cs, k)
  {
    forall i | 0 <= i < |bs|
      ensures bs[i] != cs[k]
    {
      assert i < k ==> End(cs[i]) <= cs[k].addr && cs[i] == bs[i];
      assert k < i ==> End(bs[k]) <= bs[i].addr;
    }
    hide Laid;
    OthersKept(bs, cs, k, need, user, a);
  }

  lemma OthersKept(bs: seq<Block>, cs: seq<Block>, k: nat, need: nat, user: nat, a: nat)
    requires
      if k < |bs| then bs[k].status.Free? && cs == Carve(bs, k, need, user)
      else k == |bs| && cs == bs + [Block(a, need, Live(user))]
    ensures k < |cs| && forall b :: b in bs && b.status.Live? ==> b in Freed(cs, k)
  {
    forall b | b in bs && b.status.Live?
      ensures b in Freed(cs, k)
    {
      var i :| 0 <= i < |bs| && bs[i] == b;
      assert i < k ==> Freed(cs, k)[i] == b;
      assert i > k ==> Freed(cs, k)[i + (|cs| - |bs|)] == b;
    }
  }

  /** The user's bytes and the guard lie in the payload. */
  lemma RoomInside(bs: seq<Block>, lo: nat, hi: nat, k: nat)
    requires Laid(bs, lo, hi) && Roomy(bs) && k < |bs| && bs[k].status.Live?
    ensures bs[k].addr + HEADER + bs[k].status.user + GUARD_SIZE <= End(bs[k]) <= hi
  {
  }

  lemma EndWithin(bs: seq<Block>, lo: nat, hi: nat)
    requires Laid(bs, lo, hi)
    ensures bs != [] ==> lo <= End(bs[|bs| - 1]) <= hi
  {
  }

  /** What the walk reads at place k of the list. */
  lemma HeaderTells(m: seq<Byte>, first: nat, bs: seq<Block>, lo: nat, hi: nat, k: nat)
    requires Placed(m, bs, lo, hi) && Linked(m, first, bs) && k <= |bs|
    ensures AddrAt(bs, k) == 0 <==> k == |bs|
    ensures k < |bs| ==>
      && AddrAt(bs, k) + HEADER <= |m|
      && var h := HeaderAt(m, AddrAt(bs, k));
        (h.free != 0 <==> bs[k].status.Free?) && h.size == bs[k].size && h.next == AddrAt(bs, k + 1)
  {
    hide HeaderAt, Laid, Linked;
    if k < |bs| {
      LinkedAt(m, first, bs, k);
      BlocksApart(m, bs, lo, hi, k, k);
    }
  }

  class Heap {
    var heapStart: Word32
    var heapEnd: Word32
    var heapMax: Word32
    var freeList: Word32
    var bytes: seq<Byte>
    const vmm: Vmm
    var totalAllocs: Word32
    var totalFrees: Word32
    var current: Word32
    var inUse: Word32
    var peakAllocs: Word32
    var peakBytes: Word32
    ghost var blocks: seq<Block>

    ghost predicate Shaped()
      reads this
    {
      Placed(bytes, blocks, heapStart, heapEnd) && 16 <= heapStart && Linked(bytes, freeList, blocks)
    }

    ghost predicate Counted()
      reads this
    {
      && current == LiveCount(blocks) && inUse == LiveBytes(blocks)
      && Wrap32(totalAllocs - totalFrees) == current
      && current <= peakAllocs && inUse <= peakBytes
    }

    /** What holds of the list, the memory and the counters. */
    ghost predicate Kept()
      reads this
    {
      Shaped() && Coalesced(blocks) && Roomy(blocks) && Counted()
    }

    /** And every page of the heap is mapped, to a frame of its own. */
    ghost predicate Valid()
      reads this, vmm, vmm.pd, vmm.pmm, vmm.pmm.bitmap
    {
      Kept() && HeapMapped(vmm, heapStart, heapEnd, heapMax)
    }

    /** heap_init, for a range that stays below slot 1023 of the page directory. */
    constructor (vmm: Vmm, start: Word32, size: Word32, memory: seq<Byte>)
      requires vmm.Valid() && |memory| == U32_LIMIT && 0 < start && start + 15 <= PAGES * PAGE
      requires Wrap32(AlignUp(start, 16) + size) <= PAGES * PAGE
      ensures Valid() && blocks == [] && bytes == memory && this.vmm == vmm
      ensures start <= heapStart < (start as int) + 16 && heapStart % 16 == 0
      ensures heapStart == AlignUp(start, 16) && heapEnd == heapStart && heapMax == Wrap32(heapStart + size)
    {
      hide AlignUp, Placed, Linked, Coalesced, Roomy, LiveCount, LiveBytes, Own, PageOf, Good, Lookup,
        FrameAllocator.Pmm.Valid, FrameAllocator.Pmm.FreeSet, Vmm.Space;
      StartAligned(start);
      NothingLaid(memory, AlignUp(start, 16));
      this.vmm := vmm;
      heapStart := AlignUp(start, 16);
      heapEnd := AlignUp(start, 16);
      heapMax := Wrap32(AlignUp(start, 16) + size);
      freeList := 0;
      bytes := memory;
      totalAllocs, totalFrees, current, inUse, peakAllocs, peakBytes := 0, 0, 0, 0, 0, 0;
      blocks := [];
      new;
      PagesBelow(heapStart);
      NoneOwned(Snap(vmm), PageOf(heapStart));
    }

    /** The list walk of kmalloc: the lowest block that fits, or 0. */
    method FindFit(need: Word32) returns (block: Word32, ghost k: nat)
      requires Kept()
      ensures k == FirstFit(blocks, need, 0)
      ensures block == AddrAt(blocks, k) && (block == 0 <==> k == |blocks|)
    {
      hide HeaderAt, Laid, Linked, Coalesced, Roomy, LiveCount, LiveBytes, AddrAt;
      block, k := freeList, 0;
      LinkedFirst(bytes, freeList, blocks);
      while block != 0
        invariant k <= |blocks| && block == AddrAt(blocks, k)
        invariant FirstFit(blocks, need, k) == FirstFit(blocks, need, 0)
        decreases |blocks| - k
      {
        HeaderTells(bytes, freeList, blocks, heapStart, heapEnd, k);
        var h := HeaderAt(bytes, block);
        if h.free != 0 && h.size >= need {
          return;
        }
        block, k := h.next, k + 1;
      }
      HeaderTells(bytes, freeList, blocks, heapStart, heapEnd, k);
    }

    /** Cut block k down to need bytes if the rest is worth a block of its own. */
    method Cut(block: Word32, ghost k: nat, need: Word32)
      requires Shaped() && k < |blocks| && blocks[k].status.Free? && block == blocks[k].addr && need <= blocks[k].size
      modifies `bytes, `blocks
      ensures Shaped() && blocks == CutBlocks(old(blocks), k, need)
      ensures Untouched(old(bytes), bytes, old(blocks), heapStart, heapEnd)
    {
      hide HeaderAt, Put, Laid, Linked, Untouched, SplitBlocks;
      SplitKeeps(bytes, freeList, blocks, heapStart, heapEnd, k, need);
      UntouchedSelf(bytes, blocks, heapStart, heapEnd);
      var h := HeaderAt(bytes, block);
      if h.size >= Wrap32(need + (HEADER + MIN_SIZE)) {
        var rest: Word32 := block + (HEADER + need);
        bytes := Put(bytes, rest, Header(h.size - need - HEADER, HeaderAt(bytes, rest).userSize, HEAP_MAGIC, h.next,
          block, 1));
        if h.next != 0 {
          bytes := Put(bytes, h.next, HeaderAt(bytes, h.next).(prev := rest));
        }
        bytes := Put(bytes, block, HeaderAt(bytes, block).(next := rest, size := need));
        blocks := SplitBlocks(blocks, k, need);
      }
    }

    /** Hand block k to the user and set its guard word. */
    method Mark(block: Word32, ghost k: nat, user: Word32)
      requires Shaped() && k < |blocks| && blocks[k].status.Free? && block == blocks[k].addr
      requires user + GUARD_SIZE <= blocks[k].size
      modifies `bytes, `blocks
      ensures Shaped() && blocks == old(blocks)[k := Block(block, old(blocks)[k].size, Live(user))]
      ensures Untouched(old(bytes), bytes, old(blocks), heapStart, heapEnd) && GuardIntact(bytes, block + HEADER, user)
    {
      hide HeaderAt, Put, Laid, Linked, Untouched, Splice;
      MarkKeeps(bytes, freeList, blocks, heapStart, heapEnd, k, user);
      bytes := Put(bytes, block, HeaderAt(bytes, block).(free := 0, userSize := user));
      bytes := Splice(bytes, block + HEADER + user, Bytes32(HEAP_GUARD));
      blocks := blocks[k := Block(block, blocks[k].size, Live(user))];
    }

    /** The end that heap_expand computes for size more bytes. */
    function NewEnd(size: nat): Word32
      reads this
    {
      AlignUp(heapEnd + size, PAGE)
    }

    /** The pages to add for size more bytes. */
    function NewPages(size: nat): int
      reads this
    {
      PageOf(NewEnd(size)) - PageOf(heapEnd)
    }

    /** The last page to add would get the last frame, and no table. */
    ghost predicate LastStarves(size: nat)
      reads this, vmm, vmm.pd, vmm.pmm, vmm.pmm.bitmap
    {
      && vmm.pd.Length == ENTRIES && 0 < NewPages(size)
      && Starves(vmm.pd[..], vmm.pmm.FreeSet(), PageOf(heapEnd), NewPages(size) - 1)
    }

    /** There are frames for the pages to add and for the tables they miss. */
    ghost predicate FramesSuffice(size: nat)
      reads this, vmm, vmm.pd, vmm.pmm, vmm.pmm.bitmap
    {
      && vmm.pd.Length == ENTRIES && 0 < NewPages(size)
      && Needed(vmm.pd[..], PageOf(heapEnd), NewPages(size)) <= |vmm.pmm.FreeSet()|
    }

    /** heap_expand: fresh frames up to the next page boundary past size more bytes.  It reports
        success also when the last page got a frame but no table to be mapped in. */
    method Expand(size: Word32) returns (ok: bool)
      requires HeapMapped(vmm, heapStart, heapEnd, heapMax)
      requires 0 < size && heapStart <= heapEnd && heapEnd + size + PAGE - 1 < U32_LIMIT
      modifies `heapEnd, vmm, vmm.pd, vmm.pmm, vmm.pmm.bitmap
      ensures vmm.Valid() && old(heapEnd) + size <= old(NewEnd(size)) < U32_LIMIT
      ensures ok <==> old(NewEnd(size) <= heapMax && (FramesSuffice(size) || LastStarves(size)))
      ensures heapEnd == if ok then old(NewEnd(size)) else old(heapEnd)
      ensures InUseKept(old(vmm.mem), old(vmm.pmm.FreeSet()), vmm.pd[..], vmm.mem)
      ensures !ok && old(NewEnd(size)) <= heapMax ==> vmm.pmm.FreeSet() == {}
      ensures !ok && old(NewEnd(size)) > heapMax ==> Snap(vmm) == old(Snap(vmm))
      ensures HeapMapped(vmm, heapStart, heapEnd, heapMax) <==> !(ok && old(LastStarves(size)))
      ensures ok && old(LastStarves(size)) ==> AllButLast(vmm, heapStart, heapEnd)
    {
      hide Laid, Linked, Coalesced, Roomy, LiveCount, LiveBytes, PageOf, AlignUp, Own, Looping, Starves, Needed, Good,
        InUseKept, FrameAllocator.Pmm.Valid, FrameAllocator.Pmm.FreeSet, Vmm.Space;
      var newEnd := AlignUp(Wrap32(heapEnd + size), PAGE);
      ExpandExact(heapEnd, size);
      AlignedToPage(heapEnd + size);
      SameInUse(vmm.mem, vmm.pmm.FreeSet(), vmm.pd[..]);
      if newEnd > heapMax { return false; }
      ghost var s0, fs, lost := Snap(vmm), [], {};
      ok, fs, lost := MapPages(vmm, heapEnd, newEnd);
      OwnAfter(vmm, s0, heapStart, heapEnd, fs, lost);
      if !ok { return; }
      if lost != {} {
        PageBelow(newEnd - 1, newEnd);
        StarvedPage(vmm, s0, PageOf(heapEnd), fs, lost);
        PagesInOrder(heapStart, heapEnd);
        NotOwned(vmm, PageOf(heapStart), PageOf(newEnd));
      }
      heapEnd := newEnd;
    }

    /** The new block at the old end, linked behind the last one, with its guard word. */
    method Append(oldEnd: Word32, need: Word32, user: Word32)
      requires Placed(bytes, blocks, heapStart, oldEnd) && 16 <= heapStart && Linked(bytes, freeList, blocks)
      requires oldEnd + HEADER + need <= heapEnd && user + GUARD_SIZE <= need
      modifies `bytes, `blocks, `freeList
      ensures Shaped() && blocks == old(blocks) + [Block(oldEnd, need, Live(user))]
      ensures Untouched(old(bytes), bytes, old(blocks), heapStart, heapEnd) && GuardIntact(bytes, oldEnd + HEADER, user)
    {
      hide HeaderAt, Put, Laid, Linked, Untouched, Splice, AddrAt;
      WalkPast(bytes, freeList, blocks, heapStart, oldEnd, Header(need, user, HEAP_MAGIC, 0, 0, 0));
      AppendAll(bytes, freeList, blocks, heapStart, oldEnd, heapEnd, need, user);
      ghost var m := bytes;
      bytes := Put(bytes, oldEnd, Header(need, user, HEAP_MAGIC, 0, 0, 0));
      if freeList == 0 {
        freeList := oldEnd;
      } else {
        var last := freeList;
        ghost var k := 0;
        while HeaderAt(bytes, last).next != 0
          invariant k < |blocks| && last == blocks[k].addr == AddrAt(blocks, k)
          decreases |blocks| - k
        {
          last, k := HeaderAt(bytes, last).next, k + 1;
        }
        assert k == |blocks| - 1;
        bytes := Put(bytes, last, HeaderAt(bytes, last).(next := oldEnd));
        bytes := Put(bytes, oldEnd, HeaderAt(bytes, oldEnd).(prev := last));
      }
      assert bytes == AppendMemory(m, oldEnd, need, user, AddrAt(blocks, |blocks| - 1));
      bytes := Splice(bytes, oldEnd + HEADER + user, Bytes32(HEAP_GUARD));
      blocks := blocks + [Block(oldEnd, need, Live(user))];
    }

    /** The counters after handing out user bytes. */
    method CountAlloc(user: Word32)
      requires current + 1 < U32_LIMIT && inUse + user < U32_LIMIT
      modifies `totalAllocs, `current, `inUse, `peakAllocs, `peakBytes
      ensures totalAllocs == Wrap32(old(totalAllocs) + 1) && current == old(current) + 1 && inUse == old(inUse) + user
      ensures peakAllocs == Max(old(peakAllocs), current) && peakBytes == Max(old(peakBytes), inUse)
      ensures Wrap32(old(totalAllocs) - totalFrees) == old(current) ==> Wrap32(totalAllocs - totalFrees) == current
    {
      if Wrap32(totalAllocs - totalFrees) == current { TotalsStep(totalAllocs, totalFrees, current); }
      totalAllocs := Wrap32(totalAllocs + 1);
      current := Wrap32(current + 1);
      inUse := Wrap32(inUse + user);
      if current > peakAllocs { peakAllocs := current; }
      if inUse > peakBytes { peakBytes := inUse; }
    }

    /** kmalloc's first half: the lowest free block that fits. */
    method TakeFirstFit(block: Word32, ghost k: nat, need: Word32, user: Word32)
      requires Kept() && k < |blocks| && blocks[k].status.Free? && block == blocks[k].addr
      requires need <= blocks[k].size && 0 < user && user + GUARD_SIZE <= need
      modifies `bytes, `blocks, `totalAllocs, `current, `inUse, `peakAllocs, `peakBytes
      ensures Kept() && blocks == Carve(old(blocks), k, need, user)
      ensures Untouched(old(bytes), bytes, old(blocks), heapStart, heapEnd) && GuardIntact(bytes, block + HEADER, user)
      ensures totalAllocs == Wrap32(old(totalAllocs) + 1)
      ensures peakAllocs == Max(old(peakAllocs), current) && peakBytes == Max(old(peakBytes), inUse)
    {
      hide Linked, Laid, Coalesced, Roomy, LiveCount, LiveBytes, Untouched, GuardIntact, Carve, CutBlocks, Wrap32;
      CarveKeeps(blocks, heapStart, heapEnd, k, need, user);
      CarveIsCut(blocks, k, need, user);
      CountersFit(Carve(blocks, k, need, user), heapStart, heapEnd);
      CutContains(blocks, k, need);
      Cut(block, k, need);
      ghost var m := bytes;
      assert need <= blocks[k].size by { CutFits(old(blocks), k, need); }
      ghost var ss := blocks;
      Mark(block, k, user);
      UntouchedFewer(m, bytes, ss, old(blocks), heapStart, heapEnd);
      UntouchedTwice(old(bytes), m, bytes, old(blocks), heapStart, heapEnd);
      CountAlloc(user);
    }

    /** kmalloc's second half: a new block at the old end of the expanded heap. */
    method AppendFresh(oldEnd: Word32, need: Word32, user: Word32)
      requires Placed(bytes, blocks, heapStart, oldEnd) && 16 <= heapStart && Linked(bytes, freeList, blocks)
      requires Coalesced(blocks) && Roomy(blocks) && Counted()
      requires oldEnd + HEADER + need <= heapEnd && 0 < user && user + GUARD_SIZE <= need
      modifies `bytes, `blocks, `freeList, `totalAllocs, `current, `inUse, `peakAllocs, `peakBytes
      ensures Kept() && blocks == old(blocks) + [Block(oldEnd, need, Live(user))]
      ensures Untouched(old(bytes), bytes, old(blocks), heapStart, heapEnd) && GuardIntact(bytes, oldEnd + HEADER, user)
      ensures totalAllocs == Wrap32(old(totalAllocs) + 1)
      ensures peakAllocs == Max(old(peakAllocs), current) && peakBytes == Max(old(peakBytes), inUse)
    {
      hide Linked, Laid, Coalesced, Roomy, LiveCount, LiveBytes, Untouched, GuardIntact, Wrap32;
      AppendKeeps(blocks, heapStart, oldEnd, heapEnd, need, user);
      CountersFit(blocks + [Block(oldEnd, need, Live(user))], heapStart, heapEnd);
      Append(oldEnd, need, user);
      CountAlloc(user);
    }

    /** kmalloc.  It needs heap_end plus the rounded request to stay below 2^32 only when no
        free block fits. */
    method KMalloc(size: Word32) returns (ptr: Word32)
      requires Valid() && size <= MAX_REQUEST
      requires size == 0 || FirstFit(blocks, Reserved(size), 0) < |blocks|
        || heapEnd + HEADER + Reserved(size) + PAGE - 1 < U32_LIMIT
      modifies this, vmm, vmm.pd, vmm.pmm, vmm.pmm.bitmap
      ensures Kept() && heapStart == old(heapStart) && heapMax == old(heapMax) && totalFrees == old(totalFrees)
      ensures Valid() <==> !old(Outruns(size))
      ensures old(Outruns(size)) ==>
        AllButLast(vmm, heapStart, heapEnd) && heapEnd - PAGE < old(heapEnd) + HEADER + Reserved(size) <= heapEnd
      ensures InUseKept(old(vmm.mem), old(vmm.pmm.FreeSet()), vmm.pd[..], vmm.mem)
      ensures Untouched(old(bytes), bytes, old(blocks), heapStart, heapEnd)
      ensures var need, bs, k := Reserved(size), old(blocks), FirstFit(old(blocks), Reserved(size), 0);
        if size == 0 then ptr == 0 && blocks == bs && heapEnd == old(heapEnd)
        else if k < |bs| then ptr == bs[k].addr + HEADER && blocks == Carve(bs, k, need, size)
          && heapEnd == old(heapEnd)
        else if old(Grows(need)) then
          ptr == old(heapEnd) + HEADER && blocks == bs + [Block(old(heapEnd), need, Live(size))]
          && heapEnd == old(NewEnd(HEADER + need))
        else ptr == 0 && blocks == bs && heapEnd == old(heapEnd)
      ensures var need, bs, k := Reserved(size), old(blocks), FirstFit(old(blocks), Reserved(size), 0);
        if size == 0 then ptr == 0
        else if k < |bs| then ptr == bs[k].addr + 24 && Served(bs, blocks, k, need, size)
        else ptr != 0 ==>
          && ptr == old(heapEnd) + 24 && blocks == bs + [Block(old(heapEnd), need, Live(size))]
          && heapEnd % 4096 == 0 && heapEnd - 4096 < old(heapEnd) + 24 + need <= heapEnd
      ensures ptr == 0 ==> bytes == old(bytes) && totalAllocs == old(totalAllocs)
      ensures ptr != 0 ==> GuardIntact(bytes, ptr, size) && totalAllocs == Wrap32(old(totalAllocs) + 1)
      ensures peakAllocs == Max(old(peakAllocs), current) && peakBytes == Max(old(peakBytes), inUse)
    {
      hide Served, Linked, Laid, Coalesced, Roomy, LiveCount, LiveBytes, Untouched, GuardIntact, Carve, AlignUp,
        AddrAt, HeapMapped, LastStarves, FramesSuffice, InUseKept, AllButLast;
      UntouchedSelf(bytes, blocks, heapStart, heapEnd);
      InUseSame(vmm, heapStart, heapEnd, heapMax);
      if size == 0 { return 0; }
      var need: Word32 := Reserved(size);
      ReservedFits(size);
      var block, k := FindFit(need);
      FirstFitSkips(blocks, need, 0);
      if block != 0 {
        FitAddress(bytes, blocks, heapStart, heapEnd, k);
        CarveServes(blocks, k, need, size);
        TakeFirstFit(block, k, need, size);
        return block + HEADER;
      }
      NewEndClose(HEADER + need);
      ghost var starved;
      ptr, starved := Extend(need, size);
    }

    lemma NewEndClose(size: nat)
      requires heapEnd + size + PAGE - 1 < U32_LIMIT
      ensures heapEnd + size <= NewEnd(size) < heapEnd + size + PAGE && NewEnd(size) % PAGE == 0
    {
      AlignedToPage(heapEnd + size);
    }

    lemma GrowsIs(need: nat)
      ensures Grows(need) <==>
        NewEnd(HEADER + need) <= heapMax && (FramesSuffice(HEADER + need) || LastStarves(HEADER + need))
    {
    }

    /** kmalloc when nothing fits: expand the heap and put a block at its old end. */
    method Extend(need: Word32, size: Word32) returns (ptr: Word32, ghost starved: bool)
      requires Valid() && 0 < size && size + GUARD_SIZE <= need && heapEnd + HEADER + need + PAGE - 1 < U32_LIMIT
      modifies this, vmm, vmm.pd, vmm.pmm, vmm.pmm.bitmap
      ensures Kept() && heapStart == old(heapStart) && heapMax == old(heapMax) && totalFrees == old(totalFrees)
      ensures starved <==> ptr != 0 && old(LastStarves(HEADER + need))
      ensures HeapMapped(vmm, heapStart, heapEnd, heapMax) <==> !starved
      ensures starved ==> AllButLast(vmm, heapStart, heapEnd)
      ensures InUseKept(old(vmm.mem), old(vmm.pmm.FreeSet()), vmm.pd[..], vmm.mem)
      ensures Untouched(old(bytes), bytes, old(blocks), heapStart, heapEnd)
      ensures ptr != 0 <==> old(Grows(need))
      ensures ptr != 0 ==>
        && ptr == old(heapEnd) + HEADER && blocks == old(blocks) + [Block(old(heapEnd), need, Live(size))]
        && heapEnd == old(NewEnd(HEADER + need))
        && GuardIntact(bytes, ptr, size) && totalAllocs == Wrap32(old(totalAllocs) + 1)
      ensures ptr == 0 ==>
        && blocks == old(blocks) && heapEnd == old(heapEnd) && bytes == old(bytes) && totalAllocs == old(totalAllocs)
      ensures peakAllocs == Max(old(peakAllocs), current) && peakBytes == Max(old(peakBytes), inUse)
    {
      hide Linked, Laid, Coalesced, Roomy, LiveCount, LiveBytes, Untouched, GuardIntact, AlignUp, AddrAt, HeapMapped,
        LastStarves, FramesSuffice, InUseKept, AllButLast, Wrap32, Placed, Splice, Grows, NewEnd;
      UntouchedSelf(bytes, blocks, heapStart, heapEnd);
      PlacedInOrder(bytes, blocks, heapStart, heapEnd);
      var oldEnd := heapEnd;
      var ok;
      ok, starved := ExpandFor(need);
      if !ok { return 0, false; }
      AppendFresh(oldEnd, need, size);
      return oldEnd + HEADER, starved;
    }

    /** Room for a new block, header included. */
    method ExpandFor(need: Word32) returns (ok: bool, ghost starved: bool)
      requires Valid() && heapStart <= heapEnd && heapEnd + HEADER + need + PAGE - 1 < U32_LIMIT
      modifies `heapEnd, vmm, vmm.pd, vmm.pmm, vmm.pmm.bitmap
      ensures ok == old(Grows(need)) && (starved <==> ok && old(LastStarves(HEADER + need)))
      ensures heapEnd == (if ok then old(NewEnd(HEADER + need)) else old(heapEnd))
      ensures ok ==> old(heapEnd) + HEADER + need <= heapEnd
      ensures HeapMapped(vmm, heapStart, heapEnd, heapMax) <==> !starved
      ensures starved ==> AllButLast(vmm, heapStart, heapEnd)
      ensures InUseKept(old(vmm.mem), old(vmm.pmm.FreeSet()), vmm.pd[..], vmm.mem)
    {
      hide AlignUp, HeapMapped, LastStarves, FramesSuffice, InUseKept, AllButLast, Wrap32, Grows, NewEnd, Kept;
      var more := Wrap32(HEADER + need);
      WrapSmall(HEADER + need);
      NewEndClose(more);
      GrowsIs(need);
      ghost var grows := Grows(need);
      starved := LastStarves(more);
      ok := Expand(more);
      assert ok == grows;
      starved := starved && ok;
    }

    /** heap_expand reports success for a block of need bytes. */
    ghost predicate Grows(need: nat)
      reads this, vmm, vmm.pd, vmm.pmm, vmm.pmm.bitmap
    {
      NewEnd(HEADER + need) <= heapMax && (FramesSuffice(HEADER + need) || LastStarves(HEADER + need))
    }

    /** kmalloc hands out a block whose last page is not mapped: no free block fits, and the
        expansion ends with the last frame and a page table short of one. */
    ghost predicate Outruns(size: Word32)
      reads this, vmm, vmm.pd, vmm.pmm, vmm.pmm.bitmap
    {
      && size != 0 && FirstFit(blocks, Reserved(size), 0) == |blocks|
      && NewEnd(HEADER + Reserved(size)) <= heapMax && LastStarves(HEADER + Reserved(size))
    }

    method JoinNext(block: Word32, ghost k: nat)
      requires Shaped() && k < |blocks| && blocks[k].status.Free? && block == blocks[k].addr
      modifies `bytes, `blocks
      ensures Shaped() && Untouched(old(bytes), bytes, old(blocks), heapStart, heapEnd)
      ensures var bs := old(blocks);
        blocks == if k + 1 < |bs| && bs[k + 1].status.Free? then MergeBlocks(bs, k) else bs
    {
      hide HeaderAt, Put, Laid, Linked, Untouched;
      UntouchedSelf(bytes, blocks, heapStart, heapEnd);
      Neighbours(bytes, freeList, blocks, heapStart, heapEnd, k);
      var h := HeaderAt(bytes, block);
      if h.next != 0 && HeaderAt(bytes, h.next).free != 0 {
        MergeKeeps(bytes, freeList, blocks, heapStart, heapEnd, k);
        var hn := HeaderAt(bytes, h.next);
        bytes := Put(bytes, block, h.(size := Wrap32(h.size + (HEADER + hn.size)), next := hn.next));
        if hn.next != 0 {
          bytes := Put(bytes, hn.next, HeaderAt(bytes, hn.next).(prev := block));
        }
        blocks := MergeBlocks(blocks, k);
      }
    }

    method JoinPrev(block: Word32, ghost k: nat)
      requires Shaped() && k < |blocks| && blocks[k].status.Free? && block == blocks[k].addr
      modifies `bytes, `blocks
      ensures Shaped() && Untouched(old(bytes), bytes, old(blocks), heapStart, heapEnd)
      ensures blocks == JoinPrevious(old(blocks), k)
    {
      hide HeaderAt, Put, Laid, Linked, Untouched;
      UntouchedSelf(bytes, blocks, heapStart, heapEnd);
      Neighbours(bytes, freeList, blocks, heapStart, heapEnd, k);
      var h := HeaderAt(bytes, block);
      if h.prev != 0 && HeaderAt(bytes, h.prev).free != 0 {
        MergeKeeps(bytes, freeList, blocks, heapStart, heapEnd, k - 1);
        var hp := HeaderAt(bytes, h.prev);
        bytes := Put(bytes, h.prev, hp.(size := Wrap32(hp.size + (HEADER + h.size)), next := h.next));
        if h.next != 0 {
          bytes := Put(bytes, h.next, HeaderAt(bytes, h.next).(prev := h.prev));
        }
        blocks := MergeBlocks(blocks, k - 1);
      }
    }

    /** Mark block k free and join it with free neighbours. */
    method Unlink(block: Word32, ghost k: nat)
      requires Shaped() && k < |blocks| && block == blocks[k].addr
      modifies `bytes, `blocks
      ensures Shaped() && blocks == Release(old(blocks), k) && Untouched(old(bytes), bytes, blocks, heapStart, heapEnd)
    {
      hide HeaderAt, Put, Linked, Laid, Untouched, FreeWithNext, MergeBlocks, Release, JoinPrevious, Freed;
      ghost var bs, m := blocks, bytes;
      MarkFreeKeeps(bytes, freeList, blocks, heapStart, heapEnd, k);
      bytes := Put(bytes, block, HeaderAt(bytes, block).(free := 1));
      blocks := Freed(blocks, k);
      FreedAt(bs, k);
      ghost var m1 := bytes;
      ReleaseSteps(bs, k);
      JoinNext(block, k);
      ghost var m2 := bytes;
      JoinPrev(block, k);
      ReleaseLive(bs, k);
      UntouchedTwice(m, m1, m2, Freed(bs, k), heapStart, heapEnd);
      UntouchedFewer(m, m2, Freed(bs, k), FreeWithNext(bs, k), heapStart, heapEnd);
      UntouchedTwice(m, m2, bytes, FreeWithNext(bs, k), heapStart, heapEnd);
      UntouchedFewer(m, bytes, FreeWithNext(bs, k), blocks, heapStart, heapEnd);
    }

    /** The counters after taking back user bytes. */
    method CountFree(user: Word32)
      requires 0 < current && user <= inUse
      modifies `totalFrees, `current, `inUse
      ensures totalFrees == Wrap32(old(totalFrees) + 1) && current == old(current) - 1 && inUse == old(inUse) - user
      ensures Wrap32(totalAllocs - old(totalFrees)) == old(current) ==> Wrap32(totalAllocs - totalFrees) == current
    {
      if Wrap32(totalAllocs - totalFrees) == current { TotalsStep(totalAllocs, totalFrees, current); }
      totalFrees := Wrap32(totalFrees + 1);
      current := Wrap32(current - 1);
      inUse := Wrap32(inUse - user);
    }

    /** The header in front of ptr carries the heap's magic number. */
    ghost predicate Marked(ptr: Word32)
      reads this
    {
      HEADER <= ptr <= |bytes| && HeaderAt(bytes, ptr - HEADER).magic == HEAP_MAGIC
    }

    lemma MarkedBytes(ptr: Word32)
      ensures Marked(ptr) <==>
        && 24 <= ptr <= |bytes|
        && bytes[ptr - 16] == 0xEF && bytes[ptr - 15] == 0xBE && bytes[ptr - 14] == 0xAD && bytes[ptr - 13] == 0xDE
    {
      if HEADER <= ptr <= |bytes| { MagicBytes(bytes, ptr - HEADER + 8); }
      hide GetU32;
    }

    /** kfree: a pointer that is marked is block k's, which is live; others are ignored.  The
        result says whether the overflow warning is printed. */
    method KFree(ptr: Word32, ghost k: nat) returns (warned: bool)
      requires Valid()
      requires ptr == 0 || HEADER <= ptr
      requires Marked(ptr) ==> k < |blocks| && blocks[k].status.Live? && ptr == blocks[k].addr + HEADER
      modifies this
      ensures Valid() && heapStart == old(heapStart) && heapEnd == old(heapEnd) && heapMax == old(heapMax)
      ensures !old(Marked(ptr)) ==>
        && !warned && blocks == old(blocks) && bytes == old(bytes)
        && totalFrees == old(totalFrees)
      ensures old(Marked(ptr)) ==>
        && blocks == Release(old(blocks), k) && Untouched(old(bytes), bytes, blocks, heapStart, heapEnd)
        && GivenBack(old(blocks), blocks, k) && totalFrees == Wrap32(old(totalFrees) + 1)
        && (warned <==> !old(GuardIntact(bytes, ptr, blocks[k].status.user)))
      ensures totalAllocs == old(totalAllocs) && peakAllocs == old(peakAllocs) && peakBytes == old(peakBytes)
    {
      hide GivenBack, Release, HeaderAt, Put, Linked, Laid, Coalesced, Roomy, LiveCount, LiveBytes, HeapMapped,
        Untouched, Wrap32;
      if ptr == 0 { return false; }
      var block: Word32 := ptr - HEADER;
      if HeaderAt(bytes, block).magic != HEAP_MAGIC { return false; }
      Neighbours(bytes, freeList, blocks, heapStart, heapEnd, k);
      var user := HeaderAt(bytes, block).userSize;
      RoomInside(blocks, heapStart, heapEnd, k);
      warned := GetU32(bytes, ptr + user) != HEAP_GUARD;
      ReleaseKeeps(blocks, heapStart, heapEnd, k);
      ReleaseGives(blocks, k);
      CountFree(user);
      Unlink(block, k);
    }

    /** A user's store anywhere in its block's payload, even past its own size. */
    method Store(at: Word32, v: seq<Byte>, ghost k: nat)
      requires Kept() && k < |blocks| && blocks[k].status.Live?
      requires blocks[k].addr + HEADER <= at && at + |v| <= End(blocks[k])
      modifies `bytes
      ensures Kept() && at + |v| <= |bytes| && bytes == Splice(old(bytes), at, v)
      ensures Untouched(old(bytes), bytes, Freed(blocks, k), heapStart, heapEnd)
    {
      hide Linked, Laid, Coalesced, Roomy, LiveCount, LiveBytes, HeapMapped, Untouched, Splice;
      PayloadLinked(bytes, freeList, blocks, heapStart, heapEnd, k, at, v);
      FreedLive(blocks, heapStart, heapEnd, k);
      PayloadUntouched(bytes, blocks, heapStart, heapEnd, k, at, v, Freed(blocks, k));
      bytes := Splice(bytes, at, v);
    }

    /** kmalloc_aligned: an aligned range inside a fresh block, the block's own pointer stored
        just before it. */
    method KMallocAligned(size: Word32, alignment: Word32) returns (ptr: Word32, ghost k: nat)
      requires Valid() && PowerOfTwo(alignment) && size + alignment + 4 <= MAX_REQUEST
      requires var need := Reserved(size + alignment + 4);
        FirstFit(blocks, need, 0) < |blocks| || heapEnd + HEADER + need + PAGE - 1 < U32_LIMIT
      modifies this, vmm, vmm.pd, vmm.pmm, vmm.pmm.bitmap
      ensures Kept() && (Valid() <==> !old(Outruns(size + alignment + 4)))
      ensures Untouched(old(bytes), bytes, old(blocks), heapStart, heapEnd)
      ensures ptr == 0 ==> blocks == old(blocks) && bytes == old(bytes)
      ensures var need, bs := Reserved(size + alignment + 4), old(blocks);
        && k == FirstFit(bs, need, 0)
        && (ptr == 0 <==> k == |bs| && !old(Grows(need)))
        && (ptr != 0 ==>
              blocks == if k < |bs| then Carve(bs, k, need, size + alignment + 4)
                        else bs + [Block(old(heapEnd), need, Live(size + alignment + 4))])
      ensures ptr != 0 ==>
        k < |blocks| && blocks[k] !in old(blocks) && AlignedIn(bytes, blocks[k], ptr, size, alignment)
    {
      hide Linked, Laid, Coalesced, Roomy, LiveCount, LiveBytes, HeapMapped, Untouched, GuardIntact, AlignUp, Splice,
        FirstFit, Reserved, Carve, LastStarves, FramesSuffice, InUseKept, AllButLast, Heap.Grows, Heap.Outruns,
        Heap.Counted, AlignedIn;
      var total := AlignedTotal(size, alignment);
      k := FirstFit(blocks, Reserved(total), 0);
      FirstFitSkips(blocks, Reserved(total), 0);
      var own := KMalloc(total);
      if own == 0 { return 0, k; }
      FreshBlock(old(blocks), blocks, heapStart, old(heapEnd), heapEnd, k, Reserved(total), total, old(heapEnd));
      ghost var m := bytes;
      ptr := AlignInside(own, size, alignment, k);
      UntouchedFewer(m, bytes, Freed(blocks, k), old(blocks), heapStart, heapEnd);
      UntouchedTwice(old(bytes), m, bytes, old(blocks), heapStart, heapEnd);
    }

    /** The aligned range in block k, and the block's pointer before it. */
    method AlignInside(own: Word32, size: Word32, alignment: Word32, ghost k: nat) returns (ptr: Word32)
      requires Kept() && k < |blocks| && own == blocks[k].addr + HEADER && PowerOfTwo(alignment)
      requires size + alignment + 4 < U32_LIMIT && blocks[k].status == Live(size + alignment + 4)
      requires GuardIntact(bytes, own, size + alignment + 4)
      modifies `bytes
      ensures Kept() && Untouched(old(bytes), bytes, Freed(blocks, k), heapStart, heapEnd)
      ensures ptr != 0 && AlignedIn(bytes, blocks[k], ptr, size, alignment)
    {
      hide Linked, Laid, Coalesced, Roomy, LiveCount, LiveBytes, Untouched, GuardIntact, AlignUp, Splice;
      RoomInside(blocks, heapStart, heapEnd, k);
      AlignUpBounds(own + 4, alignment);
      ptr := AlignUp(own + 4, alignment);
      GuardAfterStore(bytes, ptr - 4, Bytes32(own), own, size + alignment + 4);
      GetAfterSplice32(bytes, ptr - 4, own);
      Store(ptr - 4, Bytes32(own), k);
    }

    /** kfree_aligned finds the block through the pointer stored before the range. */
    method KFreeAligned(ptr: Word32, ghost k: nat) returns (warned: bool)
      requires Valid()
      requires ptr != 0 ==>
        && k < |blocks| && blocks[k].status.Live? && 4 <= ptr
        && GetU32(bytes, ptr - 4) == blocks[k].addr + HEADER
      modifies this
      ensures Valid() && heapEnd == old(heapEnd)
      ensures ptr == 0 ==> blocks == old(blocks) && bytes == old(bytes)
      ensures ptr != 0 ==>
        && blocks == Release(old(blocks), k) && Untouched(old(bytes), bytes, blocks, heapStart, heapEnd)
        && (warned <==> !old(GuardIntact(bytes, blocks[k].addr + HEADER, blocks[k].status.user)))
    {
      hide Linked, Laid, Coalesced, Roomy, LiveCount, LiveBytes, HeapMapped, Untouched, GuardIntact, Release;
      if ptr == 0 { return false; }
      var original := GetU32(bytes, ptr - 4);
      Neighbours(bytes, freeList, blocks, heapStart, heapEnd, k);
      warned := KFree(original, k);
    }

    /** heap_check_overflow of a live pointer. */
    method CheckOverflow(ptr: Word32, ghost k: nat) returns (intact: bool)
      requires Valid() && k < |blocks| && blocks[k].status.Live? && ptr == blocks[k].addr + HEADER
      ensures intact <==> GuardIntact(bytes, ptr, blocks[k].status.user)
    {
      hide HeaderAt, Linked, Laid, Coalesced, Roomy, LiveCount, LiveBytes, HeapMapped;
      Neighbours(bytes, freeList, blocks, heapStart, heapEnd, k);
      RoomInside(blocks, heapStart, heapEnd, k);
      var h := HeaderAt(bytes, ptr - HEADER);
      if ptr == 0 || h.magic != HEAP_MAGIC { return false; }
      return GetU32(bytes, ptr + h.userSize) == HEAP_GUARD;
    }

    /** heap_check_leaks counts the live blocks, even after the totals have wrapped. */
    method CheckLeaks() returns (leaks: Word32)
      requires Valid()
      ensures leaks == LiveCount(blocks) <= U32_LIMIT / 28
    {
      hide Linked, Laid, Coalesced, Roomy, LiveCount, LiveBytes, HeapMapped;
      BytesFit(blocks, heapStart, heapEnd);
      EndWithin(blocks, heapStart, heapEnd);
      leaks := if totalAllocs != totalFrees then Wrap32(totalAllocs - totalFrees) else 0;
    }
  }

  /** Two requests that one free block has room for, headers included, when it is the first that
      fits either: both are served from it, one behind the other, and the heap does not grow. */
  method ServeTwo(heap: Heap, a: Word32, b: Word32, ghost k: nat) returns (p: Word32, q: Word32)
    requires heap.Valid() && 0 < a <= 0xFFFF_FFEC && 0 < b <= 0xFFFF_FFEC
    requires k < |heap.blocks| && heap.blocks[k].status.Free?
    requires Reserved(a) + 24 + Reserved(b) <= heap.blocks[k].size
    requires forall j :: 0 <= j < k && heap.blocks[j].status.Free? ==>
      heap.blocks[j].size < Reserved(a) && heap.blocks[j].size < Reserved(b)
    modifies heap, heap.vmm, heap.vmm.pd, heap.vmm.pmm, heap.vmm.pmm.bitmap
    ensures heap.Valid() && heap.heapEnd == old(heap.heapEnd)
    ensures p == old(heap.blocks[k]).addr + 24 && q == p + Reserved(a) + 24
  {
    hide Reserved, HeapMapped, Heap.Kept, Untouched, InUseKept, Carve, Heap.Grows, Served, FirstFit;
    ReservedIs(b);
    FirstFitIs(heap.blocks, Reserved(a), k, 0);
    FirstFitIs(heap.blocks, Reserved(b), k, 0);
    ghost var bs := heap.blocks;
    NotOutrun(heap, a);
    p := heap.KMalloc(a);
    ServedTwice(bs, heap.blocks, k, Reserved(a), a, Reserved(b));
    NotOutrun(heap, b);
    q := heap.KMalloc(b);
  }

  lemma NotOutrun(heap: Heap, size: Word32)
    ensures heap.Outruns(size) ==> FirstFit(heap.blocks, Reserved(size), 0) == |heap.blocks|
  {
  }
}
