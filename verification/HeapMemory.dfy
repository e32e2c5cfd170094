/** The heap's headers as bytes of memory, linked both ways in address order, and the four
    edits kmalloc and kfree make to that list. */
module HeapMemory {
  import opened LittleEndian
  import opened HeapLayout

  const HEAP_MAGIC := 0xDEAD_BEEF
  const HEAP_GUARD := 0xCAFE_BABE

  /** A block header; next and prev are addresses, 0 for none; free is tested against 0. */
  datatype Header = Header(size: Word32, userSize: Word32, magic: Word32, next: Word32, prev: Word32, free: Byte)

  function HeaderBytes(h: Header): (r: seq<Byte>)
    ensures |r| == 21
  {
    Bytes32(h.size) + Bytes32(h.userSize) + Bytes32(h.magic) + Bytes32(h.next) + Bytes32(h.prev) + [h.free]
  }

  function HeaderAt(m: seq<Byte>, a: nat): Header
    requires a + HEADER <= |m|
  {
    Header(GetU32(m, a), GetU32(m, a + 4), GetU32(m, a + 8), GetU32(m, a + 12), GetU32(m, a + 16), m[a + 20])
  }

  function Put(m: seq<Byte>, a: nat, h: Header): (r: seq<Byte>)
    requires a + HEADER <= |m|
    ensures |r| == |m|
    ensures forall p :: 0 <= p < |m| && (p < a || a + HEADER <= p) ==> r[p] == m[p]
  {
    Splice(m, a, HeaderBytes(h))
  }

  predicate Apart(a: nat, b: nat) {
    a + HEADER <= b || b + HEADER <= a
  }

  /** A header stored is the header loaded, and disjoint headers stay. */
  lemma PutGet(m: seq<Byte>, a: nat, h: Header)
    requires a + HEADER <= |m|
    ensures HeaderAt(Put(m, a, h), a) == h
  {
    var r := Put(m, a, h);
    WordOf(r, a, h.size);
    WordOf(r, a + 4, h.userSize);
    WordOf(r, a + 8, h.magic);
    WordOf(r, a + 12, h.next);
    WordOf(r, a + 16, h.prev);
  }

  lemma WordOf(m: seq<Byte>, a: nat, v: Word32)
    requires a + 4 <= |m| && (forall k :: 0 <= k < 4 ==> m[a + k] == Bytes32(v)[k])
    ensures GetU32(m, a) == v
  {
    GetBytes32(v);
    assert m[a + 0] == Bytes32(v)[0];
  }

  lemma PutApart(m: seq<Byte>, a: nat, h: Header, b: nat)
    requires a + HEADER <= |m| && b + HEADER <= |m| && Apart(a, b)
    ensures HeaderAt(Put(m, a, h), b) == HeaderAt(m, b)
  {
  }

  // ---- The list ----

  ghost function AddrAt(bs: seq<Block>, i: int): nat {
    if 0 <= i < |bs| then bs[i].addr else 0
  }

  ghost predicate Describes(h: Header, prev: nat, b: Block, next: nat) {
    && h.size == b.size && h.magic == HEAP_MAGIC && (h.free != 0 <==> b.status.Free?)
    && (b.status.Live? ==> h.userSize == b.status.user)
    && h.next == next && h.prev == prev
  }

  /** The headers in memory form a consistent doubly linked list of the blocks, in order. */
  ghost predicate Linked(m: seq<Byte>, first: nat, bs: seq<Block>) {
    && first == AddrAt(bs, 0)
    && forall i {:trigger bs[i]} :: 0 <= i < |bs| ==>
      bs[i].addr + HEADER <= |m| && Describes(HeaderAt(m, bs[i].addr), AddrAt(bs, i - 1), bs[i], AddrAt(bs, i + 1))
  }

  /** Block i of the list as memory holds it: size, user's size, the magic number, the addresses
      of the next and the previous header, and whether it is free. */
  lemma LinkedBytes(m: seq<Byte>, first: nat, bs: seq<Block>, i: nat, a: nat)
    requires Linked(m, first, bs) && i < |bs| && a == bs[i].addr
    ensures a + 24 <= |m|
    ensures m[a] as int + 0x100 * m[a + 1] as int + 0x1_0000 * m[a + 2] as int + 0x100_0000 * m[a + 3] as int ==
      bs[i].size
    ensures bs[i].status.Live? ==>
      m[a + 4] as int + 0x100 * m[a + 5] as int + 0x1_0000 * m[a + 6] as int + 0x100_0000 * m[a + 7] as int ==
        bs[i].status.user
    ensures m[a + 8] == 0xEF && m[a + 9] == 0xBE && m[a + 10] == 0xAD && m[a + 11] == 0xDE
    ensures m[a + 12] as int + 0x100 * m[a + 13] as int + 0x1_0000 * m[a + 14] as int + 0x100_0000 * m[a + 15] as int ==
      if i + 1 < |bs| then bs[i + 1].addr else 0
    ensures m[a + 16] as int + 0x100 * m[a + 17] as int + 0x1_0000 * m[a + 18] as int + 0x100_0000 * m[a + 19] as int ==
      if i > 0 then bs[i - 1].addr else 0
    ensures m[a + 20] != 0 <==> bs[i].status.Free?
  {
    assert Describes(HeaderAt(m, a), AddrAt(bs, i - 1), bs[i], AddrAt(bs, i + 1));
    LoadAdds(m, a);
    LoadAdds(m, a + 4);
    LoadAdds(m, a + 12);
    LoadAdds(m, a + 16);
    MagicBytes(m, a + 8);
    hide GetU32;
  }

  lemma MagicBytes(m: seq<Byte>, a: nat)
    requires a + 4 <= |m|
    ensures GetU32(m, a) == HEAP_MAGIC <==> m[a] == 0xEF && m[a + 1] == 0xBE && m[a + 2] == 0xAD && m[a + 3] == 0xDE
    ensures GetU32(m, a) == HEAP_GUARD <==> m[a] == 0xBE && m[a + 1] == 0xBA && m[a + 2] == 0xFE && m[a + 3] == 0xCA
  {
  }

  /** Inside memory, and no block at the null address. */
  ghost predicate Placed(m: seq<Byte>, bs: seq<Block>, lo: nat, hi: nat) {
    Laid(bs, lo, hi) && 0 < lo <= hi < U32_LIMIT == |m|
  }

  lemma BlocksApart(m: seq<Byte>, bs: seq<Block>, lo: nat, hi: nat, i: nat, j: nat)
    requires Placed(m, bs, lo, hi) && i < |bs| && j < |bs|
    ensures lo <= bs[i].addr && End(bs[i]) <= hi < |m| && 0 < lo && 0 < bs[j].addr && End(bs[j]) <= hi
    ensures i < j ==> End(bs[i]) <= bs[j].addr
    ensures j < i ==> End(bs[j]) <= bs[i].addr
  {
  }

  /** Storing a header changes the description of that block alone. */
  lemma PutFrame(m: seq<Byte>, bs: seq<Block>, lo: nat, hi: nat, k: nat, h: Header, i: nat)
    requires Placed(m, bs, lo, hi) && k < |bs| && i < |bs|
    ensures HeaderAt(Put(m, bs[k].addr, h), bs[i].addr) == if i == k then h else HeaderAt(m, bs[i].addr)
  {
    hide HeaderAt, Put, Laid;
    BlocksApart(m, bs, lo, hi, i, k);
    if i == k {
      PutGet(m, bs[k].addr, h);
    } else {
      PutApart(m, bs[k].addr, h, bs[i].addr);
    }
  }

  // ---- Marking a block ----

  lemma MarkLinked(m: seq<Byte>, first: nat, bs: seq<Block>, lo: nat, hi: nat, k: nat, b: Block, h: Header)
    requires Placed(m, bs, lo, hi) && Linked(m, first, bs) && k < |bs| && b.addr == bs[k].addr
    requires Describes(h, AddrAt(bs, k - 1), b, AddrAt(bs, k + 1))
    ensures Linked(Put(m, b.addr, h), first, bs[k := b])
  {
    hide HeaderAt, Put, Laid, Describes;
    var cs, m' := bs[k := b], Put(m, b.addr, h);
    forall i | 0 <= i < |cs|
      ensures cs[i].addr + HEADER <= |m'|
        && Describes(HeaderAt(m', cs[i].addr), AddrAt(cs, i - 1), cs[i], AddrAt(cs, i + 1))
    {
      BlocksApart(m, bs, lo, hi, i, k);
      PutFrame(m, bs, lo, hi, k, h, i);
      assert AddrAt(cs, i - 1) == AddrAt(bs, i - 1) && AddrAt(cs, i + 1) == AddrAt(bs, i + 1);
      assert bs[i].addr == cs[i].addr;
    }
  }

  // ---- Splitting a free block ----

  function RestAddr(a: nat, need: nat): nat {
    a + HEADER + need
  }

  predicate SplitReady(m: seq<Byte>, a: nat, need: nat) {
    && |m| == U32_LIMIT && RestAddr(a, need) + HEADER <= |m|
    && need + HEADER <= HeaderAt(m, a).size && HeaderAt(m, a).next + HEADER <= |m|
  }

  /** The stores that cut the block at a down to need bytes and link the rest after it. */
  function SplitMemory(m: seq<Byte>, a: nat, need: Word32): (r: seq<Byte>)
    requires SplitReady(m, a, need)
    ensures |r| == |m|
  {
    var h, rest := HeaderAt(m, a), RestAddr(a, need);
    var m1 := Put(m, rest, Header(h.size - need - HEADER, HeaderAt(m, rest).userSize, HEAP_MAGIC, h.next, a, 1));
    var m2 := if h.next != 0 then Put(m1, h.next, HeaderAt(m1, h.next).(prev := rest)) else m1;
    Put(m2, a, HeaderAt(m2, a).(next := rest, size := need))
  }

  function SplitBlocks(bs: seq<Block>, k: nat, need: nat): seq<Block>
    requires k < |bs| && need + HEADER <= bs[k].size
  {
    Replaced(bs, k, 1,
      [Block(bs[k].addr, need, Free), Block(RestAddr(bs[k].addr, need), bs[k].size - need - HEADER, Free)])
  }

  /** The header at x after the split, from the headers at a and x before it. */
  function SplitView(h: Header, hx: Header, a: nat, need: Word32, x: nat): Header
    requires need + HEADER <= h.size && RestAddr(a, need) < U32_LIMIT
  {
    var rest := RestAddr(a, need);
    if x == a then h.(next := rest, size := need)
    else if x == rest then Header(h.size - need - HEADER, hx.userSize, HEAP_MAGIC, h.next, a, 1)
    else if x == h.next && h.next != 0 then hx.(prev := rest)
    else hx
  }

  lemma SplitHeader(m: seq<Byte>, a: nat, need: Word32, x: nat)
    requires SplitReady(m, a, need) && x + HEADER <= |m|
    requires var n := HeaderAt(m, a).next; n == 0 || (Apart(n, a) && Apart(n, RestAddr(a, need)))
    requires x == a || Apart(x, a)
    requires x == RestAddr(a, need) || Apart(x, RestAddr(a, need))
    requires var n := HeaderAt(m, a).next; n == 0 || x == n || Apart(x, n)
    ensures HeaderAt(SplitMemory(m, a, need), x) == SplitView(HeaderAt(m, a), HeaderAt(m, x), a, need, x)
  {
    hide HeaderAt, Put;
    var h, rest := HeaderAt(m, a), RestAddr(a, need);
    var hr := Header(h.size - need - HEADER, HeaderAt(m, rest).userSize, HEAP_MAGIC, h.next, a, 1);
    var m1 := Put(m, rest, hr);
    var m2 := if h.next != 0 then Put(m1, h.next, HeaderAt(m1, h.next).(prev := rest)) else m1;
    PutGet(m, rest, hr);
    PutApart(m, rest, hr, a);
    if x != rest { PutApart(m, rest, hr, x); }
    if h.next != 0 {
      var hn := HeaderAt(m1, h.next).(prev := rest);
      PutGet(m1, h.next, hn);
      PutApart(m1, h.next, hn, a);
      if x != h.next { PutApart(m1, h.next, hn, x); }
    }
    var ha := HeaderAt(m2, a).(next := rest, size := need);
    PutGet(m2, a, ha);
    if x != a { PutApart(m2, a, ha, x); }
  }

  /** What position i of the split list comes from. */
  lemma SplitPosition(bs: seq<Block>, k: nat, need: nat, i: nat)
    requires k < |bs| && Splits(bs[k], need) && i < |SplitBlocks(bs, k, need)|
    ensures var cs, rest := SplitBlocks(bs, k, need), RestAddr(bs[k].addr, need);
      && |cs| == |bs| + 1
      && cs[k].addr == bs[k].addr && cs[k + 1].addr == rest
      && (i < k ==> cs[i] == bs[i])
      && (i > k + 1 ==> cs[i] == bs[i - 1])
      && AddrAt(cs, i - 1) == (if i <= k + 1 then AddrAt(bs, i - 1) else if i == k + 2 then rest else AddrAt(bs, i - 2))
      && AddrAt(cs, i + 1) == (if i < k then AddrAt(bs, i + 1) else if i == k then rest else AddrAt(bs, i))
  {
  }

  lemma SplitLinked(m: seq<Byte>, first: nat, bs: seq<Block>, lo: nat, hi: nat, k: nat, need: Word32)
    requires Placed(m, bs, lo, hi) && Linked(m, first, bs)
    requires k < |bs| && bs[k].status.Free? && Splits(bs[k], need)
    ensures SplitReady(m, bs[k].addr, need)
    ensures Linked(SplitMemory(m, bs[k].addr, need), first, SplitBlocks(bs, k, need))
  {
    hide HeaderAt, Laid, SplitMemory;
    var a, cs := bs[k].addr, SplitBlocks(bs, k, need);
    BlocksApart(m, bs, lo, hi, k, k);
    assert Describes(HeaderAt(m, a), AddrAt(bs, k - 1), bs[k], AddrAt(bs, k + 1));
    if k + 1 < |bs| { BlocksApart(m, bs, lo, hi, k, k + 1); }
    var m' := SplitMemory(m, a, need);
    forall i | 0 <= i < |cs|
      ensures cs[i].addr + HEADER <= |m'|
        && Describes(HeaderAt(m', cs[i].addr), AddrAt(cs, i - 1), cs[i], AddrAt(cs, i + 1))
    {
      SplitDescribes(m, first, bs, lo, hi, k, need, i);
    }
    SplitPosition(bs, k, need, 0);
  }

  lemma SplitDescribes(m: seq<Byte>, first: nat, bs: seq<Block>, lo: nat, hi: nat, k: nat, need: Word32, i: nat)
    requires Placed(m, bs, lo, hi) && Linked(m, first, bs)
    requires k < |bs| && bs[k].status.Free? && Splits(bs[k], need) && SplitReady(m, bs[k].addr, need)
    requires i < |SplitBlocks(bs, k, need)|
    ensures var cs, m' := SplitBlocks(bs, k, need), SplitMemory(m, bs[k].addr, need);
      && cs[i].addr + HEADER <= |m'|
      && Describes(HeaderAt(m', cs[i].addr), AddrAt(cs, i - 1), cs[i], AddrAt(cs, i + 1))
  {
    hide HeaderAt, Laid, SplitMemory, AddrAt;
    var a, cs := bs[k].addr, SplitBlocks(bs, k, need);
    var j, x := if i <= k then i else i - 1, cs[i].addr;
    SplitPosition(bs, k, need, i);
    NextNeighbour(bs, k);
    NextNeighbour(bs, j);
    BlocksApart(m, bs, lo, hi, j, k);
    if k + 1 < |bs| {
      BlocksApart(m, bs, lo, hi, j, k + 1);
      BlocksApart(m, bs, lo, hi, k, k + 1);
    }
    assert Describes(HeaderAt(m, a), AddrAt(bs, k - 1), bs[k], AddrAt(bs, k + 1));
    assert Describes(HeaderAt(m, bs[j].addr), AddrAt(bs, j - 1), bs[j], AddrAt(bs, j + 1));
    hide SplitBlocks, Linked;
    SplitHeader(m, a, need, x);
  }

  lemma NextNeighbour(bs: seq<Block>, k: nat)
    requires k < |bs|
    ensures AddrAt(bs, k) == bs[k].addr && AddrAt(bs, k + 1) == if k + 1 < |bs| then bs[k + 1].addr else 0
  {
  }

  // ---- Joining a free block to the next ----

  predicate MergeReady(m: seq<Byte>, a: nat) {
    && |m| == U32_LIMIT && a + HEADER <= |m| && HeaderAt(m, a).next + HEADER <= |m|
    && HeaderAt(m, HeaderAt(m, a).next).next + HEADER <= |m|
  }

  /** The stores that give the block at a its successor's header, payload and links. */
  function MergeMemory(m: seq<Byte>, a: nat): (r: seq<Byte>)
    requires MergeReady(m, a)
    ensures |r| == |m|
  {
    var h, hn := HeaderAt(m, a), HeaderAt(m, HeaderAt(m, a).next);
    var m1 := Put(m, a, h.(size := Wrap32(h.size + (HEADER + hn.size)), next := hn.next));
    if hn.next != 0 then Put(m1, hn.next, HeaderAt(m1, hn.next).(prev := Wrap32(a))) else m1
  }

  function MergeBlocks(bs: seq<Block>, k: nat): seq<Block>
    requires k + 1 < |bs|
  {
    Replaced(bs, k, 2, [Merge(bs[k], bs[k + 1])])
  }

  /** The header at x after joining, from those at a, its successor and x before. */
  function MergeView(h: Header, hn: Header, hx: Header, a: nat, x: nat): Header {
    if x == a then h.(size := Wrap32(h.size + (HEADER + hn.size)), next := hn.next)
    else if x == hn.next && hn.next != 0 then hx.(prev := Wrap32(a))
    else hx
  }

  lemma MergeHeader(m: seq<Byte>, a: nat, n: nat, nn: nat, x: nat)
    requires MergeReady(m, a) && x + HEADER <= |m| && n == HeaderAt(m, a).next && nn == HeaderAt(m, n).next
    requires nn == 0 || Apart(nn, a)
    requires x == a || Apart(x, a)
    requires nn == 0 || x == nn || Apart(x, nn)
    ensures HeaderAt(MergeMemory(m, a), x) == MergeView(HeaderAt(m, a), HeaderAt(m, n), HeaderAt(m, x), a, x)
  {
    hide HeaderAt, Put;
    var h, hn := HeaderAt(m, a), HeaderAt(m, n);
    var ha := h.(size := Wrap32(h.size + (HEADER + hn.size)), next := nn);
    var m1 := Put(m, a, ha);
    PutGet(m, a, ha);
    if x != a { PutApart(m, a, ha, x); }
    if nn != 0 {
      var hnn := HeaderAt(m1, nn).(prev := Wrap32(a));
      PutGet(m1, nn, hnn);
      PutApart(m1, nn, hnn, a);
      if x != nn { PutApart(m1, nn, hnn, x); }
    }
  }

  lemma MergePosition(bs: seq<Block>, k: nat, i: nat)
    requires k + 1 < |bs| && i < |MergeBlocks(bs, k)|
    ensures var cs := MergeBlocks(bs, k);
      && |cs| == |bs| - 1
      && cs[k] == Merge(bs[k], bs[k + 1])
      && (i < k ==> cs[i] == bs[i])
      && (i > k ==> cs[i] == bs[i + 1])
      && AddrAt(cs, i - 1) == (if i <= k then AddrAt(bs, i - 1) else if i == k + 1 then bs[k].addr else AddrAt(bs, i))
      && AddrAt(cs, i + 1) == (if i < k then AddrAt(bs, i + 1) else AddrAt(bs, i + 2))
  {
  }

  lemma MergeDescribes(m: seq<Byte>, first: nat, bs: seq<Block>, lo: nat, hi: nat, k: nat, i: nat)
    requires Placed(m, bs, lo, hi) && Linked(m, first, bs)
    requires k + 1 < |bs| && bs[k].status.Free? && MergeReady(m, bs[k].addr)
    requires i < |MergeBlocks(bs, k)|
    ensures var cs, m' := MergeBlocks(bs, k), MergeMemory(m, bs[k].addr);
      && cs[i].addr + HEADER <= |m'|
      && Describes(HeaderAt(m', cs[i].addr), AddrAt(cs, i - 1), cs[i], AddrAt(cs, i + 1))
  {
    hide HeaderAt, Laid, MergeMemory, AddrAt;
    var a, cs := bs[k].addr, MergeBlocks(bs, k);
    var j, x := if i <= k then i else i + 1, cs[i].addr;
    MergePosition(bs, k, i);
    NextNeighbour(bs, k);
    NextNeighbour(bs, k + 1);
    NextNeighbour(bs, j);
    BlocksApart(m, bs, lo, hi, j, k);
    BlocksApart(m, bs, lo, hi, k, k + 1);
    if k + 2 < |bs| {
      BlocksApart(m, bs, lo, hi, j, k + 2);
      BlocksApart(m, bs, lo, hi, k, k + 2);
    }
    assert Describes(HeaderAt(m, a), AddrAt(bs, k - 1), bs[k], AddrAt(bs, k + 1));
    assert Describes(HeaderAt(m, bs[k + 1].addr), AddrAt(bs, k), bs[k + 1], AddrAt(bs, k + 2));
    assert Describes(HeaderAt(m, bs[j].addr), AddrAt(bs, j - 1), bs[j], AddrAt(bs, j + 1));
    hide MergeBlocks, Linked;
    MergeHeader(m, a, AddrAt(bs, k + 1), AddrAt(bs, k + 2), x);
  }

  lemma MergeLinked(m: seq<Byte>, first: nat, bs: seq<Block>, lo: nat, hi: nat, k: nat)
    requires Placed(m, bs, lo, hi) && Linked(m, first, bs) && k + 1 < |bs| && bs[k].status.Free?
    ensures MergeReady(m, bs[k].addr)
    ensures Linked(MergeMemory(m, bs[k].addr), first, MergeBlocks(bs, k))
  {
    hide HeaderAt, Laid, MergeMemory;
    var a, cs := bs[k].addr, MergeBlocks(bs, k);
    BlocksApart(m, bs, lo, hi, k, k + 1);
    assert Describes(HeaderAt(m, a), AddrAt(bs, k - 1), bs[k], AddrAt(bs, k + 1));
    assert Describes(HeaderAt(m, bs[k + 1].addr), AddrAt(bs, k), bs[k + 1], AddrAt(bs, k + 2));
    if k + 2 < |bs| { BlocksApart(m, bs, lo, hi, k, k + 2); }
    var m' := MergeMemory(m, a);
    forall i | 0 <= i < |cs|
      ensures cs[i].addr + HEADER <= |m'|
        && Describes(HeaderAt(m', cs[i].addr), AddrAt(cs, i - 1), cs[i], AddrAt(cs, i + 1))
    {
      MergeDescribes(m, first, bs, lo, hi, k, i);
    }
    MergePosition(bs, k, 0);
  }

  // ---- A new block at the end ----

  /** The stores that put a live block at a behind the last one, if any. */
  function AppendMemory(m: seq<Byte>, a: Word32, size: Word32, user: Word32, last: Word32): (r: seq<Byte>)
    requires a + HEADER <= |m| && last + HEADER <= |m|
    ensures |r| == |m|
  {
    var m1 := Put(m, a, Header(size, user, HEAP_MAGIC, 0, 0, 0));
    if last == 0 then m1
    else
      var m2 := Put(m1, last, HeaderAt(m1, last).(next := a));
      Put(m2, a, HeaderAt(m2, a).(prev := last))
  }

  function AppendView(hx: Header, a: Word32, size: Word32, user: Word32, last: Word32, x: nat): Header {
    if x == a then Header(size, user, HEAP_MAGIC, 0, last, 0)
    else if x == last && last != 0 then hx.(next := a)
    else hx
  }

  lemma AppendHeader(m: seq<Byte>, a: Word32, size: Word32, user: Word32, last: Word32, x: nat)
    requires a + HEADER <= |m| && last + HEADER <= |m| && x + HEADER <= |m|
    requires (last == 0 || Apart(last, a)) && (x == a || Apart(x, a)) && (last == 0 || x == last || Apart(x, last))
    ensures HeaderAt(AppendMemory(m, a, size, user, last), x) == AppendView(HeaderAt(m, x), a, size, user, last, x)
  {
    hide HeaderAt, Put;
    var h := Header(size, user, HEAP_MAGIC, 0, 0, 0);
    var m1 := Put(m, a, h);
    PutGet(m, a, h);
    if x != a { PutApart(m, a, h, x); }
    if last != 0 {
      var hl := HeaderAt(m1, last).(next := a);
      var m2 := Put(m1, last, hl);
      PutGet(m1, last, hl);
      PutApart(m1, last, hl, a);
      if x != last { PutApart(m1, last, hl, x); }
      var ha := HeaderAt(m2, a).(prev := last);
      PutGet(m2, a, ha);
      if x != a { PutApart(m2, a, ha, x); }
    }
  }

  lemma AppendPosition(bs: seq<Block>, b: Block, i: nat)
    requires i <= |bs|
    ensures var cs := bs + [b];
      && cs[i] == (if i < |bs| then bs[i] else b)
      && AddrAt(cs, i - 1) == AddrAt(bs, i - 1)
      && AddrAt(cs, i + 1) == (if i + 1 == |bs| then b.addr else AddrAt(bs, i + 1))
  {
  }

  lemma AppendDescribes(m: seq<Byte>, first: nat, bs: seq<Block>, lo: nat, hi: nat, size: Word32, user: Word32, i: nat)
    requires Placed(m, bs, lo, hi) && Linked(m, first, bs) && hi + HEADER <= |m| && i <= |bs|
    requires AddrAt(bs, |bs| - 1) < U32_LIMIT && AddrAt(bs, |bs| - 1) + HEADER <= |m|
    ensures var cs, m' := bs + [Block(hi, size, Live(user))], AppendMemory(m, hi, size, user, AddrAt(bs, |bs| - 1));
      && cs[i].addr + HEADER <= |m'|
      && Describes(HeaderAt(m', cs[i].addr), AddrAt(cs, i - 1), cs[i], AddrAt(cs, i + 1))
  {
    hide HeaderAt, Laid, AppendMemory, AddrAt, Linked;
    var n, b := |bs|, Block(hi, size, Live(user));
    AppendPosition(bs, b, i);
    if n > 0 {
      NextNeighbour(bs, n - 1);
      BlocksApart(m, bs, lo, hi, n - 1, n - 1);
    }
    EndAddr(bs);
    if i < n {
      NextNeighbour(bs, i);
      BlocksApart(m, bs, lo, hi, i, n - 1);
      LinkedAt(m, first, bs, i);
    }
    AppendHeader(m, hi, size, user, AddrAt(bs, n - 1), (bs + [b])[i].addr);
  }

  lemma EndAddr(bs: seq<Block>)
    ensures AddrAt(bs, |bs|) == 0 && AddrAt(bs, |bs| + 1) == 0 && AddrAt(bs, -1) == 0
  {
  }

  lemma LinkedAt(m: seq<Byte>, first: nat, bs: seq<Block>, i: nat)
    requires Linked(m, first, bs) && i < |bs|
    ensures bs[i].addr + HEADER <= |m|
    ensures Describes(HeaderAt(m, bs[i].addr), AddrAt(bs, i - 1), bs[i], AddrAt(bs, i + 1))
  {
  }

  lemma AppendLinked(m: seq<Byte>, first: nat, bs: seq<Block>, lo: nat, hi: nat, size: Word32, user: Word32)
    requires Placed(m, bs, lo, hi) && Linked(m, first, bs) && hi + HEADER <= |m|
    ensures AddrAt(bs, |bs| - 1) < U32_LIMIT && AddrAt(bs, |bs| - 1) + HEADER <= |m|
    ensures Linked(AppendMemory(m, hi, size, user, AddrAt(bs, |bs| - 1)), if bs == [] then hi else first,
              bs + [Block(hi, size, Live(user))])
  {
    hide HeaderAt, Laid, AppendMemory, Describes;
    if bs != [] { BlocksApart(m, bs, lo, hi, |bs| - 1, |bs| - 1); }
    forall i | 0 <= i <= |bs|
      ensures var cs, m' := bs + [Block(hi, size, Live(user))], AppendMemory(m, hi, size, user, AddrAt(bs, |bs| - 1));
        && cs[i].addr + HEADER <= |m'|
        && Describes(HeaderAt(m', cs[i].addr), AddrAt(cs, i - 1), cs[i], AddrAt(cs, i + 1))
    {
      AppendDescribes(m, first, bs, lo, hi, size, user, i);
    }
  }

  // ---- What the edits leave alone ----

  /** The payloads of the live blocks, guard words included, and everything outside [lo, hi)
      are the same in both memories. */
  ghost predicate Untouched(m: seq<Byte>, m': seq<Byte>, bs: seq<Block>, lo: nat, hi: nat) {
    && |m| == |m'|
    && (forall p :: 0 <= p < |m| && (p < lo || hi <= p) ==> m'[p] == m[p])
    && forall b, p :: b in bs && b.status.Live? && b.addr + HEADER <= p < End(b) && p < |m| ==> m'[p] == m[p]
  }

  lemma UntouchedSelf(m: seq<Byte>, bs: seq<Block>, lo: nat, hi: nat)
    ensures Untouched(m, m, bs, lo, hi)
  {
  }

  lemma UntouchedTwice(m: seq<Byte>, m1: seq<Byte>, m2: seq<Byte>, bs: seq<Block>, lo: nat, hi: nat)
    requires Untouched(m, m1, bs, lo, hi) && Untouched(m1, m2, bs, lo, hi)
    ensures Untouched(m, m2, bs, lo, hi)
  {
  }

  lemma UntouchedFewer(m: seq<Byte>, m': seq<Byte>, bs: seq<Block>, cs: seq<Block>, lo: nat, hi: nat)
    requires Untouched(m, m', bs, lo, hi) && forall b :: b in cs && b.status.Live? ==> b in bs
    ensures Untouched(m, m', cs, lo, hi)
  {
  }

  /** A header is stored at a block's start, or inside a free block. */
  ghost predicate Storable(bs: seq<Block>, a: nat) {
    exists i :: 0 <= i < |bs|
      && (a == bs[i].addr || (bs[i].status.Free? && bs[i].addr <= a && a + HEADER <= End(bs[i])))
  }

  lemma PutUntouched(m: seq<Byte>, bs: seq<Block>, lo: nat, hi: nat, a: nat, h: Header)
    requires Placed(m, bs, lo, hi) && Storable(bs, a) && a + HEADER <= |m|
    ensures Untouched(m, Put(m, a, h), bs, lo, hi)
  {
    hide Put;
    var r := Put(m, a, h);
    var i :| 0 <= i < |bs| && (a == bs[i].addr || (bs[i].status.Free? && bs[i].addr <= a && a + HEADER <= End(bs[i])));
    forall b, p | b in bs && b.status.Live? && b.addr + HEADER <= p < End(b) && p < |m|
      ensures r[p] == m[p]
    {
      var j :| 0 <= j < |bs| && bs[j] == b;
      assert i < j ==> End(bs[i]) <= bs[j].addr;
      assert j < i ==> End(bs[j]) <= bs[i].addr;
    }
  }

  lemma SplitUntouched(m: seq<Byte>, bs: seq<Block>, lo: nat, hi: nat, a: nat, need: Word32)
    requires Placed(m, bs, lo, hi) && SplitReady(m, a, need)
    requires Storable(bs, a) && Storable(bs, RestAddr(a, need))
      && (HeaderAt(m, a).next == 0 || Storable(bs, HeaderAt(m, a).next))
    ensures Untouched(m, SplitMemory(m, a, need), bs, lo, hi)
  {
    hide Put, HeaderAt, Laid, Storable, Untouched;
    var h, rest := HeaderAt(m, a), RestAddr(a, need);
    var hr := Header(h.size - need - HEADER, HeaderAt(m, rest).userSize, HEAP_MAGIC, h.next, a, 1);
    var m1 := Put(m, rest, hr);
    var m2 := if h.next != 0 then Put(m1, h.next, HeaderAt(m1, h.next).(prev := rest)) else m1;
    PutUntouched(m, bs, lo, hi, rest, hr);
    if h.next != 0 {
      PutUntouched(m1, bs, lo, hi, h.next, HeaderAt(m1, h.next).(prev := rest));
      UntouchedTwice(m, m1, m2, bs, lo, hi);
    }
    PutUntouched(m2, bs, lo, hi, a, HeaderAt(m2, a).(next := rest, size := need));
    UntouchedTwice(m, m2, SplitMemory(m, a, need), bs, lo, hi);
  }

  lemma MergeUntouched(m: seq<Byte>, bs: seq<Block>, lo: nat, hi: nat, a: nat, nn: nat)
    requires Placed(m, bs, lo, hi) && MergeReady(m, a) && nn == HeaderAt(m, HeaderAt(m, a).next).next
    requires Storable(bs, a) && (nn == 0 || Storable(bs, nn))
    ensures Untouched(m, MergeMemory(m, a), bs, lo, hi)
  {
    hide Put, HeaderAt, Laid, Storable, Untouched;
    var h, hn := HeaderAt(m, a), HeaderAt(m, HeaderAt(m, a).next);
    var ha := h.(size := Wrap32(h.size + (HEADER + hn.size)), next := nn);
    var m1 := Put(m, a, ha);
    PutUntouched(m, bs, lo, hi, a, ha);
    if nn != 0 {
      PutUntouched(m1, bs, lo, hi, nn, HeaderAt(m1, nn).(prev := Wrap32(a)));
      UntouchedTwice(m, m1, MergeMemory(m, a), bs, lo, hi);
    }
  }

  lemma AppendUntouched(m: seq<Byte>, bs: seq<Block>, lo: nat, hi: nat, b: Block, user: Word32, last: Word32)
    requires Placed(m, bs + [b], lo, hi) && b.addr + HEADER <= |m| && b.addr < U32_LIMIT && b.size < U32_LIMIT
    requires last + HEADER <= |m| && (last == 0 || Storable(bs + [b], last))
    ensures Untouched(m, AppendMemory(m, b.addr, b.size, user, last), bs, lo, hi)
  {
    hide Put, HeaderAt, Laid, Untouched;
    var cs, a: Word32 := bs + [b], b.addr;
    var h := Header(b.size, user, HEAP_MAGIC, 0, 0, 0);
    var m1 := Put(m, a, h);
    assert cs[|bs|] == b;
    assert Storable(cs, a);
    PutUntouched(m, cs, lo, hi, a, h);
    if last != 0 {
      var hl := HeaderAt(m1, last).(next := a);
      var m2 := Put(m1, last, hl);
      PutUntouched(m1, cs, lo, hi, last, hl);
      UntouchedTwice(m, m1, m2, cs, lo, hi);
      PutUntouched(m2, cs, lo, hi, a, HeaderAt(m2, a).(prev := last));
      UntouchedTwice(m, m2, AppendMemory(m, a, b.size, user, last), cs, lo, hi);
    }
    UntouchedFewer(m, AppendMemory(m, a, b.size, user, last), cs, bs, lo, hi);
  }

  /** Bytes stored elsewhere leave a header alone. */
  lemma HeaderElsewhere(m: seq<Byte>, at: nat, v: seq<Byte>, a: nat)
    requires at + |v| <= |m| && a + HEADER <= |m| && (a + HEADER <= at || at + |v| <= a)
    ensures HeaderAt(Splice(m, at, v), a) == HeaderAt(m, a)
  {
  }

  /** Bytes stored inside a block's payload leave every header alone. */
  lemma PayloadLinked(m: seq<Byte>, first: nat, bs: seq<Block>, lo: nat, hi: nat, k: nat, at: nat, v: seq<Byte>)
    requires Placed(m, bs, lo, hi) && Linked(m, first, bs) && k < |bs|
    requires bs[k].addr + HEADER <= at && at + |v| <= End(bs[k])
    ensures at + |v| <= |m| && Linked(Splice(m, at, v), first, bs)
  {
    hide HeaderAt, Laid, Describes, Splice;
    BlocksApart(m, bs, lo, hi, k, k);
    forall i | 0 <= i < |bs|
      ensures HeaderAt(Splice(m, at, v), bs[i].addr) == HeaderAt(m, bs[i].addr)
    {
      BlocksApart(m, bs, lo, hi, i, k);
      HeaderElsewhere(m, at, v, bs[i].addr);
    }
  }

  /** And the payloads of the other live blocks. */
  lemma PayloadUntouched(m: seq<Byte>, bs: seq<Block>, lo: nat, hi: nat, k: nat, at: nat, v: seq<Byte>, cs: seq<Block>)
    requires Placed(m, bs, lo, hi) && k < |bs| && bs[k].addr + HEADER <= at && at + |v| <= End(bs[k])
    requires forall b :: b in cs && b.status.Live? ==> b in bs && b != bs[k]
    ensures at + |v| <= |m| && Untouched(m, Splice(m, at, v), cs, lo, hi)
  {
    hide Splice;
    var m' := Splice(m, at, v);
    forall b, p | b in cs && b.status.Live? && b.addr + HEADER <= p < End(b) && p < |m|
      ensures m'[p] == m[p]
    {
      var j :| 0 <= j < |bs| && bs[j] == b;
      BlocksApart(m, bs, lo, hi, j, k);
    }
  }
}
