/** The shell's archive format: create, list and extract. */
module Ztar {
  import opened Common
  import opened LittleEndian

  const MAGIC_LEN := 4
  const MAX_NAME := 63
  const INT_LIMIT := 0x8000_0000

  datatype File = File(name: seq<Byte>, data: seq<Byte>)

  /** What list shows of an entry. */
  datatype Listing = Listing(name: seq<Byte>, size: nat)

  /** An argument of create: its path, and its bytes unless it is no file. */
  datatype Arg = Arg(path: seq<Byte>, file: Option<seq<Byte>>)

  function Magic(): seq<Byte> {
    [0x5A, 0x54, 0x41, 0x52]
  }

  // ---- The format ----

  function Entry(f: File): seq<Byte> {
    Bytes32(|f.name|) + f.name + Bytes32(|f.data|) + f.data
  }

  function Entries(fs: seq<File>): seq<Byte> {
    if fs == [] then [] else Entries(fs[..|fs| - 1]) + Entry(fs[|fs| - 1])
  }

  function Archive(fs: seq<File>): seq<Byte> {
    Magic() + Entries(fs)
  }

  /** The arguments that are files, in order. */
  function Packed(args: seq<Arg>): seq<File> {
    if args == [] then []
    else
      var a := args[|args| - 1];
      Packed(args[..|args| - 1]) + if a.file.Some? then [File(a.path, a.file.value)] else []
  }

  /** If ks are the places of the arguments that are files, counting up, file j is argument
      ks[j]. */
  lemma {:induction false} PackedIs(args: seq<Arg>, ks: seq<nat>)
    requires forall j :: 0 <= j < |ks| ==> ks[j] < |args| && args[ks[j]].file.Some?
    requires forall j, l :: 0 <= j < l < |ks| ==> ks[j] < ks[l]
    requires forall k :: 0 <= k < |args| && args[k].file.Some? ==> k in ks
    ensures |Packed(args)| == |ks|
    ensures forall j :: 0 <= j < |ks| ==> Packed(args)[j] == File(args[ks[j]].path, args[ks[j]].file.value)
  {
    if ks != [] { assert ks[0] < |args|; }
    if args != [] {
      var k := |args| - 1;
      if args[k].file.Some? {
        assert k in ks;
        var m := |ks| - 1;
        assert ks[m] == k;
        PackedIs(args[..k], ks[..m]);
      } else {
        PackedIs(args[..k], ks);
      }
    }
  }

  // ---- Reading it ----

  /** A C string: the bytes before the first 0. */
  function UpToNul(s: seq<Byte>): seq<Byte> {
    if s == [] || s[0] == 0 then [] else [s[0]] + UpToNul(s[1..])
  }

  function Shown(name: seq<Byte>): seq<Byte> {
    UpToNul(if |name| < MAX_NAME then name else name[..MAX_NAME])
  }

  /** C's conversion of an unsigned length to int. */
  function ToInt(w: Word32): int {
    if w < INT_LIMIT then w else w - U32_LIMIT
  }

  /** An entry whose header fits: where its name ends and how much data it claims. */
  predicate HasEntry(d: seq<Byte>, at: nat) {
    at + 4 <= |d| && at + 4 + GetU32(d, at) + 4 <= |d|
  }

  function NameEnd(d: seq<Byte>, at: nat): (e: nat)
    requires HasEntry(d, at)
    ensures at + 4 <= e && e + 4 <= |d|
  {
    at + 4 + GetU32(d, at)
  }

  function DataLen(d: seq<Byte>, at: nat): Word32
    requires HasEntry(d, at)
  {
    GetU32(d, NameEnd(d, at))
  }

  function NextAt(d: seq<Byte>, at: nat): (n: nat)
    requires HasEntry(d, at)
    ensures n >= at + 8
  {
    NameEnd(d, at) + 4 + DataLen(d, at)
  }

  /** What both readers need of an archive, checked from its bytes: as int, no length that is
      used is negative and no offset overflows. */
  ghost predicate Walkable(d: seq<Byte>, at: nat)
    decreases |d| - at
  {
    && at + 4 < INT_LIMIT
    && (at + 4 <= |d| ==>
          && at + 8 + ToInt(GetU32(d, at)) < INT_LIMIT
          && (at + 8 + ToInt(GetU32(d, at)) <= |d| ==>
                && HasEntry(d, at) && DataLen(d, at) < INT_LIMIT && NextAt(d, at) < INT_LIMIT
                && Walkable(d, NextAt(d, at))))
  }

  /** What list shows from at on. */
  function Listed(d: seq<Byte>, at: nat): seq<Listing>
    decreases |d| - at
  {
    if !HasEntry(d, at) then []
    else [Listing(Shown(d[at + 4..NameEnd(d, at)]), DataLen(d, at))] + Listed(d, NextAt(d, at))
  }

  /** What extract writes from at on: it stops at data that is cut off. */
  function Extracted(d: seq<Byte>, at: nat): seq<File>
    decreases |d| - at
  {
    if !HasEntry(d, at) || NextAt(d, at) > |d| then []
    else [File(Shown(d[at + 4..NameEnd(d, at)]), d[NameEnd(d, at) + 4..NextAt(d, at)])] + Extracted(d, NextAt(d, at))
  }

  function Listings(fs: seq<File>): (r: seq<Listing>)
    ensures |r| == |fs| && forall i :: 0 <= i < |fs| ==> r[i] == Listing(fs[i].name, |fs[i].data|)
  {
    seq(|fs|, i requires 0 <= i < |fs| => Listing(fs[i].name, |fs[i].data|))
  }

  // ---- The format in bytes ----

  /** An archive starts with the letters ZTAR; an entry is the length of its name, the name, the
      length of its data and the data, lengths as four bytes, low byte first. */
  lemma FormatBytes(f: File, fs: seq<File>)
    requires |f.name| < U32_LIMIT && |f.data| < U32_LIMIT
    ensures |Archive(fs)| >= 4 && Archive(fs)[..4] == [0x5A, 0x54, 0x41, 0x52]
    ensures Archive(fs + [f]) == Archive(fs) + Entry(f)
    ensures var e, n := Entry(f), |f.name|;
      && |e| == 8 + n + |f.data|
      && e[0] as int + 0x100 * e[1] as int + 0x1_0000 * e[2] as int + 0x100_0000 * e[3] as int == n
      && e[4..4 + n] == f.name
      && e[4 + n] as int + 0x100 * e[5 + n] as int + 0x1_0000 * e[6 + n] as int + 0x100_0000 * e[7
        + n] as int == |f.data|
      && e[8 + n..] == f.data
  {
    ArchiveStep(fs, f);
    EntryParts(f);
    LowByteFirst(|f.name|);
    LowByteFirst(|f.data|);
    hide Bytes32, Entries;
    var e, n := Entry(f), |f.name|;
    assert e[0..4][0] == e[0] && e[0..4][1] == e[1] && e[0..4][2] == e[2] && e[0..4][3] == e[3];
    var w := e[4 + n..8 + n];
    assert w[0] == e[4 + n] && w[1] == e[5 + n] && w[2] == e[6 + n] && w[3] == e[7 + n];
  }

  /** What both readers make of the bytes at an offset. */
  lemma ReadBytes(d: seq<Byte>, at: nat, n: nat, m: nat)
    requires at + 8 + n <= |d|
    requires n == d[at] as int + 0x100 * d[at + 1] as int + 0x1_0000 * d[at + 2] as int + 0x100_0000 * d[at + 3] as int
    requires var e := at + 4 + n;
      m == d[e] as int + 0x100 * d[e + 1] as int + 0x1_0000 * d[e + 2] as int + 0x100_0000 * d[e + 3] as int
    ensures Listed(d, at) == [Listing(Shown(d[at + 4..at + 4 + n]), m)] + Listed(d, at + 8 + n + m)
    ensures Extracted(d, at) ==
      if at + 8 + n + m > |d| then []
      else [File(Shown(d[at + 4..at + 4 + n]), d[at + 8 + n..at + 8 + n + m])] + Extracted(d, at + 8 + n + m)
  {
    EntryReads(d, at, n, m);
    hide HasEntry, NameEnd, DataLen, NextAt, Shown;
  }

  lemma EntryReads(d: seq<Byte>, at: nat, n: nat, m: nat)
    requires at + 8 + n <= |d|
    requires n == d[at] as int + 0x100 * d[at + 1] as int + 0x1_0000 * d[at + 2] as int
      + 0x100_0000 * d[at + 3] as int
    requires var e := at + 4 + n;
      m == d[e] as int + 0x100 * d[e + 1] as int + 0x1_0000 * d[e + 2] as int + 0x100_0000 * d[e + 3] as int
    ensures HasEntry(d, at) && NameEnd(d, at) == at + 4 + n && DataLen(d, at) == m && NextAt(d, at) == at + 8 + n + m
  {
    LoadAdds(d, at);
    LoadAdds(d, at + 4 + n);
    hide GetU32;
  }

  /** A name is shown up to its first zero, and to 63 bytes at most. */
  lemma ShownBytes(name: seq<Byte>, k: nat)
    requires k <= |name| && k <= 63 && (forall i :: 0 <= i < k ==> name[i] != 0)
    requires k < |name| && k < 63 ==> name[k] == 0
    ensures Shown(name) == name[..k]
  {
    var s := if |name| < MAX_NAME then name else name[..MAX_NAME];
    NulAt(s, k);
    assert s[..k] == name[..k];
  }

  lemma {:induction false} NulAt(s: seq<Byte>, k: nat)
    requires k <= |s| && (forall i :: 0 <= i < k ==> s[i] != 0) && (k < |s| ==> s[k] == 0)
    ensures UpToNul(s) == s[..k]
  {
    if k > 0 {
      NulAt(s[1..], k - 1);
      assert s[..k] == [s[0]] + s[1..][..k - 1];
    }
  }

  // ---- The walk as the source takes it, in int ----

  /** The start of a step of either reader: the loop is left, a read or an addition goes
      wrong, or an entry's name was copied and its data length read before end + 4. */
  datatype Head = Leave | Astray | At(end: nat, name: seq<Byte>, len: Word32, back: bool)

  function HeadAt(d: seq<Byte>, off: int): (h: Head)
    ensures h.At? ==> h.end + 4 <= |d|
  {
    if off + 4 >= INT_LIMIT then Astray
    else if off + 4 > |d| then Leave
    else if off < 0 then Astray
    else
      var at, nameLen := off + 4, GetU32(d, off);
      var end := at + ToInt(nameLen);
      var copied := if nameLen < MAX_NAME then nameLen else MAX_NAME;
      if end + 4 >= INT_LIMIT then Astray
      else if end + 4 > |d| then Leave
      else if at + copied > |d| || end < 0 then Astray
      else At(end, UpToNul(d[at..at + copied]), GetU32(d, end), end < at)
  }

  /** One turn of a reader's loop; back says that the offset went down on the way. */
  datatype Move<T> = Stop | Fault | Go(next: int, back: bool, entry: T)

  function ListMove(d: seq<Byte>, off: int): Move<Listing> {
    match HeadAt(d, off)
    case Leave => Stop
    case Astray => Fault
    case At(end, name, len, back) =>
      var next := ToInt(Wrap32(end + 4 + len));
      Go(next, back || next < end + 4, Listing(name, len))
  }

  function ExtractMove(d: seq<Byte>, off: int): Move<File> {
    match HeadAt(d, off)
    case Leave => Stop
    case Astray => Fault
    case At(end, name, len, back) =>
      if end + 4 + ToInt(len) >= INT_LIMIT then Fault
      else if end + 4 + ToInt(len) > |d| then Stop
      else if end + 4 + len > |d| then Fault
      else Go(end + 4 + len, back, File(name, d[end + 4..end + 4 + len]))
  }

  /** A walk is orderly if it reads inside the archive, overflows nothing and goes on only forward. */
  ghost predicate ListOrderly(d: seq<Byte>, off: nat)
    decreases |d| - off
  {
    match ListMove(d, off)
    case Stop => true
    case Fault => false
    case Go(next, back, _) => !back && next > off && ListOrderly(d, next)
  }

  ghost predicate ExtractOrderly(d: seq<Byte>, off: nat)
    decreases |d| - off
  {
    match ExtractMove(d, off)
    case Stop => true
    case Fault => false
    case Go(next, back, _) => !back && next > off && ExtractOrderly(d, next)
  }

  /** The entries of an orderly walk. */
  ghost function ListWalk(d: seq<Byte>, off: nat): seq<Listing>
    requires ListOrderly(d, off)
    decreases |d| - off
  {
    match ListMove(d, off)
    case Go(next, _, entry) => [entry] + ListWalk(d, next)
    case _ => []
  }

  ghost function ExtractWalk(d: seq<Byte>, off: nat): seq<File>
    requires ExtractOrderly(d, off)
    decreases |d| - off
  {
    match ExtractMove(d, off)
    case Go(next, _, entry) => [entry] + ExtractWalk(d, next)
    case _ => []
  }

  lemma ShownCopied(d: seq<Byte>, at: nat, n: nat)
    requires at + n <= |d|
    ensures Shown(d[at..at + n]) == UpToNul(d[at..at + if n < MAX_NAME then n else MAX_NAME])
  {
    assert n >= MAX_NAME ==> d[at..at + n][..MAX_NAME] == d[at..at + MAX_NAME];
  }

  /** The list walk is orderly exactly on walkable archives, and then shows their entries. */
  lemma {:induction false} ListOrderlyExact(d: seq<Byte>, at: nat)
    requires |d| < INT_LIMIT
    ensures ListOrderly(d, at) <==> Walkable(d, at)
    ensures Walkable(d, at) ==> ListWalk(d, at) == Listed(d, at)
    decreases |d| - at
  {
    hide Shown, UpToNul, GetU32;
    if HasEntry(d, at) {
      ShownCopied(d, at + 4, GetU32(d, at));
      ListOrderlyExact(d, NextAt(d, at));
    }
  }

  /** What extract needs: as Walkable, but it reads no entry behind data that is cut off, and
      even a negative name length does no harm when that is what it then finds. */
  ghost predicate Extractable(d: seq<Byte>, at: nat)
    decreases |d| - at
  {
    && at + 4 < INT_LIMIT
    && (at + 4 <= |d| ==>
          var end := at + 4 + ToInt(GetU32(d, at));
          && end + 4 < INT_LIMIT
          && (end + 4 <= |d| ==>
                if HasEntry(d, at) then
                  && DataLen(d, at) < INT_LIMIT && NextAt(d, at) < INT_LIMIT
                  && (NextAt(d, at) <= |d| ==> Extractable(d, NextAt(d, at)))
                else 0 <= end && at + 4 + MAX_NAME <= |d| && |d| < end + 4 + ToInt(GetU32(d, end)) < INT_LIMIT))
  }

  /** The extract walk is orderly exactly there, and writes the entries whose data is complete. */
  lemma {:induction false} ExtractOrderlyExact(d: seq<Byte>, at: nat)
    requires |d| < INT_LIMIT
    ensures ExtractOrderly(d, at) <==> Extractable(d, at)
    ensures Extractable(d, at) ==> ExtractWalk(d, at) == Extracted(d, at)
    decreases |d| - at
  {
    hide Shown, UpToNul, GetU32;
    if HasEntry(d, at) {
      ShownCopied(d, at + 4, GetU32(d, at));
      if NextAt(d, at) <= |d| {
        ExtractOrderlyExact(d, NextAt(d, at));
      }
    }
  }

  lemma {:induction false} WalkableExtractable(d: seq<Byte>, at: nat)
    requires Walkable(d, at)
    ensures Extractable(d, at)
    decreases |d| - at
  {
    hide GetU32;
    if HasEntry(d, at) && NextAt(d, at) <= |d| {
      WalkableExtractable(d, NextAt(d, at));
    }
  }

  /** Both walks are orderly exactly on walkable archives. */
  lemma BothOrderly(d: seq<Byte>, at: nat)
    requires |d| < INT_LIMIT
    ensures ListOrderly(d, at) && ExtractOrderly(d, at) <==> Walkable(d, at)
  {
    ListOrderlyExact(d, at);
    ExtractOrderlyExact(d, at);
    if Walkable(d, at) { WalkableExtractable(d, at); }
  }

  /** On a walkable archive both readers see the same entries, except that list also shows one
      last entry when its data is cut off. */
  lemma ListMatchesExtract(d: seq<Byte>, at: nat)
    requires |d| < INT_LIMIT && Walkable(d, at)
    ensures ListOrderly(d, at) && ExtractOrderly(d, at)
    ensures var l, x := ListWalk(d, at), ExtractWalk(d, at);
      && |x| <= |l| <= |x| + 1
      && forall i :: 0 <= i < |x| ==> l[i] == Listing(x[i].name, |x[i].data|)
  {
    ListOrderlyExact(d, at);
    WalkableExtractable(d, at);
    ExtractOrderlyExact(d, at);
    SameEntries(d, at);
  }

  lemma {:induction false} SameEntries(d: seq<Byte>, at: nat)
    requires |d| < U32_LIMIT
    ensures var l, x := Listed(d, at), Extracted(d, at);
      && |x| <= |l| <= |x| + 1
      && forall i :: 0 <= i < |x| ==> l[i] == Listing(x[i].name, |x[i].data|)
    decreases |d| - at
  {
    if HasEntry(d, at) {
      if NextAt(d, at) <= |d| {
        SameEntries(d, NextAt(d, at));
      } else {
        assert !HasEntry(d, NextAt(d, at));
      }
    }
  }

  /** A nameless entry that claims 2^31 bytes: list goes on at a negative offset and reads
      there, and extract writes from beyond the archive. */
  lemma NegativeLength()
    ensures var d := Magic() + [0, 0, 0, 0] + [0, 0, 0, 0x80];
      && !Walkable(d, MAGIC_LEN)
      && ListMove(d, MAGIC_LEN).Go? && ListMove(d, MAGIC_LEN).next < 0
        && ListMove(d, ListMove(d, MAGIC_LEN).next) == Fault
      && ExtractMove(d, MAGIC_LEN) == Fault
  {
    var d := Magic() + [0, 0, 0, 0] + [0, 0, 0, 0x80];
    assert GetU32(d, 4) == 0 && GetU32(d, 8) == INT_LIMIT;
    ListOrderlyExact(d, MAGIC_LEN);
  }

  /** A name length of -4 as int leads list back to where it was, for ever. */
  lemma ListStandsStill(d: seq<Byte>)
    requires 71 <= |d| < INT_LIMIT && GetU32(d, MAGIC_LEN) == 0xFFFF_FFFC
    ensures ListMove(d, MAGIC_LEN).Go? && ListMove(d, MAGIC_LEN).next == MAGIC_LEN && !Walkable(d, MAGIC_LEN)
  {
    hide GetU32, UpToNul;
    assert ToInt(0xFFFF_FFFC) == -4;
    var h := HeadAt(d, MAGIC_LEN);
    assert h.At? && h.end == MAGIC_LEN && h.len == 0xFFFF_FFFC && h.back;
    assert Wrap32(MAGIC_LEN + 4 + 0xFFFF_FFFC) == MAGIC_LEN;
  }

  // ---- Round trip ----

  function Cut(f: File): File {
    File(if |f.name| < MAX_NAME then f.name else f.name[..MAX_NAME], f.data)
  }

  function CutAll(fs: seq<File>): (r: seq<File>)
    ensures |r| == |fs| && forall i :: 0 <= i < |fs| ==> r[i] == Cut(fs[i])
  {
    seq(|fs|, i requires 0 <= i < |fs| => Cut(fs[i]))
  }

  /** Names are C strings. */
  ghost predicate NoNuls(fs: seq<File>) {
    forall i, k :: 0 <= i < |fs| && 0 <= k < |fs[i].name| ==> fs[i].name[k] != 0
  }

  lemma {:induction false} NoNulWhole(s: seq<Byte>)
    requires forall k :: 0 <= k < |s| ==> s[k] != 0
    ensures UpToNul(s) == s
  {
    if s != [] { NoNulWhole(s[1..]); }
  }

  lemma GetBytesAt(d: seq<Byte>, at: nat, v: Word32)
    requires at + 4 <= |d| && d[at..at + 4] == Bytes32(v)
    ensures GetU32(d, at) == v
  {
    GetBytes32(v);
    var b := d[at..at + 4];
    assert b[0] == d[at] && b[1] == d[at + 1] && b[2] == d[at + 2] && b[3] == d[at + 3];
  }

  lemma FourParts(a: seq<Byte>, b: seq<Byte>, c: seq<Byte>, d: seq<Byte>)
    ensures var e, i, j := a + b + c + d, |a| + |b|, |a| + |b| + |c|;
      |e| == j + |d| && e[0..|a|] == a && e[|a|..i] == b && e[i..j] == c && e[j..|e|] == d
  {
  }

  lemma EntryParts(f: File)
    ensures var e, n := Entry(f), |f.name|;
      && |e| == 8 + n + |f.data|
      && e[0..4] == Bytes32(n) && e[4..4 + n] == f.name && e[4 + n..8 + n] == Bytes32(|f.data|)
        && e[8 + n..|e|] == f.data
  {
    hide Bytes32;
    FourParts(Bytes32(|f.name|), f.name, Bytes32(|f.data|), f.data);
    var e, n := Entry(f), |f.name|;
    assert e[4..4 + n] == f.name;
    assert e[4 + n..8 + n] == Bytes32(|f.data|);
  }

  lemma SliceOfSlice(d: seq<Byte>, at: nat, end: nat, a: nat, b: nat)
    requires at <= end <= |d| && a <= b <= end - at
    ensures d[at..end][a..b] == d[at + a..at + b]
  {
    var x, y := d[at..end][a..b], d[at + a..at + b];
    forall i | 0 <= i < |x|
      ensures x[i] == y[i]
    {
      assert x[i] == d[at..end][a + i];
    }
  }

  /** The entry written at an offset is the entry read there. */
  lemma EntryAt(d: seq<Byte>, at: nat, f: File)
    requires |d| < U32_LIMIT && at + |Entry(f)| <= |d| && d[at..at + |Entry(f)|] == Entry(f)
    ensures HasEntry(d, at) && NextAt(d, at) == at + |Entry(f)|
    ensures d[at + 4..NameEnd(d, at)] == f.name && d[NameEnd(d, at) + 4..NextAt(d, at)] == f.data
  {
    hide Entry, Bytes32, GetU32;
    EntryParts(f);
    var n, end := |f.name|, at + |Entry(f)|;
    SliceOfSlice(d, at, end, 0, 4);
    SliceOfSlice(d, at, end, 4, 4 + n);
    SliceOfSlice(d, at, end, 4 + n, 8 + n);
    SliceOfSlice(d, at, end, 8 + n, |Entry(f)|);
    GetBytesAt(d, at, n);
    GetBytesAt(d, at + 4 + n, |f.data|);
  }

  lemma {:induction false} EntriesSplit(fs: seq<File>, gs: seq<File>)
    ensures Entries(fs + gs) == Entries(fs) + Entries(gs)
  {
    hide Entry;
    if gs == [] {
      assert fs + gs == fs;
    } else {
      var n := |gs| - 1;
      assert (fs + gs)[..|fs + gs| - 1] == fs + gs[..n];
      EntriesSplit(fs, gs[..n]);
    }
  }

  lemma EntriesFirst(fs: seq<File>)
    requires fs != []
    ensures Entries(fs) == Entry(fs[0]) + Entries(fs[1..])
  {
    hide Entry;
    EntriesSplit([fs[0]], fs[1..]);
    assert [fs[0]] + fs[1..] == fs && [fs[0]][..0] == [];
  }

  /** Reading from where a run of entries was written yields that run and ends there. */
  lemma {:induction false} ReadEntries(d: seq<Byte>, at: nat, fs: seq<File>)
    requires |d| + 4 < INT_LIMIT && at <= |d| && d[at..] == Entries(fs) && NoNuls(fs)
    ensures Extracted(d, at) == CutAll(fs) && Listed(d, at) == Listings(CutAll(fs)) && Walkable(d, at)
    decreases |fs|
  {
    hide Entry, Bytes32, Entries, GetU32, Shown, Cut, Walkable, Listed, Extracted;
    if fs == [] {
      NoEntries();
      ReadNothing(d);
    } else {
      var f, rest := fs[0], fs[1..];
      EntriesFirst(fs);
      var end := at + |Entry(f)|;
      SplitTail(d, at, Entry(f), Entries(rest));
      ReadOne(d, at, f);
      ReadEntries(d, end, rest);
      ShownCut(fs, 0);
      assert CutAll(fs) == [Cut(f)] + CutAll(rest);
      assert Listings(CutAll(fs)) == [Listing(Cut(f).name, |Cut(f).data|)] + Listings(CutAll(rest));
      CutData(f);
    }
  }

  /** One entry of the walk. */
  lemma ReadOne(d: seq<Byte>, at: nat, f: File)
    requires |d| + 4 < INT_LIMIT && at + |Entry(f)| <= |d| && d[at..at + |Entry(f)|] == Entry(f)
    ensures var end := at + |Entry(f)|;
      && end > at
      && Extracted(d, at) == [File(Shown(f.name), f.data)] + Extracted(d, end)
      && Listed(d, at) == [Listing(Shown(f.name), |f.data|)] + Listed(d, end)
      && (Walkable(d, end) ==> Walkable(d, at))
  {
    hide Entry, Bytes32, GetU32, Shown;
    EntryAt(d, at, f);
  }

  lemma ReadNothing(d: seq<Byte>)
    requires |d| + 4 < INT_LIMIT
    ensures Extracted(d, |d|) == [] && Listed(d, |d|) == [] && Walkable(d, |d|)
  {
  }

  lemma NoEntries()
    ensures Entries([]) == []
  {
  }

  lemma CutData(f: File)
    ensures Cut(f).data == f.data
  {
  }

  lemma SplitTail(d: seq<Byte>, at: nat, e: seq<Byte>, tail: seq<Byte>)
    requires at <= |d| && d[at..] == e + tail
    ensures at + |e| <= |d| && d[at..at + |e|] == e && d[at + |e|..] == tail
  {
    assert d[at..at + |e|] == d[at..][..|e|];
    assert d[at + |e|..] == d[at..][|e|..];
  }

  lemma ShownCut(fs: seq<File>, i: nat)
    requires NoNuls(fs) && i < |fs|
    ensures Shown(fs[i].name) == Cut(fs[i]).name
  {
    NoNulWhole(Cut(fs[i]).name);
  }

  /** What create packs is what extract writes and list shows, in order, names cut at 63. */
  lemma RoundTrip(fs: seq<File>)
    requires |Archive(fs)| + 4 < INT_LIMIT && NoNuls(fs)
    ensures Walkable(Archive(fs), MAGIC_LEN)
    ensures Extracted(Archive(fs), MAGIC_LEN) == CutAll(fs)
    ensures Listed(Archive(fs), MAGIC_LEN) == Listings(CutAll(fs))
  {
    assert Archive(fs)[MAGIC_LEN..] == Entries(fs);
    ReadEntries(Archive(fs), MAGIC_LEN, fs);
  }

  /** Names of at most 63 characters come back exactly. */
  lemma RoundTripExact(fs: seq<File>)
    requires |Archive(fs)| + 4 < INT_LIMIT && NoNuls(fs) && forall i :: 0 <= i < |fs| ==> |fs[i].name| <= MAX_NAME
    ensures Extracted(Archive(fs), MAGIC_LEN) == fs
  {
    RoundTrip(fs);
    forall i | 0 <= i < |fs|
      ensures Cut(fs[i]) == fs[i]
    {
      assert |fs[i].name| == MAX_NAME ==> fs[i].name[..MAX_NAME] == fs[i].name;
    }
  }

  // ---- The commands ----

  method WriteU32(buffer: array<Byte>, at: nat, v: Word32)
    requires at + 4 <= buffer.Length
    modifies buffer
    ensures buffer[..] == Splice(old(buffer[..]), at, Bytes32(v))
  {
    buffer[at], buffer[at + 1], buffer[at + 2], buffer[at + 3] := v % 256, v / 0x100 % 256, v / 0x1_0000 % 256,
      v / 0x100_0000 % 256;
  }

  method Copy(buffer: array<Byte>, at: nat, s: seq<Byte>)
    requires at + |s| <= buffer.Length
    modifies buffer
    ensures buffer[..] == Splice(old(buffer[..]), at, s)
  {
    for k := 0 to |s|
      invariant buffer[..] == Splice(old(buffer[..]), at, s[..k])
    {
      ghost var b := buffer[..];
      buffer[at + k] := s[k];
      assert buffer[..] == b[at + k := s[k]];
    }
    assert s[..|s|] == s;
  }

  /** Copying right after a finished prefix extends it. */
  method Append(buffer: array<Byte>, ghost p: seq<Byte>, at: nat, s: seq<Byte>) returns (next: nat)
    requires at == |p| && at + |s| <= buffer.Length && buffer[..at] == p
    modifies buffer
    ensures next == at + |s| && buffer[..next] == p + s
  {
    Copy(buffer, at, s);
    next := at + |s|;
  }

  method AppendU32(buffer: array<Byte>, ghost p: seq<Byte>, at: nat, v: Word32) returns (next: nat)
    requires at == |p| && at + 4 <= buffer.Length && buffer[..at] == p
    modifies buffer
    ensures next == at + 4 && buffer[..next] == p + Bytes32(v)
  {
    hide Bytes32;
    WriteU32(buffer, at, v);
    next := at + 4;
  }

  /** One argument more is at most one entry more. */
  lemma PackedNext(args: seq<Arg>, i: nat)
    requires i < |args|
    ensures var a, before, after := args[i], Packed(args[..i]), Packed(args[..i + 1]);
      after == before + (if a.file.Some? then [File(a.path, a.file.value)] else [])
    ensures args[i].file.None? ==> Archive(Packed(args[..i + 1])) == Archive(Packed(args[..i]))
    ensures args[i].file.Some? ==>
      Archive(Packed(args[..i + 1])) == Archive(Packed(args[..i])) + Entry(File(args[i].path, args[i].file.value))
  {
    PackedStep(args, i);
    assert Packed(args[..i]) + [] == Packed(args[..i]);
    if args[i].file.Some? { ArchiveStep(Packed(args[..i]), File(args[i].path, args[i].file.value)); }
  }

  lemma PackedStep(args: seq<Arg>, i: nat)
    requires i < |args|
    ensures Packed(args[..i + 1]) ==
      Packed(args[..i]) + if args[i].file.Some? then [File(args[i].path, args[i].file.value)] else []
  {
    assert args[..i + 1][..i] == args[..i];
  }

  lemma ArchiveStep(before: seq<File>, f: File)
    ensures Archive(before + [f]) == Archive(before) + Entry(f)
  {
    hide Entry;
    assert (before + [f])[..|before|] == before;
    assert Magic() + (Entries(before) + Entry(f)) == Magic() + Entries(before) + Entry(f);
  }

  lemma {:induction false} PackedGrows(args: seq<Arg>, i: nat)
    requires i <= |args|
    ensures |Archive(Packed(args[..i]))| <= |Archive(Packed(args))|
    decreases |args| - i
  {
    if i < |args| {
      PackedNext(args, i);
      PackedGrows(args, i + 1);
    } else {
      assert args[..i] == args;
    }
  }

  /** The first pass of create. */
  method SizeOf(args: seq<Arg>) returns (total: Word32)
    requires |Archive(Packed(args))| < INT_LIMIT
    ensures total == |Archive(Packed(args))|
  {
    hide Entry, Entries, Packed;
    total := MAGIC_LEN;
    NothingPacked(args);
    for i := 0 to |args|
      invariant total == |Archive(Packed(args[..i]))|
    {
      PackedNext(args, i);
      PackedGrows(args, i + 1);
      if args[i].file.Some? {
        EntryParts(File(args[i].path, args[i].file.value));
        total := total + (4 + |args[i].path| + 4 + |args[i].file.value|);
      }
    }
    assert args[..|args|] == args;
  }

  lemma NothingPacked(args: seq<Arg>)
    ensures Archive(Packed(args[..0])) == Magic()
    ensures Packed(args[..0]) == []
  {
  }

  /** One entry written behind a finished prefix. */
  method PackOne(buffer: array<Byte>, offset: nat, f: File) returns (next: nat)
    requires offset + |Entry(f)| <= buffer.Length && |f.name| < U32_LIMIT && |f.data| < U32_LIMIT
    modifies buffer
    ensures next == offset + |Entry(f)| && buffer[..next] == old(buffer[..offset]) + Entry(f)
  {
    hide Bytes32;
    ghost var p := buffer[..offset];
    EntryParts(f);
    next := AppendU32(buffer, p, offset, |f.name|);
    next := Append(buffer, p + Bytes32(|f.name|), next, f.name);
    next := AppendU32(buffer, p + Bytes32(|f.name|) + f.name, next, |f.data|);
    if |f.data| > 0 {
      next := Append(buffer, p + Bytes32(|f.name|) + f.name + Bytes32(|f.data|), next, f.data);
    }
    assert p + Bytes32(|f.name|) + f.name + Bytes32(|f.data|) + f.data == p + Entry(f);
  }

  /** tar create: size the buffer, then fill it entry by entry. */
  method Create(args: seq<Arg>) returns (archive: seq<Byte>, packed: nat)
    requires |Archive(Packed(args))| < INT_LIMIT
    ensures archive == Archive(Packed(args)) && packed == |Packed(args)|
  {
    hide Entry, Entries, Packed, Splice;
    var total := SizeOf(args);
    PackedGrows(args, 0);
    NothingPacked(args);
    var buffer := new Byte[total](_ => 0);
    var offset := Append(buffer, [], 0, Magic());
    packed := 0;
    for i := 0 to |args|
      invariant packed == |Packed(args[..i])|
      invariant offset == |Archive(Packed(args[..i]))| <= buffer.Length
        && buffer[..offset] == Archive(Packed(args[..i]))
    {
      PackedNext(args, i);
      PackedGrows(args, i + 1);
      if args[i].file.Some? {
        EntryParts(File(args[i].path, args[i].file.value));
        offset := PackOne(buffer, offset, File(args[i].path, args[i].file.value));
        packed := packed + 1;
      }
    }
    assert args[..|args|] == args;
    archive := buffer[..offset];
  }

  predicate IsArchive(d: seq<Byte>) {
    |d| >= MAGIC_LEN && d[..MAGIC_LEN] == Magic()
  }

  /** tar list. */
  method List(d: seq<Byte>) returns (shown: Option<seq<Listing>>)
    requires |d| < INT_LIMIT && (IsArchive(d) ==> Walkable(d, MAGIC_LEN))
    ensures shown == if IsArchive(d) then Some(Listed(d, MAGIC_LEN)) else None
  {
    hide GetU32, Shown, Magic;
    if |d| < MAGIC_LEN || d[..MAGIC_LEN] != Magic() { return None; }
    var offset, entries := MAGIC_LEN, [];
    while offset + 4 <= |d|
      invariant Walkable(d, offset) && 0 <= offset < INT_LIMIT
      invariant entries + Listed(d, offset) == Listed(d, MAGIC_LEN)
      decreases |d| - offset
    {
      var nameLen := GetU32(d, offset);
      var at := offset + 4;
      if at + ToInt(nameLen) + 4 > |d| { break; }
      var name := Shown(d[at..at + nameLen]);
      at := at + nameLen;
      var dataLen := GetU32(d, at);
      assert Listed(d, offset) == [Listing(name, dataLen)] + Listed(d, at + 4 + dataLen);
      entries := entries + [Listing(name, dataLen)];
      offset := at + 4 + dataLen;
    }
    assert Listed(d, offset) == [];
    assert entries + [] == entries;
    return Some(entries);
  }

  lemma ExtractedNext(d: seq<Byte>, at: nat)
    ensures Extracted(d, at) ==
      if !HasEntry(d, at) || NextAt(d, at) > |d| then []
      else
        [File(Shown(d[at + 4..NameEnd(d, at)]), d[NameEnd(d, at) + 4..NextAt(d, at)])] + Extracted(d, NextAt(d, at))
  {
    hide Shown, GetU32;
  }

  /** tar extract: the files written, in order. */
  method Extract(d: seq<Byte>) returns (files: Option<seq<File>>)
    requires |d| < INT_LIMIT && (IsArchive(d) ==> Extractable(d, MAGIC_LEN))
    ensures files == if IsArchive(d) then Some(Extracted(d, MAGIC_LEN)) else None
  {
    hide GetU32, Shown, Magic, UpToNul, Extracted;
    if |d| < MAGIC_LEN || d[..MAGIC_LEN] != Magic() { return None; }
    var offset, written := MAGIC_LEN, [];
    while offset + 4 <= |d|
      invariant Extractable(d, offset) && 0 <= offset < INT_LIMIT
      invariant written + Extracted(d, offset) == Extracted(d, MAGIC_LEN)
      decreases |d| - offset
    {
      var nameLen := GetU32(d, offset);
      var at := offset + 4;
      if at + ToInt(nameLen) + 4 > |d| { break; }
      var copied := if nameLen < MAX_NAME then nameLen else MAX_NAME;
      var name := UpToNul(d[at..at + copied]);
      at := at + ToInt(nameLen);
      var dataLen := GetU32(d, at);
      at := at + 4;
      if at + ToInt(dataLen) > |d| { break; }
      ShownCopied(d, offset + 4, nameLen);
      ExtractedNext(d, offset);
      assert Extracted(d, offset) == [File(name, d[at..at + dataLen])] + Extracted(d, at + dataLen);
      written := written + [File(name, d[at..at + dataLen])];
      offset := at + dataLen;
    }
    ExtractedNext(d, offset);
    assert written + [] == written;
    return Some(written);
  }

  /** Create, then extract: the files come back, names cut at 63 characters. */
  method CreateThenExtract(args: seq<Arg>) returns (files: Option<seq<File>>)
    requires |Archive(Packed(args))| + 4 < INT_LIMIT && NoNuls(Packed(args))
    ensures files == Some(CutAll(Packed(args)))
  {
    hide Entries, Packed;
    var archive, n := Create(args);
    RoundTrip(Packed(args));
    WalkableExtractable(archive, MAGIC_LEN);
    files := Extract(archive);
  }
}
