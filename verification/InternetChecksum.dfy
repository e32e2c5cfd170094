/** The Internet checksum (section 1 of RFC 1071, section 3.1 of RFC 791) and its use in a
    packet header. */
module InternetChecksum {
  import opened LittleEndian

  const ONES := 0xFFFF
  const HEADER_LEN := 20
  const CHECKSUM_AT := 10

  /** The sum of the 16-bit words as the processor loads them, a last odd byte on its own. */
  function WordSum(s: seq<Byte>): nat {
    if |s| == 0 then 0
    else if |s| == 1 then s[0]
    else GetU16(s, 0) + WordSum(s[2..])
  }

  /** The one's complement sum: end-around carries added back in. */
  function Folded(sum: nat): (f: nat)
    ensures f <= ONES && f % ONES == sum % ONES && (f == 0 <==> sum == 0)
  {
    if sum == 0 then 0 else (sum - 1) % ONES + 1
  }

  /** These properties leave Folded no choice. */
  lemma FoldedUnique(sum: nat, f: nat)
    requires f <= ONES && f % ONES == sum % ONES && (f == 0 <==> sum == 0)
    ensures f == Folded(sum)
  {
  }

  /** One fold keeps the one's complement sum and shrinks anything above 16 bits. */
  lemma FoldOnce(sum: nat)
    ensures Folded(sum % 0x1_0000 + sum / 0x1_0000) == Folded(sum)
    ensures sum >= 0x1_0000 ==> sum % 0x1_0000 + sum / 0x1_0000 < sum
  {
    var lo, hi := sum % 0x1_0000, sum / 0x1_0000;
    assert sum == ONES * hi + (lo + hi);
    ModShift(lo + hi, hi);
    FoldedUnique(sum, Folded(lo + hi));
  }

  lemma {:induction false} ModShift(x: nat, k: nat)
    ensures (ONES * k + x) % ONES == x % ONES
  {
    if k > 0 { ModShift(x, k - 1); }
  }

  /** The checksum a buffer should carry or yield. */
  function ChecksumOf(s: seq<Byte>): nat {
    ONES - Folded(WordSum(s))
  }

  /** The 32-bit accumulator cannot overflow on any 16-bit length. */
  lemma {:induction false} SumFits(s: seq<Byte>)
    ensures WordSum(s) <= |s| / 2 * ONES + |s| % 2 * 255
    ensures |s| <= 0xFFFF ==> WordSum(s) < U32_LIMIT
    decreases |s|
  {
    if |s| >= 2 { SumFits(s[2..]); }
  }

  /** A prefix of even length and the rest add up. */
  lemma {:induction false} SumSplit(s: seq<Byte>, k: nat)
    requires k <= |s| && k % 2 == 0
    ensures WordSum(s) == WordSum(s[..k]) + WordSum(s[k..])
    decreases k
  {
    if k == 0 {
      assert s[0..] == s;
    } else {
      SumSplit(s[2..], k - 2);
      assert s[2..][..k - 2] == s[..k][2..];
      assert s[2..][k - 2..] == s[k..];
      assert s[..k][0] == s[0] && s[..k][1] == s[1];
    }
  }

  /** ip_checksum. */
  method Checksum(data: seq<Byte>) returns (c: nat)
    requires |data| <= 0xFFFF
    ensures c == ChecksumOf(data)
  {
    var at, len := 0, |data|;
    var sum: Word32 := 0;
    SumFits(data);
    assert data[0..] == data;
    while len > 1
      invariant at + len == |data| && at % 2 == 0 && 0 <= len
      invariant sum + WordSum(data[at..]) == WordSum(data)
    {
      assert data[at..][2..] == data[at + 2..];
      sum := sum + GetU16(data, at);
      at := at + 2;
      len := len - 2;
    }
    if len == 1 {
      sum := sum + data[at];
    }
    assert sum == WordSum(data);
    while sum / 0x1_0000 != 0
      invariant Folded(sum) == Folded(WordSum(data))
      decreases sum
    {
      FoldOnce(sum);
      sum := sum % 0x1_0000 + sum / 0x1_0000;
    }
    FoldedUnique(sum, sum);
    return ONES - sum;
  }

  /** In bytes: words are taken low byte first, and with its checksum the sum is a positive
      multiple of 0xFFFF. */
  lemma ChecksumIs(s: seq<Byte>)
    ensures s == [] ==> WordSum(s) == 0
    ensures |s| == 1 ==> WordSum(s) == s[0]
    ensures |s| >= 2 ==> WordSum(s) == s[0] as int + 0x100 * s[1] as int + WordSum(s[2..])
    ensures ChecksumOf(s) <= 0xFFFF && (WordSum(s) + ChecksumOf(s)) % 0xFFFF == 0 < WordSum(s) + ChecksumOf(s)
    ensures ChecksumOf(s) == 0xFFFF <==> WordSum(s) == 0
  {
    Complement(WordSum(s));
  }

  // ---- Storing it ----

  /** Replacing one aligned word adds the difference to the sum. */
  lemma StoreWord(s: seq<Byte>, k: nat, w: nat)
    requires k % 2 == 0 && k + 2 <= |s| && w <= ONES
    ensures WordSum(Splice(s, k, Bytes16(w))) + GetU16(s, k) == WordSum(s) + w
  {
    var r := Splice(s, k, Bytes16(w));
    SumSplit(s, k);
    SumSplit(r, k);
    assert r[..k] == s[..k];
    SumSplit(s[k..], 2);
    SumSplit(r[k..], 2);
    assert s[k..][2..] == r[k..][2..];
    GetBytes16(w);
    assert r[k..][..2] == Bytes16(w);
    assert s[k..][..2][2..] == [] && Bytes16(w)[2..] == [];
  }

  /** A sum that is a positive multiple of 0xFFFF checks out, and no other. */
  lemma ChecksOut(s: seq<Byte>)
    ensures ChecksumOf(s) == 0 <==> WordSum(s) % ONES == 0 && WordSum(s) > 0
  {
  }

  /** Storing the checksum in a zeroed aligned field makes the whole check out. */
  lemma StoredChecksOut(s: seq<Byte>, k: nat)
    requires k % 2 == 0 && k + 2 <= |s| && GetU16(s, k) == 0
    ensures ChecksumOf(Splice(s, k, Bytes16(ChecksumOf(s)))) == 0
  {
    hide WordSum;
    var sum, c := WordSum(s), ChecksumOf(s);
    StoreWord(s, k, c);
    ChecksOut(Splice(s, k, Bytes16(c)));
    Complement(sum);
  }

  lemma Complement(sum: nat)
    ensures (sum + (ONES - Folded(sum))) % ONES == 0 && sum + (ONES - Folded(sum)) > 0
  {
    var q := sum / ONES;
    if sum > 0 {
      var k := (sum - 1) / ONES;
      assert sum + (ONES - Folded(sum)) == ONES * (k + 1);
      ModShift(0, k + 1);
    }
  }

  /** A change to one aligned word goes unseen only between 0x0000 and 0xFFFF. */
  lemma OneWordDetected(s: seq<Byte>, k: nat, w: nat)
    requires k % 2 == 0 && k + 2 <= |s| && w <= ONES && w != GetU16(s, k)
    requires ChecksumOf(s) == 0 && ChecksumOf(Splice(s, k, Bytes16(w))) == 0
    ensures (GetU16(s, k) == 0 && w == ONES) || (GetU16(s, k) == ONES && w == 0)
  {
    hide WordSum, Splice, Bytes16, GetU16;
    GetU16Fits(s, k);
    var r := Splice(s, k, Bytes16(w));
    StoreWord(s, k, w);
    ChecksOut(s);
    ChecksOut(r);
    EqualModulo(WordSum(s), WordSum(r), GetU16(s, k), w);
  }

  lemma GetU16Fits(s: seq<Byte>, k: nat)
    requires k + 2 <= |s|
    ensures GetU16(s, k) <= ONES
  {
  }

  lemma EqualModulo(x: nat, y: nat, v: nat, w: nat)
    requires x % ONES == 0 && y % ONES == 0 && y + v == x + w && v <= ONES && w <= ONES && v != w
    ensures (v == 0 && w == ONES) || (v == ONES && w == 0)
  {
  }

  // ---- The header ip_send builds ----

  function BigEndian16(v: nat): seq<Byte> {
    [v / 256 % 256, v % 256]
  }

  function BigEndian32(v: Word32): seq<Byte> {
    [v / 0x100_0000 % 256, v / 0x1_0000 % 256, v / 0x100 % 256, v % 256]
  }

  function Header(len: nat, id: nat, protocol: Byte, src: Word32, dest: Word32, checksum: nat): (h: seq<Byte>)
    ensures |h| == HEADER_LEN
  {
    [0x45, 0] + BigEndian16(HEADER_LEN + len) + BigEndian16(id) + [0, 0, 64, protocol] + Bytes16(checksum)
    + BigEndian32(src) + BigEndian32(dest)
  }

  /** The header in bytes: version and length, total length, identification, time to live and
      protocol, checksum, and the two addresses, high byte first except for the checksum. */
  ghost predicate HeaderFields(h: seq<Byte>, len: nat, id: nat, protocol: Byte, src: Word32, dest: Word32, c: nat) {
    && |h| == 20 && h[0] == 0x45 && h[1] == 0 && h[6] == 0 && h[7] == 0 && h[8] == 64 && h[9] == protocol
    && 0x100 * h[2] as int + h[3] as int == (20 + len) % 0x1_0000
    && 0x100 * h[4] as int + h[5] as int == id % 0x1_0000
    && h[10] as int + 0x100 * h[11] as int == c % 0x1_0000
    && 0x100_0000 * h[12] as int + 0x1_0000 * h[13] as int + 0x100 * h[14] as int + h[15] as int == src
    && 0x100_0000 * h[16] as int + 0x1_0000 * h[17] as int + 0x100 * h[18] as int + h[19] as int == dest
  }

  lemma HeaderBytes(len: nat, id: nat, protocol: Byte, src: Word32, dest: Word32, c: nat)
    ensures HeaderFields(Header(len, id, protocol, src, dest, c), len, id, protocol, src, dest, c)
  {
    TwoBytes(20 + len);
    TwoBytes(id);
    TwoBytes(c);
    LowByteFirst(src);
    LowByteFirst(dest);
    hide LittleEndian.Bytes32;
    var h := Header(len, id, protocol, src, dest, c);
    assert [h[15], h[14], h[13], h[12]] == Bytes32(src) by { FourBytes(src); }
    assert [h[19], h[18], h[17], h[16]] == Bytes32(dest) by { FourBytes(dest); }
  }

  lemma FourBytes(v: Word32)
    ensures var b := BigEndian32(v); [b[3], b[2], b[1], b[0]] == Bytes32(v)
  {
  }

  lemma TwoBytes(v: nat)
    ensures 0x100 * (v / 256 % 256) + v % 256 == v % 0x1_0000
  {
  }

  /** The header of a packet with len bytes of payload: it checks out at the receiver. */
  method BuildHeader(len: nat, id: nat, protocol: Byte, src: Word32, dest: Word32) returns (h: seq<Byte>, c: nat)
    ensures h == Header(len, id, protocol, src, dest, c) && c <= ONES
    ensures ChecksumOf(h) == 0
    ensures HeaderFields(h, len, id, protocol, src, dest, c)
  {
    hide HeaderFields, WordSum, Folded;
    h := Header(len, id, protocol, src, dest, 0);
    c := Checksum(h);
    assert h[CHECKSUM_AT] == 0 && h[CHECKSUM_AT + 1] == 0;
    StoredChecksOut(h, CHECKSUM_AT);
    h := Splice(h, CHECKSUM_AT, Bytes16(c));
    assert h == Header(len, id, protocol, src, dest, c);
    HeaderBytes(len, id, protocol, src, dest, c);
  }
}
