/** Bytes, the 32-bit unsigned integers of the kernel, and their little-endian
    storage form.  The x86 stores every integer low byte first, so the FAT, the
    directory entries and the ZTAR archives all go through these functions. */
module LittleEndian {
  const U32_LIMIT := 0x1_0000_0000

  type Byte = x: int | 0 <= x < 256
  type Word32 = x: int | 0 <= x < U32_LIMIT

  /** C's unsigned 32-bit wrap-around. */
  function Wrap32(x: int): Word32 {
    x % U32_LIMIT
  }

  lemma WrapSmall(x: nat)
    requires x < U32_LIMIT
    ensures Wrap32(x) == x
  {
  }

  function GetU16(s: seq<Byte>, at: nat): nat
    requires at + 2 <= |s|
  {
    var b0: int, b1: int := s[at], s[at + 1];
    b0 + 0x100 * b1
  }

  function GetU32(s: seq<Byte>, at: nat): (v: Word32)
    requires at + 4 <= |s|
  {
    var b0: int, b1: int, b2: int, b3: int := s[at], s[at + 1], s[at + 2], s[at + 3];
    b0 + 0x100 * b1 + 0x1_0000 * b2 + 0x100_0000 * b3
  }

  function Bytes16(v: nat): (s: seq<Byte>)
    ensures |s| == 2
  {
    [v % 256, v / 256 % 256]
  }

  function Bytes32(v: nat): (s: seq<Byte>)
    ensures |s| == 4
  {
    [v % 256, v / 0x100 % 256, v / 0x1_0000 % 256, v / 0x100_0000 % 256]
  }

  /** Overwrite the bytes of s from position at with b. */
  function Splice<T>(s: seq<T>, at: nat, b: seq<T>): (r: seq<T>)
    requires at + |b| <= |s|
    ensures |r| == |s|
    ensures forall i :: 0 <= i < |s| ==> r[i] == if at <= i < at + |b| then b[i - at] else s[i]
  {
    s[..at] + b + s[at + |b|..]
  }

  lemma GetBytes32(v: Word32)
    ensures GetU32(Bytes32(v), 0) == v
  {
    var lo, hi := v % 0x1_0000, v / 0x1_0000;
    assert v / 0x100 % 256 == lo / 0x100;
    assert v / 0x100_0000 == hi / 0x100;
  }

  lemma BytesGet32(s: seq<Byte>)
    requires |s| == 4
    ensures Bytes32(GetU32(s, 0)) == s
  {
    var v := GetU32(s, 0);
    var b1: int, b2: int, b3: int := s[1], s[2], s[3];
    assert v / 0x100 == b1 + 0x100 * b2 + 0x1_0000 * b3;
    assert v / 0x1_0000 == b2 + 0x100 * b3;
    assert v / 0x100_0000 == b3;
  }

  /** A 32-bit value is the sum of its four bytes, lowest first. */
  lemma LowByteFirst(v: Word32)
    ensures var b := Bytes32(v);
      (b[0] as int) + 0x100 * b[1] as int + 0x1_0000 * b[2] as int + 0x100_0000 * b[3] as int == v
    ensures v < 0x1_0000 ==> var b := Bytes16(v); (b[0] as int) + 0x100 * b[1] as int == v
  {
    var lo, hi := v % 0x1_0000, v / 0x1_0000;
    assert v / 0x100 % 256 == lo / 0x100;
    assert v / 0x100_0000 == hi / 0x100;
  }

  /** And loading adds them up. */
  lemma LoadAdds(s: seq<Byte>, at: nat)
    ensures at + 4 <= |s| ==>
      GetU32(s, at) ==
        (s[at] as int) + 0x100 * s[at + 1] as int + 0x1_0000 * s[at + 2] as int + 0x100_0000 * s[at + 3] as int
    ensures at + 2 <= |s| ==> GetU16(s, at) == (s[at] as int) + 0x100 * s[at + 1] as int
  {
  }

  /** Storing a 32-bit value and loading it back, anywhere in a buffer. */
  lemma GetAfterSplice32(s: seq<Byte>, at: nat, v: Word32)
    requires at + 4 <= |s|
    ensures GetU32(Splice(s, at, Bytes32(v)), at) == v
  {
    GetBytes32(v);
  }

  /** Storing at one slot leaves a disjoint slot alone. */
  lemma GetElsewhere32(s: seq<Byte>, at: nat, b: seq<Byte>, other: nat)
    requires at + |b| <= |s| && other + 4 <= |s|
    requires other + 4 <= at || at + |b| <= other
    ensures GetU32(Splice(s, at, b), other) == GetU32(s, other)
  {
  }

  lemma GetBytes16(v: nat)
    requires v < 0x1_0000
    ensures GetU16(Bytes16(v), 0) == v
  {
  }
}
