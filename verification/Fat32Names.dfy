/** 8.3 names: the 11-byte raw form stored in a directory entry and the form users type.
    Names are C strings, so a name never contains a zero byte. */
module Fat32Names {
  import opened LittleEndian

  const SPACE: Byte := 0x20
  const DOT: Byte := 0x2E
  const DELETED: Byte := 0xE5
  const RAW_LENGTH := 11

  type Text = seq<Byte>

  function Upper(c: Byte): Byte {
    if 'a' as int <= c <= 'z' as int then c - 32 else c
  }

  function UpperAll(s: Text): (r: Text)
    ensures |r| == |s| && forall i :: 0 <= i < |s| ==> r[i] == Upper(s[i])
  {
    seq(|s|, i requires 0 <= i < |s| => Upper(s[i]))
  }

  /** Position of the first c in s, or |s|. */
  function IndexOf(s: Text, c: Byte): (n: nat)
    ensures n <= |s| && c !in s[..n] && (n < |s| ==> s[n] == c)
  {
    if s == [] || s[0] == c then 0 else 1 + IndexOf(s[1..], c)
  }

  lemma {:induction false} IndexOfIs(s: Text, c: Byte, n: nat)
    requires n <= |s| && c !in s[..n] && (n < |s| ==> s[n] == c)
    ensures IndexOf(s, c) == n
  {
    assert n > 0 ==> s[..n][0] == s[0];
    if s != [] && s[0] != c {
      assert s[..n][1..] == s[1..][..n - 1];
      IndexOfIs(s[1..], c, n - 1);
    }
  }

  /** The part of a name before its first dot, and the part after it. */
  function Base(name: Text): Text {
    name[..IndexOf(name, DOT)]
  }

  function Extension(name: Text): Text {
    var d := IndexOf(name, DOT);
    if d < |name| then name[d + 1..] else []
  }

  lemma DotSplits(base: Text, ext: Text)
    requires DOT !in base
    ensures Base(base) == base && Extension(base) == []
    ensures Base(base + [DOT] + ext) == base && Extension(base + [DOT] + ext) == ext
  {
    IndexOfIs(base, DOT, |base|);
    var n := base + [DOT] + ext;
    assert n[..|base|] == base;
    IndexOfIs(n, DOT, |base|);
  }

  /** At most n characters of s in upper case, padded with spaces to n. */
  function Field(s: Text, n: nat): (r: Text)
    ensures |r| == n
    ensures forall i :: 0 <= i < n ==> r[i] == if i < |s| then Upper(s[i]) else SPACE
  {
    seq(n, i requires 0 <= i < n => if i < |s| then Upper(s[i]) else SPACE)
  }

  /** What fat32_name_to_83 computes: everything before the first dot is the base name and
      what follows it the extension; both are cut to their fields. */
  function To83(name: Text): (raw: Text)
    ensures |raw| == RAW_LENGTH
  {
    Field(Base(name), 8) + Field(Extension(name), 3)
  }

  /** The loops over the base name: copy up to 8 characters, then skip to the dot. */
  method CopyBase(name83: array<Byte>, name: Text) returns (i: nat)
    requires name83.Length == 11 && forall k :: 0 <= k < 11 ==> name83[k] == SPACE
    modifies name83
    ensures i <= |name| && DOT !in name[..i] && (i < |name| ==> name[i] == DOT)
    ensures forall k :: 0 <= k < 11 ==> name83[k] == if k < 8 && k < i then Upper(name[k]) else SPACE
  {
    var j: nat := 0;
    i := 0;
    while i < |name| && name[i] != DOT && j < 8
      invariant i == j <= 8 && i <= |name| && DOT !in name[..i]
      invariant forall k :: 0 <= k < 11 ==> name83[k] == if k < j then Upper(name[k]) else SPACE
    {
      name83[j] := Upper(name[i]);
      i, j := i + 1, j + 1;
    }
    while i < |name| && name[i] != DOT
      invariant j <= i <= |name| && DOT !in name[..i] && (j == 8 || j == i)
    {
      i := i + 1;
    }
  }

  /** The loop over the extension. */
  method CopyExtension(name83: array<Byte>, ext: Text)
    requires name83.Length == 11 && forall k :: 8 <= k < 11 ==> name83[k] == SPACE
    modifies name83
    ensures forall k :: 0 <= k < 8 ==> name83[k] == old(name83[k])
    ensures forall k :: 8 <= k < 11 ==> name83[k] == Field(ext, 3)[k - 8]
  {
    var i, j := 0, 8;
    while i < |ext| && j < 11
      invariant 0 <= i <= |ext| && 8 <= j <= 11 && j - 8 == i
      invariant forall k :: 0 <= k < 8 ==> name83[k] == old(name83[k])
      invariant forall k :: 8 <= k < 11 ==> name83[k] == if k < j then Upper(ext[k - 8]) else SPACE
    {
      name83[j] := Upper(ext[i]);
      i, j := i + 1, j + 1;
    }
  }

  /** fat32_name_to_83 */
  method NameTo83(name: Text) returns (raw: Text)
    ensures raw == To83(name)
  {
    hide IndexOf;
    var name83 := new Byte[11](_ => SPACE);
    var i := CopyBase(name83, name);
    IndexOfIs(name, DOT, i);
    ghost var ext := Extension(name);
    assert forall k :: 0 <= k < 8 ==> name83[k] == Field(Base(name), 8)[k];
    if i < |name| {
      CopyExtension(name83, name[i + 1..]);
    }
    assert forall k :: 8 <= k < 11 ==> name83[k] == Field(ext, 3)[k - 8];
    raw := name83[..];
  }

  /** A field up to its first space. */
  function Trim(f: Text): (r: Text)
    ensures |r| <= |f|
  {
    f[..IndexOf(f, SPACE)]
  }

  lemma TrimIs(f: Text, n: nat)
    requires n <= |f| && SPACE !in f[..n] && (n < |f| ==> f[n] == SPACE)
    ensures Trim(f) == f[..n]
  {
    IndexOfIs(f, SPACE, n);
  }

  /** What format_83_name computes: the two fields up to their first space, joined by a dot
      unless the extension starts with a space. */
  function Format(raw: Text): (name: Text)
    requires |raw| == RAW_LENGTH
    ensures |name| <= 12
  {
    Trim(raw[..8]) + (if raw[8] == SPACE then [] else [DOT] + Trim(raw[8..]))
  }

  /** One loop of format_83_name: a field up to its first space, copied to position at. */
  method CopyTrimmed(out: array<Byte>, at: nat, f: Text) returns (n: nat)
    requires at + |f| <= out.Length
    modifies out
    ensures n == |Trim(f)| && out[..at + n] == old(out[..at]) + Trim(f)
  {
    n := 0;
    while n < |f| && f[n] != SPACE
      invariant n <= |f| && SPACE !in f[..n]
      invariant out[..at + n] == old(out[..at]) + f[..n]
    {
      out[at + n] := f[n];
      n := n + 1;
    }
    TrimIs(f, n);
  }

  /** format_83_name */
  method FormatName(raw: Text) returns (name: Text)
    requires |raw| == RAW_LENGTH
    ensures name == Format(raw)
  {
    hide Trim;
    var out := new Byte[13](_ => 0);
    var j := CopyTrimmed(out, 0, raw[..8]);
    if raw[8] != SPACE {
      out[j] := DOT;
      j := j + 1;
      var n := CopyTrimmed(out, j, raw[8..]);
      j := j + n;
    }
    name := out[..j];
  }

  /** A buffer read as a C string. */
  function CString(s: Text): Text {
    s[..IndexOf(s, 0)]
  }

  /** name_match: equality up to case of a name with the formatted raw name. */
  predicate Matches(pattern: Text, raw: Text)
    requires |raw| == RAW_LENGTH
  {
    UpperAll(pattern) == UpperAll(CString(Format(raw)))
  }

  /** name_match */
  method NameMatch(pattern: Text, raw: Text) returns (same: bool)
    requires |raw| == RAW_LENGTH
    ensures same == Matches(pattern, raw)
  {
    var entryName := FormatName(raw);
    var e := CString(entryName);
    var i := 0;
    while i < |pattern| && i < |e|
      invariant 0 <= i <= |pattern| && i <= |e|
      invariant forall k :: 0 <= k < i ==> Upper(pattern[k]) == Upper(e[k])
    {
      if Upper(pattern[i]) != Upper(e[i]) {
        assert UpperAll(pattern)[i] != UpperAll(e)[i];
        return false;
      }
      i := i + 1;
    }
    same := i == |pattern| && i == |e|;
    if same {
      assert UpperAll(pattern) == UpperAll(e);
    } else {
      assert |UpperAll(pattern)| != |UpperAll(e)|;
    }
  }

  // ---- The same in bytes ----

  /** The 11 bytes of a name whose first dot is at n (|name| for none): ASCII letters in upper
      case, cut at 8 and 3, padded with 0x20. */
  lemma To83Bytes(name: Text, n: nat)
    requires n <= |name| && (forall i :: 0 <= i < n ==> name[i] != 0x2E) && (n < |name| ==> name[n] == 0x2E)
    ensures forall i :: 0 <= i < 8 ==>
      To83(name)[i] == if i >= n then 0x20 else if 97 <= name[i] <= 122 then name[i] - 32 else name[i]
    ensures forall i :: 8 <= i < 11 ==>
      To83(name)[i] ==
        if n + i - 7 >= |name| then 0x20
        else if 97 <= name[n + i - 7] <= 122 then name[n + i - 7] - 32 else name[n + i - 7]
  {
    IndexOfIs(name, DOT, n);
    hide IndexOf;
  }

  /** The displayed form: a bytes of the base and b of the extension stand before a 0x20. */
  lemma FormatBytes(raw: Text, a: nat, b: nat)
    requires |raw| == 11 && a <= 8 && b <= 3
    requires (forall i :: 0 <= i < a ==> raw[i] != 0x20) && (a < 8 ==> raw[a] == 0x20)
    requires (forall i :: 8 <= i < 8 + b ==> raw[i] != 0x20) && (b < 3 ==> raw[8 + b] == 0x20)
    ensures Format(raw) == raw[..a] + if b == 0 then [] else [0x2E] + raw[8..8 + b]
  {
    assert raw[..8][..a] == raw[..a] && raw[8..][..b] == raw[8..8 + b];
    TrimIs(raw[..8], a);
    TrimIs(raw[8..], b);
    hide Trim;
  }

  /** A match is equality up to the case of ASCII letters with the displayed form up to its
      first zero. */
  lemma MatchesBytes(p: Text, raw: Text, n: nat)
    requires |raw| == RAW_LENGTH && n <= |Format(raw)| && (forall i :: 0 <= i < n ==> Format(raw)[i] != 0)
    requires n < |Format(raw)| ==> Format(raw)[n] == 0
    ensures Matches(p, raw) <==>
      && |p| == n
      && forall i :: 0 <= i < n ==>
        var c, e := p[i], Format(raw)[i];
        (if 97 <= c <= 122 then c - 32 else c) == if 97 <= e <= 122 then e - 32 else e
  {
    IndexOfIs(Format(raw), 0, n);
    hide IndexOf, Format;
    var e := CString(Format(raw));
    assert e == Format(raw)[..n];
    if |p| == n && forall i :: 0 <= i < n ==> Upper(p[i]) == Upper(Format(raw)[i]) {
      assert UpperAll(p) == UpperAll(e);
    }
    if Matches(p, raw) {
      assert |UpperAll(p)| == |UpperAll(e)|;
      forall i | 0 <= i < n
        ensures Upper(p[i]) == Upper(Format(raw)[i])
      {
        assert UpperAll(p)[i] == UpperAll(e)[i];
      }
    }
  }

  // ---- The two forms correspond ----

  /** No terminator, space or dot. */
  predicate Plain(s: Text) {
    forall i :: 0 <= i < |s| ==> s[i] != 0 && s[i] != SPACE && s[i] != DOT
  }

  /** A valid 8.3 name: 1 to 8 characters, then perhaps a dot and 1 to 3 more. */
  predicate ValidName(n: Text) {
    && 1 <= |Base(n)| <= 8 && Plain(Base(n)) && n[0] != DELETED
    && (n != Base(n) ==> 1 <= |Extension(n)| <= 3 && Plain(Extension(n)))
  }

  /** Upper-case text without dots, then spaces to the end. */
  predicate CanonicalField(f: Text) {
    && Plain(Trim(f)) && UpperAll(Trim(f)) == Trim(f)
    && f == Field(Trim(f), |f|)
  }

  /** In bytes, for a name whose first dot is at p (|n| for none). */
  lemma ValidNameBytes(n: Text, p: nat)
    requires p <= |n| && (forall i :: 0 <= i < p ==> n[i] != 0x2E) && (p < |n| ==> n[p] == 0x2E)
    ensures ValidName(n) <==>
      && 1 <= p <= 8 && n[0] != 0xE5 && (forall i :: 0 <= i < p ==> n[i] != 0 && n[i] != 0x20)
      && (p < |n| ==>
            && 1 <= |n| - p - 1 <= 3
            && forall i :: p < i < |n| ==> n[i] != 0 && n[i] != 0x20 && n[i] != 0x2E)
  {
    IndexOfIs(n, DOT, p);
    hide IndexOf;
    assert Base(n) == n[..p];
    if p < |n| {
      assert Extension(n) == n[p + 1..];
      assert forall i :: p < i < |n| ==> n[p + 1..][i - p - 1] == n[i];
    }
  }

  /** A raw name as the driver writes it for a valid name. */
  predicate Canonical(raw: Text) {
    && |raw| == RAW_LENGTH
    && CanonicalField(raw[..8]) && CanonicalField(raw[8..])
    && raw[0] != SPACE && raw[0] != DELETED
  }

  lemma TrimField(s: Text, n: nat)
    requires Plain(s) && |s| <= n
    ensures Trim(Field(s, n)) == UpperAll(s)
    ensures CanonicalField(Field(s, n))
  {
    var f := Field(s, n);
    assert f[..|s|] == UpperAll(s);
    TrimIs(f, |s|);
    assert Field(UpperAll(s), n) == f;
    assert UpperAll(UpperAll(s)) == UpperAll(s);
  }

  /** A name is its base, or its base, a dot and its extension. */
  lemma NameParts(n: Text)
    ensures DOT !in Base(n)
    ensures n == if n == Base(n) then Base(n) else Base(n) + [DOT] + Extension(n)
    ensures n == Base(n) ==> Extension(n) == []
  {
  }

  lemma FormatFields(f: Text, g: Text)
    requires |f| == 8 && |g| == 3
    ensures Format(f + g) == Trim(f) + (if g[0] == SPACE then [] else [DOT] + Trim(g))
    ensures CanonicalField(f) && CanonicalField(g) && f[0] != SPACE && f[0] != DELETED ==> Canonical(f + g)
  {
    hide Trim, CanonicalField;
    assert (f + g)[..8] == f && (f + g)[8..] == g;
  }

  lemma FieldFirst(s: Text, n: nat)
    requires 0 < n && |s| <= n
    ensures |Field(s, n)| == n && Field(s, n)[0] == if s == [] then SPACE else Upper(s[0])
  {
  }

  lemma UpperJoined(a: Text, b: Text)
    ensures UpperAll(a + [DOT] + b) == UpperAll(a) + [DOT] + UpperAll(b)
  {
  }

  lemma UpperNone()
    ensures UpperAll([]) == []
  {
  }

  /** The characters of a valid name are no spaces, and stay none in upper case. */
  lemma UpperPlain(c: Byte)
    ensures c != SPACE ==> Upper(c) != SPACE
    ensures c != DELETED ==> Upper(c) != DELETED
  {
  }

  lemma ValidParts(n: Text)
    requires ValidName(n)
    ensures 1 <= |Base(n)| <= 8 && Plain(Base(n)) && |Extension(n)| <= 3 && Plain(Extension(n))
    ensures Base(n)[0] != SPACE && Base(n)[0] != DELETED
    ensures Extension(n) == [] || Extension(n)[0] != SPACE
    ensures n == if Extension(n) == [] then Base(n) else Base(n) + [DOT] + Extension(n)
  {
    NameParts(n);
    hide Base, Extension, IndexOf;
  }

  /** fat32_name_to_83 writes canonical raw names, and format_83_name undoes it up to case. */
  lemma FormatUndoesTo83(n: Text)
    requires ValidName(n)
    ensures Canonical(To83(n))
    ensures Format(To83(n)) == UpperAll(n)
  {
    hide ValidName, Base, Extension, IndexOf, Field, Upper, UpperAll, Plain, Trim, CanonicalField, Canonical, Format;
    var base, ext := Base(n), Extension(n);
    ValidParts(n);
    TrimField(base, 8);
    TrimField(ext, 3);
    FieldFirst(base, 8);
    FieldFirst(ext, 3);
    UpperPlain(base[0]);
    if ext != [] { UpperPlain(ext[0]); }
    UpperNone();
    UpperJoined(base, ext);
    FormatFields(Field(base, 8), Field(ext, 3));
  }

  lemma TrimmedText(f: Text)
    requires CanonicalField(f)
    ensures DOT !in Trim(f) && 0 !in Trim(f)
    ensures f != [] ==> (Trim(f) == [] <==> f[0] == SPACE) && (f[0] != SPACE ==> Trim(f)[0] == f[0])
  {
  }

  /** Formatting a canonical raw name loses nothing. */
  lemma To83UndoesFormat(raw: Text)
    requires Canonical(raw)
    ensures ValidName(Format(raw)) && To83(Format(raw)) == raw && UpperAll(Format(raw)) == Format(raw)
    ensures CString(Format(raw)) == Format(raw)
  {
    var base, ext := Trim(raw[..8]), Trim(raw[8..]);
    TrimmedText(raw[..8]);
    TrimmedText(raw[8..]);
    assert raw[8..][0] == raw[8] && raw[..8][0] == raw[0];
    var n := Format(raw);
    assert n == if ext == [] then base else base + [DOT] + ext;
    hide Trim, IndexOf;
    DotSplits(base, ext);
    hide Base, Extension;
    assert raw == raw[..8] + raw[8..];
    assert UpperAll(base + [DOT] + ext) == UpperAll(base) + [DOT] + UpperAll(ext);
    WholeCString(n);
  }

  lemma WholeCString(s: Text)
    requires 0 !in s
    ensures CString(s) == s
  {
    IndexOfIs(s, 0, |s|);
  }

  /** For valid names and canonical entries, name_match is equality of raw names. */
  lemma MatchIsRawEquality(n: Text, raw: Text)
    requires ValidName(n) && Canonical(raw)
    ensures Matches(n, raw) <==> To83(n) == raw
  {
    FormatUndoesTo83(n);
    To83UndoesFormat(raw);
    if Matches(n, raw) {
      To83IgnoresCase(n, Format(raw));
    }
  }

  lemma To83IgnoresCase(a: Text, b: Text)
    requires UpperAll(a) == UpperAll(b)
    ensures To83(a) == To83(b)
  {
    SameUpper(a, b);
    SameDot(a, b);
    hide IndexOf, Upper, UpperAll;
    var d := IndexOf(a, DOT);
    assert Field(Base(a), 8) == Field(Base(b), 8);
    assert Field(Extension(a), 3) == Field(Extension(b), 3);
  }

  lemma SameUpper(a: Text, b: Text)
    requires UpperAll(a) == UpperAll(b)
    ensures |a| == |b| && forall i :: 0 <= i < |a| ==> Upper(a[i]) == Upper(b[i])
  {
    assert |a| == |b|;
    assert forall i :: 0 <= i < |a| ==> Upper(a[i]) == UpperAll(a)[i] == Upper(b[i]);
  }

  /** Upper-casing moves no dot. */
  lemma SameDot(a: Text, b: Text)
    requires |a| == |b| && forall i :: 0 <= i < |a| ==> Upper(a[i]) == Upper(b[i])
    ensures IndexOf(a, DOT) == IndexOf(b, DOT)
  {
    var d := IndexOf(a, DOT);
    forall i | 0 <= i < d
      ensures b[i] != DOT
    {
      assert a[i] == a[..d][i];
    }
    IndexOfIs(b, DOT, d);
  }
}
