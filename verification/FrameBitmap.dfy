/** Bits of 32-bit words, and a bitmap of words as a set of frames. */
module FrameBitmap {
  import opened LittleEndian
  import opened Division

  const WORD := 32

  // ---- One word ----

  /** Bit j of w. */
  predicate TestBit(w: nat, j: nat) {
    if j == 0 then w % 2 == 1 else TestBit(w / 2, j - 1)
  }

  /** w | 1 << j. */
  function SetBit(w: nat, j: nat): nat {
    if j == 0 then w / 2 * 2 + 1 else SetBit(w / 2, j - 1) * 2 + w % 2
  }

  /** w & ~(1 << j). */
  function ClearBit(w: nat, j: nat): nat {
    if j == 0 then w / 2 * 2 else ClearBit(w / 2, j - 1) * 2 + w % 2
  }

  /** Setting or clearing bit j changes bit j alone. */
  lemma {:induction false} BitUpdates(w: nat, j: nat, i: nat)
    ensures TestBit(SetBit(w, j), i) == (i == j || TestBit(w, i))
    ensures TestBit(ClearBit(w, j), i) == (i != j && TestBit(w, i))
  {
    if j > 0 && i > 0 { BitUpdates(w / 2, j - 1, i - 1); }
  }

  function Pow2(n: nat): nat {
    if n == 0 then 1 else 2 * Pow2(n - 1)
  }

  lemma {:induction false} BitsFit(w: nat, j: nat, n: nat)
    requires j < n && w < Pow2(n)
    ensures SetBit(w, j) < Pow2(n) && ClearBit(w, j) < Pow2(n)
  {
    if j > 0 { BitsFit(w / 2, j - 1, n - 1); }
  }

  ghost predicate AllSet(w: nat, n: nat) {
    forall j :: 0 <= j < n ==> TestBit(w, j)
  }

  /** Only the word of n ones has its n low bits all set. */
  lemma {:induction false} FullWord(w: nat, n: nat)
    requires w < Pow2(n)
    ensures w == Pow2(n) - 1 <==> AllSet(w, n)
  {
    if n > 0 {
      FullWord(w / 2, n - 1);
      assert w == Pow2(n) - 1 <==> w % 2 == 1 && w / 2 == Pow2(n - 1) - 1;
      AllSetHalf(w, n);
    }
  }

  lemma AllSetHalf(w: nat, n: nat)
    requires n > 0
    ensures AllSet(w, n) <==> w % 2 == 1 && AllSet(w / 2, n - 1)
  {
    if AllSet(w, n) {
      assert TestBit(w, 0);
      forall j | 0 <= j < n - 1
        ensures TestBit(w / 2, j)
      {
        assert TestBit(w, j + 1);
      }
    }
    if w % 2 == 1 && AllSet(w / 2, n - 1) {
      forall j | 0 <= j < n
        ensures TestBit(w, j)
      {
        assert j > 0 ==> TestBit(w / 2, j - 1);
      }
    }
  }

  lemma WordLimit()
    ensures Pow2(WORD) == U32_LIMIT
  {
    assert Pow2(8) == 256;
    assert Pow2(16) == 65536;
    assert Pow2(24) == 0x100_0000;
  }

  function SetBit32(w: Word32, j: nat): Word32
    requires j < WORD
  {
    WordLimit();
    BitsFit(w, j, WORD);
    SetBit(w, j)
  }

  function ClearBit32(w: Word32, j: nat): Word32
    requires j < WORD
  {
    WordLimit();
    BitsFit(w, j, WORD);
    ClearBit(w, j)
  }

  /** Bit j in numbers, counting from the lowest. */
  lemma {:induction false} BitIs(w: nat, j: nat)
    ensures 0 < Pow2(j) && (TestBit(w, j) <==> w / Pow2(j) % 2 == 1)
    ensures Pow2(0) == 1 && Pow2(j + 1) == 2 * Pow2(j)
  {
    if j > 0 {
      BitIs(w / 2, j - 1);
      Halved(w, Pow2(j - 1));
    }
  }

  lemma Halved(w: nat, p: nat)
    requires 0 < p
    ensures w / 2 / p == w / (2 * p)
  {
    var q := w / 2 / p;
    var r := w / 2 % p;
    assert w / 2 == p * q + r;
    DivIs(w, 2 * p, q, 2 * r + w % 2);
  }

  // ---- The bitmap ----

  predicate Used(ws: seq<Word32>, f: nat) {
    f / WORD < |ws| ==> TestBit(ws[f / WORD], f % WORD)
  }

  /** Frame f is used if bit f % 32 of word f / 32 is set. */
  lemma UsedBits(ws: seq<Word32>, f: nat)
    requires f / 32 < |ws|
    ensures 0 < Pow2(f % 32) && (Used(ws, f) <==> ws[f / 32] / Pow2(f % 32) % 2 == 1)
  {
    BitIs(ws[f / 32], f % 32);
  }

  ghost function Frames(total: nat): (r: set<nat>)
    ensures |r| == total && forall f: nat :: f in r <==> f < total
  {
    if total == 0 then {} else Frames(total - 1) + {total - 1}
  }

  /** The frames whose bit is clear. */
  ghost function Free(ws: seq<Word32>, total: nat): set<nat> {
    set f | f in Frames(total) && !Used(ws, f)
  }

  function Marked(ws: seq<Word32>, f: nat): seq<Word32>
    requires f / WORD < |ws|
  {
    ws[f / WORD := SetBit32(ws[f / WORD], f % WORD)]
  }

  function Cleared(ws: seq<Word32>, f: nat): seq<Word32>
    requires f / WORD < |ws|
  {
    ws[f / WORD := ClearBit32(ws[f / WORD], f % WORD)]
  }

  lemma OneBit(ws: seq<Word32>, f: nat, g: nat)
    requires f / WORD < |ws|
    ensures Used(Marked(ws, f), g) == (g == f || Used(ws, g))
    ensures Used(Cleared(ws, f), g) == (g != f && Used(ws, g)) || g / WORD >= |ws|
  {
    if g / WORD == f / WORD {
      BitUpdates(ws[f / WORD], f % WORD, g % WORD);
    }
  }

  /** One bit of the bitmap is one frame of the set. */
  lemma FreeUpdates(ws: seq<Word32>, total: nat, f: nat)
    requires f / WORD < |ws| && (total + 31) / WORD == |ws|
    ensures Free(Marked(ws, f), total) == Free(ws, total) - {f}
    ensures f < total ==> Free(Cleared(ws, f), total) == Free(ws, total) + {f}
  {
    forall g | g in Frames(total)
      ensures Used(Marked(ws, f), g) == (g == f || Used(ws, g))
      ensures Used(Cleared(ws, f), g) == (g != f && Used(ws, g))
    {
      OneBit(ws, f, g);
    }
  }

  lemma FreeSize(ws: seq<Word32>, total: nat)
    ensures |Free(ws, total)| <= total
    ensures |Free(ws, total)| == total <==> Free(ws, total) == Frames(total)
  {
    assert Free(ws, total) + (Frames(total) - Free(ws, total)) == Frames(total);
  }

  /** The 32 frames of word i. */
  ghost predicate WordUsed(ws: seq<Word32>, i: nat) {
    forall f: nat :: i * WORD <= f < i * WORD + WORD ==> Used(ws, f)
  }

  /** A word of the bitmap is full exactly when none of its frames is free. */
  lemma WordFull(ws: seq<Word32>, i: nat)
    requires i < |ws|
    ensures ws[i] == 0xFFFF_FFFF <==> WordUsed(ws, i)
  {
    WordLimit();
    FullWord(ws[i], WORD);
    if WordUsed(ws, i) {
      forall j | 0 <= j < WORD
        ensures TestBit(ws[i], j)
      {
        assert Used(ws, i * WORD + j);
      }
    }
    if AllSet(ws[i], WORD) {
      forall f: nat | i * WORD <= f < i * WORD + WORD
        ensures Used(ws, f)
      {
        assert f / WORD == i && f % WORD == f - i * WORD;
      }
    }
  }
}
