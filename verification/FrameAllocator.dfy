/** The physical frame allocator: a bitmap kept in step with the set of free frames. */
module FrameAllocator {
  import opened Common
  import opened LittleEndian
  import opened FrameBitmap
  import HeapLayout

  const LOW_FRAMES := 256
  const DEFAULT_MEMORY := 0x1000_0000

  /** Where the memory in use by the kernel and this bitmap ends. */
  function KernelEnd(end: Word32, words: nat): Word32 {
    HeapLayout.AlignUp(Wrap32(end + words * 4), PAGE)
  }

  function MemorySize(known: bool, upper: Word32): Word32 {
    var m := if known then Wrap32((upper + 1024) * 1024) else DEFAULT_MEMORY;
    if m == 0 then DEFAULT_MEMORY else m
  }

  /** The first page boundary behind the kernel and the bitmap, if that does not wrap. */
  lemma KernelEndIs(end: Word32, words: nat)
    requires end + 4 * words + 4095 < U32_LIMIT
    ensures KernelEnd(end, words) % 4096 == 0
    ensures end + 4 * words <= KernelEnd(end, words) < end + 4 * words + 4096
  {
    WrapSmall(end + words * 4);
    WrapSmall(end + words * 4 + 4095);
  }

  /** One MB more than the upper memory told, in kB, or 256 MB. */
  lemma MemoryIs(known: bool, upper: Word32)
    ensures MemorySize(known, upper) ==
      if known && (upper as int + 1024) * 1024 % U32_LIMIT != 0 then (upper as int + 1024) * 1024 % U32_LIMIT
      else 256 * 1024 * 1024
  {
  }

  ghost predicate LeastFree(free: set<nat>, f: nat) {
    f in free && forall g :: g in free ==> f <= g
  }

  /** The bitmap's bits past the last frame stay set. */
  ghost predicate TailSet(ws: seq<Word32>, total: nat) {
    forall f: nat :: total <= f ==> Used(ws, f)
  }

  ghost predicate UsedBelow(ws: seq<Word32>, n: nat) {
    forall f: nat :: f < n ==> Used(ws, f)
  }

  lemma UsedThroughWord(ws: seq<Word32>, i: nat)
    requires UsedBelow(ws, i * WORD) && WordUsed(ws, i)
    ensures UsedBelow(ws, (i + 1) * WORD)
  {
  }

  /** The first clear bit is the lowest free frame. */
  lemma FirstClear(ws: seq<Word32>, total: nat, f: nat)
    requires UsedBelow(ws, f)
    ensures f < total && !Used(ws, f) ==> LeastFree(Free(ws, total), f)
    ensures f >= total ==> Free(ws, total) == {}
  {
  }

  lemma AllUsed(ws: seq<Word32>, total: nat)
    requires forall k :: 0 <= k < |ws| ==> ws[k] == 0xFFFF_FFFF
    ensures TailSet(ws, total) && Free(ws, total) == {}
  {
    forall f: nat
      ensures Used(ws, f)
    {
      if f / WORD < |ws| {
        WordFull(ws, f / WORD);
        assert f / WORD * WORD <= f < f / WORD * WORD + WORD;
      }
    }
  }

  lemma NoneBelowZero(ws: seq<Word32>)
    ensures UsedBelow(ws, 0)
  {
  }

  lemma UsedNext(ws: seq<Word32>, f: nat)
    requires UsedBelow(ws, f) && Used(ws, f)
    ensures UsedBelow(ws, f + 1)
  {
  }

  lemma UsedIsBit(ws: seq<Word32>, f: nat)
    requires f / WORD < |ws|
    ensures Used(ws, f) <==> TestBit(ws[f / WORD], f % WORD)
  {
  }

  lemma LeastIn(ws: seq<Word32>, total: nat, f: nat)
    requires LeastFree(Free(ws, total), f)
    ensures f in Free(ws, total)
  {
  }

  lemma FreeInRange(ws: seq<Word32>, total: nat)
    ensures forall f :: f in Free(ws, total) ==> f < total
  {
  }

  lemma MarkKeeps(ws: seq<Word32>, total: nat, f: nat)
    requires (total + 31) / WORD == |ws| && TailSet(ws, total) && f in Free(ws, total)
    ensures f / WORD < |ws| && TailSet(Marked(ws, f), total)
    ensures Free(Marked(ws, f), total) == Free(ws, total) - {f}
    ensures |Free(ws, total)| <= total && |Free(Marked(ws, f), total)| == |Free(ws, total)| - 1
  {
    FreeUpdates(ws, total, f);
    FreeSize(ws, total);
    forall g: nat | total <= g
      ensures Used(Marked(ws, f), g)
    {
      OneBit(ws, f, g);
    }
  }

  lemma ClearKeeps(ws: seq<Word32>, total: nat, f: nat)
    requires (total + 31) / WORD == |ws| && TailSet(ws, total) && f < total
    ensures f / WORD < |ws| && TailSet(Cleared(ws, f), total)
    ensures Free(Cleared(ws, f), total) == Free(ws, total) + {f}
    ensures f in Free(ws, total) <==> !Used(ws, f)
    ensures Used(ws, f) ==> |Free(ws, total)| + 1 == |Free(Cleared(ws, f), total)| <= total
  {
    FreeUpdates(ws, total, f);
    FreeSize(Cleared(ws, f), total);
    forall g: nat | total <= g
      ensures Used(Cleared(ws, f), g)
    {
      OneBit(ws, f, g);
    }
  }

  class Pmm {
    const bitmap: array<Word32>
    const totalFrames: nat
    var usedFrames: Word32

    ghost function FreeSet(): set<nat>
      reads this, bitmap
    {
      Free(bitmap[..], totalFrames)
    }

    /** usedFrames counts the set bits below totalFrames. */
    ghost predicate Valid()
      reads this, bitmap
    {
      && bitmap.Length == (totalFrames + 31) / WORD && totalFrames < U32_LIMIT / PAGE
      && usedFrames == totalFrames - |FreeSet()|
      && TailSet(bitmap[..], totalFrames)
    }

    /** pmm_init: everything set, then the frames from 1 MB up cleared, then the kernel and
        the bitmap itself marked. */
    constructor (known: bool, upper: Word32, end: Word32)
      ensures Valid() && fresh(bitmap) && totalFrames == MemorySize(known, upper) / PAGE
      ensures forall f: nat :: f in FreeSet() <==>
        256 <= f < totalFrames && KernelEnd(end, bitmap.Length) <= f * 4096
      ensures bitmap.Length == (totalFrames + 31) / 32
    {
      var total := MemorySize(known, upper) / PAGE;
      totalFrames := total;
      bitmap := new Word32[(total + 31) / WORD];
      usedFrames := total;
      new;
      for i := 0 to bitmap.Length
        invariant usedFrames == total && forall k :: 0 <= k < i ==> bitmap[k] == 0xFFFF_FFFF
      {
        bitmap[i] := 0xFFFF_FFFF;
      }
      hide Used, Free, Frames, TailSet, HeapLayout.AlignUp;
      AllUsed(bitmap[..], totalFrames);
      ClearHigh();
      MarkKernel(KernelEnd(end, bitmap.Length));
    }

    method ClearHigh()
      requires Valid() && FreeSet() == {}
      modifies this, bitmap
      ensures Valid() && forall f: nat :: f in FreeSet() <==> LOW_FRAMES <= f < totalFrames
    {
      hide Used, Free, Frames, TailSet;
      var frame := LOW_FRAMES;
      while frame < totalFrames
        invariant Valid() && LOW_FRAMES <= frame
        invariant forall f: nat :: f in FreeSet() <==> LOW_FRAMES <= f < frame && f < totalFrames
      {
        Release(frame);
        frame := frame + 1;
      }
    }

    method MarkKernel(kernelEnd: Word32)
      requires Valid() && forall f: nat :: f in FreeSet() <==> LOW_FRAMES <= f < totalFrames
      modifies this, bitmap
      ensures Valid() && forall f: nat :: f in FreeSet() <==> LOW_FRAMES <= f < totalFrames && kernelEnd <= f * PAGE
    {
      hide Used, Free, Frames, TailSet;
      var addr := LOW_FRAMES * PAGE;
      while addr < kernelEnd
        invariant Valid() && addr % PAGE == 0 && LOW_FRAMES * PAGE <= addr
        invariant forall f: nat :: f in FreeSet() <==> LOW_FRAMES <= f < totalFrames && addr / PAGE <= f
        invariant addr / PAGE <= (kernelEnd + PAGE - 1) / PAGE || addr == LOW_FRAMES * PAGE
      {
        MarkUsed(addr);
        addr := addr + PAGE;
      }
    }

    /** Clear one used bit. */
    method Release(frame: nat)
      requires Valid() && frame < totalFrames && frame !in FreeSet()
      modifies this, bitmap
      ensures Valid() && FreeSet() == old(FreeSet()) + {frame}
    {
      hide Used, Free, Frames, TailSet, ClearBit32;
      ghost var ws := bitmap[..];
      ClearKeeps(ws, totalFrames, frame);
      bitmap[frame / WORD] := ClearBit32(bitmap[frame / WORD], frame % WORD);
      assert bitmap[..] == Cleared(ws, frame);
      usedFrames := Wrap32(usedFrames - 1);
    }

    /** pmm_alloc_frame: the lowest free frame, or 0. */
    method Alloc() returns (addr: Word32)
      requires Valid()
      modifies this, bitmap
      ensures Valid()
      ensures old(FreeSet()) == {} ==> addr == 0 && FreeSet() == {}
      ensures old(FreeSet()) != {} ==>
        && addr % PAGE == 0 && LeastFree(old(FreeSet()), addr / PAGE)
        && FreeSet() == old(FreeSet()) - {addr / PAGE}
    {
      hide Used, Free, Frames, UsedBelow, WordUsed, TailSet, TestBit, LeastFree;
      ghost var ws := bitmap[..];
      FreeSize(ws, totalFrames);
      NoneBelowZero(ws);
      addr := 0;
      if usedFrames >= totalFrames { return; }
      var i := 0;
      while i < bitmap.Length
        invariant i <= bitmap.Length && UsedBelow(ws, i * WORD)
        invariant bitmap[..] == ws && usedFrames == old(usedFrames)
      {
        WordFull(ws, i);
        if bitmap[i] != 0xFFFF_FFFF {
          var j := 0;
          while j < WORD
            invariant j <= WORD && UsedBelow(ws, i * WORD + j)
            invariant bitmap[..] == ws && usedFrames == old(usedFrames)
          {
            var frame := i * WORD + j;
            FirstClear(ws, totalFrames, frame);
            if frame >= totalFrames { return; }
            UsedIsBit(ws, frame);
            if !TestBit(bitmap[frame / WORD], frame % WORD) {
              LeastIn(ws, totalFrames, frame);
              Claim(frame);
              return frame * PAGE;
            }
            UsedNext(ws, frame);
            j := j + 1;
          }
        } else {
          UsedThroughWord(ws, i);
        }
        i := i + 1;
      }
      FirstClear(ws, totalFrames, i * WORD);
    }

    /** Mark a free frame used and count it. */
    method Claim(frame: nat)
      requires Valid() && frame in FreeSet()
      modifies this, bitmap
      ensures Valid() && FreeSet() == old(FreeSet()) - {frame}
    {
      hide Used, Free, Frames, TailSet, SetBit32;
      ghost var ws := bitmap[..];
      MarkKeeps(ws, totalFrames, frame);
      bitmap[frame / WORD] := SetBit32(bitmap[frame / WORD], frame % WORD);
      assert bitmap[..] == Marked(ws, frame);
      usedFrames := Wrap32(usedFrames + 1);
    }

    /** pmm_free_frame. */
    method FreeFrame(addr: Word32)
      requires Valid()
      modifies this, bitmap
      ensures Valid()
      ensures FreeSet() == old(FreeSet()) + (if addr / PAGE < totalFrames then {addr / PAGE} else {})
    {
      hide Used, Free, Frames, TailSet, ClearBit32, TestBit;
      var frame := addr / PAGE;
      if frame >= totalFrames { return; }
      ghost var ws := bitmap[..];
      ClearKeeps(ws, totalFrames, frame);
      UsedIsBit(ws, frame);
      if TestBit(bitmap[frame / WORD], frame % WORD) { Release(frame); }
    }

    /** pmm_mark_used. */
    method MarkUsed(addr: Word32)
      requires Valid()
      modifies this, bitmap
      ensures Valid() && FreeSet() == old(FreeSet()) - {addr / PAGE}
    {
      hide Used, Frames, TailSet, TestBit;
      var frame := addr / PAGE;
      if frame >= totalFrames { return; }
      UsedIsBit(bitmap[..], frame);
      if !TestBit(bitmap[frame / WORD], frame % WORD) { Claim(frame); }
    }
  }
}
