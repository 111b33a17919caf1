/** The frame bitmap of src/impl/paging.c and the set of frames it stands for. */
module Frames {

  const NFRAMES: nat := 0x1000 // mem_end_page / 0x1000
  const WORDS: nat := 128 // INDEX_FROM_BIT(nframes)

  // ---- Single bits ----

  function Mask(j: bv6): bv32
    requires j < 32
  {
    1 << j
  }

  function BitOf(w: bv32, j: bv6): bool
    requires j < 32
  {
    w & Mask(j) != 0
  }

  function With(w: bv32, j: bv6): bv32
    requires j < 32
  {
    w | Mask(j)
  }

  function Without(w: bv32, j: bv6): bv32
    requires j < 32
  {
    w & !Mask(j)
  }

  lemma MaskedBits(w: bv32, a: bv6, b: bv6)
    requires a < 32 && b < 32
    ensures ((w | Mask(a)) & Mask(b) != 0) <==> (a == b || w & Mask(b) != 0)
    ensures ((w & !Mask(a)) & Mask(b) != 0) <==> (a != b && w & Mask(b) != 0)
    ensures 0xFFFF_FFFF & Mask(a) != 0 && 0 & Mask(a) == 0
  {
  }

  lemma WithBit(w: bv32, a: bv6, b: bv6)
    requires a < 32 && b < 32
    ensures BitOf(With(w, a), b) <==> (a == b || BitOf(w, b))
  {
    MaskedBits(w, a, b);
    hide Mask;
  }

  lemma WithoutBit(w: bv32, a: bv6, b: bv6)
    requires a < 32 && b < 32
    ensures BitOf(Without(w, a), b) <==> (a != b && BitOf(w, b))
  {
    MaskedBits(w, a, b);
    hide Mask;
  }

  lemma ExtremeBits(a: bv6)
    requires a < 32
    ensures BitOf(0xFFFF_FFFF, a) && !BitOf(0, a)
  {
    MaskedBits(0, a, a);
    hide Mask;
  }

  /** OFFSET_FROM_BIT, as a shift distance. */
  function Offset(frame: nat): (j: bv6)
    ensures j < 32
  {
    (frame % 32) as bv6
  }

  lemma OffsetsDiffer(f: nat, g: nat)
    ensures Offset(f) == Offset(g) <==> f % 32 == g % 32
  {
    assert ((f % 32) as bv6) as nat == f % 32;
    assert ((g % 32) as bv6) as nat == g % 32;
  }

  // ---- The bitmap as a set ----

  predicate InUse(words: seq<bv32>, frame: nat)
    requires frame / 32 < |words|
  {
    BitOf(words[frame / 32], Offset(frame))
  }

  /** The frames whose bit is set. */
  ghost function Used(words: seq<bv32>): set<nat>
    requires |words| == WORDS
  {
    set f: nat | f < NFRAMES && InUse(words, f)
  }

  /** The least frame from k on that is not in the set, 0 if there is none. */
  ghost function LeastFree(used: set<nat>, k: nat): nat
    requires k <= NFRAMES
    decreases NFRAMES - k
  {
    if k == NFRAMES then 0 else if k !in used then k else LeastFree(used, k + 1)
  }

  lemma {:induction false} LeastFreeIsLeast(used: set<nat>, k: nat)
    requires k <= NFRAMES
    ensures var f := LeastFree(used, k);
      if exists g: nat :: k <= g < NFRAMES && g !in used
      then k <= f < NFRAMES && f !in used && (forall g: nat :: k <= g < f ==> g in used)
      else f == 0
    decreases NFRAMES - k
  {
    if k < NFRAMES && k in used {
      LeastFreeIsLeast(used, k + 1);
      if exists g: nat :: k <= g < NFRAMES && g !in used {
        var g: nat :| k <= g < NFRAMES && g !in used;
        assert k + 1 <= g < NFRAMES && g !in used;
      }
    }
  }

  lemma SetBitUses(words: seq<bv32>, frame: nat)
    requires |words| == WORDS && frame < NFRAMES
    ensures Used(words[frame / 32 := With(words[frame / 32], Offset(frame))]) == Used(words) + {frame}
    ensures Used(words[frame / 32 := Without(words[frame / 32], Offset(frame))]) == Used(words) - {frame}
  {
    hide BitOf, With, Without, Offset;
    var set1 := words[frame / 32 := With(words[frame / 32], Offset(frame))];
    var set0 := words[frame / 32 := Without(words[frame / 32], Offset(frame))];
    forall f: nat | f < NFRAMES
      ensures InUse(set1, f) <==> InUse(words, f) || f == frame
      ensures InUse(set0, f) <==> InUse(words, f) && f != frame
    {
      if f / 32 == frame / 32 {
        WithBit(words[frame / 32], Offset(frame), Offset(f));
        WithoutBit(words[frame / 32], Offset(frame), Offset(f));
        OffsetsDiffer(frame, f);
        assert f % 32 == frame % 32 ==> f == frame;
      }
    }
  }

  class FrameMap {
    const frames: array<bv32>

    ghost predicate Valid() {
      frames.Length == WORDS
    }

    ghost function InUseSet(): set<nat>
      requires Valid()
      reads frames
    {
      Used(frames[..])
    }

    constructor ()
      ensures Valid() && fresh(frames) && InUseSet() == {}
    {
      frames := new bv32[WORDS](i => 0);
      new;
      forall f: nat | f < NFRAMES ensures !InUse(frames[..], f) {
        ExtremeBits(Offset(f));
      }
    }

    /** set_frame */
    method SetFrame(frameAddr: nat)
      requires Valid() && frameAddr / 0x1000 < NFRAMES
      modifies frames
      ensures InUseSet() == old(InUseSet()) + {frameAddr / 0x1000}
    {
      hide With, Offset, InUse;
      var frame := frameAddr / 0x1000;
      SetBitUses(frames[..], frame);
      var idx := frame / 32;
      ghost var was := frames[..];
      frames[idx] := With(frames[idx], Offset(frame));
      assert frames[..] == was[idx := With(was[idx], Offset(frame))];
    }

    /** clear_frame */
    method ClearFrame(frameAddr: nat)
      requires Valid() && frameAddr / 0x1000 < NFRAMES
      modifies frames
      ensures InUseSet() == old(InUseSet()) - {frameAddr / 0x1000}
    {
      hide Without, Offset, InUse;
      var frame := frameAddr / 0x1000;
      SetBitUses(frames[..], frame);
      var idx := frame / 32;
      ghost var was := frames[..];
      frames[idx] := Without(frames[idx], Offset(frame));
      assert frames[..] == was[idx := Without(was[idx], Offset(frame))];
    }

    /** first_frame: the search by words and then by bits finds the least frame not in use. */
    method FirstFrame() returns (frame: nat)
      requires Valid()
      ensures frame == LeastFree(InUseSet(), 0)
    {
      var i := 0;
      while i < WORDS
        invariant i <= WORDS
        invariant forall f: nat :: f < 32 * i ==> f in InUseSet()
      {
        if frames[i] != 0xFFFF_FFFF {
          var j := 0;
          while j < 32
            invariant j <= 32
            invariant forall f: nat :: f < 32 * i + j ==> f in InUseSet()
          {
            var candidate := 32 * i + j;
            assert candidate / 32 == i && candidate % 32 == j && candidate < NFRAMES;
            if !BitOf(frames[i], Offset(candidate)) {
              LeastFreeIsLeast(InUseSet(), 0);
              assert candidate !in InUseSet();
              return candidate;
            }
            j := j + 1;
          }
        } else {
          forall f: nat | 32 * i <= f < 32 * i + 32 ensures f in InUseSet() {
            assert f / 32 == i;
            ExtremeBits(Offset(f));
          }
        }
        i := i + 1;
      }
      LeastFreeIsLeast(InUseSet(), 0);
      return 0;
    }
  }
}
