/** move_stack of src/impl/task.c: relocate a live stack and rebase the pointers into it. */
module MoveStack {
  import opened Bytes

  /** The stack between esp and initial_esp (`base`), about to be moved below newStart. The
      two regions are apart, all addresses are word-aligned, and less than `size` bytes are
      in use. */
  ghost predicate Movable(m: Mem, esp: nat, base: nat, newStart: nat, size: nat) {
    && |m| <= WORD_LIMIT && newStart + 4 <= |m| && base <= |m| && size <= newStart
    && esp % 4 == 0 && base % 4 == 0 && newStart % 4 == 0 && size % 4 == 0
    && esp <= base && base - esp < size
    && (base <= newStart - size || newStart + 4 <= esp)
  }

  /** The offset by which addresses move (a uint32_t). */
  function Shift(base: nat, newStart: nat): nat {
    (newStart - base) % 0x1_0000_0000
  }

  /** A word as it is found in the new stack. */
  function Rebased(w: nat, esp: nat, base: nat, newStart: nat): nat {
    if esp < w < base then (w + Shift(base, newStart)) % 0x1_0000_0000 else w
  }

  /** The word that the scan finds at a in the new region: one of the stack, from its new stack
      pointer up, or what was there before. */
  ghost function WordFor(m: Mem, a: nat, esp: nat, base: nat, newStart: nat, size: nat): nat
    requires Movable(m, esp, base, newStart, size) && newStart - size < a <= newStart && a % 4 == 0
  {
    if newStart - (base - esp) <= a < newStart then
      FourApart(newStart, a);
      WordAt(m, a - newStart + base)
    else WordAt(m, a)
  }

  /** m' is m after the stack has been moved: the words from the new stack pointer up are the
      words of the old stack, rebased; what the new region held elsewhere is rebased where it is;
      everything outside the new region is as it was. */
  ghost predicate Moved(m: Mem, m': Mem, esp: nat, base: nat, newStart: nat, size: nat)
    requires Movable(m, esp, base, newStart, size)
  {
    && |m'| == |m|
    && (forall a {:trigger WordAt(m', a)} :: newStart - size < a <= newStart && a % 4 == 0 ==>
          WordAt(m', a) == Rebased(WordFor(m, a, esp, base, newStart, size), esp, base, newStart))
    && SameOutside(m, m', newStart - size + 4, newStart + 4)
  }

  /** A pointer into the stack keeps its distance to the base; every other word stays as it is. */
  lemma RebasedMoves(w: nat, esp: nat, base: nat, newStart: nat, size: nat, m: Mem)
    requires Movable(m, esp, base, newStart, size)
    ensures Rebased(w, esp, base, newStart) == if esp < w < base then newStart - (base - w) else w
    ensures esp < w < base ==> newStart - (base - esp) < Rebased(w, esp, base, newStart) < newStart
  {
    hide Shift;
    if esp < w < base {
      RegisterMoves(w, base, newStart);
    }
  }

  // ---- The chain of saved frame pointers ----

  /** The frame pointer d levels up from ebp: each frame starts with its caller's. */
  ghost function Caller(m: Mem, ebp: nat, d: nat): nat {
    if d == 0 then ebp
    else
      var e := Caller(m, ebp, d - 1);
      if e + 4 <= |m| then WordAt(m, e) else 0
  }

  /** The frames of the first d levels lie in the stack. */
  ghost predicate FramesInStack(m: Mem, ebp: nat, esp: nat, base: nat, d: nat) {
    d == 0 ||
      (FramesInStack(m, ebp, esp, base, d - 1) &&
       esp < Caller(m, ebp, d - 1) && Caller(m, ebp, d - 1) + 4 <= base && Caller(m, ebp, d - 1) % 4 == 0)
  }

  /** The chain that starts at the moved base pointer is the old chain, as deep as that stays
      in the stack: every frame pointer is the old one, moved if it points into the stack. */
  lemma {:induction false} ChainMoves(m: Mem, m': Mem, esp: nat, base: nat, newStart: nat, size: nat, ebp: nat, d: nat)
    requires Movable(m, esp, base, newStart, size) && Moved(m, m', esp, base, newStart, size)
    requires FramesInStack(m, ebp, esp, base, d)
    ensures Caller(m', Rebased(ebp, esp, base, newStart), d) == Rebased(Caller(m, ebp, d), esp, base, newStart)
  {
    hide WordAt, Rebased, SameOutside;
    if d > 0 {
      ChainMoves(m, m', esp, base, newStart, size, ebp, d - 1);
      var e := Caller(m, ebp, d - 1);
      RebasedMoves(e, esp, base, newStart, size, m);
      FrameWord(m, m', esp, base, newStart, size, base - e);
    }
  }

  lemma FrameWord(m: Mem, m': Mem, esp: nat, base: nat, newStart: nat, size: nat, k: nat)
    requires Movable(m, esp, base, newStart, size) && Moved(m, m', esp, base, newStart, size)
    requires 4 <= k < base - esp && (base - k) % 4 == 0
    ensures WordAt(m', newStart - k) == Rebased(WordAt(m, base - k), esp, base, newStart)
  {
    hide WordAt, Rebased, SameOutside;
    WordsApart(base, k);
    assert (newStart - k) % 4 == 0;
  }

  lemma WordsApart(base: nat, k: nat)
    requires base % 4 == 0 && k <= base && (base - k) % 4 == 0
    ensures k % 4 == 0
  {
  }

  // ---- The code ----

  /** The loop of move_stack: rebase every word of the new region, from its top down. */
  method Rebase(mem: array<byte>, esp: nat, base: nat, newStart: nat, size: nat)
    requires newStart + 4 <= mem.Length <= WORD_LIMIT && size <= newStart && newStart % 4 == 0 && size % 4 == 0
    modifies mem
    ensures Scanned(old(mem[..]), mem[..], newStart - size, esp, base, newStart)
  {
    hide WordAt, PutWord, Scanned, Rebased;
    var offset := (newStart - base) % 0x1_0000_0000;
    var i := newStart;
    ScanStart(mem[..], newStart, esp, base);
    while i > newStart - size
      invariant newStart - size <= i <= newStart && i % 4 == 0
      invariant Scanned(old(mem[..]), mem[..], i, esp, base, newStart)
      decreases i
    {
      NextWord(i, newStart, size);
      var tmp := LoadWord(mem, i);
      RebasedIs(tmp, esp, base, newStart);
      ghost var before := mem[..];
      if esp < tmp && tmp < base {
        tmp := (tmp + offset) % 0x1_0000_0000;
        StoreWord(mem, i, tmp);
      }
      ScanStep(old(mem[..]), before, mem[..], i, esp, base, newStart);
      i := i - 4;
    }
  }

  /** move_stack, once the pages of the new stack are mapped: the registers afterwards. */
  method Move(mem: array<byte>, esp: nat, ebp: nat, base: nat, newStart: nat, size: nat)
    returns (newEsp: nat, newEbp: nat)
    requires Movable(mem[..], esp, base, newStart, size) && esp <= ebp <= base
    modifies mem
    ensures Moved(old(mem[..]), mem[..], esp, base, newStart, size)
    ensures newEsp == newStart - (base - esp) && newEbp == newStart - (base - ebp)
  {
    hide Moved, Copied, Scanned;
    var offset := (newStart - base) % 0x1_0000_0000;
    newEsp := (esp + offset) % 0x1_0000_0000;
    newEbp := (ebp + offset) % 0x1_0000_0000;
    RegisterMoves(esp, base, newStart);
    RegisterMoves(ebp, base, newStart);
    ghost var m := mem[..];
    MemCpy(mem, newEsp, esp, base - esp);
    ghost var c := mem[..];
    Rebase(mem, esp, base, newStart, size);
    ScannedMoved(m, c, mem[..], esp, base, newStart, size);
  }

  lemma RegisterMoves(r: nat, base: nat, newStart: nat)
    requires r <= base <= WORD_LIMIT && newStart < WORD_LIMIT && base - r <= newStart
    ensures (r + Shift(base, newStart)) % 0x1_0000_0000 == newStart - (base - r)
  {
  }

  /** The words above i, up to newStart, are rebased, and nothing else differs from c. */
  ghost predicate Scanned(c: Mem, m: Mem, i: nat, esp: nat, base: nat, newStart: nat) {
    && |m| == |c| && newStart + 4 <= |c|
    && (forall a {:trigger WordAt(m, a)} :: i < a <= newStart && a % 4 == 0 ==>
          WordAt(m, a) == Rebased(WordAt(c, a), esp, base, newStart))
    && SameOutside(c, m, i + 4, newStart + 4)
  }

  lemma ScanStart(m: Mem, newStart: nat, esp: nat, base: nat)
    requires newStart + 4 <= |m|
    ensures Scanned(m, m, newStart, esp, base, newStart)
  {
  }

  lemma NextWord(i: nat, newStart: nat, size: nat)
    requires size <= newStart && i % 4 == 0 && newStart % 4 == 0 && size % 4 == 0 && newStart - size < i
    ensures newStart - size <= i - 4 && (i - 4) % 4 == 0
  {
    FourApart(i, newStart - size);
  }

  lemma FourApart(i: nat, b: nat)
    requires i % 4 == 0 && b % 4 == 0 && b < i
    ensures b + 4 <= i
  {
  }

  lemma RebasedIs(w: nat, esp: nat, base: nat, newStart: nat)
    ensures Rebased(w, esp, base, newStart) ==
      if esp < w < base then (w + (newStart - base) % 0x1_0000_0000) % 0x1_0000_0000 else w
  {
  }

  lemma ScanStep(c: Mem, before: Mem, after: Mem, i: nat, esp: nat, base: nat, newStart: nat)
    requires 4 <= i <= newStart && i % 4 == 0 && newStart % 4 == 0 && Scanned(c, before, i, esp, base, newStart)
    requires var w := WordAt(before, i);
      after == if esp < w < base then PutWord(before, i, Rebased(w, esp, base, newStart)) else before
    ensures Scanned(c, after, i - 4, esp, base, newStart)
  {
    hide WordAt, PutWord, Rebased;
    WordFrame(c, before, i);
    forall a: nat | i - 4 < a <= newStart && a % 4 == 0
      ensures WordAt(after, a) == Rebased(WordAt(c, a), esp, base, newStart)
    {
      if a != i {
        OtherWord(before, after, i, a);
      } else {
        RebasedIs(WordAt(before, i), esp, base, newStart);
      }
    }
  }

  lemma OtherWord(m: Mem, r: Mem, i: nat, a: nat)
    requires i % 4 == 0 && a % 4 == 0 && i < a && a + 4 <= |m| && SameOutside(m, r, i, i + 4)
    ensures WordAt(r, a) == WordAt(m, a)
  {
    FourApart(a, i);
  }

  lemma ScannedMoved(m: Mem, c: Mem, m': Mem, esp: nat, base: nat, newStart: nat, size: nat)
    requires Movable(m, esp, base, newStart, size) && c == Copied(m, newStart - (base - esp), esp, base - esp)
    requires Scanned(c, m', newStart - size, esp, base, newStart)
    ensures Moved(m, m', esp, base, newStart, size)
  {
    hide WordAt, Rebased, Scanned;
    ScannedOutside(m, c, m', esp, base, newStart, size);
    forall a: nat | newStart - size < a <= newStart && a % 4 == 0
      ensures WordAt(m', a) == Rebased(WordFor(m, a, esp, base, newStart, size), esp, base, newStart)
    {
      if newStart - (base - esp) <= a < newStart {
        FourApart(newStart, a);
        ScannedWord(m, c, m', esp, base, newStart, size, newStart - a);
      } else {
        ScannedElsewhere(m, c, m', esp, base, newStart, size, a);
      }
    }
  }

  lemma ScannedElsewhere(m: Mem, c: Mem, m': Mem, esp: nat, base: nat, newStart: nat, size: nat, a: nat)
    requires Movable(m, esp, base, newStart, size) && c == Copied(m, newStart - (base - esp), esp, base - esp)
    requires Scanned(c, m', newStart - size, esp, base, newStart) && newStart - size < a <= newStart && a % 4 == 0
    requires !(newStart - (base - esp) <= a < newStart)
    ensures WordAt(m', a) == Rebased(WordAt(m, a), esp, base, newStart)
  {
    hide WordAt, Rebased, SameOutside;
    if a < newStart - (base - esp) {
      StackAligned(esp, base, newStart);
      FourApart(newStart - (base - esp), a);
    }
    SameWord(m, c, a);
    assert WordAt(m', a) == Rebased(WordAt(c, a), esp, base, newStart);
  }

  lemma StackAligned(esp: nat, base: nat, newStart: nat)
    requires esp % 4 == 0 && base % 4 == 0 && newStart % 4 == 0 && esp <= base && base - esp <= newStart
    ensures (newStart - (base - esp)) % 4 == 0
  {
  }

  lemma SameWord(m: Mem, c: Mem, a: nat)
    requires a + 4 <= |m| == |c| && forall i :: a <= i < a + 4 ==> c[i] == m[i]
    ensures WordAt(c, a) == WordAt(m, a)
  {
  }

  lemma ScannedWord(m: Mem, c: Mem, m': Mem, esp: nat, base: nat, newStart: nat, size: nat, k: nat)
    requires Movable(m, esp, base, newStart, size) && c == Copied(m, newStart - (base - esp), esp, base - esp)
    requires Scanned(c, m', newStart - size, esp, base, newStart) && 4 <= k <= base - esp
    requires (newStart - k) % 4 == 0
    ensures WordAt(m', newStart - k) == Rebased(WordAt(m, base - k), esp, base, newStart)
  {
    hide WordAt, Rebased, SameOutside;
    CopiedWord(m, newStart - (base - esp), esp, base - esp, base - esp - k);
    assert WordAt(m', newStart - k) == Rebased(WordAt(c, newStart - k), esp, base, newStart);
  }

  lemma ScannedOutside(m: Mem, c: Mem, m': Mem, esp: nat, base: nat, newStart: nat, size: nat)
    requires Movable(m, esp, base, newStart, size) && c == Copied(m, newStart - (base - esp), esp, base - esp)
    requires Scanned(c, m', newStart - size, esp, base, newStart)
    ensures SameOutside(m, m', newStart - size + 4, newStart + 4)
  {
    hide WordAt, Rebased;
    assert base - esp <= size - 4;
  }

  lemma CopiedWord(m: Mem, to: nat, from: nat, n: nat, x: nat)
    requires to + n <= |m| && from + n <= |m| && x + 4 <= n
    ensures WordAt(Copied(m, to, from, n), to + x) == WordAt(m, from + x)
  {
  }
}
