/** Raw memory: bytes, little-endian 32-bit words, and the two byte loops of
    src/impl/memory.c. */
module Bytes {

  type byte = x: int | 0 <= x < 256

  /** The content of a stretch of memory, addressed from 0. */
  type Mem = seq<byte>

  const WORD_LIMIT: nat := 0x1_0000_0000

  /** The word whose bytes, least significant first, are b0, b1, b2 and b3. */
  function Word(b0: nat, b1: nat, b2: nat, b3: nat): nat {
    b0 + 0x100 * b1 + 0x1_0000 * b2 + 0x100_0000 * b3
  }

  /** The 32-bit word stored at address a. */
  function WordAt(m: Mem, a: nat): (w: nat)
    requires a + 4 <= |m|
    ensures w < WORD_LIMIT
  {
    Word(m[a], m[a + 1], m[a + 2], m[a + 3])
  }

  /** m with the word w stored at address a. */
  function PutWord(m: Mem, a: nat, w: nat): (r: Mem)
    requires a + 4 <= |m| && w < WORD_LIMIT
    ensures |r| == |m| && WordAt(r, a) == w
    ensures forall i :: 0 <= i < |m| && !(a <= i < a + 4) ==> r[i] == m[i]
  {
    var q := w / 0x100;
    var s := q / 0x100;
    m[a := w % 0x100][a + 1 := q % 0x100][a + 2 := s % 0x100][a + 3 := s / 0x100]
  }

  /** Words are stored least significant byte first. */
  lemma LittleEndian(m: Mem, a: nat, w: nat)
    requires a + 4 <= |m| && w < WORD_LIMIT
    ensures var r := PutWord(m, a, w);
      && r[a] == w % 256 && r[a + 1] == w / 256 % 256
      && r[a + 2] == w / 65536 % 256 && r[a + 3] == w / 16777216
  {
    var q := w / 0x100;
    assert q / 0x100 == w / 65536;
  }

  /** m with the single byte b stored at address a. */
  function PutByte(m: Mem, a: nat, b: byte): (r: Mem)
    requires a < |m|
  {
    m[a := b]
  }

  /** m with every byte of [lo, hi) zero. */
  function ZeroFill(m: Mem, lo: nat, hi: nat): (r: Mem)
    requires lo <= hi <= |m|
    ensures |r| == |m|
    ensures forall i :: 0 <= i < |m| ==> r[i] == if lo <= i < hi then 0 else m[i]
  {
    m[..lo] + seq(hi - lo, i => 0) + m[hi..]
  }

  /** The two memories agree everywhere outside [lo, hi). */
  ghost predicate SameOutside(m: Mem, r: Mem, lo: nat, hi: nat) {
    |r| == |m| && forall i :: 0 <= i < |m| && !(lo <= i < hi) ==> r[i] == m[i]
  }

  /** The two memories agree on [lo, hi). */
  ghost predicate SameInside(m: Mem, r: Mem, lo: nat, hi: nat) {
    |r| == |m| && forall i :: lo <= i < hi && i < |m| ==> r[i] == m[i]
  }

  lemma WordFrame(m: Mem, r: Mem, a: nat)
    requires a + 4 <= |m| && SameInside(m, r, a, a + 4)
    ensures WordAt(r, a) == WordAt(m, a)
  {
  }

  /** A 32-bit store through a pointer. */
  method StoreWord(mem: array<byte>, a: nat, w: nat)
    requires a + 4 <= mem.Length && w < WORD_LIMIT
    modifies mem
    ensures mem[..] == PutWord(old(mem[..]), a, w)
  {
    var q := w / 0x100;
    var s := q / 0x100;
    mem[a] := w % 0x100;
    mem[a + 1] := q % 0x100;
    mem[a + 2] := s % 0x100;
    mem[a + 3] := s / 0x100;
  }

  /** A 32-bit load through a pointer. */
  method LoadWord(mem: array<byte>, a: nat) returns (w: nat)
    requires a + 4 <= mem.Length
    ensures w == WordAt(mem[..], a)
  {
    w := Word(mem[a], mem[a + 1], mem[a + 2], mem[a + 3]);
  }

  /** m with the n bytes from `from` on copied to `to`. */
  ghost function Copied(m: Mem, to: nat, from: nat, n: nat): (r: Mem)
    requires to + n <= |m| && from + n <= |m|
    ensures |r| == |m|
    ensures forall i :: 0 <= i < |m| ==> r[i] == if to <= i < to + n then m[i - to + from] else m[i]
  {
    seq(|m|, i requires 0 <= i < |m| => if to <= i < to + n then m[i - to + from] else m[i])
  }

  /** memcpy within one memory. Copying runs upwards, so the regions may overlap if the
      destination comes first. */
  method MemCpy(mem: array<byte>, dest: nat, src: nat, len: nat)
    requires dest + len <= mem.Length && src + len <= mem.Length
    requires dest <= src || src + len <= dest
    modifies mem
    ensures mem[..] == Copied(old(mem[..]), dest, src, len)
  {
    var k := 0;
    while k < len
      invariant k <= len
      invariant forall i :: 0 <= i < mem.Length ==>
        mem[i] == if dest <= i < dest + k then old(mem[i - dest + src]) else old(mem[i])
    {
      mem[dest + k] := mem[src + k];
      k := k + 1;
    }
  }

  /** memset */
  method MemSet(mem: array<byte>, dest: nat, val: byte, len: nat)
    requires dest + len <= mem.Length
    modifies mem
    ensures forall i :: 0 <= i < mem.Length ==> mem[i] == if dest <= i < dest + len then val else old(mem[i])
  {
    var k := 0;
    while k < len
      invariant k <= len
      invariant forall i :: 0 <= i < mem.Length ==> mem[i] == if dest <= i < dest + k then val else old(mem[i])
    {
      mem[dest + k] := val;
      k := k + 1;
    }
  }
}
