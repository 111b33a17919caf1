/** What the kernel heap of src/impl/kheap.c looks like in memory: headers, footers,
    the regions they describe and the index of holes. */
module HeapModel {
  import opened Bytes
  import opened OrderedArrays

  const HEAP_MAGIC: nat := 0x123890AB
  const HEAP_MIN_SIZE: nat := 0x70000
  const HEADER: nat := 12 // sizeof(header_t)
  const FOOTER: nat := 8 // sizeof(footer_t)
  const MIN_REGION: nat := HEADER + FOOTER
  const PAGE: nat := 0x1000

  /** The memory and the fields of a heap_t. */
  datatype Heap = Heap(mem: Mem, index: seq<nat>, start: nat, end: nat, max: nat)

  /** A stretch of the heap with a header at its first byte and a footer in its last eight. */
  datatype Region = Region(size: nat, hole: bool)

  /** The regions of a heap, by the address of their header. */
  type Regions = map<nat, Region>

  ghost predicate HeaderAt(m: Mem, a: nat, hole: bool, size: nat) {
    a + HEADER <= |m| && WordAt(m, a) == HEAP_MAGIC && m[a + 4] == Flag(hole) && WordAt(m, a + 8) == size
  }

  ghost predicate FooterAt(m: Mem, f: nat, header: nat) {
    f + FOOTER <= |m| && WordAt(m, f) == HEAP_MAGIC && WordAt(m, f + 4) == header
  }

  function Flag(hole: bool): byte {
    if hole then 1 else 0
  }

  /** The size field of the header at a. */
  function SizeOf(m: Mem, a: nat): nat {
    if a + HEADER <= |m| then WordAt(m, a + 8) else 0
  }

  function PutHeader(m: Mem, a: nat, hole: bool, size: nat): (r: Mem)
    requires a + HEADER <= |m| && size < WORD_LIMIT
    ensures SameOutside(m, r, a, a + HEADER) && HeaderAt(r, a, hole, size)
  {
    PutWord(PutByte(PutWord(m, a, HEAP_MAGIC), a + 4, Flag(hole)), a + 8, size)
  }

  function PutFooter(m: Mem, f: nat, header: nat): (r: Mem)
    requires f + FOOTER <= |m| && header < WORD_LIMIT
    ensures SameOutside(m, r, f, f + FOOTER) && FooterAt(r, f, header)
  {
    PutWord(PutWord(m, f, HEAP_MAGIC), f + 4, header)
  }

  /** header_t_less_than over the memory m. */
  function BySize(m: Mem): Order {
    (a: nat, b: nat) => SizeOf(m, a) < SizeOf(m, b)
  }

  /** The address just past the region at a. */
  ghost function Next(R: Regions, a: nat): nat
    requires a in R
  {
    a + R[a].size
  }

  /** The regions follow each other from start to end without gap or overlap. */
  ghost predicate Tiled(R: Regions, start: nat, end: nat) {
    && start in R
    && (forall a :: a in R ==> start <= a && MIN_REGION <= R[a].size && a + R[a].size <= end)
    && (forall a {:trigger Next(R, a)} :: a in R ==> Next(R, a) == end || Next(R, a) in R)
    && (forall a, b :: a in R && b in R && a < b ==> a + R[a].size <= b)
  }

  /** A header address x that a footer of the region of the given size at a may carry. */
  ghost predicate PointsInside(a: nat, size: nat, x: nat) {
    x == a || (a + HEADER <= x && x + MIN_REGION <= a + size)
  }

  /** The tags of one region. The footer of a block is intact. The footer of a hole may be
      damaged, but when its magic is valid it leads to an address inside that hole. */
  ghost predicate RegionTags(m: Mem, a: nat, r: Region) {
    && MIN_REGION <= r.size && a + r.size <= |m|
    && HeaderAt(m, a, r.hole, r.size)
    && (!r.hole ==> FooterAt(m, a + r.size - FOOTER, a))
    && (WordAt(m, a + r.size - FOOTER) == HEAP_MAGIC ==>
          PointsInside(a, r.size, WordAt(m, a + r.size - 4)))
  }

  ghost predicate Tagged(m: Mem, R: Regions) {
    forall a :: a in R ==> RegionTags(m, a, R[a])
  }

  /** The index lists holes, none of them twice. */
  ghost predicate IndexHoles(index: seq<nat>, R: Regions) {
    Distinct(index) && forall x :: x in index ==> x in R && R[x].hole
  }

  /** Every hole is in the index. */
  ghost predicate IndexComplete(index: seq<nat>, R: Regions) {
    forall a :: a in R && R[a].hole ==> a in index
  }

  /** Every hole's footer is intact as well. */
  ghost predicate FootersIntact(m: Mem, R: Regions) {
    forall a :: a in R ==> MIN_REGION <= R[a].size && FooterAt(m, a + R[a].size - FOOTER, a)
  }

  ghost predicate NoAdjacentHoles(R: Regions) {
    forall a {:trigger Next(R, a)} :: a in R && R[a].hole && Next(R, a) in R ==> !R[Next(R, a)].hole
  }

  /** No block has an empty payload. */
  ghost predicate NoEmptyBlocks(R: Regions) {
    forall a :: a in R && !R[a].hole ==> MIN_REGION < R[a].size
  }

  ghost predicate WellPlaced(s: Heap) {
    && PAGE <= s.start < s.end <= s.max
    && s.start % 0x1000 == 0 && s.end % 0x1000 == 0
    && s.max - s.start < 0x8000_0000
    && s.max + 2 * MIN_REGION <= |s.mem| <= WORD_LIMIT
    && WordAt(s.mem, s.start - FOOTER) != HEAP_MAGIC
  }

  /** Regions tile the heap, their tags describe them, and the index lists holes. */
  ghost predicate Sound(s: Heap, R: Regions) {
    WellPlaced(s) && Tiled(R, s.start, s.end) && Tagged(s.mem, R) && IndexHoles(s.index, R)
  }

  /** The region at h is a block. */
  ghost predicate Live(R: Regions, h: nat) {
    h in R && !R[h].hole
  }

  /** A hole that the index has lost, and whose footer no longer passes for one. */
  ghost predicate Lost(m: Mem, R: Regions, index: seq<nat>, e: nat) {
    && e in R && R[e].hole && e !in index
    && FOOTER <= Next(R, e) <= |m| && WordAt(m, Next(R, e) - FOOTER) != HEAP_MAGIC
  }

  /** If the footer of the hole at a leads to an address x in its interior, the size found at x
      still reaches to the end of the hole, unless the region behind is lost. */
  ghost predicate TracedAt(m: Mem, R: Regions, index: seq<nat>, a: nat)
    requires a in R
  {
    R[a].hole && FOOTER <= Next(R, a) <= |m| && WordAt(m, Next(R, a) - FOOTER) == HEAP_MAGIC ==>
      var x := WordAt(m, Next(R, a) - 4);
      x == a || x + SizeOf(m, x) == Next(R, a) || Lost(m, R, index, Next(R, a))
  }

  ghost predicate Traced(s: Heap, R: Regions) {
    forall a :: a in R ==> TracedAt(s.mem, R, s.index, a)
  }

  /** What every operation keeps. */
  ghost predicate Consistent(s: Heap, R: Regions) {
    Sound(s, R) && Traced(s, R)
  }

  /** Every region of R but the one at h is a region of R' as well. */
  ghost predicate OthersKept(R: Regions, h: nat, R': Regions) {
    forall a :: a in R && a != h ==> a in R' && R'[a] == R[a]
  }

  /** A region's tags depend on the region's own bytes alone. */
  lemma HeaderFrame(m: Mem, r: Mem, a: nat, hole: bool, size: nat)
    requires HeaderAt(m, a, hole, size) && SameInside(m, r, a, a + HEADER)
    ensures HeaderAt(r, a, hole, size)
  {
  }

  lemma FooterFrame(m: Mem, r: Mem, f: nat, header: nat)
    requires FooterAt(m, f, header) && SameInside(m, r, f, f + FOOTER)
    ensures FooterAt(r, f, header)
  {
  }

  lemma RegionTagsFrame(m: Mem, r: Mem, a: nat, g: Region)
    requires RegionTags(m, a, g) && SameInside(m, r, a, a + g.size)
    ensures RegionTags(r, a, g)
  {
  }

  /** A region is traced as before if neither its own bytes nor a lost region behind it change. */
  lemma TracedFrame(m: Mem, R: Regions, index: seq<nat>, m': Mem, R': Regions, index': seq<nat>, a: nat)
    requires a in R && RegionTags(m, a, R[a]) && TracedAt(m, R, index, a)
    requires a in R' && R'[a] == R[a] && SameInside(m, m', a, Next(R, a))
    requires Lost(m, R, index, Next(R, a)) ==> Lost(m', R', index', Next(R, a))
    ensures TracedAt(m', R', index', a)
  {
    hide WordAt, Lost;
    var f := Next(R, a) - FOOTER;
    WordFrame(m, m', f);
    WordFrame(m, m', f + 4);
    if R[a].hole && WordAt(m, f) == HEAP_MAGIC && WordAt(m, f + 4) != a {
      WordFrame(m, m', WordAt(m, f + 4) + 8);
    }
  }

  lemma LostFrame(m: Mem, R: Regions, index: seq<nat>, m': Mem, R': Regions, index': seq<nat>, e: nat)
    requires Lost(m, R, index, e) && e !in index' && e in R' && R'[e] == R[e]
    requires e + MIN_REGION <= Next(R, e) && SameInside(m, m', e, Next(R, e))
    ensures Lost(m', R', index', e)
  {
    hide WordAt;
    WordFrame(m, m', Next(R, e) - FOOTER);
  }

  /** A hole whose footer is spoilt or its own. */
  lemma OwnTrace(m: Mem, R: Regions, index: seq<nat>, t: nat)
    requires t in R && FOOTER <= Next(R, t) <= |m|
    requires WordAt(m, Next(R, t) - FOOTER) != HEAP_MAGIC || WordAt(m, Next(R, t) - 4) == t
    ensures TracedAt(m, R, index, t)
  {
    hide WordAt, Lost;
  }

  lemma TagsAt(m: Mem, R: Regions, a: nat)
    requires Tagged(m, R) && a in R
    ensures RegionTags(m, a, R[a])
  {
  }

  lemma RegionBounds(R: Regions, start: nat, end: nat, a: nat)
    requires Tiled(R, start, end) && a in R
    ensures start <= a && MIN_REGION <= R[a].size && a + R[a].size <= end
  {
  }

  lemma Apart(R: Regions, start: nat, end: nat, a: nat, b: nat)
    requires Tiled(R, start, end) && a in R && b in R && a != b
    ensures Next(R, a) <= b || Next(R, b) <= a
  {
  }

  lemma NextIsBehind(R: Regions, start: nat, end: nat, h: nat)
    requires Tiled(R, start, end) && h in R
    ensures h + MIN_REGION <= Next(R, h) && (Next(R, h) in R ==> Next(R, h) < Next(R, Next(R, h)))
  {
  }

  lemma EndOrRegion(R: Regions, start: nat, end: nat, h: nat)
    requires Tiled(R, start, end) && h in R
    ensures Next(R, h) == end || Next(R, h) in R
  {
  }

  lemma TiledIf(R: Regions, start: nat, end: nat)
    requires start in R
    requires forall a :: a in R ==>
      start <= a && MIN_REGION <= R[a].size && Next(R, a) <= end && (Next(R, a) == end || Next(R, a) in R)
    requires forall a, b :: a in R && b in R && a < b ==> Next(R, a) <= b
    ensures Tiled(R, start, end)
  {
  }

  lemma OutsideTags(m: Mem, r: Mem, a: nat, g: Region, lo: nat, hi: nat)
    requires RegionTags(m, a, g) && SameOutside(m, r, lo, hi) && (a + g.size <= lo || hi <= a)
    ensures RegionTags(r, a, g)
  {
    hide RegionTags;
    assert SameInside(m, r, a, a + g.size);
    RegionTagsFrame(m, r, a, g);
  }

  /** Stores within one region leave the tags of every other alone. */
  lemma OtherTags(m: Mem, r: Mem, R: Regions, start: nat, end: nat, h: nat, a: nat)
    requires Tiled(R, start, end) && h in R && a in R && a != h && RegionTags(m, a, R[a])
    requires SameOutside(m, r, h, Next(R, h))
    ensures RegionTags(r, a, R[a])
  {
    hide RegionTags;
    Apart(R, start, end, a, h);
    assert SameInside(m, r, a, a + R[a].size);
    RegionTagsFrame(m, r, a, R[a]);
  }

  /** The heap that create_heap leaves: one hole, whose footer is yet to be written. */
  lemma FreshHeapSound(m: Mem, start: nat, end: nat, max: nat)
    requires PAGE <= start < end <= max && start % 0x1000 == 0 && end % 0x1000 == 0
    requires max - start < 0x8000_0000 && max + 2 * MIN_REGION <= |m| <= WORD_LIMIT
    requires WordAt(m, start - FOOTER) != HEAP_MAGIC && WordAt(m, end - FOOTER) != HEAP_MAGIC
    ensures Consistent(Heap(PutHeader(m, start, true, end - start), [start], start, end, max),
                       map[start := Region(end - start, true)])
  {
    hide WordAt, PutHeader;
    var r := PutHeader(m, start, true, end - start);
    WordFrame(m, r, start - FOOTER);
    WordFrame(m, r, end - FOOTER);
  }

  /** In a tiling every region but the first has a left neighbour. */
  lemma LeftNeighbour(R: Regions, start: nat, end: nat, a: nat) returns (l: nat)
    requires Tiled(R, start, end) && a in R && a != start
    ensures l in R && Next(R, l) == a && l < a
  {
    l := start;
    while Next(R, l) != a
      invariant l in R && l < a
      decreases a - l
    {
      l := Next(R, l);
    }
  }

  /** A tiling leaves no byte uncovered. */
  lemma TilingCovers(R: Regions, start: nat, end: nat, x: nat) returns (a: nat)
    requires Tiled(R, start, end) && start <= x < end
    ensures a in R && a <= x < a + R[a].size
  {
    a := start;
    while Next(R, a) <= x
      invariant a in R && a <= x
      decreases x - a
    {
      a := Next(R, a);
    }
  }

  /** A region whose neighbours are kept still starts where it did. */
  lemma StillStarts(R: Regions, start: nat, end: nat, R': Regions, newEnd: nat, h: nat)
    requires Tiled(R, start, end) && Tiled(R', start, newEnd) && OthersKept(R, h, R') && h in R && h < newEnd
    ensures h in R'
  {
    if h != start {
      var l := LeftNeighbour(R, start, end, h);
      assert Next(R', l) == h;
    }
  }
}
