/** alloc of src/impl/kheap.c: choosing a hole, and carving a block out of it. */
module HeapAlloc {
  import opened Bytes
  import opened OrderedArrays
  import opened HeapModel

  /** A uint32_t read as an int32_t. */
  function Signed32(x: nat): int {
    if x < 0x8000_0000 then x else x - WORD_LIMIT
  }

  /** How far a page-aligned payload lies behind the header of a hole at a. */
  function AlignOffset(a: nat): (d: nat)
    ensures 1 <= d <= 0x1000 && (a + 12 + d) % 0x1000 == 0
  {
    0x1000 - (a + 12) % 0x1000
  }

  /** The test find_smallest_hole applies to the hole at a. */
  predicate Fits(m: Mem, a: nat, size: nat, align: bool) {
    if align then Signed32(SizeOf(m, a)) - AlignOffset(a) >= Signed32(size) else SizeOf(m, a) >= size
  }

  /** m after a block of `size` bytes and, if anything is left of the `room` bytes, a hole
      behind it have been written at b. */
  ghost function SplitMem(m: Mem, b: nat, room: nat, size: nat): (r: Mem)
    requires 0 < b && b + room <= |m| <= WORD_LIMIT
    requires MIN_REGION <= size <= room && (size == room || size + MIN_REGION <= room)
    ensures |r| == |m|
  {
    var m1 := PutFooter(PutHeader(m, b, false, size), b + size - FOOTER, b);
    if size == room then m1
    else PutFooter(PutHeader(m1, b + size, true, room - size), b + room - FOOTER, b + size)
  }

  lemma SplitMemTags(m: Mem, b: nat, room: nat, size: nat)
    requires 0 < b && b + room <= |m| <= WORD_LIMIT
    requires MIN_REGION <= size <= room && (size == room || size + MIN_REGION <= room)
    ensures var r := SplitMem(m, b, room, size);
      && SameOutside(m, r, b, b + room)
      && HeaderAt(r, b, false, size) && FooterAt(r, b + size - FOOTER, b)
      && (size < room ==> HeaderAt(r, b + size, true, room - size) && FooterAt(r, b + room - FOOTER, b + size))
  {
    hide WordAt, PutHeader, PutFooter, HeaderAt, FooterAt;
    var m0 := PutHeader(m, b, false, size);
    var m1 := PutFooter(m0, b + size - FOOTER, b);
    HeaderFrame(m0, m1, b, false, size);
    if size < room {
      var m2 := PutHeader(m1, b + size, true, room - size);
      var m3 := PutFooter(m2, b + room - FOOTER, b + size);
      HeaderFrame(m2, m3, b + size, true, room - size);
      HeaderFrame(m1, m3, b, false, size);
      FooterFrame(m1, m3, b + size - FOOTER, b);
    }
  }

  ghost function SplitRegions(R: Regions, b: nat, room: nat, size: nat): Regions
    requires size <= room
  {
    var R1 := R[b := Region(size, false)];
    if size == room then R1 else R1[b + size := Region(room - size, true)]
  }

  /** m after the first `size` bytes of the hole at h have been cut off as a hole of their own. */
  ghost function CutMem(m: Mem, h: nat, size: nat): (r: Mem)
    requires h + size <= |m| <= WORD_LIMIT && MIN_REGION <= size < WORD_LIMIT
    ensures SameOutside(m, r, h, h + size)
    ensures HeaderAt(r, h, true, size) && FooterAt(r, h + size - FOOTER, h)
  {
    PutFooter(PutHeader(m, h, true, size), h + size - FOOTER, h)
  }

  ghost predicate TaggedExcept(m: Mem, R: Regions, b: nat) {
    forall a :: a in R && a != b ==> RegionTags(m, a, R[a])
  }

  lemma DividedNext(R: Regions, start: nat, end: nat, a: nat, front: Region, back: Region, x: nat)
    requires Tiled(R, start, end) && a in R && MIN_REGION <= front.size && MIN_REGION <= back.size
    requires front.size + back.size == R[a].size && x in R[a := front][a + front.size := back]
    ensures var R' := R[a := front][a + front.size := back];
      && start <= x && MIN_REGION <= R'[x].size && Next(R', x) <= end && (Next(R', x) == end || Next(R', x) in R')
  {
    var b := a + front.size;
    var R' := R[a := front][b := back];
    if x == b {
      assert Next(R', x) == Next(R, a);
    } else if x != a {
      assert Next(R', x) == Next(R, x);
    }
  }

  lemma DividedApart(R: Regions, start: nat, end: nat, a: nat, front: Region, back: Region, x: nat, y: nat)
    requires Tiled(R, start, end) && a in R && MIN_REGION <= front.size && MIN_REGION <= back.size
    requires front.size + back.size == R[a].size
    requires var R' := R[a := front][a + front.size := back]; x in R' && y in R' && x < y
    ensures Next(R[a := front][a + front.size := back], x) <= y
  {
    if x == a + front.size {
      assert Next(R, a) <= y;
    } else if x == a {
    } else {
      assert Next(R, x) <= a || Next(R, a) <= x;
    }
  }

  /** Putting two regions in the place of one. */
  lemma DivideTiles(R: Regions, start: nat, end: nat, a: nat, front: Region, back: Region)
    requires Tiled(R, start, end) && a in R && MIN_REGION <= front.size && MIN_REGION <= back.size
    requires front.size + back.size == R[a].size
    ensures Tiled(R[a := front][a + front.size := back], start, end)
  {
    var R' := R[a := front][a + front.size := back];
    assert start in R';
    forall x | x in R'
      ensures start <= x && MIN_REGION <= R'[x].size && Next(R', x) <= end && (Next(R', x) == end || Next(R', x) in R')
    {
      DividedNext(R, start, end, a, front, back, x);
    }
    forall x, y | x in R' && y in R' && x < y ensures Next(R', x) <= y {
      DividedApart(R, start, end, a, front, back, x, y);
    }
    TiledIf(R', start, end);
  }

  /** Giving a region of the tiling another kind. */
  lemma ReplaceTiles(R: Regions, start: nat, end: nat, a: nat, hole: bool)
    requires Tiled(R, start, end) && a in R
    ensures Tiled(R[a := Region(R[a].size, hole)], start, end)
  {
    var R' := R[a := Region(R[a].size, hole)];
    forall x | x in R' ensures Next(R', x) == end || Next(R', x) in R' {
      assert Next(R', x) == Next(R, x);
    }
  }

  lemma SplitTiles(R: Regions, start: nat, end: nat, b: nat, size: nat)
    requires Tiled(R, start, end) && b in R && MIN_REGION <= size
    requires size == R[b].size || size + MIN_REGION <= R[b].size
    ensures Tiled(SplitRegions(R, b, R[b].size, size), start, end)
  {
    hide Tiled;
    if size == R[b].size {
      ReplaceTiles(R, start, end, b, false);
    } else {
      DivideTiles(R, start, end, b, Region(size, false), Region(R[b].size - size, true));
    }
  }

  lemma FreshTagged(m: Mem, a: nat, hole: bool, size: nat)
    requires MIN_REGION <= size && a + size <= |m| && HeaderAt(m, a, hole, size) && FooterAt(m, a + size - FOOTER, a)
    ensures RegionTags(m, a, Region(size, hole))
  {
    hide WordAt;
  }

  lemma SplitTagged(m: Mem, R: Regions, start: nat, end: nat, b: nat, size: nat)
    requires 0 < start && Tiled(R, start, end) && end <= |m| <= WORD_LIMIT && b in R && TaggedExcept(m, R, b)
    requires MIN_REGION <= size && (size == R[b].size || size + MIN_REGION <= R[b].size)
    ensures Tagged(SplitMem(m, b, R[b].size, size), SplitRegions(R, b, R[b].size, size))
  {
    hide WordAt, SplitMem, Tiled, RegionTags, HeaderAt, FooterAt;
    RegionBounds(R, start, end, b);
    SplitMemTags(m, b, R[b].size, size);
    var r := SplitMem(m, b, R[b].size, size);
    var R' := SplitRegions(R, b, R[b].size, size);
    forall a | a in R' ensures RegionTags(r, a, R'[a]) {
      if a == b {
        FreshTagged(r, b, false, size);
      } else if a == b + size && size < R[b].size {
        FreshTagged(r, b + size, true, R[b].size - size);
      } else {
        OtherTags(m, r, R, start, end, b, a);
      }
    }
  }

  lemma CutMemTags(m: Mem, h: nat, size: nat)
    requires h + size <= |m| <= WORD_LIMIT && MIN_REGION <= size && 0 < h
    ensures SameOutside(m, CutMem(m, h, size), h, h + size)
    ensures RegionTags(CutMem(m, h, size), h, Region(size, true))
    ensures FooterAt(CutMem(m, h, size), h + size - FOOTER, h)
  {
    hide WordAt, PutHeader, PutFooter, HeaderAt;
    var m0 := PutHeader(m, h, true, size);
    HeaderFrame(m0, PutFooter(m0, h + size - FOOTER, h), h, true, size);
  }

  // ---- The choice of a hole ----

  /** The first position, from k on, of a hole that fits; |index| when there is none. */
  ghost function FirstFit(m: Mem, index: seq<nat>, size: nat, align: bool, k: nat): (i: nat)
    requires k <= |index|
    ensures k <= i <= |index|
    ensures i < |index| ==> Fits(m, index[i], size, align)
    ensures forall j :: k <= j < i ==> !Fits(m, index[j], size, align)
    decreases |index| - k
  {
    if k == |index| || Fits(m, index[k], size, align) then k else FirstFit(m, index, size, align, k + 1)
  }

  /** On a sorted index the first hole that fits an unaligned request is a smallest one. */
  lemma FirstFitIsBestFit(m: Mem, index: seq<nat>, size: nat, x: nat)
    requires Sorted(index, BySize(m)) && x in index && SizeOf(m, x) >= size
    ensures var i := FirstFit(m, index, size, false, 0);
      i < |index| && size <= SizeOf(m, index[i]) <= SizeOf(m, x)
  {
    var i := FirstFit(m, index, size, false, 0);
    var j :| 0 <= j < |index| && index[j] == x;
    assert Fits(m, index[j], size, false);
    if i < j {
      assert !BySize(m)(index[j], index[i]);
    }
  }

  /** A hole fits a page-aligned request exactly when it holds the bytes up to the first place behind
      its header where the payload starts on a page boundary, and the request from there on. */
  lemma AlignedFitsIff(m: Mem, a: nat, size: nat, d: nat)
    requires 1 <= d <= 0x1000 && (a + HEADER + d) % 0x1000 == 0
    requires size < 0x8000_0000 && SizeOf(m, a) < 0x8000_0000
    ensures Fits(m, a, size, true) <==> d + size <= SizeOf(m, a)
  {
    hide WordAt;
    assert d == AlignOffset(a);
  }

  // ---- Carving a block out of the hole ----

  /** The bytes, header and footer included, that the block takes from a hole of `room` bytes. */
  function Taken(room: nat, size: nat): nat
    requires size + MIN_REGION <= room
  {
    if room - (size + MIN_REGION) < MIN_REGION then room else size + MIN_REGION
  }

  /** The bytes left in front of the block as a hole of their own (a uint32_t). */
  function Prefix(h: nat, align: bool): nat {
    if align then (0x1000 - h % 0x1000 - 12) % 0x1_0000_0000 else 0
  }

  /** The caller's side of a page-aligned carve: the hole starts early enough in its page for
      the part in front of the block to hold two tags, and so does the part behind, if any. */
  predicate Divisible(h: nat, room: nat, size: nat) {
    && h % 0x1000 <= 0xFE0
    && (room == Prefix(h, true) + size + MIN_REGION || room >= Prefix(h, true) + size + 2 * MIN_REGION)
  }

  /** The search has found the hole at index position i for the request. */
  ghost predicate Servable(s: Heap, R: Regions, i: nat, size: nat, align: bool) {
    && Sound(s, R) && i < |s.index|
    && size + MIN_REGION < 0x8000_0000
    && Fits(s.mem, s.index[i], size + MIN_REGION, align)
  }

  /** The request can be carved out of the hole at index position i. */
  ghost predicate Carvable(s: Heap, R: Regions, i: nat, size: nat, align: bool) {
    Servable(s, R, i, size, align) && (align ==> Divisible(s.index[i], R[s.index[i]].size, size))
  }

  /** The hole at h can be cut into p bytes, a block of `taken` bytes, and the rest. */
  ghost predicate Cuttable(R: Regions, h: nat, p: nat, taken: nat) {
    && h in R && R[h].hole
    && (p == 0 || MIN_REGION <= p)
    && MIN_REGION <= taken
    && (p + taken == R[h].size || p + taken + MIN_REGION <= R[h].size)
  }

  ghost function CutRegions(R: Regions, h: nat, p: nat): Regions
    requires h in R && R[h].hole && (p == 0 || MIN_REGION <= p) && p + MIN_REGION <= R[h].size
  {
    if p == 0 then R else R[h := Region(p, true)][h + p := Region(R[h].size - p, true)]
  }

  ghost function CarvedRegions(R: Regions, h: nat, p: nat, taken: nat): Regions
    requires Cuttable(R, h, p, taken)
  {
    SplitRegions(CutRegions(R, h, p), h + p, R[h].size - p, taken)
  }

  ghost function CarvedMem(m: Mem, R: Regions, h: nat, p: nat, taken: nat): (r: Mem)
    requires Cuttable(R, h, p, taken) && 0 < h && h + R[h].size <= |m| <= WORD_LIMIT
  {
    SplitMem(if p == 0 then m else CutMem(m, h, p), h + p, R[h].size - p, taken)
  }

  ghost function CarvedIndex(index: seq<nat>, i: nat, R: Regions, p: nat, taken: nat, less: Order): seq<nat>
    requires i < |index| && Cuttable(R, index[i], p, taken)
  {
    var kept := if p == 0 then Removed(index, i) else index;
    if p + taken < R[index[i]].size then Inserted(kept, index[i] + p + taken, less) else kept
  }

  lemma PrefixAligns(h: nat, room: nat, size: nat)
    requires Divisible(h, room, size)
    ensures MIN_REGION <= Prefix(h, true) < 0x1000 && (h + Prefix(h, true) + HEADER) % 0x1000 == 0
    ensures Prefix(h, true) + size + MIN_REGION <= room && Taken(room, size) == size + MIN_REGION
    ensures Prefix(h, true) + size + MIN_REGION == room || Prefix(h, true) + size + 2 * MIN_REGION <= room
  {
  }

  /** What the branches of alloc amount to, once find_smallest_hole has answered. */
  lemma Plan(s: Heap, R: Regions, i: nat, size: nat, align: bool)
    requires Carvable(s, R, i, size, align)
    ensures s.index[i] in R && s.start <= s.index[i] && s.index[i] + R[s.index[i]].size <= s.end
    ensures size + MIN_REGION <= R[s.index[i]].size == SizeOf(s.mem, s.index[i]) < 0x8000_0000
    ensures Cuttable(R, s.index[i], Prefix(s.index[i], align), Taken(R[s.index[i]].size, size))
    ensures size <= Taken(R[s.index[i]].size, size) - MIN_REGION <= size + 19
    ensures if align then MIN_REGION <= Prefix(s.index[i], align) < 0x1000 else Prefix(s.index[i], align) == 0
    ensures Prefix(s.index[i], align) + size + 2 * MIN_REGION <= R[s.index[i]].size ==>
      Taken(R[s.index[i]].size, size) == size + MIN_REGION
    ensures align ==> (s.index[i] + Prefix(s.index[i], align) + HEADER) % 0x1000 == 0
  {
    hide WordAt, Divisible, Prefix;
    var h := s.index[i];
    assert h in R && RegionTags(s.mem, h, R[h]);
    if align {
      PrefixAligns(h, R[h].size, size);
    } else {
      assert Prefix(h, align) == 0 by { NoPrefix(h); }
    }
  }

  lemma NoPrefix(h: nat)
    ensures Prefix(h, false) == 0
  {
  }

  /** The heap after the request has been served from index position i. */
  ghost function Carve(s: Heap, R: Regions, i: nat, size: nat, align: bool): Heap
    requires Carvable(s, R, i, size, align)
  {
    Plan(s, R, i, size, align);
    var h := s.index[i];
    var p, taken := Prefix(h, align), Taken(R[h].size, size);
    var m := CarvedMem(s.mem, R, h, p, taken);
    s.(mem := m, index := CarvedIndex(s.index, i, R, p, taken, BySize(m)))
  }

  ghost function CarveRegions(s: Heap, R: Regions, i: nat, size: nat, align: bool): Regions
    requires Carvable(s, R, i, size, align)
  {
    Plan(s, R, i, size, align);
    CarvedRegions(R, s.index[i], Prefix(s.index[i], align), Taken(R[s.index[i]].size, size))
  }

  // ---- What carving keeps ----

  lemma CutTiles(R: Regions, start: nat, end: nat, h: nat, p: nat)
    requires Tiled(R, start, end)
    requires h in R && R[h].hole && (p == 0 || MIN_REGION <= p) && p + MIN_REGION <= R[h].size
    ensures Tiled(CutRegions(R, h, p), start, end)
  {
    hide Tiled;
    if p != 0 {
      DivideTiles(R, start, end, h, Region(p, true), Region(R[h].size - p, true));
    }
  }

  lemma CarvedTiles(R: Regions, start: nat, end: nat, h: nat, p: nat, taken: nat)
    requires Tiled(R, start, end) && Cuttable(R, h, p, taken)
    ensures Tiled(CarvedRegions(R, h, p, taken), start, end)
  {
    hide Tiled;
    CutTiles(R, start, end, h, p);
    SplitTiles(CutRegions(R, h, p), start, end, h + p, taken);
  }

  lemma CarvedTags(m: Mem, R: Regions, start: nat, end: nat, h: nat, p: nat, taken: nat)
    requires 0 < start && Tiled(R, start, end) && end <= |m| <= WORD_LIMIT && Tagged(m, R) && Cuttable(R, h, p, taken)
    ensures SameOutside(m, CarvedMem(m, R, h, p, taken), h, h + R[h].size)
    ensures Tagged(CarvedMem(m, R, h, p, taken), CarvedRegions(R, h, p, taken))
  {
    hide WordAt, SplitMem, CutMem, RegionTags, Tiled, SplitRegions, HeaderAt, FooterAt;
    RegionBounds(R, start, end, h);
    var m1 := if p == 0 then m else CutMem(m, h, p);
    if p != 0 {
      CutTagged(m, R, start, end, h, p);
      CutMemTags(m, h, p);
    }
    CutTiles(R, start, end, h, p);
    SplitMemTags(m1, h + p, R[h].size - p, taken);
    SplitTagged(m1, CutRegions(R, h, p), start, end, h + p, taken);
  }

  lemma CutTagged(m: Mem, R: Regions, start: nat, end: nat, h: nat, p: nat)
    requires 0 < start && Tiled(R, start, end) && end <= |m| <= WORD_LIMIT && Tagged(m, R)
    requires h in R && R[h].hole && MIN_REGION <= p && p + MIN_REGION <= R[h].size
    ensures TaggedExcept(CutMem(m, h, p), CutRegions(R, h, p), h + p)
  {
    hide WordAt, CutMem, RegionTags, Tiled, HeaderAt, FooterAt;
    RegionBounds(R, start, end, h);
    CutMemTags(m, h, p);
    var m1, R1 := CutMem(m, h, p), CutRegions(R, h, p);
    forall a | a in R1 && a != h + p ensures RegionTags(m1, a, R1[a]) {
      if a != h {
        OtherTags(m, m1, R, start, end, h, a);
      }
    }
  }

  /** The regions after carving: those before, with the hole at h replaced by up to three. */
  lemma CarvedAt(R: Regions, start: nat, end: nat, h: nat, p: nat, taken: nat, x: nat)
    requires Tiled(R, start, end) && Cuttable(R, h, p, taken)
    ensures h < x < h + R[h].size ==> x !in R
    ensures x in CarvedRegions(R, h, p, taken) <==>
      x == h || x == h + p || (x == h + p + taken && p + taken < R[h].size) || x in R
    ensures CarvedRegions(R, h, p, taken)[h + p] == Region(taken, false)
    ensures p != 0 ==> CarvedRegions(R, h, p, taken)[h] == Region(p, true)
    ensures p + taken < R[h].size ==>
      CarvedRegions(R, h, p, taken)[h + p + taken] == Region(R[h].size - p - taken, true)
    ensures x in R && x != h ==> CarvedRegions(R, h, p, taken)[x] == R[x]
    ensures x in R && x != h ==> x + R[x].size <= h || h + R[h].size <= x
  {
  }

  lemma CarvedIndexHoles(index: seq<nat>, i: nat, R: Regions, start: nat, end: nat, p: nat, taken: nat, less: Order)
    requires Tiled(R, start, end) && IndexHoles(index, R) && i < |index| && Cuttable(R, index[i], p, taken)
    ensures IndexHoles(CarvedIndex(index, i, R, p, taken, less), CarvedRegions(R, index[i], p, taken))
    ensures IndexComplete(index, R) ==>
      IndexComplete(CarvedIndex(index, i, R, p, taken, less), CarvedRegions(R, index[i], p, taken))
  {
    hide Tiled, CarvedRegions, Inserted, Removed;
    var h := index[i];
    var kept := if p == 0 then Removed(index, i) else index;
    var left := h + p + taken;
    RemovedElements(index, i);
    CarvedAt(R, start, end, h, p, taken, left);
    InsertedElements(kept, left, less);
    if p + taken < R[h].size {
      InsertedDistinct(kept, left, less);
    }
    forall x ensures x in CarvedIndex(index, i, R, p, taken, less) ==>
                       x in CarvedRegions(R, h, p, taken) && CarvedRegions(R, h, p, taken)[x].hole
      ensures IndexComplete(index, R) && x in CarvedRegions(R, h, p, taken) && CarvedRegions(R, h, p, taken)[x].hole ==>
                       x in CarvedIndex(index, i, R, p, taken, less)
    {
      CarvedAt(R, start, end, h, p, taken, x);
    }
  }

  /** Serving a request keeps the heap sound: the regions tile, every tag describes its
      region and the index lists holes only, and all of them if it did before. */
  lemma CarveKeepsSound(s: Heap, R: Regions, i: nat, size: nat, align: bool)
    requires Carvable(s, R, i, size, align)
    ensures Sound(Carve(s, R, i, size, align), CarveRegions(s, R, i, size, align))
    ensures IndexComplete(s.index, R) ==>
      IndexComplete(Carve(s, R, i, size, align).index, CarveRegions(s, R, i, size, align))
  {
    hide WordAt, CarvedMem, CarvedRegions, CarvedIndex, Tagged, Fits, Divisible, Prefix, Taken, IndexHoles;
    Plan(s, R, i, size, align);
    var h := s.index[i];
    var p, taken := Prefix(h, align), Taken(R[h].size, size);
    var m := CarvedMem(s.mem, R, h, p, taken);
    CarvedTiles(R, s.start, s.end, h, p, taken);
    CarvedTags(s.mem, R, s.start, s.end, h, p, taken);
    CarvedIndexHoles(s.index, i, R, s.start, s.end, p, taken, BySize(m));
    WordFrame(s.mem, m, s.start - FOOTER);
  }

  lemma CarvedFooters(m: Mem, R: Regions, start: nat, end: nat, h: nat, p: nat, taken: nat)
    requires 0 < start && Tiled(R, start, end) && end <= |m| <= WORD_LIMIT && Tagged(m, R) && Cuttable(R, h, p, taken)
    ensures FootersIntact(m, R) ==> FootersIntact(CarvedMem(m, R, h, p, taken), CarvedRegions(R, h, p, taken))
  {
    hide WordAt, SplitMem, CutMem, RegionTags, FooterAt, CarvedRegions, Tiled;
    RegionBounds(R, start, end, h);
    var r, R' := CarvedMem(m, R, h, p, taken), CarvedRegions(R, h, p, taken);
    CarvedTiles(R, start, end, h, p, taken);
    CarvedTags(m, R, start, end, h, p, taken);
    if p != 0 {
      CutMemTags(m, h, p);
    }
    var m1 := if p == 0 then m else CutMem(m, h, p);
    SplitMemTags(m1, h + p, R[h].size - p, taken);
    if FootersIntact(m, R) {
      forall a | a in R' ensures MIN_REGION <= R'[a].size && FooterAt(r, a + R'[a].size - FOOTER, a) {
        CarvedAt(R, start, end, h, p, taken, a);
        if a == h && p != 0 {
          FooterFrame(m1, r, h + p - FOOTER, h);
        } else if a in R && a != h {
          FooterFrame(m, r, a + R[a].size - FOOTER, a);
        }
      }
    }
  }

  lemma CarvedApart(R: Regions, start: nat, end: nat, h: nat, p: nat, taken: nat)
    requires Tiled(R, start, end) && Cuttable(R, h, p, taken)
    ensures NoAdjacentHoles(R) ==> NoAdjacentHoles(CarvedRegions(R, h, p, taken))
  {
    var R' := CarvedRegions(R, h, p, taken);
    if NoAdjacentHoles(R) {
      forall a | a in R' && R'[a].hole && Next(R', a) in R' ensures !R'[Next(R', a)].hole {
        if a == h + p + taken && p + taken < R[h].size {
          assert Next(R', a) == Next(R, h);
        } else if a != h {
          assert Next(R', a) == Next(R, a);
        }
      }
    }
  }

  /** The block handed out lies inside the hole, at its start or at the first payload on a page boundary
      that leaves room for a hole in front. It has exactly the size asked for if what is left behind
      it can be a hole, and at most 19 bytes more if not. Outside the hole no byte and no region
      changes. */
  lemma CarvedBlock(s: Heap, R: Regions, i: nat, size: nat, align: bool)
    requires Carvable(s, R, i, size, align)
    ensures SameOutside(s.mem, Carve(s, R, i, size, align).mem, s.index[i], s.index[i] + R[s.index[i]].size)
    ensures s.index[i] + Prefix(s.index[i], align) in CarveRegions(s, R, i, size, align)
    ensures CarveRegions(s, R, i, size, align)[s.index[i] + Prefix(s.index[i], align)] ==
      Region(Taken(R[s.index[i]].size, size), false)
    ensures Prefix(s.index[i], align) + Taken(R[s.index[i]].size, size) <= R[s.index[i]].size
    ensures size <= Taken(R[s.index[i]].size, size) - MIN_REGION <= size + 19
    ensures Prefix(s.index[i], align) + size + 2 * MIN_REGION <= R[s.index[i]].size ==>
      Taken(R[s.index[i]].size, size) == size + MIN_REGION
    ensures if align then MIN_REGION <= Prefix(s.index[i], align) < 0x1000 else Prefix(s.index[i], align) == 0
    ensures align ==> (s.index[i] + Prefix(s.index[i], align) + HEADER) % 0x1000 == 0
    ensures forall a :: a in R && a != s.index[i] ==>
      a in CarveRegions(s, R, i, size, align) && CarveRegions(s, R, i, size, align)[a] == R[a]
    ensures forall a :: a in CarveRegions(s, R, i, size, align) && !CarveRegions(s, R, i, size, align)[a].hole ==>
      a == s.index[i] + Prefix(s.index[i], align) || (a in R && !R[a].hole && a != s.index[i])
  {
    hide WordAt, CarvedMem, CarvedIndex, CarvedRegions, Tiled, Tagged, Fits, Divisible, Prefix, Taken, IndexHoles;
    Plan(s, R, i, size, align);
    var h := s.index[i];
    var p, taken := Prefix(h, align), Taken(R[h].size, size);
    CarvedTags(s.mem, R, s.start, s.end, h, p, taken);
    CarvedAt(R, s.start, s.end, h, p, taken, h + p);
    forall a
      ensures a in R && a != h ==> a in CarvedRegions(R, h, p, taken) && CarvedRegions(R, h, p, taken)[a] == R[a]
      ensures a in CarvedRegions(R, h, p, taken) && !CarvedRegions(R, h, p, taken)[a].hole ==>
        a == h + p || (a in R && !R[a].hole && a != h)
    {
      CarvedAt(R, s.start, s.end, h, p, taken, a);
    }
  }

  lemma BySizeIsWeakOrder(m: Mem)
    ensures StrictWeakOrder(BySize(m))
  {
  }

  /** An unaligned request keeps the index sorted, although its keys live in the memory
      the request writes to. */
  lemma CarveKeepsSorted(s: Heap, R: Regions, i: nat, size: nat)
    requires Carvable(s, R, i, size, false) && Sorted(s.index, BySize(s.mem))
    ensures Sorted(Carve(s, R, i, size, false).index, BySize(Carve(s, R, i, size, false).mem))
  {
    hide WordAt, CarvedMem, Fits, Divisible, Taken, Inserted, Removed, Tiled, Tagged, SizeOf, Sorted;
    Plan(s, R, i, size, false);
    var h := s.index[i];
    var taken := Taken(R[h].size, size);
    var m := CarvedMem(s.mem, R, h, 0, taken);
    var kept := Removed(s.index, i);
    RemovedSorted(s.index, i, BySize(s.mem));
    RemovedElements(s.index, i);
    forall x | x in kept ensures SizeOf(m, x) == SizeOf(s.mem, x) {
      KeySurvives(s, R, h, taken, x);
    }
    SortedBySize(kept, s.mem, m);
    BySizeIsWeakOrder(m);
    InsertedSorted(kept, h + taken, BySize(m));
  }

  /** A page-aligned request, too, puts the new hole in its place in an index in order. The hole in
      front of the block keeps its place, whatever its new size. */
  lemma CarveInsertsInOrder(s: Heap, R: Regions, i: nat, size: nat)
    requires Carvable(s, R, i, size, true)
    requires Sorted(s.index, BySize(Carve(s, R, i, size, true).mem))
    ensures Sorted(Carve(s, R, i, size, true).index, BySize(Carve(s, R, i, size, true).mem))
  {
    hide WordAt, CarvedMem, Fits, Divisible, Prefix, Taken, Inserted, Removed, Tiled, Tagged, SizeOf, Sorted;
    Plan(s, R, i, size, true);
    var h := s.index[i];
    var p, taken := Prefix(h, true), Taken(R[h].size, size);
    var m := CarvedMem(s.mem, R, h, p, taken);
    BySizeIsWeakOrder(m);
    InsertedSorted(s.index, h + p + taken, BySize(m));
  }

  /** The size of every other hole is where it was. */
  lemma KeySurvives(s: Heap, R: Regions, h: nat, taken: nat, x: nat)
    requires Sound(s, R) && x in R && x != h && Cuttable(R, h, 0, taken)
    requires 0 < h && h + R[h].size <= |s.mem| <= WORD_LIMIT
    ensures SizeOf(CarvedMem(s.mem, R, h, 0, taken), x) == SizeOf(s.mem, x)
  {
    hide WordAt, CarvedMem, Tiled, RegionTags;
    CarvedTags(s.mem, R, s.start, s.end, h, 0, taken);
    Apart(R, s.start, s.end, x, h);
    RegionBounds(R, s.start, s.end, x);
    WordFrame(s.mem, CarvedMem(s.mem, R, h, 0, taken), x + 8);
  }

  lemma SortedBySize(index: seq<nat>, m: Mem, r: Mem)
    requires Sorted(index, BySize(m)) && forall x :: x in index ==> SizeOf(r, x) == SizeOf(m, x)
    ensures Sorted(index, BySize(r))
  {
    hide SizeOf;
    forall i, j | 0 <= i < j < |index| ensures !BySize(r)(index[j], index[i]) {
      assert !BySize(m)(index[j], index[i]);
      assert index[i] in index && index[j] in index;
    }
  }

  /** When the hole at index position i grows, the index is still in order exactly when the next hole
      is as large. */
  lemma GrownKeySortedIff(index: seq<nat>, m: Mem, r: Mem, i: nat)
    requires Sorted(index, BySize(m)) && i < |index| && SizeOf(m, index[i]) <= SizeOf(r, index[i])
    requires forall j :: 0 <= j < |index| && j != i ==> SizeOf(r, index[j]) == SizeOf(m, index[j])
    ensures Sorted(index, BySize(r)) <==> (i + 1 < |index| ==> SizeOf(r, index[i]) <= SizeOf(m, index[i + 1]))
  {
    hide SizeOf;
    if i + 1 < |index| ==> SizeOf(r, index[i]) <= SizeOf(m, index[i + 1]) {
      forall j, k | 0 <= j < k < |index| ensures !BySize(r)(index[k], index[j]) {
        assert !BySize(m)(index[k], index[j]);
        assert j == i && i + 1 < k ==> !BySize(m)(index[k], index[i + 1]);
      }
    }
    if Sorted(index, BySize(r)) && i + 1 < |index| {
      assert !BySize(r)(index[i + 1], index[i]);
    }
  }

  /** Intact footers stay intact, and no two holes become neighbours. */
  lemma CarveKeepsShape(s: Heap, R: Regions, i: nat, size: nat, align: bool)
    requires Carvable(s, R, i, size, align)
    ensures FootersIntact(s.mem, R) ==>
      FootersIntact(Carve(s, R, i, size, align).mem, CarveRegions(s, R, i, size, align))
    ensures NoAdjacentHoles(R) ==> NoAdjacentHoles(CarveRegions(s, R, i, size, align))
  {
    hide WordAt, CarvedMem, CarvedIndex, Tagged, Fits, Divisible, Prefix, Taken, IndexHoles, FooterAt, SplitMem, CutMem;
    Plan(s, R, i, size, align);
    var h := s.index[i];
    var p, taken := Prefix(h, align), Taken(R[h].size, size);
    CarvedFooters(s.mem, R, s.start, s.end, h, p, taken);
    CarvedApart(R, s.start, s.end, h, p, taken);
  }
}
