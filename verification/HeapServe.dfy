/** What alloc of src/impl/kheap.c stores once it has chosen a hole, whatever comes of it, and when a
    page-aligned request is served correctly. */
module HeapServe {
  import opened Bytes
  import opened OrderedArrays
  import opened HeapModel
  import opened HeapAlloc

  /** Where the header of the block goes. */
  function BlockAt(h: nat, align: bool): nat {
    if align then h + 0x1000 - h % 0x1000 - 12 else h
  }

  /** A page-aligned block goes to the first page boundary behind the start of the hole, even where
      that leaves no room for a header in front. */
  lemma BlockIsAligned(h: nat)
    requires 0x1000 <= h
    ensures (BlockAt(h, true) + HEADER) % 0x1000 == 0 && h < BlockAt(h, true) + HEADER <= h + 0x1000
    ensures BlockAt(h, false) == h
  {
  }

  lemma ServeInRange(h: nat, room: nat, size: nat, align: bool)
    requires 0x1000 <= h && size + MIN_REGION <= room
    requires align ==> AlignOffset(h) + size + MIN_REGION <= room
    ensures FOOTER <= BlockAt(h, align) && BlockAt(h, align) + Taken(room, size) < h + room + MIN_REGION
    ensures MIN_REGION <= Taken(room, size) <= room
    ensures Prefix(h, align) < WORD_LIMIT
  {
  }

  /** The hole and the request are such that the search can have accepted the hole. */
  ghost predicate Serving(m: Mem, h: nat, room: nat, size: nat, align: bool) {
    && 0x1000 <= h && size + MIN_REGION <= room && h + room + 2 * MIN_REGION <= |m| <= WORD_LIMIT
    && (align ==> AlignOffset(h) + size + MIN_REGION <= room)
  }

  /** m with what a page-aligned request leaves in front of the block: a header at h, and a footer in
      front of the block. For a hole that starts late in its page the two overlap. */
  ghost function FrontMem(m: Mem, h: nat, room: nat, size: nat, align: bool): (r: Mem)
    requires Serving(m, h, room, size, align)
    ensures |r| == |m|
  {
    ServeInRange(h, room, size, align);
    if align then PutFooter(PutHeader(m, h, true, Prefix(h, align)), BlockAt(h, align) - FOOTER, h) else m
  }

  /** How much is left behind the block (a uint32_t): a page-aligned request takes off the size that
      is read back from the header at h, which the footer may have overwritten. */
  ghost function Rest(m: Mem, h: nat, room: nat, size: nat, align: bool): (r: nat)
    requires Serving(m, h, room, size, align)
    ensures r < WORD_LIMIT
  {
    var front := if align then WordAt(FrontMem(m, h, room, size, align), h + 8) else 0;
    (room - front - Taken(room, size)) % 0x1_0000_0000
  }

  /** m with a block of `need` bytes at b and, if `rest` is not 0, a hole behind it. The footer of the
      hole goes where the wrapped sum of its address and size leads, if that is below the end. */
  ghost function BlockMem(m: Mem, b: nat, need: nat, rest: nat, end: nat): (r: Mem)
    requires MIN_REGION <= need && b + need + HEADER <= |m| <= WORD_LIMIT && rest < WORD_LIMIT && end + FOOTER <= |m|
    ensures |r| == |m|
  {
    var m1 := PutFooter(PutHeader(m, b, false, need), b + need - FOOTER, b);
    if rest == 0 then m1
    else
      var m2, f := PutHeader(m1, b + need, true, rest), (b + need + rest - FOOTER) % 0x1_0000_0000;
      if f < end then PutFooter(m2, f, b + need) else m2
  }

  /** The stores of alloc for a hole of `room` bytes at h. */
  ghost function ServedMem(m: Mem, h: nat, room: nat, size: nat, align: bool, end: nat): (r: Mem)
    requires Serving(m, h, room, size, align) && end + FOOTER <= |m|
    ensures |r| == |m|
  {
    ServeInRange(h, room, size, align);
    var rest := Rest(m, h, room, size, align);
    BlockMem(FrontMem(m, h, room, size, align), BlockAt(h, align), Taken(room, size), rest, end)
  }

  lemma ServablePlan(s: Heap, R: Regions, i: nat, size: nat, align: bool)
    requires Servable(s, R, i, size, align)
    ensures var h := s.index[i];
      && h in R && R[h].hole && 0x1000 <= s.start <= h && h + R[h].size <= s.end
      && SizeOf(s.mem, h) == R[h].size < 0x8000_0000
      && size + MIN_REGION <= R[h].size && s.end + FOOTER <= |s.mem|
      && Serving(s.mem, h, R[h].size, size, align)
  {
    hide WordAt;
    var h := s.index[i];
    assert h in R && RegionTags(s.mem, h, R[h]);
  }

  /** The heap after the stores of alloc for index position i. A page-aligned request leaves the hole
      in the index. */
  ghost function Served(s: Heap, R: Regions, i: nat, size: nat, align: bool): Heap
    requires Servable(s, R, i, size, align)
  {
    ServablePlan(s, R, i, size, align);
    var h := s.index[i];
    var m := ServedMem(s.mem, h, R[h].size, size, align, s.end);
    var kept := if align then s.index else Removed(s.index, i);
    s.(mem := m,
       index := if Rest(s.mem, h, R[h].size, size, align) == 0 then kept
                else Inserted(kept, BlockAt(h, align) + Taken(R[h].size, size), BySize(m)))
  }

  /** In a hole that starts early enough in its page the part in front of the block has room for both
      tags, and the pieces add up to the hole. */
  lemma EarlyPieces(m: Mem, h: nat, room: nat, size: nat)
    requires Serving(m, h, room, size, true) && h % 0x1000 <= 0xFE0
    ensures Taken(room, size) == size + MIN_REGION && BlockAt(h, true) == h + Prefix(h, true)
    ensures MIN_REGION <= Prefix(h, true) == AlignOffset(h)
    ensures HeaderAt(FrontMem(m, h, room, size, true), h, true, Prefix(h, true))
    ensures Rest(m, h, room, size, true) == room - Prefix(h, true) - size - MIN_REGION
  {
    hide WordAt, PutHeader, PutFooter, FrontMem;
    EarlyBlock(h, room, size);
    FrontHeader(m, h, room, size);
    var left := room - Prefix(h, true) - size - MIN_REGION;
    assert left % 0x1_0000_0000 == left;
  }

  lemma FrontHeader(m: Mem, h: nat, room: nat, size: nat)
    requires Serving(m, h, room, size, true) && BlockAt(h, true) == h + Prefix(h, true) && MIN_REGION <= Prefix(h, true)
    ensures HeaderAt(FrontMem(m, h, room, size, true), h, true, Prefix(h, true))
  {
    hide WordAt, PutHeader, PutFooter, HeaderAt, FooterAt, Prefix, BlockAt, AlignOffset;
    ServeInRange(h, room, size, true);
    var m1 := PutHeader(m, h, true, Prefix(h, true));
    HeaderFrame(m1, FrontMem(m, h, room, size, true), h, true, Prefix(h, true));
  }

  lemma EarlyBlock(h: nat, room: nat, size: nat)
    requires h % 0x1000 <= 0xFE0 && AlignOffset(h) + size + MIN_REGION <= room
    ensures Taken(room, size) == size + MIN_REGION && BlockAt(h, true) == h + Prefix(h, true)
    ensures MIN_REGION <= Prefix(h, true) == AlignOffset(h)
  {
  }

  lemma UnalignedPieces(m: Mem, h: nat, room: nat, size: nat)
    requires Serving(m, h, room, size, false)
    ensures BlockAt(h, false) == h && Prefix(h, false) == 0 && FrontMem(m, h, room, size, false) == m
    ensures Taken(room, size) <= room && Rest(m, h, room, size, false) == room - Taken(room, size)
  {
  }

  /** Where the pieces add up to the hole, so do the stores. */
  lemma BlockIsSplit(m: Mem, b: nat, room: nat, need: nat, end: nat)
    requires 0 < b && b + room <= end < WORD_LIMIT && end + HEADER <= |m| <= WORD_LIMIT
    requires MIN_REGION <= need <= room && (need == room || need + MIN_REGION <= room)
    ensures BlockMem(m, b, need, room - need, end) == SplitMem(m, b, room, need)
  {
    hide WordAt, PutHeader, PutFooter, HeaderAt, FooterAt;
    var f := b + need + (room - need) - FOOTER;
    assert f % 0x1_0000_0000 == f;
  }

  /** Where the hole can be divided, serving the request is carving it. */
  lemma ServedIsCarved(s: Heap, R: Regions, i: nat, size: nat, align: bool)
    requires Carvable(s, R, i, size, align)
    ensures Served(s, R, i, size, align) == Carve(s, R, i, size, align)
    ensures s.index[i] + Prefix(s.index[i], align) == BlockAt(s.index[i], align)
  {
    hide WordAt, PutHeader, PutFooter, Inserted, Removed, Tiled, Tagged, Fits, IndexHoles, HeaderAt, FooterAt, BySize,
      BlockMem, SplitMem, Rest, Taken, BlockAt, Prefix, AlignOffset, Serving;
    Plan(s, R, i, size, align);
    ServablePlan(s, R, i, size, align);
    var h := s.index[i];
    var room, p := R[h].size, Prefix(h, align);
    if align {
      EarlyPieces(s.mem, h, room, size);
    } else {
      UnalignedPieces(s.mem, h, room, size);
    }
    BlockIsSplit(FrontMem(s.mem, h, room, size, align), h + p, room - p, Taken(room, size), s.end);
  }

  /** The header of the block stays as it was written, whatever becomes of the rest. */
  lemma BlockHeader(m: Mem, h: nat, room: nat, size: nat, end: nat)
    requires Serving(m, h, room, size, true) && h % 0x1000 <= 0xFE0 && h + room <= end && end + FOOTER <= |m|
    ensures HeaderAt(ServedMem(m, h, room, size, true, end), BlockAt(h, true), false, size + MIN_REGION)
  {
    hide WordAt, PutHeader, PutFooter, HeaderAt, FooterAt, FrontMem, BlockMem, Rest, Taken, Prefix, BlockAt,
      AlignOffset;
    EarlyPieces(m, h, room, size);
    ServeInRange(h, room, size, true);
    var rest := Rest(m, h, room, size, true);
    BlockStays(FrontMem(m, h, room, size, true), BlockAt(h, true), size + MIN_REGION, rest, end);
  }

  lemma BlockStays(m: Mem, b: nat, need: nat, rest: nat, end: nat)
    requires MIN_REGION <= need && b + need + HEADER <= |m| <= WORD_LIMIT && end + FOOTER <= |m|
    requires b + need + rest < WORD_LIMIT
    ensures HeaderAt(BlockMem(m, b, need, rest, end), b, false, need)
  {
    hide WordAt, PutHeader, PutFooter, HeaderAt, FooterAt;
    var f := b + need + rest - FOOTER;
    assert f % 0x1_0000_0000 == f;
    var m0 := PutHeader(m, b, false, need);
    HeaderFrame(m0, BlockMem(m, b, need, rest, end), b, false, need);
  }

  /** A page-aligned block overlaps a region that is still there, or lies where the index has a hole. */
  lemma BlockMisplaced(s: Heap, R: Regions, i: nat, size: nat, R': Regions)
    requires Servable(s, R, i, size, true) && 0xFE0 < s.index[i] % 0x1000
    requires OthersKept(R, s.index[i], R') && IndexHoles(Served(s, R, i, size, true).index, R')
    requires Live(R', BlockAt(s.index[i], true))
    ensures !Tiled(R', s.start, s.end)
  {
    hide WordAt, ServedMem, Tagged, Fits, Taken, Rest, Inserted;
    ServablePlan(s, R, i, size, true);
    var h := s.index[i];
    var b := BlockAt(h, true);
    InsertedElements(s.index, b + Taken(R[h].size, size), BySize(Served(s, R, i, size, true).mem));
    if 0xFF4 < h % 0x1000 {
      var l := LeftNeighbour(R, s.start, s.end, h);
      assert l in R' && l < b < l + R'[l].size;
    } else if Tiled(R', s.start, s.end) {
      StillStarts(R, s.start, s.end, R', s.end, h);
    }
  }

  /** What is left behind a page-aligned block is too small for its tags. */
  lemma RestTooSmall(s: Heap, R: Regions, i: nat, size: nat, R': Regions)
    requires Servable(s, R, i, size, true) && s.index[i] % 0x1000 <= 0xFE0
    requires !Divisible(s.index[i], R[s.index[i]].size, size)
    requires OthersKept(R, s.index[i], R') && Tagged(Served(s, R, i, size, true).mem, R')
    requires Live(R', BlockAt(s.index[i], true))
    ensures !Tiled(R', s.start, s.end)
  {
    hide WordAt, ServedMem, Tagged, Fits, Rest, Taken, IndexHoles;
    ServablePlan(s, R, i, size, true);
    var h := s.index[i];
    var b, room := BlockAt(h, true), R[h].size;
    EarlyPieces(s.mem, h, room, size);
    BlockHeader(s.mem, h, room, size, s.end);
    TagsAt(Served(s, R, i, size, true).mem, R', b);
    var x := b + size + MIN_REGION;
    assert x < h + room < x + MIN_REGION;
    EndOrRegion(R, s.start, s.end, h);
    if Tiled(R', s.start, s.end) {
      EndOrRegion(R', s.start, s.end, b);
    }
  }

  /** After a page-aligned request the heap has a sound reading in which the block handed out is
      live and all other regions are still there, if and only if the hole starts at most 0xFE0 bytes
      into its page and nothing or at least two tags' worth is left behind the block. */
  lemma AlignedServesIff(s: Heap, R: Regions, i: nat, size: nat)
    requires Servable(s, R, i, size, true)
    ensures (exists R' :: Sound(Served(s, R, i, size, true), R') && OthersKept(R, s.index[i], R')
                          && Live(R', BlockAt(s.index[i], true))) <==>
      Divisible(s.index[i], R[s.index[i]].size, size)
  {
    hide WordAt, ServedMem, Tagged, Fits, Rest, Taken, IndexHoles, Tiled, Divisible, Prefix, BlockAt, Carve,
      CarveRegions;
    ServablePlan(s, R, i, size, true);
    var h := s.index[i];
    if Divisible(h, R[h].size, size) {
      ServedIsCarved(s, R, i, size, true);
      CarveKeepsSound(s, R, i, size, true);
      CarvedBlock(s, R, i, size, true);
      assert OthersKept(R, h, CarveRegions(s, R, i, size, true));
    } else {
      forall R' | Sound(Served(s, R, i, size, true), R') && OthersKept(R, h, R')
        ensures !Live(R', BlockAt(h, true))
      {
        if Live(R', BlockAt(h, true)) {
          if h % 0x1000 <= 0xFE0 {
            RestTooSmall(s, R, i, size, R');
          } else {
            BlockMisplaced(s, R, i, size, R');
          }
        }
      }
    }
  }
}
