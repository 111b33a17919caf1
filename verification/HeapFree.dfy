/** free of src/impl/kheap.c: scrubbing a block, merging it with its neighbours and
    contracting the heap. */
module HeapFree {
  import opened Bytes
  import opened OrderedArrays
  import opened HeapModel
  import opened HeapAlloc
  import opened HeapGrow

  // ---- The stores of free ----

  /** The block at h with its payload scrubbed and its hole flag set. Every step of the scrub
      stores four bytes but advances by one, so the last ones reach into the footer's magic. */
  ghost function ScrubMem(m: Mem, h: nat, size: nat): (r: Mem)
    requires MIN_REGION <= size && h + size <= |m|
    ensures |r| == |m|
  {
    PutByte(ZeroFill(m, h + HEADER, if size == MIN_REGION then h + HEADER else h + size - FOOTER + 3), h + 4, 1)
  }

  /** The word just in front of h passes for a footer that leads to a hole. */
  ghost predicate LeftFound(m: Mem, h: nat)
    requires FOOTER <= h <= |m|
  {
    && WordAt(m, h - FOOTER) == HEAP_MAGIC
    && WordAt(m, h - 4) + HEADER <= |m|
    && m[WordAt(m, h - 4) + 4] == 1
  }

  /** The bytes at n pass for the header of a hole. */
  ghost predicate RightFound(m: Mem, n: nat)
    requires n + HEADER <= |m|
  {
    WordAt(m, n) == HEAP_MAGIC && m[n + 4] != 0
  }

  /** The header at x with `more` added to its size field, as uint32_t arithmetic does. */
  ghost function AddSize(m: Mem, x: nat, more: nat): (r: Mem)
    requires x + HEADER <= |m|
    ensures |r| == |m|
  {
    PutWord(m, x + 8, (SizeOf(m, x) + more) % 0x1_0000_0000)
  }

  /** Where free stands after both merges: the header it works on, the address behind the
      footer it works on, and whether the header has yet to be put into the index. */
  datatype Merge = Merge(mem: Mem, index: seq<nat>, header: nat, tail: nat, add: bool)

  ghost function MergeLeft(m: Mem, index: seq<nat>, h: nat, size: nat): (c: Merge)
    requires FOOTER <= h && MIN_REGION <= size && h + size <= |m| <= WORD_LIMIT
    ensures |c.mem| == |m| && c.header + HEADER <= |m| && c.tail == h + size && c.index == index
  {
    if LeftFound(m, h) then
      var x := WordAt(m, h - 4);
      Merge(AddSize(PutWord(m, h + size - 4, x), x, size), index, x, h + size, false)
    else
      Merge(m, index, h, h + size, true)
  }

  ghost function IndexOf(index: seq<nat>, x: nat): (i: nat)
    requires x in index
    ensures i < |index| && index[i] == x
    ensures forall j :: 0 <= j < i ==> index[j] != x
  {
    if index[0] == x then 0 else 1 + IndexOf(index[1..], x)
  }

  /** The assertion that the right neighbour is in the index fails. */
  ghost predicate Stuck(c: Merge)
    requires c.tail + HEADER <= |c.mem|
  {
    RightFound(c.mem, c.tail) && c.tail !in c.index
  }

  ghost function MergeRight(c: Merge): (d: Merge)
    requires c.tail + HEADER <= |c.mem| && c.header + HEADER <= |c.mem| && !Stuck(c)
    ensures |d.mem| == |c.mem| && d.header == c.header && d.add == c.add
  {
    if RightFound(c.mem, c.tail) then
      var n := SizeOf(c.mem, c.tail);
      Merge(AddSize(c.mem, c.header, n), Removed(c.index, IndexOf(c.index, c.tail)), c.header, c.tail + n, c.add)
    else c
  }

  // ---- The regions ----

  /** The regions with the one behind a swallowed by the one at a. */
  ghost function Absorb(R: Regions, a: nat): Regions
    requires a in R && Next(R, a) in R
  {
    (R - {Next(R, a)})[a := Region(R[a].size + R[Next(R, a)].size, R[a].hole)]
  }

  lemma AbsorbedNext(R: Regions, start: nat, end: nat, a: nat, x: nat)
    requires Tiled(R, start, end) && a in R && Next(R, a) in R && x in Absorb(R, a)
    ensures var R' := Absorb(R, a);
      && start <= x && MIN_REGION <= R'[x].size && Next(R', x) <= end && (Next(R', x) == end || Next(R', x) in R')
  {
    var n := Next(R, a);
    if x == a {
      assert Next(Absorb(R, a), x) == Next(R, n);
    } else {
      assert Next(Absorb(R, a), x) == Next(R, x);
    }
  }

  lemma AbsorbedApart(R: Regions, start: nat, end: nat, a: nat, x: nat, y: nat)
    requires Tiled(R, start, end) && a in R && Next(R, a) in R && x in Absorb(R, a) && y in Absorb(R, a) && x < y
    ensures Next(Absorb(R, a), x) <= y
  {
    if x == a {
      assert Next(R, a) <= y;
      assert Next(R, Next(R, a)) <= y;
    } else {
      assert Next(R, x) <= y;
    }
  }

  lemma AbsorbTiles(R: Regions, start: nat, end: nat, a: nat)
    requires Tiled(R, start, end) && a in R && Next(R, a) in R
    ensures Tiled(Absorb(R, a), start, end)
  {
    var R' := Absorb(R, a);
    assert start in R';
    forall x | x in R'
      ensures start <= x && MIN_REGION <= R'[x].size && Next(R', x) <= end && (Next(R', x) == end || Next(R', x) in R')
    {
      AbsorbedNext(R, start, end, a, x);
    }
    forall x, y | x in R' && y in R' && x < y ensures Next(R', x) <= y {
      AbsorbedApart(R, start, end, a, x, y);
    }
    TiledIf(R', start, end);
  }

  // ---- What each step does to the tags ----

  lemma ScrubTags(m: Mem, R: Regions, start: nat, end: nat, h: nat)
    requires Tiled(R, start, end) && end <= |m| && Tagged(m, R) && h in R
    ensures SameOutside(m, ScrubMem(m, h, R[h].size), h, h + R[h].size)
    ensures Tagged(ScrubMem(m, h, R[h].size), R[h := Region(R[h].size, true)])
    ensures MIN_REGION < R[h].size ==> WordAt(ScrubMem(m, h, R[h].size), h + R[h].size - FOOTER) != HEAP_MAGIC
    ensures MIN_REGION == R[h].size && !R[h].hole ==> FooterAt(ScrubMem(m, h, R[h].size), h + R[h].size - FOOTER, h)
  {
    hide ScrubMem, WordAt, RegionTags, Tiled, HeaderAt, FooterAt;
    RegionBounds(R, start, end, h);
    var r, R' := ScrubMem(m, h, R[h].size), R[h := Region(R[h].size, true)];
    ScrubBlock(m, h, R[h]);
    forall a | a in R' && a != h ensures RegionTags(r, a, R'[a]) {
      OtherTags(m, r, R, start, end, h, a);
    }
  }

  lemma ScrubBytes(m: Mem, h: nat, size: nat)
    requires MIN_REGION <= size && h + size <= |m|
    ensures SameOutside(m, ScrubMem(m, h, size), h + 4, h + size)
    ensures SameInside(m, ScrubMem(m, h, size), h + 5, h + HEADER)
    ensures ScrubMem(m, h, size)[h + 4] == 1
    ensures size == MIN_REGION ==> SameInside(m, ScrubMem(m, h, size), h + HEADER, h + size)
    ensures size > MIN_REGION ==> ScrubMem(m, h, size)[h + size - FOOTER] == 0
  {
  }

  lemma ScrubBlock(m: Mem, h: nat, g: Region)
    requires RegionTags(m, h, g)
    ensures SameOutside(m, ScrubMem(m, h, g.size), h, h + g.size)
    ensures RegionTags(ScrubMem(m, h, g.size), h, Region(g.size, true))
    ensures MIN_REGION < g.size ==> WordAt(ScrubMem(m, h, g.size), h + g.size - FOOTER) != HEAP_MAGIC
    ensures MIN_REGION == g.size && !g.hole ==> FooterAt(ScrubMem(m, h, g.size), h + g.size - FOOTER, h)
  {
    hide ScrubMem, WordAt;
    var r := ScrubMem(m, h, g.size);
    ScrubBytes(m, h, g.size);
    WordFrame(m, r, h);
    WordFrame(m, r, h + 8);
    if g.size == MIN_REGION {
      WordFrame(m, r, h + 12);
      WordFrame(m, r, h + 16);
    } else {
      ZeroByteIsNoMagic(r, h + g.size - FOOTER);
    }
  }

  lemma ZeroByteIsNoMagic(m: Mem, a: nat)
    requires a + 4 <= |m| && m[a] == 0
    ensures WordAt(m, a) != HEAP_MAGIC
  {
  }

  /** What the left test finds in a tagged tiling: a hole that ends at h, and an address
      inside it, which is that hole's header unless the footer is out of date. */
  lemma LeftFindsHole(m: Mem, R: Regions, start: nat, end: nat, h: nat) returns (g: nat)
    requires FOOTER <= start && end <= |m| && Tiled(R, start, end) && Tagged(m, R) && h in R
    requires WordAt(m, start - FOOTER) != HEAP_MAGIC && LeftFound(m, h)
    ensures g in R && g < h && Next(R, g) == h && R[g].hole
    ensures PointsInside(g, R[g].size, WordAt(m, h - 4))
  {
    hide WordAt;
    g := LeftNeighbour(R, start, end, h);
    assert RegionTags(m, g, R[g]);
  }

  lemma AddSizeFrame(m: Mem, x: nat, more: nat)
    requires x + HEADER <= |m|
    ensures SameOutside(m, AddSize(m, x, more), x + 8, x + 12)
    ensures SizeOf(AddSize(m, x, more), x) == (SizeOf(m, x) + more) % 0x1_0000_0000
  {
  }

  lemma StoreFrame(m: Mem, a: nat, w: nat, x: nat, more: nat)
    requires a + 4 <= |m| && w < WORD_LIMIT && x + HEADER <= |m|
    ensures forall i :: 0 <= i < |m| && !(a <= i < a + 4) && !(x + 8 <= i < x + 12) ==>
      AddSize(PutWord(m, a, w), x, more)[i] == m[i]
  {
  }

  /** Adding to a "size field" in the interior of a hole damages no tag. */
  lemma InteriorTags(m: Mem, R: Regions, start: nat, end: nat, g: nat, x: nat, more: nat)
    requires Tiled(R, start, end) && end <= |m| && Tagged(m, R) && g in R && R[g].hole
    requires PointsInside(g, R[g].size, x) && x != g
    ensures Tagged(AddSize(m, x, more), R)
  {
    hide WordAt, AddSize;
    var r := AddSize(m, x, more);
    AddSizeFrame(m, x, more);
    forall a | a in R ensures RegionTags(r, a, R[a]) {
      if a == g {
        assert RegionTags(m, g, R[g]);
        HeaderFrame(m, r, g, true, R[g].size);
        WordFrame(m, r, g + R[g].size - FOOTER);
        WordFrame(m, r, g + R[g].size - 4);
      } else {
        RegionTagsFrame(m, r, a, R[a]);
      }
    }
  }

  /** Adding the size of the region behind the hole at a to that hole makes the two one. */
  lemma AbsorbTags(m: Mem, R: Regions, start: nat, end: nat, a: nat)
    requires Tiled(R, start, end) && end <= |m| <= WORD_LIMIT && 0 < start
    requires a in R && R[a].hole && Next(R, a) in R && R[Next(R, a)].hole
    requires forall x :: x in R && x != Next(R, a) ==> RegionTags(m, x, R[x])
    requires var n := Next(R, a); var f := n + R[n].size - FOOTER;
      WordAt(m, f) == HEAP_MAGIC ==> WordAt(m, f + 4) == a || PointsInside(n, R[n].size, WordAt(m, f + 4))
    ensures Tagged(AddSize(m, a, R[Next(R, a)].size), Absorb(R, a))
  {
    hide WordAt, AddSize, RegionTags;
    var n := Next(R, a);
    var r, R' := AddSize(m, a, R[n].size), Absorb(R, a);
    AddSizeFrame(m, a, R[n].size);
    forall x | x in R' ensures RegionTags(r, x, R'[x]) {
      if x == a {
        AbsorbedTags(m, a, R[a].size, R[n].size);
      } else {
        RegionTagsFrame(m, r, x, R[x]);
      }
    }
  }

  lemma AbsorbedTags(m: Mem, a: nat, size: nat, more: nat)
    requires 0 < a && a + size + more <= |m| <= WORD_LIMIT && MIN_REGION <= more && RegionTags(m, a, Region(size, true))
    requires var f := a + size + more - FOOTER;
      WordAt(m, f) == HEAP_MAGIC ==> WordAt(m, f + 4) == a || PointsInside(a + size, more, WordAt(m, f + 4))
    ensures RegionTags(AddSize(m, a, more), a, Region(size + more, true))
  {
    hide WordAt, AddSize;
    var r, f := AddSize(m, a, more), a + size + more - FOOTER;
    AddSizeFrame(m, a, more);
    WordFrame(m, r, a);
    WordFrame(m, r, f);
    WordFrame(m, r, f + 4);
  }

  // ---- Both merges ----

  /** The heap memory once the payload is scrubbed. */
  ghost function Scrubbed(s: Heap, R: Regions, h: nat): (m: Mem)
    requires Sound(s, R) && h in R
    ensures |m| == |s.mem|
  {
    RegionsInside(s, R);
    ScrubMem(s.mem, h, R[h].size)
  }

  ghost function AfterLeft(s: Heap, R: Regions, h: nat): (c: Merge)
    requires Sound(s, R) && h in R
    ensures |c.mem| == |s.mem| && c.tail + HEADER <= |c.mem| && c.header + HEADER <= |c.mem|
  {
    RegionsInside(s, R);
    MergeLeft(Scrubbed(s, R, h), s.index, h, R[h].size)
  }

  /** The right neighbour is a hole that the index has lost, so an assertion halts the kernel. */
  ghost predicate FreeHalts(s: Heap, R: Regions, h: nat)
    requires Sound(s, R) && h in R
  {
    Stuck(AfterLeft(s, R, h))
  }

  ghost function Coalesced(s: Heap, R: Regions, h: nat): (c: Merge)
    requires Sound(s, R) && h in R && !FreeHalts(s, R, h)
    ensures |c.mem| == |s.mem| && c.header + HEADER <= |c.mem|
  {
    MergeRight(AfterLeft(s, R, h))
  }

  /** x is the header of the region that ends where h starts. */
  ghost predicate EndsAt(R: Regions, x: nat, h: nat) {
    x in R && Next(R, x) == h
  }

  /** The left test will succeed, but through a footer that no longer leads to its own header. */
  ghost predicate LeftStale(s: Heap, R: Regions, h: nat)
    requires Sound(s, R) && h in R
  {
    RegionsInside(s, R);
    LeftFound(s.mem, h) && !EndsAt(R, WordAt(s.mem, h - 4), h)
  }

  /** The header that free works on once the left merge is done. */
  ghost function Target(s: Heap, R: Regions, h: nat): (t: nat)
    requires Sound(s, R) && h in R
  {
    RegionsInside(s, R);
    if LeftFound(s.mem, h) then WordAt(s.mem, h - 4) else h
  }

  ghost function Flagged(R: Regions, h: nat): Regions
    requires h in R
  {
    R[h := Region(R[h].size, true)]
  }

  ghost function LeftRegions(R: Regions, h: nat, c: Merge): Regions
    requires h in R
  {
    if !c.add && EndsAt(R, c.header, h) then Absorb(Flagged(R, h), c.header) else Flagged(R, h)
  }

  ghost function RightRegions(R: Regions, c: Merge): Regions
    requires c.tail + HEADER <= |c.mem|
  {
    if RightFound(c.mem, c.tail) && c.header in R && Next(R, c.header) == c.tail && c.tail in R then Absorb(R, c.header)
    else R
  }

  /** The regions after free, before any contraction. */
  ghost function CoalescedRegions(s: Heap, R: Regions, h: nat): Regions
    requires Sound(s, R) && h in R
  {
    var c := AfterLeft(s, R, h);
    RightRegions(LeftRegions(R, h, c), c)
  }

  /** Storing a header address into the footer of the hole at h leaves all other tags alone. */
  lemma StoreInTags(m: Mem, R: Regions, start: nat, end: nat, h: nat, x: nat)
    requires Tiled(R, start, end) && end <= |m| && Tagged(m, R) && h in R && x < WORD_LIMIT
    ensures var m2, f := PutWord(m, h + R[h].size - 4, x), h + R[h].size - FOOTER;
      && (forall a :: a in R && a != h ==> RegionTags(m2, a, R[a]))
      && WordAt(m2, f) == WordAt(m, f) && HeaderAt(m2, h, R[h].hole, R[h].size)
  {
    hide WordAt, PutWord;
    var m2 := PutWord(m, h + R[h].size - 4, x);
    assert RegionTags(m, h, R[h]);
    HeaderFrame(m, m2, h, R[h].hole, R[h].size);
    WordFrame(m, m2, h + R[h].size - FOOTER);
    forall a | a in R && a != h ensures RegionTags(m2, a, R[a]) {
      RegionTagsFrame(m, m2, a, R[a]);
    }
  }

  lemma LeftMerges(m: Mem, R: Regions, start: nat, end: nat, h: nat)
    requires FOOTER < start && end <= |m| <= WORD_LIMIT && Tiled(R, start, end) && Tagged(m, R) && h in R && R[h].hole
    requires WordAt(m, start - FOOTER) != HEAP_MAGIC && LeftFound(m, h)
    requires R[h].size == MIN_REGION || WordAt(m, h + R[h].size - FOOTER) != HEAP_MAGIC
    ensures var x := WordAt(m, h - 4);
      var r := AddSize(PutWord(m, h + R[h].size - 4, x), x, R[h].size);
      if EndsAt(R, x, h) then
        Tagged(r, Absorb(R, x)) && R[x].hole
      else R[h].size > MIN_REGION ==> Tagged(r, R)
  {
    hide WordAt, AddSize, PutWord;
    var g := LeftFindsHole(m, R, start, end, h);
    var x, f := WordAt(m, h - 4), h + R[h].size - FOOTER;
    var m2 := PutWord(m, f + 4, x);
    StoreInTags(m, R, start, end, h, x);
    if EndsAt(R, x, h) {
      assert x == g;
      AbsorbTags(m2, R, start, end, x);
    } else if R[h].size > MIN_REGION {
      InteriorTags(m2, R, start, end, g, x, R[h].size);
    }
  }

  /** Scrubbing the block at h does not change what the left test sees. */
  lemma LeftSeen(s: Heap, R: Regions, h: nat)
    requires Sound(s, R) && Live(R, h)
    ensures FOOTER <= h <= |s.mem|
    ensures LeftFound(Scrubbed(s, R, h), h) <==> LeftFound(s.mem, h)
    ensures WordAt(Scrubbed(s, R, h), h - 4) == WordAt(s.mem, h - 4)
    ensures AfterLeft(s, R, h).add <==> !LeftFound(s.mem, h)
    ensures AfterLeft(s, R, h).header == Target(s, R, h)
  {
    hide WordAt, AddSize, ScrubMem, RegionTags, PutWord, Tagged, Tiled;
    RegionBounds(R, s.start, s.end, h);
    var m := Scrubbed(s, R, h);
    ScrubTags(s.mem, R, s.start, s.end, h);
    WordFrame(s.mem, m, h - 4);
    WordFrame(s.mem, m, h - FOOTER);
    if h != s.start && WordAt(s.mem, h - FOOTER) == HEAP_MAGIC {
      var l := LeftNeighbour(R, s.start, s.end, h);
      FooterLeads(s.mem, R, l);
    }
  }

  lemma FooterLeads(m: Mem, R: Regions, l: nat)
    requires Tagged(m, R) && l in R && FOOTER <= Next(R, l) <= |m| && WordAt(m, Next(R, l) - FOOTER) == HEAP_MAGIC
    ensures PointsInside(l, R[l].size, WordAt(m, Next(R, l) - 4)) && MIN_REGION <= R[l].size
  {
    hide WordAt;
    assert RegionTags(m, l, R[l]);
  }

  /** A left merge through a stale footer, told from where it leads. */
  lemma StaleAs(s: Heap, R: Regions, h: nat)
    requires Sound(s, R) && Live(R, h)
    ensures LeftStale(s, R, h) <==> !AfterLeft(s, R, h).add && !EndsAt(R, AfterLeft(s, R, h).header, h)
  {
    hide AfterLeft, Scrubbed, LeftFound, Sound;
    LeftSeen(s, R, h);
  }

  /** The left merge, on regions in which the block is a hole already. */
  lemma LeftMergeOutcome(m: Mem, index: seq<nat>, R: Regions, start: nat, end: nat, h: nat)
    requires FOOTER < start && end <= |m| <= WORD_LIMIT && Tiled(R, start, end) && Tagged(m, R) && h in R && R[h].hole
    requires WordAt(m, start - FOOTER) != HEAP_MAGIC
    requires R[h].size == MIN_REGION || WordAt(m, h + R[h].size - FOOTER) != HEAP_MAGIC
    requires FOOTER <= h && MIN_REGION <= R[h].size && h + R[h].size <= |m|
    ensures var c := MergeLeft(m, index, h, R[h].size);
      && Tiled(LeftRegions(R, h, c), start, end)
      && (c.add || EndsAt(R, c.header, h) || MIN_REGION < R[h].size ==> Tagged(c.mem, LeftRegions(R, h, c)))
  {
    hide WordAt, AddSize, RegionTags, PutWord, Absorb, Tiled, Tagged;
    assert Flagged(R, h) == R;
    if LeftFound(m, h) {
      LeftMerges(m, R, start, end, h);
      var x := WordAt(m, h - 4);
      if EndsAt(R, x, h) {
        AbsorbTiles(R, start, end, x);
      }
    }
  }

  lemma FlaggedEnds(R: Regions, h: nat, x: nat)
    requires h in R
    ensures EndsAt(Flagged(R, h), x, h) <==> EndsAt(R, x, h)
    ensures Flagged(Flagged(R, h), h) == Flagged(R, h)
  {
  }

  /** How the left merge turns out. */
  lemma LeftOutcome(s: Heap, R: Regions, h: nat)
    requires Sound(s, R) && Live(R, h)
    ensures Tiled(LeftRegions(R, h, AfterLeft(s, R, h)), s.start, s.end)
    ensures !LeftStale(s, R, h) || MIN_REGION < R[h].size ==>
      Tagged(AfterLeft(s, R, h).mem, LeftRegions(R, h, AfterLeft(s, R, h)))
  {
    hide WordAt, MergeLeft, ScrubMem, Absorb, Tiled, Tagged, LeftStale, IndexHoles, EndsAt;
    var m, R1 := Scrubbed(s, R, h), Flagged(R, h);
    RegionBounds(R, s.start, s.end, h);
    ScrubTags(s.mem, R, s.start, s.end, h);
    ReplaceTiles(R, s.start, s.end, h, true);
    WordFrame(s.mem, m, s.start - FOOTER);
    LeftMergeOutcome(m, s.index, R1, s.start, s.end, h);
    StaleAs(s, R, h);
    FlaggedEnds(R, h, AfterLeft(s, R, h).header);
  }

  /** A stale left header lies in the interior of the hole that ends at h. */
  lemma StaleInside(s: Heap, R: Regions, h: nat) returns (g: nat)
    requires Sound(s, R) && Live(R, h) && !AfterLeft(s, R, h).add
    ensures g in R && R[g].hole && g < h && Next(R, g) == h
    ensures PointsInside(g, R[g].size, AfterLeft(s, R, h).header)
    ensures LeftStale(s, R, h) <==> AfterLeft(s, R, h).header != g
  {
    hide WordAt, AfterLeft, Scrubbed, LeftStale, Tagged, LeftFound, PointsInside, IndexHoles;
    LeftSeen(s, R, h);
    StaleAs(s, R, h);
    g := LeftFindsHole(s.mem, R, s.start, s.end, h);
  }

  /** The header and the tail that the left merge hands on. */
  lemma LeftHeader(s: Heap, R: Regions, h: nat)
    requires Sound(s, R) && Live(R, h)
    ensures var c := AfterLeft(s, R, h);
      && c.tail == Next(R, h) && c.index == s.index && (c.add ==> c.header == h)
      && (LeftStale(s, R, h) ==> !c.add && c.header !in R)
      && (!LeftStale(s, R, h) && !c.add ==> c.header in R && R[c.header].hole && c.header < h)
      && (!LeftStale(s, R, h) ==> EndsAt(LeftRegions(R, h, c), c.header, c.tail) && LeftRegions(R, h, c)[c.header].hole)
      && (LeftStale(s, R, h) ==> LeftRegions(R, h, c) == Flagged(R, h))
  {
    hide WordAt, AddSize, ScrubMem, Tagged, PutWord, LeftStale, LeftFound, IndexHoles;
    StaleAs(s, R, h);
    LeftSeen(s, R, h);
    if !AfterLeft(s, R, h).add {
      var g := StaleInside(s, R, h);
    }
  }

  ghost predicate RightHole(s: Heap, R: Regions, h: nat)
    requires Sound(s, R) && h in R
  {
    RightFound(AfterLeft(s, R, h).mem, AfterLeft(s, R, h).tail)
  }

  ghost predicate HoleOnRight(R: Regions, h: nat)
    requires h in R
  {
    Next(R, h) in R && R[Next(R, h)].hole
  }

  /** Where the hole that free leaves behind ends. */
  ghost function MergedEnd(R: Regions, h: nat): nat
    requires h in R
  {
    if HoleOnRight(R, h) then Next(R, Next(R, h)) else Next(R, h)
  }

  /** The stores in front of the right test stay in front of it. */
  lemma RightSeen(s: Heap, R: Regions, h: nat)
    requires Sound(s, R) && Live(R, h)
    ensures Next(R, h) <= s.end && Next(R, h) + HEADER <= |s.mem|
    ensures SameInside(s.mem, AfterLeft(s, R, h).mem, Next(R, h), |s.mem|)
    ensures RightHole(s, R, h) <==> RightFound(s.mem, Next(R, h))
  {
    hide WordAt, AddSize, ScrubMem, PutWord, Tagged, PutByte, ZeroFill, LeftStale, IndexHoles;
    LeftHeader(s, R, h);
    RegionBounds(R, s.start, s.end, h);
    var c, n := AfterLeft(s, R, h), Next(R, h);
    ScrubTags(s.mem, R, s.start, s.end, h);
    if !c.add {
      var g := StaleInside(s, R, h);
      StoreFrame(Scrubbed(s, R, h), n - 4, c.header, c.header, R[h].size);
    }
    WordFrame(s.mem, c.mem, n);
  }

  lemma RightTag(m: Mem, n: nat, g: Region)
    requires RegionTags(m, n, g)
    ensures WordAt(m, n) == HEAP_MAGIC && (m[n + 4] != 0 <==> g.hole)
  {
  }

  lemma TagsSize(m: Mem, a: nat, g: Region)
    requires RegionTags(m, a, g)
    ensures SizeOf(m, a) == g.size
  {
  }

  /** free halts exactly when the bytes behind the block pass for the header of a hole that the
      index does not list: a hole that was lost before, or something behind the end of the heap. */
  lemma HaltsIff(s: Heap, R: Regions, h: nat)
    requires Sound(s, R) && Live(R, h)
    ensures Next(R, h) + HEADER <= |s.mem|
    ensures FreeHalts(s, R, h) <==> RightFound(s.mem, Next(R, h)) && Next(R, h) !in s.index
    ensures Next(R, h) in R ==> (FreeHalts(s, R, h) <==> R[Next(R, h)].hole && Next(R, h) !in s.index)
    ensures !FreeHalts(s, R, h) ==> (RightHole(s, R, h) <==> HoleOnRight(R, h))
  {
    hide WordAt, AfterLeft, Tagged, Tiled, RegionTags, LeftStale;
    LeftHeader(s, R, h);
    RightSeen(s, R, h);
    var n := Next(R, h);
    if n in R {
      TagsAt(s.mem, R, n);
      RightTag(s.mem, n, R[n]);
    }
  }

  /** The tail that free ends with. */
  lemma TailIs(s: Heap, R: Regions, h: nat)
    requires Sound(s, R) && Live(R, h) && !FreeHalts(s, R, h)
    ensures Coalesced(s, R, h).tail == MergedEnd(R, h) <= s.end
    ensures HoleOnRight(R, h) ==> SizeOf(AfterLeft(s, R, h).mem, Next(R, h)) == R[Next(R, h)].size
  {
    hide WordAt, AfterLeft, Tagged, Tiled, RegionTags, LeftStale, IndexHoles;
    LeftHeader(s, R, h);
    HaltsIff(s, R, h);
    RightSeen(s, R, h);
    var c, n := AfterLeft(s, R, h), Next(R, h);
    if HoleOnRight(R, h) {
      RegionBounds(R, s.start, s.end, n);
      TagsAt(s.mem, R, n);
      RegionTagsFrame(s.mem, c.mem, n, R[n]);
      TagsSize(c.mem, n, R[n]);
    }
  }

  /** Both merges keep the tiling and the tags, unless the left one goes through a stale
      footer while the block has no payload whose scrubbing would damage its own footer. */
  lemma CoalesceTags(s: Heap, R: Regions, h: nat)
    requires Sound(s, R) && Live(R, h) && !FreeHalts(s, R, h)
    ensures Tiled(CoalescedRegions(s, R, h), s.start, s.end)
    ensures !LeftStale(s, R, h) || MIN_REGION < R[h].size ==> Tagged(Coalesced(s, R, h).mem, CoalescedRegions(s, R, h))
  {
    hide WordAt, AddSize, ScrubMem, PutWord, AfterLeft, MergeLeft, Absorb, RegionTags;
    var c := AfterLeft(s, R, h);
    var R2 := LeftRegions(R, h, c);
    LeftOutcome(s, R, h);
    LeftHeader(s, R, h);
    if RightFound(c.mem, c.tail) {
      assert c.tail in R && R[c.tail].hole;
      LeftKeepsRight(R, s.start, s.end, h, c);
      if LeftStale(s, R, h) {
        if MIN_REGION < R[h].size {
          var g := StaleInside(s, R, h);
          InteriorTags(c.mem, R2, s.start, s.end, g, c.header, SizeOf(c.mem, c.tail));
        }
      } else {
        AbsorbTiles(R2, s.start, s.end, c.header);
        AbsorbHole(c.mem, R2, s.start, s.end, c.header);
      }
    }
  }

  lemma LeftKeepsRight(R: Regions, start: nat, end: nat, h: nat, c: Merge)
    requires Tiled(R, start, end) && h in R && c.tail == Next(R, h) && c.tail in R
    requires !c.add && EndsAt(R, c.header, h) ==> c.header < h
    ensures c.tail in LeftRegions(R, h, c) && LeftRegions(R, h, c)[c.tail] == R[c.tail]
  {
  }

  lemma AbsorbHole(m: Mem, R: Regions, start: nat, end: nat, a: nat)
    requires Tiled(R, start, end) && end <= |m| <= WORD_LIMIT && 0 < start && Tagged(m, R)
    requires a in R && R[a].hole && Next(R, a) in R && R[Next(R, a)].hole
    ensures Tagged(AddSize(m, a, SizeOf(m, Next(R, a))), Absorb(R, a))
  {
    hide WordAt, AddSize;
    var n := Next(R, a);
    assert RegionTags(m, n, R[n]);
    AbsorbTags(m, R, start, end, a);
  }

  /** The regions after both merges, one at a time. */
  lemma CoalescedAt(s: Heap, R: Regions, h: nat, x: nat)
    requires Sound(s, R) && Live(R, h) && !FreeHalts(s, R, h)
    ensures LeftStale(s, R, h) ==> CoalescedRegions(s, R, h) == Flagged(R, h)
    ensures !LeftStale(s, R, h) ==>
      (x in CoalescedRegions(s, R, h) <==>
        x in R && (x == h ==> AfterLeft(s, R, h).add) && !(HoleOnRight(R, h) && x == Next(R, h)))
    ensures x in CoalescedRegions(s, R, h) && x != AfterLeft(s, R, h).header && x != h ==>
      x in R && CoalescedRegions(s, R, h)[x] == R[x]
    ensures !LeftStale(s, R, h) ==>
      && AfterLeft(s, R, h).header in CoalescedRegions(s, R, h)
      && CoalescedRegions(s, R, h)[AfterLeft(s, R, h).header].hole
      && AfterLeft(s, R, h).header <= h
      && Next(CoalescedRegions(s, R, h), AfterLeft(s, R, h).header) == MergedEnd(R, h)
  {
    hide WordAt, AddSize, ScrubMem, PutWord, AfterLeft, MergeLeft, RegionTags, Tagged;
    LeftHeader(s, R, h);
    HaltsIff(s, R, h);
  }

  /** The index with the right neighbour taken out, and the header put in if need be. */
  ghost function FreedIndex(c: Merge, less: Order): seq<nat> {
    if c.add then Inserted(c.index, c.header, less) else c.index
  }

  lemma FreedIndexHoles(s: Heap, R: Regions, h: nat, less: Order)
    requires Sound(s, R) && Live(R, h) && !FreeHalts(s, R, h)
    ensures IndexHoles(FreedIndex(Coalesced(s, R, h), less), CoalescedRegions(s, R, h))
    ensures IndexComplete(s.index, R) && !LeftStale(s, R, h) ==>
      IndexComplete(FreedIndex(Coalesced(s, R, h), less), CoalescedRegions(s, R, h))
  {
    hide WordAt, AfterLeft, RegionTags, Tagged, Tiled, Inserted, Removed, CoalescedRegions, LeftStale;
    LeftHeader(s, R, h);
    HaltsIff(s, R, h);
    var c := Coalesced(s, R, h);
    var R' := CoalescedRegions(s, R, h);
    if HoleOnRight(R, h) {
      RemovedElements(s.index, IndexOf(s.index, Next(R, h)));
    }
    assert forall x :: x in c.index <==> x in s.index && !(HoleOnRight(R, h) && x == Next(R, h));
    assert Distinct(c.index);
    InsertedElements(c.index, c.header, less);
    if c.add {
      InsertedDistinct(c.index, h, less);
    }
    forall x
      ensures x in FreedIndex(c, less) ==> x in R' && R'[x].hole
      ensures IndexComplete(s.index, R) && !LeftStale(s, R, h) && x in R' && R'[x].hole ==> x in FreedIndex(c, less)
    {
      CoalescedAt(s, R, h, x);
    }
  }

  /** The left merge writes to the block and to the hole in front of it, and nowhere else. */
  lemma LeftFrame(s: Heap, R: Regions, h: nat) returns (g: nat)
    requires Sound(s, R) && Live(R, h)
    ensures g in R && s.start <= g <= h && (g != h ==> R[g].hole && Next(R, g) == h)
    ensures var c := AfterLeft(s, R, h);
      && (g == h <==> c.add)
      && g <= c.header <= h && (!LeftStale(s, R, h) ==> c.header == g) && c.header + HEADER <= Next(R, h)
      && SameOutside(s.mem, c.mem, g, Next(R, h))
  {
    hide WordAt, AddSize, ScrubMem, PutWord, Tagged, PutByte, ZeroFill, LeftStale, RegionTags, IndexHoles,
      Tiled, LeftFound;
    var c := AfterLeft(s, R, h);
    RegionBounds(R, s.start, s.end, h);
    LeftHeader(s, R, h);
    LeftSeen(s, R, h);
    ScrubTags(s.mem, R, s.start, s.end, h);
    g := h;
    if !c.add {
      g := StaleInside(s, R, h);
      RegionBounds(R, s.start, s.end, g);
      StoreFrame(Scrubbed(s, R, h), h + R[h].size - 4, c.header, c.header, R[h].size);
    }
  }

  /** Both merges write to the block and to the hole in front of it, and nowhere else. */
  lemma CoalesceFrame(s: Heap, R: Regions, h: nat) returns (g: nat)
    requires Sound(s, R) && Live(R, h) && !FreeHalts(s, R, h)
    ensures g in R && s.start <= g <= h && (g != h ==> R[g].hole && Next(R, g) == h)
    ensures g == h <==> AfterLeft(s, R, h).add
    ensures g <= Coalesced(s, R, h).header <= h && (!LeftStale(s, R, h) ==> Coalesced(s, R, h).header == g)
    ensures SameOutside(s.mem, Coalesced(s, R, h).mem, g, Next(R, h))
  {
    hide WordAt, AddSize, AfterLeft, Tagged, LeftStale, RegionTags, IndexHoles, Tiled, SameOutside;
    var c := AfterLeft(s, R, h);
    g := LeftFrame(s, R, h);
    LeftHeader(s, R, h);
    if RightHole(s, R, h) {
      AddSizeFrame(c.mem, c.header, SizeOf(c.mem, c.tail));
      FrameTwice(s.mem, c.mem, Coalesced(s, R, h).mem, g, Next(R, h), c.header + 8, c.header + 12);
    }
  }

  lemma FrameTwice(m: Mem, m1: Mem, m2: Mem, lo: nat, hi: nat, x: nat, y: nat)
    requires SameOutside(m, m1, lo, hi) && SameOutside(m1, m2, x, y) && lo <= x && y <= hi
    ensures SameOutside(m, m2, lo, hi)
  {
  }

  lemma Untouched(m: Mem, r: Mem, lo: nat, hi: nat, a: nat, b: nat)
    requires SameOutside(m, r, lo, hi) && (b <= lo || hi <= a)
    ensures SameInside(m, r, a, b)
  {
  }

  /** A block other than the one freed keeps its place and every one of its bytes. */
  lemma LiveSurvives(s: Heap, R: Regions, h: nat, a: nat)
    requires Sound(s, R) && Live(R, h) && !FreeHalts(s, R, h) && Live(R, a) && a != h
    ensures a in CoalescedRegions(s, R, h) && CoalescedRegions(s, R, h)[a] == R[a]
    ensures SameInside(s.mem, Coalesced(s, R, h).mem, a, Next(R, a))
  {
    hide WordAt, AfterLeft, RegionTags, Tagged, CoalescedRegions, Coalesced, Tiled, LeftStale, IndexHoles, FreeHalts;
    LeftHeader(s, R, h);
    CoalescedAt(s, R, h, a);
    var g := CoalesceFrame(s, R, h);
    Apart(R, s.start, s.end, a, g);
    Apart(R, s.start, s.end, a, h);
    NextIsBehind(R, s.start, s.end, a);
    NextIsBehind(R, s.start, s.end, h);
    Untouched(s.mem, Coalesced(s, R, h).mem, g, Next(R, h), a, Next(R, a));
  }

  /** The blocks other than the one freed keep their place and every one of their bytes. */
  lemma CoalesceKeepsBlocks(s: Heap, R: Regions, h: nat)
    requires Sound(s, R) && Live(R, h) && !FreeHalts(s, R, h)
    ensures BlocksKept(s, R - {h}, s.(mem := Coalesced(s, R, h).mem), CoalescedRegions(s, R, h))
    ensures WordAt(Coalesced(s, R, h).mem, s.start - FOOTER) != HEAP_MAGIC
  {
    hide WordAt, Tagged, CoalescedRegions, Coalesced, AfterLeft, FreeHalts, LeftStale, Tiled, IndexHoles;
    var m := Coalesced(s, R, h).mem;
    var g := CoalesceFrame(s, R, h);
    WordFrame(s.mem, m, s.start - FOOTER);
    forall a | a in R && !R[a].hole && a != h
      ensures a in CoalescedRegions(s, R, h) && CoalescedRegions(s, R, h)[a] == R[a]
      ensures SameInside(s.mem, m, a, a + R[a].size)
    {
      LiveSurvives(s, R, h, a);
    }
  }

  /** What both merges leave is sound already, whatever the index is then ordered by. */
  lemma CoalesceKeepsSound(s: Heap, R: Regions, h: nat, less: Order)
    requires Sound(s, R) && Live(R, h) && !FreeHalts(s, R, h)
    requires LeftStale(s, R, h) ==> MIN_REGION < R[h].size
    ensures Sound(s.(mem := Coalesced(s, R, h).mem, index := FreedIndex(Coalesced(s, R, h), less)),
                  CoalescedRegions(s, R, h))
  {
    hide WordAt, Tagged, Tiled, CoalescedRegions, Coalesced, AfterLeft, FreeHalts, LeftStale, IndexHoles, FreedIndex;
    CoalesceTags(s, R, h);
    CoalesceKeepsBlocks(s, R, h);
    FreedIndexHoles(s, R, h, less);
  }

  /** Unless a stale footer was followed, the hole free leaves behind ends at the final tail. */
  lemma TailMeetsHeader(s: Heap, R: Regions, h: nat)
    requires Sound(s, R) && Live(R, h) && !FreeHalts(s, R, h) && !LeftStale(s, R, h)
    ensures var c, R' := Coalesced(s, R, h), CoalescedRegions(s, R, h);
      c.header in R' && R'[c.header].hole && Next(R', c.header) == c.tail == MergedEnd(R, h)
  {
    hide WordAt, AfterLeft, RegionTags, CoalescedRegions, LeftStale, Tagged, Tiled;
    TailIs(s, R, h);
    CoalescedAt(s, R, h, h);
  }

  /** After a left merge through a stale footer the block is a hole that the index does not list. */
  lemma StaleLeaks(s: Heap, R: Regions, h: nat, less: Order)
    requires Sound(s, R) && Live(R, h) && !FreeHalts(s, R, h) && LeftStale(s, R, h)
    ensures CoalescedRegions(s, R, h) == Flagged(R, h)
    ensures h !in FreedIndex(Coalesced(s, R, h), less)
  {
    hide WordAt, AfterLeft, RegionTags, CoalescedRegions, LeftStale, Tagged, Tiled, Removed;
    LeftHeader(s, R, h);
    CoalescedAt(s, R, h, h);
    HaltsIff(s, R, h);
    if RightHole(s, R, h) {
      RemovedElements(s.index, IndexOf(s.index, Next(R, h)));
    }
  }
}
