/** What free of src/impl/kheap.c keeps: the heap stays consistent, and every other block stays
    as it is. */
module HeapFreeSound {
  import opened Bytes
  import opened OrderedArrays
  import opened HeapModel
  import opened HeapAlloc
  import opened HeapGrow
  import opened HeapFree
  import opened HeapSettle

  // ---- Contraction ----

  lemma ContractTags(m: Mem, R: Regions, start: nat, end: nat, t: nat, newEnd: nat)
    requires 0 < start && Tiled(R, start, end) && end <= |m| <= WORD_LIMIT && Tagged(m, R)
    requires t in R && R[t].hole && Next(R, t) == end && t + MIN_REGION <= newEnd <= |m|
    ensures Tagged(ContractMem(m, t, newEnd), R[t := Region(newEnd - t, true)])
    ensures SameInside(m, ContractMem(m, t, newEnd), 0, t)
    ensures FooterAt(ContractMem(m, t, newEnd), newEnd - FOOTER, t)
  {
    hide WordAt, PutFooter, PutWord, RegionTags;
    var r, R' := ContractMem(m, t, newEnd), R[t := Region(newEnd - t, true)];
    assert RegionTags(m, t, R[t]);
    ResizedTags(m, t, R[t].size, newEnd - t);
    forall a | a in R' && a != t ensures RegionTags(r, a, R'[a]) {
      Apart(R, start, end, a, t);
      NextIsBehind(R, start, end, a);
      RegionTagsFrame(m, r, a, R[a]);
    }
  }

  lemma IndexAfterResize(index: seq<nat>, R: Regions, t: nat, size: nat)
    requires IndexHoles(index, R) && t in R
    ensures IndexHoles(index, R[t := Region(size, true)])
    ensures R[t].hole && IndexComplete(index, R) ==> IndexComplete(index, R[t := Region(size, true)])
  {
  }

  /** Cutting the last hole down to the minimum size of the heap. */
  lemma ContractKeepsSound(s: Heap, R: Regions, t: nat)
    requires Sound(s, R) && t in R && R[t].hole && Next(R, t) == s.end && Contractible(s, t)
    requires s.start + HEAP_MIN_SIZE <= s.max
    ensures var newEnd := s.start + HEAP_MIN_SIZE;
      var s', R' := s.(mem := ContractMem(s.mem, t, newEnd), end := newEnd), R[t := Region(newEnd - t, true)];
      Sound(s', R') && BlocksKept(s, R, s', R')
  {
    hide WordAt, Tagged, Tiled, IndexHoles, RegionTags, ContractMem;
    var newEnd := s.start + HEAP_MIN_SIZE;
    ContractCases(s, t);
    RegionBounds(R, s.start, s.end, t);
    ContractTags(s.mem, R, s.start, s.end, t, newEnd);
    ResizeTiles(R, s.start, s.end, t, newEnd - t);
    IndexAfterResize(s.index, R, t, newEnd - t);
    WordFrame(s.mem, ContractMem(s.mem, t, newEnd), s.start - FOOTER);
    forall a | a in R && !R[a].hole ensures SameInside(s.mem, ContractMem(s.mem, t, newEnd), a, a + R[a].size) {
      Apart(R, s.start, s.end, a, t);
      RegionBounds(R, s.start, s.end, a);
    }
  }

  /** The heap after free, where it ends in one of the two usual ways. */
  lemma FreedIs(s: Heap, R: Regions, h: nat)
    requires Freeable(s, R, h) && !FreeHalts(s, R, h)
    ensures !ReachesEnd(s, R, h) ==>
      var c := Coalesced(s, R, h);
      Freed(s, R, h) == s.(mem := c.mem, index := FreedIndex(c, BySize(c.mem)))
    ensures ReachesEnd(s, R, h) && Contractible(s, Target(s, R, h)) ==>
      var c, newEnd := Coalesced(s, R, h), s.start + HEAP_MIN_SIZE;
      && Target(s, R, h) + HEADER <= |c.mem| <= WORD_LIMIT && newEnd <= |c.mem|
      && var m := ContractMem(c.mem, Target(s, R, h), newEnd);
      Freed(s, R, h) == s.(mem := m, end := newEnd, index := FreedIndex(c, BySize(m)))
  {
    hide Coalesced, FreeHalts, Sound, LeftStale, Target, FreedIndex, ContractMem, WordAt, ContractEnd, MergedEnd;
    FreeSettles(s, R, h);
    ContractCases(s, Target(s, R, h));
  }

  lemma ContractedKeeps(s: Heap, R: Regions, h: nat)
    requires Freeable(s, R, h) && !FreeHalts(s, R, h) && !LeftStale(s, R, h) && ReachesEnd(s, R, h)
    requires Contractible(s, Target(s, R, h))
    ensures Sound(Freed(s, R, h), FreedRegions(s, R, h))
    ensures BlocksKept(s, R - {h}, Freed(s, R, h), FreedRegions(s, R, h))
    ensures var t, s' := Target(s, R, h), Freed(s, R, h);
      && SameInside(Coalesced(s, R, h).mem, s'.mem, 0, t)
      && s'.end == s.start + HEAP_MIN_SIZE && FOOTER <= s'.end <= |s'.mem| && FooterAt(s'.mem, s'.end - FOOTER, t)
  {
    hide WordAt, Tagged, Tiled, CoalescedRegions, Coalesced, FreeHalts, LeftStale, IndexHoles, ContractMem, FreedIndex,
      Freed, Target, FooterAt;
    var c, R', t, newEnd := Coalesced(s, R, h), CoalescedRegions(s, R, h), Target(s, R, h), s.start + HEAP_MIN_SIZE;
    FreedIs(s, R, h);
    FreeSettles(s, R, h);
    var m := ContractMem(c.mem, t, newEnd);
    var index := FreedIndex(c, BySize(m));
    CoalesceKeepsSound(s, R, h, BySize(m));
    CoalesceKeepsBlocks(s, R, h);
    TailMeetsHeader(s, R, h);
    var s1 := s.(mem := c.mem, index := index);
    ContractTags(c.mem, R', s.start, s.end, t, newEnd);
    ContractKeepsSound(s1, R', t);
    KeptTwice(s, R - {h}, s1, R', Freed(s, R, h), FreedRegions(s, R, h));
  }

  lemma UnsettledKeeps(s: Heap, R: Regions, h: nat)
    requires Freeable(s, R, h) && !FreeHalts(s, R, h) && !ReachesEnd(s, R, h)
    requires !LeftStale(s, R, h) || MIN_REGION < R[h].size
    ensures Sound(Freed(s, R, h), FreedRegions(s, R, h))
    ensures BlocksKept(s, R - {h}, Freed(s, R, h), FreedRegions(s, R, h))
  {
    hide WordAt, Tagged, Tiled, CoalescedRegions, Coalesced, FreeHalts, LeftStale, IndexHoles, FreedIndex,
      Freed, Target;
    FreedIs(s, R, h);
    CoalesceKeepsSound(s, R, h, BySize(Coalesced(s, R, h).mem));
    CoalesceKeepsBlocks(s, R, h);
  }

  // ---- Traces ----

  /** What was lost stays lost: neither merge finds it, and it is not put into the index. */
  lemma LostStays(s: Heap, R: Regions, h: nat, e: nat, less: Order)
    requires Sound(s, R) && Live(R, h) && !FreeHalts(s, R, h) && Lost(s.mem, R, s.index, e)
    ensures e != h && !(HoleOnRight(R, h) && e == Next(R, h)) && !(LeftFound(s.mem, h) && Next(R, e) == h)
    ensures Lost(Coalesced(s, R, h).mem, CoalescedRegions(s, R, h), FreedIndex(Coalesced(s, R, h), less), e)
  {
    hide WordAt, Tagged, CoalescedRegions, Coalesced, AfterLeft, FreeHalts, LeftStale, Inserted, RegionTags;
    LeftSeen(s, R, h);
    LeftHeader(s, R, h);
    HaltsIff(s, R, h);
    MergedIndex(s, R, h);
    var c := Coalesced(s, R, h);
    InsertedElements(c.index, c.header, less);
    SameAdd(s, R, h);
    CoalescedAt(s, R, h, e);
    var g := CoalesceFrame(s, R, h);
    NextIsBehind(R, s.start, s.end, e);
    Apart(R, s.start, s.end, e, g);
    Apart(R, s.start, s.end, e, h);
    LostFrame(s.mem, R, s.index, c.mem, CoalescedRegions(s, R, h), FreedIndex(c, less), e);
  }

  lemma SameAdd(s: Heap, R: Regions, h: nat)
    requires Sound(s, R) && Live(R, h) && !FreeHalts(s, R, h)
    ensures Coalesced(s, R, h).add == AfterLeft(s, R, h).add
    ensures Coalesced(s, R, h).header == AfterLeft(s, R, h).header
  {
    hide AfterLeft, Sound;
  }

  /** The footer of the freed block after the left merge. */
  lemma LeftFooter(s: Heap, R: Regions, h: nat)
    requires Sound(s, R) && Live(R, h)
    ensures h + MIN_REGION <= Next(R, h) <= |s.mem|
    ensures MIN_REGION < R[h].size ==> WordAt(AfterLeft(s, R, h).mem, Next(R, h) - FOOTER) != HEAP_MAGIC
    ensures WordAt(AfterLeft(s, R, h).mem, Next(R, h) - 4) == AfterLeft(s, R, h).header
  {
    hide WordAt, AddSize, ScrubMem, PutWord, Tagged, RegionTags, IndexHoles, LeftStale, Tiled, LeftFound;
    RegionBounds(R, s.start, s.end, h);
    LeftSeen(s, R, h);
    TagsAt(s.mem, R, h);
    ScrubKeepsName(s.mem, h, R[h]);
    ScrubTags(s.mem, R, s.start, s.end, h);
    var m, c, f := Scrubbed(s, R, h), AfterLeft(s, R, h), Next(R, h) - FOOTER;
    if !c.add {
      var g := StaleInside(s, R, h);
      RegionBounds(R, s.start, s.end, g);
      MergedFooter(m, f, c.header, R[h].size);
    }
  }

  lemma ScrubKeepsName(m: Mem, h: nat, g: Region)
    requires RegionTags(m, h, g) && !g.hole
    ensures WordAt(ScrubMem(m, h, g.size), h + g.size - 4) == h
  {
    hide WordAt;
    WordFrame(m, ScrubMem(m, h, g.size), h + g.size - 4);
  }

  lemma MergedFooter(m: Mem, f: nat, x: nat, size: nat)
    requires x + HEADER <= f && f + FOOTER <= |m| <= WORD_LIMIT
    ensures var r := AddSize(PutWord(m, f + 4, x), x, size);
      WordAt(r, f) == WordAt(m, f) && WordAt(r, f + 4) == x
  {
    hide WordAt, AddSize, PutWord;
    var m2 := PutWord(m, f + 4, x);
    AddSizeFrame(m2, x, size);
    WordFrame(m, m2, f);
    WordFrame(m2, AddSize(m2, x, size), f);
    WordFrame(m2, AddSize(m2, x, size), f + 4);
  }

  /** The footer of the freed block: spoilt if the block had a payload, otherwise the new hole's. */
  lemma BlockFooter(s: Heap, R: Regions, h: nat)
    requires Sound(s, R) && Live(R, h) && !FreeHalts(s, R, h)
    ensures h + MIN_REGION <= Next(R, h) <= |s.mem|
    ensures MIN_REGION < R[h].size ==> WordAt(Coalesced(s, R, h).mem, Next(R, h) - FOOTER) != HEAP_MAGIC
    ensures WordAt(Coalesced(s, R, h).mem, Next(R, h) - 4) == Coalesced(s, R, h).header
  {
    hide WordAt, AddSize, AfterLeft, Sound, LeftStale;
    LeftFooter(s, R, h);
    LeftHeader(s, R, h);
    var g := LeftFrame(s, R, h);
    var c, d, f := AfterLeft(s, R, h), Coalesced(s, R, h), Next(R, h) - FOOTER;
    if RightHole(s, R, h) {
      AddSizeFrame(c.mem, c.header, SizeOf(c.mem, c.tail));
      WordFrame(c.mem, d.mem, f);
      WordFrame(c.mem, d.mem, f + 4);
    }
  }

  /** A hole that ends with the footer of the hole at n it has swallowed. */
  lemma AbsorbedTrace(m: Mem, R: Regions, index: seq<nat>, m': Mem, R': Regions, index': seq<nat>, n: nat, t: nat)
    requires n in R && R[n].hole && RegionTags(m, n, R[n]) && TracedAt(m, R, index, n)
    requires SameInside(m, m', n, Next(R, n)) && t in R' && Next(R', t) == Next(R, n)
    requires Lost(m, R, index, Next(R, n)) ==> Lost(m', R', index', Next(R, n))
    ensures TracedAt(m', R', index', t)
  {
    hide WordAt, Lost;
    var e := Next(R, n);
    WordFrame(m, m', e - FOOTER);
    WordFrame(m, m', e - 4);
    WordFrame(m, m', n + 8);
    if WordAt(m, e - FOOTER) == HEAP_MAGIC {
      WordFrame(m, m', WordAt(m, e - 4) + 8);
    }
  }

  /** The new hole is traced: its footer is spoilt, its own, or that of the hole on the right. */
  lemma HeaderTrace(s: Heap, R: Regions, h: nat, less: Order)
    requires Consistent(s, R) && Live(R, h) && !FreeHalts(s, R, h) && !LeftStale(s, R, h)
    ensures Coalesced(s, R, h).header in CoalescedRegions(s, R, h)
    ensures TracedAt(Coalesced(s, R, h).mem, CoalescedRegions(s, R, h), FreedIndex(Coalesced(s, R, h), less),
                     Coalesced(s, R, h).header)
  {
    hide WordAt, Tagged, CoalescedRegions, Coalesced, AfterLeft, FreeHalts, LeftStale, Lost, FreedIndex, RegionTags,
      IndexHoles, TracedAt, Tiled;
    var c, R' := Coalesced(s, R, h), CoalescedRegions(s, R, h);
    TailMeetsHeader(s, R, h);
    BlockFooter(s, R, h);
    if HoleOnRight(R, h) {
      var n := Next(R, h);
      var g := CoalesceFrame(s, R, h);
      TagsAt(s.mem, R, n);
      Untouched(s.mem, c.mem, g, n, n, Next(R, n));
      if Lost(s.mem, R, s.index, Next(R, n)) {
        LostStays(s, R, h, Next(R, n), less);
      }
      AbsorbedTrace(s.mem, R, s.index, c.mem, R', FreedIndex(c, less), n, c.header);
    } else {
      OwnTrace(c.mem, R', FreedIndex(c, less), c.header);
    }
  }

  /** A region that free neither makes nor follows is traced as before. */
  lemma OtherTrace(s: Heap, R: Regions, h: nat, g: nat, m: Mem, R': Regions, index: seq<nat>, a: nat)
    requires Consistent(s, R) && Live(R, h) && a in R && a != h && a != g && a in R' && R'[a] == R[a]
    requires g in R && (g == h || Next(R, g) == h) && SameInside(s.mem, m, a, Next(R, a))
    requires Lost(s.mem, R, s.index, Next(R, a)) ==> Lost(m, R', index, Next(R, a))
    ensures TracedAt(m, R', index, a)
  {
    hide WordAt, Tagged, Lost, RegionTags, TracedAt, Tiled;
    TagsAt(s.mem, R, a);
    TracedFrame(s.mem, R, s.index, m, R', index, a);
  }

  /** Following a stale footer leaves the hole with a wrong size inside, but loses the block behind it. */
  lemma StaleTrace(s: Heap, R: Regions, h: nat, g: nat, less: Order)
    requires Consistent(s, R) && Live(R, h) && !FreeHalts(s, R, h) && LeftStale(s, R, h) && MIN_REGION < R[h].size
    requires g in R && Next(R, g) == h && g < h
    ensures var c, R' := Coalesced(s, R, h), CoalescedRegions(s, R, h);
      && h in R' && g in R'
      && TracedAt(c.mem, R', FreedIndex(c, less), h) && TracedAt(c.mem, R', FreedIndex(c, less), g)
  {
    hide WordAt, Tagged, CoalescedRegions, Coalesced, AfterLeft, FreeHalts, LeftStale, FreedIndex, RegionTags,
      IndexHoles, Tiled;
    BlockFooter(s, R, h);
    StaleLeaks(s, R, h, less);
    var c, R' := Coalesced(s, R, h), CoalescedRegions(s, R, h);
    assert Next(R', g) == h && Next(R', h) == Next(R, h);
    assert Lost(c.mem, R', FreedIndex(c, less), h);
  }

  /** Both merges keep the traces. */
  lemma CoalesceKeepsTraces(s: Heap, R: Regions, h: nat, less: Order)
    requires Consistent(s, R) && Live(R, h) && !FreeHalts(s, R, h) && (LeftStale(s, R, h) ==> MIN_REGION < R[h].size)
    ensures forall a :: a in CoalescedRegions(s, R, h) ==>
      TracedAt(Coalesced(s, R, h).mem, CoalescedRegions(s, R, h), FreedIndex(Coalesced(s, R, h), less), a)
  {
    hide WordAt, Tagged, CoalescedRegions, Coalesced, AfterLeft, FreeHalts, LeftStale, FreedIndex, RegionTags,
      IndexHoles, TracedAt, Lost, Tiled;
    var c, R' := Coalesced(s, R, h), CoalescedRegions(s, R, h);
    var g := CoalesceFrame(s, R, h);
    SameAdd(s, R, h);
    CoalescedAt(s, R, h, h);
    if LeftStale(s, R, h) {
      LeftHeader(s, R, h);
      StaleTrace(s, R, h, g, less);
    } else {
      HeaderTrace(s, R, h, less);
    }
    forall a | a in R' ensures TracedAt(c.mem, R', FreedIndex(c, less), a) {
      if a != h && a != g {
        CoalescedAt(s, R, h, a);
        Outside(s, R, h, g, a);
        if Lost(s.mem, R, s.index, Next(R, a)) {
          LostStays(s, R, h, Next(R, a), less);
        }
        OtherTrace(s, R, h, g, c.mem, R', FreedIndex(c, less), a);
      }
    }
  }

  lemma Outside(s: Heap, R: Regions, h: nat, g: nat, a: nat)
    requires Sound(s, R) && Live(R, h) && !FreeHalts(s, R, h) && a in R && a != h && a != g
    requires g in R && g <= h && (g == h || Next(R, g) == h)
    requires SameOutside(s.mem, Coalesced(s, R, h).mem, g, Next(R, h))
    ensures SameInside(s.mem, Coalesced(s, R, h).mem, a, Next(R, a))
    ensures Next(R, a) <= g || Next(R, h) <= a
  {
    hide Coalesced, FreeHalts, Tagged, WordAt, IndexHoles;
    Apart(R, s.start, s.end, a, g);
    Apart(R, s.start, s.end, a, h);
    NextIsBehind(R, s.start, s.end, a);
    Untouched(s.mem, Coalesced(s, R, h).mem, g, Next(R, h), a, Next(R, a));
  }

  lemma ContractedTrace(s: Heap, R: Regions, h: nat, a: nat)
    requires Freeable(s, R, h) && !FreeHalts(s, R, h) && !LeftStale(s, R, h) && ReachesEnd(s, R, h)
    requires Contractible(s, Target(s, R, h)) && a in FreedRegions(s, R, h) && a != Target(s, R, h)
    ensures TracedAt(Freed(s, R, h).mem, FreedRegions(s, R, h), Freed(s, R, h).index, a)
  {
    hide WordAt, Tagged, CoalescedRegions, Coalesced, AfterLeft, FreeHalts, LeftStale, FreedIndex, RegionTags,
      IndexHoles, TracedAt, Freed, Target, ContractMem, Lost;
    var c, s' := Coalesced(s, R, h), Freed(s, R, h);
    FreeSettles(s, R, h);
    ContractedKeeps(s, R, h);
    var g := CoalesceFrame(s, R, h);
    SameAdd(s, R, h);
    LeftSeen(s, R, h);
    CoalescedAt(s, R, h, a);
    BeforeTarget(s, R, h, g, a);
    Untouched(s.mem, c.mem, g, Next(R, h), a, Next(R, a));
    if Lost(s.mem, R, s.index, Next(R, a)) {
      LostStays(s, R, h, Next(R, a), BySize(c.mem));
      LostBefore(s, R, h, g, Next(R, a));
      ContractedLost(s, R, h, Next(R, a));
    }
    OtherTrace(s, R, h, g, s'.mem, FreedRegions(s, R, h), s'.index, a);
  }

  lemma BeforeTarget(s: Heap, R: Regions, h: nat, g: nat, a: nat)
    requires Sound(s, R) && Live(R, h) && ReachesEnd(s, R, h) && a in R && a != h && a != g
    requires g in R && (g == h || Next(R, g) == h) && !(HoleOnRight(R, h) && a == Next(R, h))
    ensures Next(R, a) <= g
  {
    hide WordAt, Tagged, IndexHoles;
    if a > h {
      NothingBehind(R, s.start, s.end, h, a);
    }
    Apart(R, s.start, s.end, a, g);
    Apart(R, s.start, s.end, a, h);
    NextIsBehind(R, s.start, s.end, a);
    NextIsBehind(R, s.start, s.end, g);
  }

  /** A lost hole lies in front of the hole that free makes at the end of the heap. */
  lemma LostBefore(s: Heap, R: Regions, h: nat, g: nat, e: nat)
    requires Sound(s, R) && Live(R, h) && ReachesEnd(s, R, h) && Lost(s.mem, R, s.index, e)
    requires g in R && (g == h || (Next(R, g) == h && LeftFound(s.mem, h)))
    requires e != h && !(HoleOnRight(R, h) && e == Next(R, h)) && !(LeftFound(s.mem, h) && Next(R, e) == h)
    ensures e + MIN_REGION <= Next(R, e) <= g
  {
    hide WordAt, Tagged, IndexHoles;
    assert e in R;
    NextIsBehind(R, s.start, s.end, e);
    BeforeTarget(s, R, h, g, e);
  }

  // ---- free as a whole ----

  /** free keeps the heap consistent and leaves every other block alone, in every call that is
      harmless. */
  lemma FreeKeepsConsistent(s: Heap, R: Regions, h: nat)
    requires Freeable(s, R, h) && !FreeHalts(s, R, h) && Harmless(s, R, h)
    ensures Consistent(Freed(s, R, h), FreedRegions(s, R, h))
    ensures BlocksKept(s, R - {h}, Freed(s, R, h), FreedRegions(s, R, h))
  {
    hide WordAt, Sound, CoalescedRegions, Coalesced, AfterLeft, FreeHalts, LeftStale, FreedIndex, TracedAt,
      Freed, Target, ContractMem, Contractible, UsedUp;
    var t, s', R' := Target(s, R, h), Freed(s, R, h), FreedRegions(s, R, h);
    if !ReachesEnd(s, R, h) {
      UnsettledKeeps(s, R, h);
      FreedIs(s, R, h);
      CoalesceKeepsTraces(s, R, h, BySize(Coalesced(s, R, h).mem));
    } else if LeftStale(s, R, h) {
      StaleCutKeeps(s, R, h);
    } else if Contractible(s, t) {
      ContractedKeeps(s, R, h);
      forall a | a in R' ensures TracedAt(s'.mem, R', s'.index, a) {
        if a == t {
          ContractedEnd(s, R, h);
        } else {
          ContractedTrace(s, R, h, a);
        }
      }
    } else {
      UsedUpKeeps(s, R, h);
    }
  }

  lemma ContractedEnd(s: Heap, R: Regions, h: nat)
    requires Freeable(s, R, h) && !FreeHalts(s, R, h) && !LeftStale(s, R, h) && ReachesEnd(s, R, h)
    requires Contractible(s, Target(s, R, h))
    ensures var t := Target(s, R, h);
      && t in FreedRegions(s, R, h) && Next(FreedRegions(s, R, h), t) == Freed(s, R, h).end
      && TracedAt(Freed(s, R, h).mem, FreedRegions(s, R, h), Freed(s, R, h).index, t)
  {
    hide WordAt, Sound, CoalescedRegions, Coalesced, FreeHalts, LeftStale, TracedAt, Freed, Target;
    ContractedKeeps(s, R, h);
    OwnTrace(Freed(s, R, h).mem, FreedRegions(s, R, h), Freed(s, R, h).index, Target(s, R, h));
  }

  lemma ContractedLost(s: Heap, R: Regions, h: nat, e: nat)
    requires Freeable(s, R, h) && !FreeHalts(s, R, h) && !LeftStale(s, R, h) && ReachesEnd(s, R, h)
    requires Contractible(s, Target(s, R, h)) && Lost(s.mem, R, s.index, e) && Next(R, e) <= Target(s, R, h)
    ensures Lost(Freed(s, R, h).mem, FreedRegions(s, R, h), Freed(s, R, h).index, e)
  {
    hide WordAt, Tagged, CoalescedRegions, Coalesced, AfterLeft, FreeHalts, LeftStale, FreedIndex, RegionTags,
      IndexHoles, Freed, Target, ContractMem, Tiled;
    var c, R', s' := Coalesced(s, R, h), CoalescedRegions(s, R, h), Freed(s, R, h);
    FreeSettles(s, R, h);
    FreedIs(s, R, h);
    ContractedKeeps(s, R, h);
    LostStays(s, R, h, e, BySize(s'.mem));
    SameAdd(s, R, h);
    RegionBounds(R, s.start, s.end, e);
    CoalescedAt(s, R, h, e);
    LostFrame(c.mem, R', s'.index, s'.mem, FreedRegions(s, R, h), s'.index, e);
  }

  /** A hole that is lost stays lost. */
  lemma FreeKeepsLost(s: Heap, R: Regions, h: nat, e: nat)
    requires Freeable(s, R, h) && !FreeHalts(s, R, h) && Harmless(s, R, h) && Lost(s.mem, R, s.index, e)
    ensures Lost(Freed(s, R, h).mem, FreedRegions(s, R, h), Freed(s, R, h).index, e)
  {
    hide WordAt, Tagged, CoalescedRegions, Coalesced, AfterLeft, FreeHalts, LeftStale, FreedIndex, IndexHoles, Freed,
      Target, ContractMem, Contractible, UsedUp, Tiled, Traced, Lost;
    LostStays(s, R, h, e, BySize(Coalesced(s, R, h).mem));
    if !ReachesEnd(s, R, h) {
      FreedIs(s, R, h);
    } else {
      var g := CoalesceFrame(s, R, h);
      var t := Target(s, R, h);
      SameAdd(s, R, h);
      LeftSeen(s, R, h);
      LostBefore(s, R, h, g, e);
      MergedIndex(s, R, h);
      FreeSettles(s, R, h);
      if LeftStale(s, R, h) {
        StaleCutMem(s, R, h);
        LostBelow(s.mem, R, s.index, s.start, s.end, Freed(s, R, h).mem, Freed(s, R, h).index, h, e);
      } else if Contractible(s, t) {
        ContractedLost(s, R, h, e);
      } else {
        CutIndex(s, R, h, Coalesced(s, R, h).index);
        BelowTarget(s, R, h, Coalesced(s, R, h).index);
        UsedUpState(s, R, h);
        LostBelow(s.mem, R, s.index, s.start, s.end, Freed(s, R, h).mem, Freed(s, R, h).index, t, e);
      }
    }
  }

  /** The block behind a stale footer is lost: the index never lists it again. */
  lemma StaleLoses(s: Heap, R: Regions, h: nat)
    requires Freeable(s, R, h) && !FreeHalts(s, R, h) && !ReachesEnd(s, R, h)
    requires LeftStale(s, R, h) && MIN_REGION < R[h].size
    ensures Lost(Freed(s, R, h).mem, FreedRegions(s, R, h), Freed(s, R, h).index, h)
  {
    hide WordAt, Tagged, CoalescedRegions, Coalesced, AfterLeft, FreeHalts, LeftStale, FreedIndex, IndexHoles,
      Freed, Tiled, Traced;
    FreedIs(s, R, h);
    BlockFooter(s, R, h);
    StaleLeaks(s, R, h, BySize(Coalesced(s, R, h).mem));
  }

  /** Releasing the block in front of a lost hole trips the assertion that the hole is indexed. */
  lemma LostHalts(s: Heap, R: Regions, h: nat)
    requires Sound(s, R) && Live(R, h) && Lost(s.mem, R, s.index, Next(R, h))
    ensures FreeHalts(s, R, h)
  {
    hide WordAt, Sound, FreeHalts;
    HaltsIff(s, R, h);
  }

  /** A right merge leaves a stale footer: the footer of the new hole still names the header that was
      swallowed, so the release of the block behind will follow it. */
  lemma RightMergeGoesStale(s: Heap, R: Regions, h: nat)
    requires Freeable(s, R, h) && !FreeHalts(s, R, h) && !LeftStale(s, R, h) && HoleOnRight(R, h)
    requires Live(R, MergedEnd(R, h)) && FOOTER <= MergedEnd(R, h) <= |s.mem|
    requires FooterAt(s.mem, MergedEnd(R, h) - FOOTER, Next(R, h))
    ensures Sound(Freed(s, R, h), FreedRegions(s, R, h)) && Live(FreedRegions(s, R, h), MergedEnd(R, h))
    ensures LeftStale(Freed(s, R, h), FreedRegions(s, R, h), MergedEnd(R, h))
  {
    hide WordAt, Tagged, CoalescedRegions, Coalesced, AfterLeft, FreeHalts, FreedIndex, IndexHoles, Freed,
      Tiled, Traced, FooterAt;
    var n, e := Next(R, h), MergedEnd(R, h);
    NotTheEnd(s, R, h);
    FreedIs(s, R, h);
    UnsettledKeeps(s, R, h);
    LiveSurvives(s, R, h, e);
    var g := CoalesceFrame(s, R, h);
    CoalescedAt(s, R, h, n);
    RegionBounds(R, s.start, s.end, n);
    TagsAt(s.mem, R, n);
    Untouched(s.mem, Coalesced(s, R, h).mem, g, n, n, e);
    SwallowedIsFound(s.mem, Coalesced(s, R, h).mem, n, R[n]);
  }

  /** A region that ends with its own footer passes the left test as long as its bytes are there. */
  lemma SwallowedIsFound(m: Mem, r: Mem, n: nat, g: Region)
    requires RegionTags(m, n, g) && g.hole && FooterAt(m, n + g.size - FOOTER, n) && SameInside(m, r, n, n + g.size)
    ensures n + g.size <= |r| && LeftFound(r, n + g.size) && WordAt(r, n + g.size - 4) == n
  {
    hide WordAt;
    WordFrame(m, r, n + g.size - FOOTER);
    WordFrame(m, r, n + g.size - 4);
  }

  lemma NotTheEnd(s: Heap, R: Regions, h: nat)
    requires Sound(s, R) && h in R && Live(R, MergedEnd(R, h))
    ensures !ReachesEnd(s, R, h)
  {
    hide WordAt, Tagged, IndexHoles;
  }

  /** What is left of the footer of a block released clear of the end: it names the header of the hole
      the block has become part of, but its magic number is spoilt if the block had a payload. */
  lemma FreedFooter(s: Heap, R: Regions, h: nat)
    requires Freeable(s, R, h) && !FreeHalts(s, R, h) && !ReachesEnd(s, R, h)
    ensures var m, n := Freed(s, R, h).mem, Next(R, h);
      && h + MIN_REGION <= n <= |m| && WordAt(m, n - 4) == Target(s, R, h)
      && (MIN_REGION < R[h].size ==> WordAt(m, n - FOOTER) != HEAP_MAGIC)
  {
    hide WordAt, Coalesced, FreeHalts, FreedIndex, Tagged, Tiled, Freed, Target;
    FreedIs(s, R, h);
    BlockFooter(s, R, h);
    TargetIs(s, R, h);
  }

  /** The removal at the end of free looks for the header behind the block, which is never in the index
      by then: a hole that is used up stays indexed. */
  lemma NothingToForget(s: Heap, R: Regions, h: nat)
    requires Sound(s, R) && Live(R, h) && !FreeHalts(s, R, h)
    ensures Next(R, h) !in Coalesced(s, R, h).index
    ensures Target(s, R, h) in s.index ==> Target(s, R, h) in Coalesced(s, R, h).index
  {
    hide WordAt, Coalesced, FreeHalts, Tagged, Tiled, Target;
    MergedIndex(s, R, h);
    TargetIs(s, R, h);
    RegionsInside(s, R);
  }

  // ---- The order of the index ----

  /** A hole that free does not touch keeps the size in its header. */
  lemma FreedKeySurvives(s: Heap, R: Regions, h: nat, x: nat)
    requires Freeable(s, R, h) && !FreeHalts(s, R, h) && !LeftFound(s.mem, h)
    requires ReachesEnd(s, R, h) ==> Contractible(s, h)
    requires x in R && x != h && !(HoleOnRight(R, h) && x == Next(R, h))
    ensures x + HEADER <= |s.mem| && SizeOf(Freed(s, R, h).mem, x) == SizeOf(s.mem, x)
  {
    hide WordAt, Tagged, Tiled, Coalesced, CoalescedRegions, FreeHalts, IndexHoles, FreedIndex, LeftStale,
      Traced, Freed, LeftFound, ContractMem, AfterLeft;
    var c, s' := Coalesced(s, R, h), Freed(s, R, h);
    LeftSeen(s, R, h);
    var g := CoalesceFrame(s, R, h);
    RegionBounds(R, s.start, s.end, x);
    Outside(s, R, h, g, x);
    FreedIs(s, R, h);
    if ReachesEnd(s, R, h) {
      BeforeTarget(s, R, h, g, x);
      NotStaleIfAlone(s, R, h);
      ContractedKeeps(s, R, h);
    }
    WordFrame(s.mem, c.mem, x + 8);
    WordFrame(c.mem, s'.mem, x + 8);
  }

  lemma NotStaleIfAlone(s: Heap, R: Regions, h: nat)
    requires Sound(s, R) && Live(R, h) && !LeftFound(s.mem, h)
    ensures !LeftStale(s, R, h) && Target(s, R, h) == h
  {
    hide Sound;
  }

  /** A release that finds no hole on its left keeps the index sorted by size, with a right merge or
      without: the hole is inserted with the size it has in the end. */
  lemma FreeKeepsSorted(s: Heap, R: Regions, h: nat)
    requires Freeable(s, R, h) && !FreeHalts(s, R, h) && !LeftFound(s.mem, h)
    requires ReachesEnd(s, R, h) ==> Contractible(s, h)
    requires Sorted(s.index, BySize(s.mem))
    ensures Sorted(Freed(s, R, h).index, BySize(Freed(s, R, h).mem))
    ensures h in Freed(s, R, h).index
  {
    hide WordAt, Tagged, Tiled, Coalesced, CoalescedRegions, FreeHalts, LeftStale, Traced, Freed, LeftFound,
      ContractMem, AfterLeft, Inserted, Sorted, SizeOf;
    var c, m := Coalesced(s, R, h), Freed(s, R, h).mem;
    NotStaleIfAlone(s, R, h);
    LeftSeen(s, R, h);
    SameAdd(s, R, h);
    FreedIs(s, R, h);
    IndexOrder(s, R, h);
    MergedIndex(s, R, h);
    forall x | x in c.index ensures SizeOf(m, x) == SizeOf(s.mem, x) {
      FreedKeySurvives(s, R, h, x);
    }
    if HoleOnRight(R, h) {
      RemovedSorted(s.index, IndexOf(s.index, Next(R, h)), BySize(s.mem));
    }
    SortedBySize(c.index, s.mem, m);
    BySizeIsWeakOrder(m);
    InsertedSorted(c.index, h, BySize(m));
    InsertedElements(c.index, h, BySize(m));
  }

  /** Both merges take the right neighbour out of the index, if it is a hole, and keep the order. */
  lemma IndexOrder(s: Heap, R: Regions, h: nat)
    requires Sound(s, R) && Live(R, h) && !FreeHalts(s, R, h)
    ensures HoleOnRight(R, h) ==> Next(R, h) in s.index
    ensures Coalesced(s, R, h).index ==
      if HoleOnRight(R, h) then Removed(s.index, IndexOf(s.index, Next(R, h))) else s.index
  {
    hide WordAt, AfterLeft, LeftStale, Tagged, Tiled, Removed;
    LeftHeader(s, R, h);
    HaltsIff(s, R, h);
  }

  /** A release that finds a hole on its left, and leaves something of it, leaves the index as it is
      but for the right neighbour: the hole that has grown keeps its place. */
  lemma FreeKeepsOrder(s: Heap, R: Regions, h: nat)
    requires Freeable(s, R, h) && !FreeHalts(s, R, h) && LeftFound(s.mem, h)
    requires ReachesEnd(s, R, h) ==> Contractible(s, Target(s, R, h))
    ensures HoleOnRight(R, h) ==> Next(R, h) in s.index
    ensures Freed(s, R, h).index ==
      if HoleOnRight(R, h) then Removed(s.index, IndexOf(s.index, Next(R, h))) else s.index
  {
    hide WordAt, Tagged, Tiled, Coalesced, CoalescedRegions, FreeHalts, LeftStale, Traced, Freed, LeftFound, AfterLeft,
      Inserted, Removed;
    LeftSeen(s, R, h);
    SameAdd(s, R, h);
    FreedIs(s, R, h);
    IndexOrder(s, R, h);
  }

  /** Clear of the end, every hole that free does not touch keeps the size in its header; so does the
      one on the left behind a stale footer. */
  lemma OtherKeySurvives(s: Heap, R: Regions, h: nat, x: nat)
    requires Freeable(s, R, h) && !FreeHalts(s, R, h) && LeftFound(s.mem, h) && !ReachesEnd(s, R, h)
    requires x in R && x != h && !(HoleOnRight(R, h) && x == Next(R, h))
    requires x != Target(s, R, h)
    ensures x + HEADER <= |s.mem| && SizeOf(Coalesced(s, R, h).mem, x) == SizeOf(s.mem, x)
  {
    hide WordAt, Tagged, Tiled, Coalesced, FreeHalts, IndexHoles, LeftStale, Traced, LeftFound, AfterLeft, Target;
    var c := Coalesced(s, R, h);
    TargetIs(s, R, h);
    RegionBounds(R, s.start, s.end, x);
    var g := CoalesceFrame(s, R, h);
    if x != g {
      Outside(s, R, h, g, x);
    } else {
      var left := StaleSize(s, R, h);
      SameLeft(s, R, h, g, left);
    }
    WordFrame(s.mem, c.mem, x + 8);
  }

  lemma SameLeft(s: Heap, R: Regions, h: nat, g: nat, left: nat)
    requires Sound(s, R) && g in R && left in R && Next(R, g) == Next(R, left) == h
    ensures g == left
  {
    hide WordAt, Tagged, IndexHoles;
    if g != left {
      Apart(R, s.start, s.end, g, left);
      NextIsBehind(R, s.start, s.end, g);
      NextIsBehind(R, s.start, s.end, left);
    }
  }

  /** The hole on the left, as it was and as it is once it has grown. */
  lemma GrownSize(s: Heap, R: Regions, h: nat)
    requires Consistent(s, R) && Live(R, h) && !FreeHalts(s, R, h) && LeftFound(s.mem, h)
    ensures SizeOf(Coalesced(s, R, h).mem, Target(s, R, h)) == MergedEnd(R, h) - Target(s, R, h)
    ensures SizeOf(s.mem, Target(s, R, h)) <= MergedEnd(R, h) - Target(s, R, h)
  {
    hide WordAt, Tagged, Tiled, Coalesced, FreeHalts, Traced, AfterLeft, IndexHoles;
    TargetIs(s, R, h);
    RegionBounds(R, s.start, s.end, h);
    if LeftStale(s, R, h) {
      var g := StaleSize(s, R, h);
    } else {
      HoleSize(s, R, h);
      TagsAt(s.mem, R, Target(s, R, h));
    }
  }

  /** A release that merges to the left, clear of the end, may leave the index out of order: it is
      still sorted by size exactly when the hole that has grown is not indexed, or not larger than
      the next one in the index. */
  lemma LeftMergeSortedIff(s: Heap, R: Regions, h: nat, i: nat)
    requires Freeable(s, R, h) && !FreeHalts(s, R, h) && LeftFound(s.mem, h) && !ReachesEnd(s, R, h)
    requires Sorted(s.index, BySize(s.mem))
    ensures var s', t := Freed(s, R, h), Target(s, R, h);
      && (t !in s'.index ==> Sorted(s'.index, BySize(s'.mem)))
      && (i < |s'.index| && s'.index[i] == t ==>
            (Sorted(s'.index, BySize(s'.mem)) <==>
               (i + 1 < |s'.index| ==> MergedEnd(R, h) - t <= SizeOf(s.mem, s'.index[i + 1]))))
  {
    hide WordAt, Tagged, Tiled, Coalesced, FreeHalts, LeftStale, Traced, Freed, LeftFound, AfterLeft, Inserted, Removed,
      SizeOf, Sorted, Target, MergedEnd;
    var c, s', t := Coalesced(s, R, h), Freed(s, R, h), Target(s, R, h);
    LeftSeen(s, R, h);
    SameAdd(s, R, h);
    FreedIs(s, R, h);
    IndexOrder(s, R, h);
    MergedIndex(s, R, h);
    assert Sorted(s'.index, BySize(s.mem)) by {
      if HoleOnRight(R, h) {
        RemovedSorted(s.index, IndexOf(s.index, Next(R, h)), BySize(s.mem));
      }
    }
    forall x | x in s'.index && x != t ensures SizeOf(c.mem, x) == SizeOf(s.mem, x) {
      OtherKeySurvives(s, R, h, x);
    }
    if t !in s'.index {
      SortedBySize(s'.index, s.mem, c.mem);
    } else if i < |s'.index| && s'.index[i] == t {
      GrownSize(s, R, h);
      GrownKeySortedIff(s'.index, s.mem, c.mem, i);
    }
  }

  // ---- What is left of the payload ----

  /** After a release clear of the end the payload is zero, and so are the first three bytes of what
      was its footer. */
  lemma FreedIsScrubbed(s: Heap, R: Regions, h: nat, i: nat)
    requires Freeable(s, R, h) && !FreeHalts(s, R, h) && !ReachesEnd(s, R, h)
    requires MIN_REGION < R[h].size && h + HEADER <= i < Next(R, h) - FOOTER + 3
    ensures i < |Freed(s, R, h).mem| && Freed(s, R, h).mem[i] == 0
  {
    hide WordAt, Coalesced, FreeHalts, Freed, FreedIndex, Tagged, Tiled;
    FreedIs(s, R, h);
    PayloadIsScrubbed(s, R, h, i);
  }

  /** The same once the merges are done. */
  lemma PayloadIsScrubbed(s: Heap, R: Regions, h: nat, i: nat)
    requires Sound(s, R) && Live(R, h) && !FreeHalts(s, R, h)
    requires MIN_REGION < R[h].size && h + HEADER <= i < Next(R, h) - FOOTER + 3
    ensures i < |s.mem| && Coalesced(s, R, h).mem[i] == 0
  {
    hide WordAt, AddSize, PutWord, Tagged, RegionTags, IndexHoles, LeftStale, Tiled, LeftFound, EndsAt;
    RegionBounds(R, s.start, s.end, h);
    LeftHeader(s, R, h);
    LeftSeen(s, R, h);
    var m, c := Scrubbed(s, R, h), AfterLeft(s, R, h);
    assert m[i] == 0;
    if !c.add {
      var g := StaleInside(s, R, h);
      RegionBounds(R, s.start, s.end, g);
      StoreFrame(m, h + R[h].size - 4, c.header, c.header, R[h].size);
    }
    AddSizeFrame(c.mem, c.header, SizeOf(c.mem, c.tail));
  }
}
