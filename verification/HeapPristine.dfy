/** What free of src/impl/kheap.c achieves when every tag is intact. */
module HeapPristine {
  import opened Bytes
  import opened HeapModel
  import opened HeapGrow
  import opened HeapFree
  import opened HeapSettle
  import opened HeapFreeLaws
  import opened HeapFreeSound

  /** A heap in which all footers are intact, all holes indexed and no two holes adjacent, and
      behind whose end nothing passes for a hole. */
  ghost predicate Pristine(s: Heap, R: Regions) {
    && Sound(s, R) && FootersIntact(s.mem, R) && IndexComplete(s.index, R) && NoAdjacentHoles(R)
    && !RightFound(s.mem, s.end)
  }

  ghost predicate HoleOnLeft(R: Regions, h: nat) {
    exists g :: EndsAt(R, g, h) && R[g].hole
  }

  /** With intact footers every hole is traced. */
  lemma PristineTraced(s: Heap, R: Regions)
    requires Pristine(s, R)
    ensures Consistent(s, R)
  {
    hide WordAt, Tagged, IndexHoles, Lost;
    forall a | a in R ensures TracedAt(s.mem, R, s.index, a) {
      OwnTrace(s.mem, R, s.index, a);
    }
  }

  /** With intact footers the left test finds the hole on the left and nothing else. */
  lemma LeftIsHole(s: Heap, R: Regions, h: nat)
    requires Pristine(s, R) && Live(R, h)
    ensures !LeftStale(s, R, h)
    ensures AfterLeft(s, R, h).add <==> !HoleOnLeft(R, h)
    ensures !AfterLeft(s, R, h).add ==> EndsAt(R, AfterLeft(s, R, h).header, h)
  {
    hide WordAt, AfterLeft, Scrubbed, Tagged, RegionTags, IndexHoles, LeftFound;
    RegionsInside(s, R);
    LeftSeen(s, R, h);
    if h != s.start {
      var g := LeftNeighbour(R, s.start, s.end, h);
      TagsAt(s.mem, R, g);
      LeftTag(s.mem, g, R[g], h);
      assert EndsAt(R, g, h);
      OnlyOneEnds(R, s.start, s.end, h, g);
    } else {
      NotFound(s, R);
    }
  }

  lemma NotFound(s: Heap, R: Regions)
    requires Sound(s, R)
    ensures !LeftFound(s.mem, s.start) && !HoleOnLeft(R, s.start)
  {
    hide WordAt, Tagged, IndexHoles;
  }

  lemma OnlyOneEnds(R: Regions, start: nat, end: nat, h: nat, g: nat)
    requires Tiled(R, start, end) && EndsAt(R, g, h)
    ensures forall l :: EndsAt(R, l, h) ==> l == g
  {
  }

  lemma LeftTag(m: Mem, g: nat, region: Region, h: nat)
    requires RegionTags(m, g, region) && g + region.size == h && FooterAt(m, h - FOOTER, g) && |m| <= WORD_LIMIT
    ensures WordAt(m, h - 4) == g && (LeftFound(m, h) <==> region.hole)
  {
    hide WordAt;
  }

  /** With nothing marked behind the end and every hole indexed, no assertion of free can fail. */
  lemma NeverHalts(s: Heap, R: Regions, h: nat)
    requires Pristine(s, R) && Live(R, h)
    ensures !FreeHalts(s, R, h)
  {
    hide WordAt, AfterLeft, Tagged, FreeHalts;
    HaltsIff(s, R, h);
    EndOrRegion(R, s.start, s.end, h);
  }

  /** free of a block in a pristine heap never halts, and leaves one hole that covers the
      block and its hole neighbours and touches no other hole. */
  lemma FreeMakesMaximalHole(s: Heap, R: Regions, h: nat)
    requires Pristine(s, R) && Live(R, h)
    ensures !FreeHalts(s, R, h) && !LeftStale(s, R, h)
    ensures var t, R' := Target(s, R, h), CoalescedRegions(s, R, h);
      && t in R' && R'[t].hole
      && (if HoleOnLeft(R, h) then EndsAt(R, t, h) && R[t].hole else t == h)
      && Next(R', t) == (if HoleOnRight(R, h) then Next(R, Next(R, h)) else Next(R, h))
      && (forall a :: a in R' && a != t ==> a in R && R'[a] == R[a])
      && (forall a :: a in R && a !in R' ==> a == h || a == Next(R, h))
      && NoAdjacentHoles(R')
  {
    hide WordAt, Tagged, RegionTags, AfterLeft, CoalescedRegions, LeftFound, Tiled, LeftStale, IndexHoles, FreeHalts,
      Coalesced, FootersIntact;
    LeftIsHole(s, R, h);
    NeverHalts(s, R, h);
    LeftHeader(s, R, h);
    LeftSeen(s, R, h);
    var R' := CoalescedRegions(s, R, h);
    forall a
      ensures a in R' && a != AfterLeft(s, R, h).header ==> a in R && R'[a] == R[a]
      ensures a in R && a !in R' ==> a == h || a == Next(R, h)
    {
      CoalescedAt(s, R, h, a);
    }
    CoalescedAt(s, R, h, h);
    MergedApart(s, R, h);
  }

  lemma MergedApart(s: Heap, R: Regions, h: nat)
    requires Pristine(s, R) && Live(R, h) && !FreeHalts(s, R, h)
    ensures NoAdjacentHoles(CoalescedRegions(s, R, h))
  {
    hide WordAt, Tagged, RegionTags, AfterLeft, CoalescedRegions, LeftFound, Tiled, LeftStale, IndexHoles, FreeHalts,
      Coalesced, FootersIntact;
    LeftIsHole(s, R, h);
    LeftHeader(s, R, h);
    var t, R' := AfterLeft(s, R, h).header, CoalescedRegions(s, R, h);
    forall a | a in R' && R'[a].hole && Next(R', a) in R' ensures !R'[Next(R', a)].hole {
      CoalescedAt(s, R, h, a);
      CoalescedAt(s, R, h, Next(R', a));
      if a == t {
        if HoleOnRight(R, h) {
          assert !R[Next(R, Next(R, h))].hole;
        }
        NextIsBehind(R, s.start, s.end, h);
      } else {
        assert EndsAt(R, a, Next(R', a));
      }
    }
  }

  /** Every hole is indexed after a release in a pristine heap, be the heap contracted or not. */
  lemma FreeIndexesAll(s: Heap, R: Regions, h: nat)
    requires Freeable(s, R, h) && !FreeHalts(s, R, h) && !LeftStale(s, R, h) && IndexComplete(s.index, R)
    requires Harmless(s, R, h)
    ensures IndexComplete(Freed(s, R, h).index, FreedRegions(s, R, h))
  {
    hide WordAt, Sound, Coalesced, CoalescedRegions, FreeHalts, LeftStale, Target, FreedIndex, Freed, UsedUp, Traced;
    FreedIs(s, R, h);
    var c, t := Coalesced(s, R, h), Target(s, R, h);
    FreedIndexHoles(s, R, h, BySize(Freed(s, R, h).mem));
    if ReachesEnd(s, R, h) {
      TargetIndexed(s, R, h);
      TailMeetsHeader(s, R, h);
      FreeSettles(s, R, h);
      IndexAfterResize(Freed(s, R, h).index, CoalescedRegions(s, R, h), t, s.start + HEAP_MIN_SIZE - t);
    }
  }

  /** In a fully indexed heap the hole on the left is in the index. */
  lemma TargetIndexed(s: Heap, R: Regions, h: nat)
    requires Sound(s, R) && Live(R, h) && !LeftStale(s, R, h) && IndexComplete(s.index, R)
    ensures Target(s, R, h) == h || Target(s, R, h) in s.index
  {
    hide WordAt, AfterLeft, LeftStale, Tagged, Tiled, LeftFound;
    LeftSeen(s, R, h);
    LeftHeader(s, R, h);
  }

  /** Where the merged hole reaches the end of the heap and starts early enough, the heap afterwards
      has the minimum size and ends with that hole's footer. */
  lemma FreeContracts(s: Heap, R: Regions, h: nat)
    requires Freeable(s, R, h) && !FreeHalts(s, R, h) && !LeftStale(s, R, h)
    requires ReachesEnd(s, R, h) && Contractible(s, Target(s, R, h))
    ensures var s', R', t := Freed(s, R, h), FreedRegions(s, R, h), Target(s, R, h);
      && Consistent(s', R') && s'.end == s'.start + HEAP_MIN_SIZE && s'.start == s.start
      && t in R' && R'[t].hole && Next(R', t) == s'.end && FooterAt(s'.mem, s'.end - FOOTER, t)
  {
    hide WordAt, Sound, Coalesced, CoalescedRegions, FreeHalts, LeftStale, Target, Traced, Freed, FooterAt;
    FreeKeepsConsistent(s, R, h);
    ContractedKeeps(s, R, h);
    ContractedEnd(s, R, h);
    FreedFields(s, R, h);
  }

  /** Giving the last hole another size makes no neighbours of holes. */
  lemma ResizedApart(R: Regions, start: nat, end: nat, t: nat, newEnd: nat)
    requires NoAdjacentHoles(R) && t in R && R[t].hole && t + MIN_REGION <= newEnd
    requires Tiled(R[t := Region(newEnd - t, true)], start, newEnd)
    ensures NoAdjacentHoles(R[t := Region(newEnd - t, true)])
  {
    var R' := R[t := Region(newEnd - t, true)];
    EndIsNoRegion(R', start, newEnd);
    forall a | a in R' && R'[a].hole && Next(R', a) in R' ensures !R'[Next(R', a)].hole {
      if a != t {
        assert Next(R', a) == Next(R, a);
      }
    }
  }

  lemma EndIsNoRegion(R: Regions, start: nat, end: nat)
    requires Tiled(R, start, end)
    ensures end !in R
  {
  }

  /** In a pristine heap the call is harmless unless the new hole reaches the end of the heap and starts
      too late for the minimum size. */
  lemma HarmlessIff(s: Heap, R: Regions, h: nat)
    requires Pristine(s, R) && Live(R, h)
    ensures Harmless(s, R, h) <==> (ReachesEnd(s, R, h) ==> Contractible(s, Target(s, R, h)))
  {
    hide Sound, FootersIntact, IndexComplete, LeftStale, Target, UsedUp, Contractible;
    LeftIsHole(s, R, h);
    TargetIndexed(s, R, h);
  }

  /** The one hole that covers the block at h and its hole neighbours, up to `edge`, and the regions of
      R it has not swallowed. */
  ghost predicate OneMaximalHole(R: Regions, h: nat, R': Regions, t: nat, edge: nat)
    requires h in R
  {
    && t in R' && R'[t].hole && Next(R', t) == edge && NoAdjacentHoles(R')
    && (if HoleOnLeft(R, h) then EndsAt(R, t, h) && R[t].hole else t == h)
    && (forall a :: a in R' && a != t ==> a in R && R'[a] == R[a])
    && (forall a :: a in R && a !in R' ==> a == h || a == Next(R, h))
  }

  /** free of any live block of a pristine heap. It never halts. It leaves a sound heap if and only if
      the new hole stays clear of the end or starts early enough; and then the regions tile the heap,
      their tags describe them, the index lists exactly the holes, and one hole covers the block and its
      hole neighbours and touches no other. Where it reached the end, the heap has the minimum size. */
  lemma PristineFree(s: Heap, R: Regions, h: nat)
    requires Pristine(s, R) && Live(R, h) && (ReachesEnd(s, R, h) ==> s.start + HEAP_MIN_SIZE <= s.max)
    ensures Freeable(s, R, h) && !FreeHalts(s, R, h)
    ensures (exists R' :: Sound(Freed(s, R, h), R')) <==>
      (ReachesEnd(s, R, h) ==> Contractible(s, Target(s, R, h)))
    ensures (ReachesEnd(s, R, h) ==> Contractible(s, Target(s, R, h))) ==>
      var s', R' := Freed(s, R, h), FreedRegions(s, R, h);
      var edge := if ReachesEnd(s, R, h) then s.start + HEAP_MIN_SIZE else MergedEnd(R, h);
      && Consistent(s', R') && IndexComplete(s'.index, R')
      && OneMaximalHole(R, h, R', Target(s, R, h), edge)
      && s'.end == if ReachesEnd(s, R, h) then edge else s.end
  {
    hide Sound, FootersIntact, IndexComplete, LeftStale, Target, UsedUp, Contractible, FreeHalts, Freed,
      CoalescedRegions, ReachesEnd, Traced, Harmless, HoleOnLeft, HoleOnRight, NoAdjacentHoles;
    PristineTraced(s, R);
    NeverHalts(s, R, h);
    LeftIsHole(s, R, h);
    HarmlessIff(s, R, h);
    FreeSoundIff(s, R, h);
    if Harmless(s, R, h) {
      FreeIndexesAll(s, R, h);
      if ReachesEnd(s, R, h) {
        MaximalAtEnd(s, R, h);
      } else {
        MaximalInside(s, R, h);
      }
    }
  }

  lemma MaximalInside(s: Heap, R: Regions, h: nat)
    requires Pristine(s, R) && Freeable(s, R, h) && !FreeHalts(s, R, h) && !ReachesEnd(s, R, h)
    ensures OneMaximalHole(R, h, FreedRegions(s, R, h), Target(s, R, h), MergedEnd(R, h))
    ensures Freed(s, R, h).end == s.end
  {
    hide Sound, FootersIntact, IndexComplete, LeftStale, Target, FreeHalts, Coalesced, CoalescedRegions,
      Traced, HoleOnLeft, NoAdjacentHoles;
    FreeMakesMaximalHole(s, R, h);
    FreedIs(s, R, h);
  }

  lemma MaximalAtEnd(s: Heap, R: Regions, h: nat)
    requires Pristine(s, R) && Freeable(s, R, h) && !FreeHalts(s, R, h) && ReachesEnd(s, R, h)
    requires Contractible(s, Target(s, R, h))
    ensures OneMaximalHole(R, h, FreedRegions(s, R, h), Target(s, R, h), s.start + HEAP_MIN_SIZE)
    ensures Freed(s, R, h).end == s.start + HEAP_MIN_SIZE
  {
    hide Sound, FootersIntact, IndexComplete, LeftStale, Target, FreeHalts, CoalescedRegions, Traced, HoleOnLeft, Freed,
      NoAdjacentHoles, WordAt, Tiled;
    FreeMakesMaximalHole(s, R, h);
    FreeContracts(s, R, h);
    assert Tiled(FreedRegions(s, R, h), s.start, s.start + HEAP_MIN_SIZE) by {
      SoundTiles(Freed(s, R, h), FreedRegions(s, R, h));
    }
    ResizedApart(CoalescedRegions(s, R, h), s.start, s.end, Target(s, R, h), s.start + HEAP_MIN_SIZE);
  }

  lemma SoundTiles(s: Heap, R: Regions)
    requires Sound(s, R)
    ensures Tiled(R, s.start, s.end)
  {
  }
}
