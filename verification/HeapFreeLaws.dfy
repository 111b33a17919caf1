/** When free of src/impl/kheap.c keeps the heap sound. */
module HeapFreeLaws {
  import opened Bytes
  import opened OrderedArrays
  import opened HeapModel
  import opened HeapAlloc
  import opened HeapFree
  import opened HeapSettle
  import opened HeapFreeSound

  /** Headers determine the regions: any tiling of the heap, or of a shorter or longer one, that the
      tags describe contains every region that the headers lead to. */
  lemma {:induction false} HeadersLead(m: Mem, R: Regions, start: nat, end: nat, R': Regions, newEnd: nat, a: nat)
    requires Tiled(R, start, end) && Tiled(R', start, newEnd) && Tagged(m, R') && a in R && a < newEnd
    requires forall x :: x in R && x <= a ==> HeaderAt(m, x, R[x].hole, R[x].size)
    ensures a in R' && R'[a] == R[a]
    decreases a
  {
    if a != start {
      var l := LeftNeighbour(R, start, end, a);
      HeadersLead(m, R, start, end, R', newEnd, l);
      assert Next(R', l) == a;
    }
    assert RegionTags(m, a, R'[a]);
  }

  // ---- A stale footer on behalf of an empty block ----

  /** The stores behind a stale left header x, for a block of MIN_REGION bytes at h. */
  lemma StaleStores(m: Mem, h: nat, x: nat, r: Mem)
    requires x + MIN_REGION <= h && h + MIN_REGION <= |m| <= WORD_LIMIT
    requires var c := AddSize(PutWord(m, h + 16, x), x, MIN_REGION);
      r == c || exists more: nat :: r == AddSize(c, x, more)
    ensures |r| == |m| && WordAt(r, h + 16) == x
    ensures forall i :: 0 <= i < |m| && !(h + 16 <= i < h + 20) && !(x + 8 <= i < x + 12) ==> r[i] == m[i]
  {
    hide WordAt, AddSize, PutWord;
    var m2 := PutWord(m, h + 16, x);
    var c := AddSize(m2, x, MIN_REGION);
    AddSizeFrame(m2, x, MIN_REGION);
    if r != c {
      var more: nat :| r == AddSize(c, x, more);
      AddSizeFrame(c, x, more);
    }
    WordFrame(m2, r, h + 16);
  }

  /** With a stale footer on its left, a block without payload is left with a footer that is
      valid but leads into another hole, while all headers stay as they are. */
  lemma StaleSpreads(s: Heap, R: Regions, h: nat)
    requires Sound(s, R) && Live(R, h) && !FreeHalts(s, R, h) && LeftStale(s, R, h) && R[h].size == MIN_REGION
    ensures forall a :: a in R ==> HeaderAt(Coalesced(s, R, h).mem, a, Flagged(R, h)[a].hole, R[a].size)
    ensures h + MIN_REGION <= |s.mem| && WordAt(Coalesced(s, R, h).mem, h + HEADER) == HEAP_MAGIC
    ensures WordAt(Coalesced(s, R, h).mem, h + 16) < h
  {
    hide WordAt, AddSize, ScrubMem, PutWord, Tagged, Tiled, PutByte, ZeroFill, RegionTags;
    RegionBounds(R, s.start, s.end, h);
    LeftHeader(s, R, h);
    var g := StaleInside(s, R, h);
    var m1, m, x := Scrubbed(s, R, h), Coalesced(s, R, h).mem, AfterLeft(s, R, h).header;
    ScrubTags(s.mem, R, s.start, s.end, h);
    RegionBounds(R, s.start, s.end, g);
    StaleStores(m1, h, x, m);
    WordFrame(m1, m, h + HEADER);
    forall a | a in R ensures HeaderAt(m, a, Flagged(R, h)[a].hole, R[a].size) {
      KeepsHeader(s, R, h, g, x, m1, m, a);
    }
  }

  lemma KeepsHeader(s: Heap, R: Regions, h: nat, g: nat, x: nat, m1: Mem, m: Mem, a: nat)
    requires Tiled(R, s.start, s.end) && h in R && Tagged(m1, Flagged(R, h)) && a in R
    requires g in R && Next(R, g) == h && PointsInside(g, R[g].size, x) && x != g && R[h].size == MIN_REGION
    requires |m| == |m1|
    requires forall i :: 0 <= i < |m| && !(h + 16 <= i < h + 20) && !(x + 8 <= i < x + 12) ==> m[i] == m1[i]
    ensures HeaderAt(m, a, Flagged(R, h)[a].hole, R[a].size)
  {
    hide WordAt;
    assert RegionTags(m1, a, Flagged(R, h)[a]);
    HeaderFrame(m1, m, a, Flagged(R, h)[a].hole, R[a].size);
  }

  lemma StrayFooter(m: Mem, h: nat, g: Region)
    requires g.size == MIN_REGION && h + MIN_REGION <= |m|
    requires WordAt(m, h + HEADER) == HEAP_MAGIC && WordAt(m, h + 16) < h
    ensures !RegionTags(m, h, g)
  {
    hide WordAt;
  }

  lemma EmptyBlockUnsound(s: Heap, R: Regions, h: nat, R': Regions)
    requires Freeable(s, R, h) && !FreeHalts(s, R, h) && !ReachesEnd(s, R, h)
    requires LeftStale(s, R, h) && !(MIN_REGION < R[h].size)
    ensures !Sound(Freed(s, R, h), R')
  {
    hide WordAt, Coalesced, FreeHalts, LeftStale, AfterLeft, RegionTags, Freed;
    var s' := Freed(s, R, h);
    RegionBounds(R, s.start, s.end, h);
    StaleSpreads(s, R, h);
    ReplaceTiles(R, s.start, s.end, h, true);
    FreedIs(s, R, h);
    if Sound(s', R') {
      HeadersLead(s'.mem, Flagged(R, h), s.start, s.end, R', s.end, h);
      StrayFooter(s'.mem, h, R'[h]);
    }
  }

  // ---- At the end of the heap ----

  lemma LastRegion(R: Regions, start: nat, end: nat) returns (l: nat)
    requires Tiled(R, start, end)
    ensures l in R && Next(R, l) == end
  {
    l := start;
    while Next(R, l) != end
      invariant l in R
      decreases end - l
    {
      l := Next(R, l);
    }
  }

  /** A heap whose last footer names an address too close to the end, or in front of the last region,
      has no sound reading. */
  lemma StrayEnd(m: Mem, R: Regions, start: nat, end: nat, t: nat, b: nat)
    requires Tiled(R, start, end) && FOOTER <= end <= |m| && FooterAt(m, end - FOOTER, t)
    requires end < t + MIN_REGION || (t < b < end && b in R)
    ensures !Tagged(m, R)
  {
    hide WordAt;
    var l := LastRegion(R, start, end);
    assert !RegionTags(m, l, R[l]);
  }

  /** What free leaves where its hole reaches the end of the heap. */
  lemma FreedAtEnd(s: Heap, R: Regions, h: nat)
    requires Freeable(s, R, h) && !FreeHalts(s, R, h) && ReachesEnd(s, R, h)
    ensures var c, t, s' := Coalesced(s, R, h), Target(s, R, h), Freed(s, R, h);
      && c.header == t && s.start <= t < s.end && t + HEADER <= |s.mem| && s'.start == s.start
      && s'.end == ContractEnd(s, t) && FOOTER <= s'.end <= |s'.mem| == |s.mem|
      && (s'.end != t ==>
            && FooterAt(s'.mem, s'.end - FOOTER, t)
            && forall i :: 0 <= i < s'.end - FOOTER && !(t + 8 <= i < t + 12) ==> s'.mem[i] == c.mem[i])
      && (s'.end == t ==>
            && s'.mem == c.mem
            && s'.index == FreedIndex(c.(index := Forgotten(c.index, Next(R, h))), BySize(c.mem)))
  {
    hide WordAt, Coalesced, FreeHalts, LeftStale, AfterLeft, FreedIndex, Forgotten, PutWord, PutFooter, Target, Sound,
      FooterAt, Traced;
    FreeSettles(s, R, h);
    ContractCases(s, Target(s, R, h));
  }

  /** The regions up to the hole on the left of the block keep their headers, whatever is done to
      the memory behind them. */
  lemma LeftHeaders(s: Heap, R: Regions, h: nat, g: nat, m: Mem, x: nat)
    requires Sound(s, R) && h in R && g in R && Next(R, g) == h && g + HEADER <= x && x + MIN_REGION <= h
    requires |m| == |s.mem| && forall i :: 0 <= i < x ==> m[i] == s.mem[i]
    ensures forall a :: a in R && a <= g ==> HeaderAt(m, a, R[a].hole, R[a].size)
  {
    hide WordAt;
    forall a | a in R && a <= g ensures HeaderAt(m, a, R[a].hole, R[a].size) {
      RegionBounds(R, s.start, s.end, a);
      assert RegionTags(s.mem, a, R[a]);
      HeaderFrame(s.mem, m, a, R[a].hole, R[a].size);
    }
  }

  /** A heap that ends behind a stale header x, but not in front of the block at h: the end cuts
      through the hole on the left, or the last footer names a header in front of its own region. */
  lemma PastStaleUnsound(s: Heap, R: Regions, h: nat, g: nat, x: nat, s': Heap, R': Regions)
    requires Sound(s, R) && h in R && g in R && Next(R, g) == h && g + HEADER <= x && x + MIN_REGION <= h
    requires |s'.mem| == |s.mem| && s'.start == s.start && x <= s'.end && s'.end != h && FOOTER <= s'.end <= |s.mem|
    requires forall i :: 0 <= i < x ==> s'.mem[i] == s.mem[i]
    requires h < s'.end ==> FooterAt(s'.mem, s'.end - FOOTER, x)
    ensures !Sound(s', R')
  {
    hide WordAt, RegionTags, FooterAt, IndexHoles;
    if Sound(s', R') {
      LeftHeaders(s, R, h, g, s'.mem, x);
      HeadersLead(s'.mem, R, s.start, s.end, R', s'.end, g);
      assert Next(R', g) == h;
      if h < s'.end {
        StrayEnd(s'.mem, R', s.start, s'.end, x, h);
      }
    }
  }

  /** A stale header at the end of the heap: unless the heap is cut in front of the block, the cut
      goes through a region, or the last footer names a header that is not its own. */
  lemma StaleEndUnsound(s: Heap, R: Regions, h: nat, R': Regions)
    requires Freeable(s, R, h) && !FreeHalts(s, R, h) && ReachesEnd(s, R, h)
    requires LeftStale(s, R, h) && h != s.start + HEAP_MIN_SIZE
    ensures !Sound(Freed(s, R, h), R')
  {
    hide WordAt, Coalesced, FreeHalts, LeftStale, AfterLeft, RegionTags, Freed, Target, FooterAt, ContractEnd,
      MergedEnd, Tiled, Tagged, IndexHoles;
    var x, s' := Target(s, R, h), Freed(s, R, h);
    FreedAtEnd(s, R, h);
    ContractCases(s, x);
    var g := StaleSize(s, R, h);
    if s'.end != x && s'.end < x + MIN_REGION {
      if Sound(s', R') {
        StrayEnd(s'.mem, R', s.start, s'.end, x, x);
      }
    } else {
      PastStaleUnsound(s, R, h, g, x, s', R');
    }
  }

  /** A hole that is used up stays in the index although the heap ends in front of it. */
  lemma UsedUpListed(s: Heap, R: Regions, h: nat)
    requires Freeable(s, R, h) && !FreeHalts(s, R, h) && ReachesEnd(s, R, h) && !LeftStale(s, R, h)
    requires UsedUp(s, Target(s, R, h)) && (Target(s, R, h) == h || Target(s, R, h) in s.index)
    ensures Target(s, R, h) in Freed(s, R, h).index && Freed(s, R, h).end == Target(s, R, h)
  {
    hide WordAt, Coalesced, FreeHalts, LeftStale, AfterLeft, FreedIndex, Forgotten, Target, Tagged, Traced,
      ContractEnd;
    var c, t, test := Coalesced(s, R, h), Target(s, R, h), Next(R, h);
    FreedAtEnd(s, R, h);
    ContractCases(s, t);
    MergedIndex(s, R, h);
    TargetIs(s, R, h);
    EndsBehind(R, s.start, s.end, h);
    AddedIfBlock(s, R, h);
    IndexKeeps(c, t, test, BySize(c.mem));
  }

  lemma AddedIfBlock(s: Heap, R: Regions, h: nat)
    requires Sound(s, R) && Live(R, h) && !FreeHalts(s, R, h)
    ensures Target(s, R, h) == h ==> Coalesced(s, R, h).add
  {
    hide WordAt, AfterLeft, LeftStale, Tagged, Tiled, LeftFound;
    LeftSeen(s, R, h);
    if !AfterLeft(s, R, h).add {
      var g := StaleInside(s, R, h);
    }
  }

  lemma IndexKeeps(c: Merge, t: nat, test: nat, less: Order)
    requires Distinct(c.index) && t != test
    ensures t in c.index || (c.add && t == c.header) ==>
      t in FreedIndex(c.(index := Forgotten(c.index, test)), less)
  {
    hide Inserted, Removed;
    if test in c.index {
      RemovedElements(c.index, IndexOf(c.index, test));
    }
    InsertedElements(Forgotten(c.index, test), c.header, less);
  }

  lemma EndUnsound(s: Heap, R: Regions, h: nat, R': Regions)
    requires Freeable(s, R, h) && !FreeHalts(s, R, h) && ReachesEnd(s, R, h) && !LeftStale(s, R, h)
    requires var t := Target(s, R, h);
      !Contractible(s, t) && !(UsedUp(s, t) && t % 0x1000 == 0 && t != h && t !in s.index)
    ensures !Sound(Freed(s, R, h), R')
  {
    hide WordAt, Coalesced, FreeHalts, LeftStale, AfterLeft, RegionTags, Freed, Target, FooterAt, ContractEnd,
      MergedEnd;
    var t, s' := Target(s, R, h), Freed(s, R, h);
    FreedAtEnd(s, R, h);
    ContractCases(s, t);
    if Sound(s', R') {
      if !UsedUp(s, t) {
        StrayEnd(s'.mem, R', s.start, s'.end, t, t);
      } else if t % 0x1000 == 0 {
        UsedUpListed(s, R, h);
      }
    }
  }

  // ---- The exact condition ----

  /** free leaves a heap that is sound under some reading of its memory if and only if the call is
      harmless, and then the heap is consistent as well. */
  lemma FreeSoundIff(s: Heap, R: Regions, h: nat)
    requires Freeable(s, R, h) && !FreeHalts(s, R, h)
    ensures (exists R' :: Sound(Freed(s, R, h), R')) <==> Harmless(s, R, h)
    ensures Harmless(s, R, h) ==> Consistent(Freed(s, R, h), FreedRegions(s, R, h))
  {
    hide Sound, FreeHalts, LeftStale, Freed, FreedRegions, Target, Contractible, UsedUp;
    if Harmless(s, R, h) {
      FreeKeepsConsistent(s, R, h);
    } else {
      forall R' ensures !Sound(Freed(s, R, h), R') {
        if !ReachesEnd(s, R, h) {
          EmptyBlockUnsound(s, R, h, R');
        } else if LeftStale(s, R, h) {
          StaleEndUnsound(s, R, h, R');
        } else {
          EndUnsound(s, R, h, R');
        }
      }
    }
  }
}
