/** The end of free of src/impl/kheap.c: contracting the heap, and putting the hole into the index. */
module HeapSettle {
  import opened Bytes
  import opened OrderedArrays
  import opened HeapModel
  import opened HeapGrow
  import opened HeapFree

  // ---- What free does once its merges are done ----

  /** contract: the heap keeps HEAP_MIN_SIZE bytes at least; the mask drops all higher bits
      of a length with an odd number of pages. */
  function ContractLength(n: nat): nat {
    var masked := if n / 0x1000 % 2 == 1 then 0x2000 else n;
    if masked < HEAP_MIN_SIZE then HEAP_MIN_SIZE else masked
  }

  /** Where the heap ends once contract has been asked to make it end at the header t. */
  function ContractEnd(s: Heap, t: nat): nat
    requires s.start <= t
  {
    s.start + ContractLength(t - s.start)
  }

  /** A hole at t keeps room for its tags when the heap is cut to its minimum size. */
  predicate Contractible(s: Heap, t: nat) {
    s.start <= t <= s.start + HEAP_MIN_SIZE - MIN_REGION
  }

  /** Contracting the heap leaves nothing of a hole at t. */
  predicate UsedUp(s: Heap, t: nat) {
    s.start + HEAP_MIN_SIZE <= t && (t - s.start) / 0x1000 % 2 == 0
  }

  lemma ContractCases(s: Heap, t: nat)
    requires s.start <= t
    ensures Contractible(s, t) ==> ContractEnd(s, t) == s.start + HEAP_MIN_SIZE
    ensures UsedUp(s, t) ==> ContractEnd(s, t) == t
    ensures !Contractible(s, t) && !UsedUp(s, t) ==>
      ContractEnd(s, t) == s.start + HEAP_MIN_SIZE < t + MIN_REGION && ContractEnd(s, t) != t
    ensures s.start % 0x1000 == 0 ==> (s.start + HEAP_MIN_SIZE) % 0x1000 == 0
  {
  }

  /** The header of the hole at t and the footer in front of the new end. The size and the address
      of the footer wrap around as uint32_t do, so the footer is always stored there. */
  ghost function ContractMem(m: Mem, t: nat, newEnd: nat): (r: Mem)
    requires t + HEADER <= |m| <= WORD_LIMIT && FOOTER <= newEnd <= |m|
    ensures |r| == |m|
  {
    PutFooter(PutWord(m, t + 8, (newEnd - t) % 0x1_0000_0000), newEnd - FOOTER, t)
  }

  /** The index without x. */
  ghost function Forgotten(index: seq<nat>, x: nat): seq<nat> {
    if x in index then Removed(index, IndexOf(index, x)) else index
  }

  /** What the end of free relies on where the hole reaches the end of the heap. */
  ghost predicate Settleable(s: Heap, c: Merge) {
    c.tail == s.end ==>
      && s.start <= c.header < s.end && s.end <= s.max && s.start + HEAP_MIN_SIZE <= s.max
      && s.max + 2 * MIN_REGION <= |c.mem| <= WORD_LIMIT
      && WordAt(c.mem, c.header + 8) == s.end - c.header
  }

  /** The end of free: contract the heap if the hole reaches its end, and index the hole; `test`
      is the address behind the block that was freed. */
  ghost function Settled(s: Heap, c: Merge, test: nat): Heap
    requires Settleable(s, c)
  {
    if c.tail != s.end then
      s.(mem := c.mem, index := FreedIndex(c, BySize(c.mem)))
    else
      var newEnd := ContractEnd(s, c.header);
      ContractCases(s, c.header);
      if newEnd == c.header then
        s.(mem := c.mem, end := newEnd,
           index := FreedIndex(c.(index := Forgotten(c.index, test)), BySize(c.mem)))
      else
        var m := ContractMem(c.mem, c.header, newEnd);
        s.(mem := m, end := newEnd, index := FreedIndex(c, BySize(m)))
  }

  // ---- The calls ----

  /** The hole that free makes reaches the end of the heap. */
  ghost predicate ReachesEnd(s: Heap, R: Regions, h: nat)
    requires h in R
  {
    MergedEnd(R, h) == s.end
  }

  /** A call of free on a live block of a consistent heap. A heap that is contracted may be as
      large as contract makes it. */
  ghost predicate Freeable(s: Heap, R: Regions, h: nat) {
    && Consistent(s, R) && Live(R, h)
    && (ReachesEnd(s, R, h) ==> s.start + HEAP_MIN_SIZE <= s.max)
  }

  /** The stores of a left merge into a header at x in front of the block at h. */
  lemma FollowedSize(m: Mem, h: nat, size: nat, x: nat)
    requires 0 < x && x + MIN_REGION <= h && MIN_REGION <= size && h + size <= |m| <= WORD_LIMIT
    requires x + SizeOf(m, x) == h
    ensures var r := AddSize(PutWord(m, h + size - 4, x), x, size);
      && WordAt(r, x + 8) == h + size - x
      && forall i :: 0 <= i < h && !(x + 8 <= i < x + 12) ==> r[i] == m[i]
  {
    hide WordAt, AddSize, PutWord;
    var m2 := PutWord(m, h + size - 4, x);
    WordFrame(m, m2, x + 8);
    AddSizeFrame(m2, x, size);
  }

  lemma AddedSize(m: Mem, x: nat, more: nat)
    requires x + HEADER <= |m| && WordAt(m, x + 8) + more < WORD_LIMIT
    ensures WordAt(AddSize(m, x, more), x + 8) == WordAt(m, x + 8) + more
    ensures forall i :: 0 <= i < |m| && !(x + 8 <= i < x + 12) ==> AddSize(m, x, more)[i] == m[i]
  {
    hide WordAt, AddSize;
    AddSizeFrame(m, x, more);
  }

  /** A stale header has a size that reaches to the block behind the hole. */
  lemma StaleReach(s: Heap, R: Regions, h: nat) returns (g: nat)
    requires Consistent(s, R) && Live(R, h) && LeftStale(s, R, h)
    ensures g in R && R[g].hole && Next(R, g) == h
    ensures var x := Target(s, R, h);
      && AfterLeft(s, R, h).header == x && !AfterLeft(s, R, h).add
      && g + HEADER <= x && x + MIN_REGION <= h <= |s.mem| && x + SizeOf(s.mem, x) == h
      && WordAt(s.mem, h - FOOTER) == HEAP_MAGIC && WordAt(s.mem, h - 4) == x
  {
    hide WordAt, AfterLeft, Tagged, Tiled, RegionTags, IndexHoles, Scrubbed;
    LeftSeen(s, R, h);
    StaleAs(s, R, h);
    g := StaleInside(s, R, h);
    assert TracedAt(s.mem, R, s.index, g);
  }

  /** Through a stale footer, too, free gives its hole a size that reaches to where it ends. */
  lemma StaleSize(s: Heap, R: Regions, h: nat) returns (g: nat)
    requires Consistent(s, R) && Live(R, h) && !FreeHalts(s, R, h) && LeftStale(s, R, h)
    ensures g in R && R[g].hole && Next(R, g) == h
    ensures var x := Target(s, R, h);
      && Coalesced(s, R, h).header == x && g + HEADER <= x && x + MIN_REGION <= h <= |s.mem|
      && x + SizeOf(s.mem, x) == h
      && WordAt(s.mem, h - FOOTER) == HEAP_MAGIC && WordAt(s.mem, h - 4) == x
      && WordAt(Coalesced(s, R, h).mem, x + 8) == MergedEnd(R, h) - x
      && (forall i :: 0 <= i < h && !(x + 8 <= i < x + 12) ==> Coalesced(s, R, h).mem[i] == s.mem[i])
  {
    hide WordAt, AddSize, ScrubMem, PutWord, Tagged, Tiled, RegionTags, IndexHoles, LeftStale, Target, TracedAt;
    g := StaleReach(s, R, h);
    LeftHeader(s, R, h);
    TailIs(s, R, h);
    HaltsIff(s, R, h);
    RegionBounds(R, s.start, s.end, h);
    var x, m, c := Target(s, R, h), Scrubbed(s, R, h), AfterLeft(s, R, h);
    ScrubTags(s.mem, R, s.start, s.end, h);
    WordFrame(s.mem, m, x + 8);
    FollowedSize(m, h, R[h].size, x);
    if RightHole(s, R, h) {
      AddedSize(c.mem, x, SizeOf(c.mem, c.tail));
    }
  }

  lemma HoleSize(s: Heap, R: Regions, h: nat)
    requires Sound(s, R) && Live(R, h) && !FreeHalts(s, R, h) && !LeftStale(s, R, h)
    ensures s.start <= Coalesced(s, R, h).header && Coalesced(s, R, h).header + MIN_REGION <= MergedEnd(R, h)
    ensures WordAt(Coalesced(s, R, h).mem, Coalesced(s, R, h).header + 8) == MergedEnd(R, h) - Coalesced(s, R, h).header
  {
    hide WordAt, CoalescedRegions, Coalesced, AfterLeft, FreeHalts, LeftStale, RegionTags;
    var c := Coalesced(s, R, h);
    TailMeetsHeader(s, R, h);
    CoalesceTags(s, R, h);
    var R' := CoalescedRegions(s, R, h);
    RegionBounds(R', s.start, s.end, c.header);
    TagsSize(c.mem, c.header, R'[c.header]);
  }

  /** The end of free finds what it relies on. */
  lemma FreeSettles(s: Heap, R: Regions, h: nat)
    requires Freeable(s, R, h) && !FreeHalts(s, R, h)
    ensures Settleable(s, Coalesced(s, R, h))
    ensures Coalesced(s, R, h).tail == s.end <==> ReachesEnd(s, R, h)
    ensures Coalesced(s, R, h).header == Target(s, R, h)
    ensures s.start <= Target(s, R, h) && Target(s, R, h) + MIN_REGION <= MergedEnd(R, h)
  {
    hide WordAt, Coalesced, AfterLeft, FreeHalts, LeftStale, Tagged, Tiled, IndexHoles, Target, MergedEnd;
    TailIs(s, R, h);
    TargetIs(s, R, h);
    if LeftStale(s, R, h) {
      var g := StaleSize(s, R, h);
      RegionBounds(R, s.start, s.end, g);
      RegionBounds(R, s.start, s.end, h);
      EndsBehind(R, s.start, s.end, h);
    } else {
      HoleSize(s, R, h);
    }
  }

  lemma TargetIs(s: Heap, R: Regions, h: nat)
    requires Sound(s, R) && Live(R, h) && !FreeHalts(s, R, h)
    ensures Coalesced(s, R, h).header == Target(s, R, h) <= h
  {
    hide AfterLeft, Sound, Target, LeftStale;
    LeftSeen(s, R, h);
    LeftHeader(s, R, h);
    if LeftStale(s, R, h) {
      var g := StaleInside(s, R, h);
    }
  }

  lemma EndsBehind(R: Regions, start: nat, end: nat, h: nat)
    requires Tiled(R, start, end) && h in R
    ensures h + MIN_REGION <= Next(R, h) <= MergedEnd(R, h)
  {
  }

  /** The heap after free of the block at h. */
  ghost function Freed(s: Heap, R: Regions, h: nat): Heap
    requires Freeable(s, R, h) && !FreeHalts(s, R, h)
  {
    FreeSettles(s, R, h);
    Settled(s, Coalesced(s, R, h), Next(R, h))
  }

  /** What a call of free on the block at h in s answers and leaves behind. */
  ghost predicate FreeResult(s: Heap, R: Regions, h: nat, ok: bool, s': Heap) {
    && Freeable(s, R, h)
    && ok == !FreeHalts(s, R, h)
    && (ok ==> s' == Freed(s, R, h))
  }

  /** The regions in front of b. */
  ghost function Below(R: Regions, b: nat): Regions {
    map a | a in R && a < b :: R[a]
  }

  /** The regions after free, for the calls that leave a sound heap. */
  ghost function FreedRegions(s: Heap, R: Regions, h: nat): Regions
    requires Freeable(s, R, h) && !FreeHalts(s, R, h)
  {
    var t := Target(s, R, h);
    if !ReachesEnd(s, R, h) then CoalescedRegions(s, R, h)
    else if LeftStale(s, R, h) then Below(R, h)
    else if Contractible(s, t) then CoalescedRegions(s, R, h)[t := Region(s.start + HEAP_MIN_SIZE - t, true)]
    else Below(R, t)
  }

  /** What a caller can check before the call: clear of the end of the heap, a stale footer on the
      left must not meet an empty block. At the end, a stale footer is harmless only if the heap is
      cut exactly in front of the block; otherwise the hole must start early enough to keep room
      for its tags, or be cut off as a whole, at a page boundary and unindexed. */
  ghost predicate Harmless(s: Heap, R: Regions, h: nat)
    requires Sound(s, R) && Live(R, h)
  {
    var t := Target(s, R, h);
    if !ReachesEnd(s, R, h) then !LeftStale(s, R, h) || MIN_REGION < R[h].size
    else if LeftStale(s, R, h) then h == s.start + HEAP_MIN_SIZE
    else Contractible(s, t) || (UsedUp(s, t) && t % 0x1000 == 0 && t != h && t !in s.index)
  }

  // ---- Cutting the heap down to a boundary between regions ----

  lemma BelowTiles(R: Regions, start: nat, end: nat, b: nat)
    requires Tiled(R, start, end) && b in R && b != start
    ensures Tiled(Below(R, b), start, b)
  {
    var R' := Below(R, b);
    forall a | a in R' ensures Next(R', a) == b || Next(R', a) in R' {
      assert Next(R', a) == Next(R, a);
    }
  }

  /** The heap cut off in front of the region at b. */
  lemma BelowConsistent(s: Heap, R: Regions, b: nat, m: Mem, index: seq<nat>)
    requires Consistent(s, R) && b in R && b != s.start && b % 0x1000 == 0
    requires SameInside(s.mem, m, 0, b) && !Lost(s.mem, R, s.index, b)
    requires Distinct(index) && forall x :: x in index ==> x in s.index && x < b
    ensures Consistent(s.(mem := m, end := b, index := index), Below(R, b))
  {
    hide WordAt, RegionTags, Lost, TracedAt;
    var R' := Below(R, b);
    BelowTiles(R, s.start, s.end, b);
    RegionBounds(R, s.start, s.end, b);
    WordFrame(s.mem, m, s.start - FOOTER);
    forall a | a in R' ensures RegionTags(m, a, R'[a]) && TracedAt(m, R', index, a) {
      RegionBounds(R', s.start, b, a);
      TagsAt(s.mem, R, a);
      RegionTagsFrame(s.mem, m, a, R[a]);
      var e := Next(R, a);
      if Lost(s.mem, R, s.index, e) {
        NotPast(R, s.start, s.end, a, b);
        LostBelow(s.mem, R, s.index, s.start, s.end, m, index, b, e);
      }
      TracedFrame(s.mem, R, s.index, m, R', index, a);
    }
  }

  lemma NotPast(R: Regions, start: nat, end: nat, a: nat, b: nat)
    requires Tiled(R, start, end) && a in R && b in R && a < b
    ensures Next(R, a) <= b
  {
  }

  lemma LostBelow(m: Mem, R: Regions, index: seq<nat>, start: nat, end: nat, m': Mem, index': seq<nat>, b: nat, e: nat)
    requires Tiled(R, start, end) && b in R && e < b && Lost(m, R, index, e)
    requires SameInside(m, m', 0, b) && (forall x :: x in index' ==> x in index)
    ensures Lost(m', Below(R, b), index', e)
  {
    hide WordAt;
    LostFrame(m, R, index, m', Below(R, b), index', e);
  }

  /** Where the freed hole reaches the end, nothing but a hole that it swallows lies behind the block. */
  lemma NothingBehind(R: Regions, start: nat, end: nat, h: nat, a: nat)
    requires Tiled(R, start, end) && h in R && MergedEnd(R, h) == end && a in R && h < a
    ensures HoleOnRight(R, h) && a == Next(R, h)
  {
  }

  lemma SameWord(m: Mem, r: Mem, a: nat)
    requires a + 4 <= |m| == |r| && WordAt(m, a) == WordAt(r, a)
    ensures SameInside(m, r, a, a + 4)
  {
    SameBytes(m[a], m[a + 1], m[a + 2], m[a + 3], r[a], r[a + 1], r[a + 2], r[a + 3]);
  }

  lemma SameBytes(a: byte, b: byte, c: byte, d: byte, e: byte, f: byte, g: byte, h: byte)
    requires Word(a, b, c, d) == Word(e, f, g, h)
    ensures a == e && b == f && c == g && d == h
  {
    LowByte(a, b + 0x100 * (c + 0x100 * d), e, f + 0x100 * (g + 0x100 * h));
    LowByte(b, c + 0x100 * d, f, g + 0x100 * h);
    LowByte(c, d, g, h);
  }

  lemma LowByte(a: byte, x: nat, b: byte, y: nat)
    requires a + 0x100 * x == b + 0x100 * y
    ensures a == b && x == y
  {
  }

  /** Cutting the heap in front of the block rewrites what the stale footer says already. */
  lemma StaleCutMem(s: Heap, R: Regions, h: nat)
    requires Freeable(s, R, h) && !FreeHalts(s, R, h) && LeftStale(s, R, h) && ReachesEnd(s, R, h)
    requires h == s.start + HEAP_MIN_SIZE
    ensures Freed(s, R, h).end == h && SameInside(s.mem, Freed(s, R, h).mem, 0, h)
    ensures Freed(s, R, h).index == Coalesced(s, R, h).index
  {
    hide WordAt, PutWord, AfterLeft, Tagged, Tiled, RegionTags, IndexHoles, LeftStale, Coalesced, Target, FreeHalts,
      FreedIndex;
    var x, m := Target(s, R, h), Coalesced(s, R, h).mem;
    FreeSettles(s, R, h);
    var g := StaleSize(s, R, h);
    RegionBounds(R, s.start, s.end, g);
    ContractCases(s, x);
    NotAdded(s, R, h);
    var m1 := PutWord(m, x + 8, h - x);
    var m2 := PutFooter(m1, h - FOOTER, x);
    WordFrame(m1, m2, x + 8);
    SameWord(s.mem, m2, x + 8);
    SameWord(s.mem, m2, h - FOOTER);
    SameWord(s.mem, m2, h - 4);
  }

  lemma NotAdded(s: Heap, R: Regions, h: nat)
    requires Sound(s, R) && Live(R, h) && !FreeHalts(s, R, h) && LeftStale(s, R, h)
    ensures forall less :: FreedIndex(Coalesced(s, R, h), less) == Coalesced(s, R, h).index
  {
    hide WordAt, AfterLeft, LeftStale, Sound;
    LeftHeader(s, R, h);
  }

  /** The index after both merges. */
  lemma MergedIndex(s: Heap, R: Regions, h: nat)
    requires Sound(s, R) && Live(R, h) && !FreeHalts(s, R, h)
    ensures Distinct(Coalesced(s, R, h).index)
    ensures forall x :: x in Coalesced(s, R, h).index <==> x in s.index && !(HoleOnRight(R, h) && x == Next(R, h))
  {
    hide WordAt, AfterLeft, LeftStale, Tagged, Tiled, Removed;
    LeftHeader(s, R, h);
    HaltsIff(s, R, h);
    if HoleOnRight(R, h) {
      RemovedElements(s.index, IndexOf(s.index, Next(R, h)));
    }
  }

  /** Every block that free leaves alone lies below the cut. */
  lemma BlocksBelow(s: Heap, R: Regions, h: nat, b: nat, m: Mem)
    requires Sound(s, R) && Live(R, h) && ReachesEnd(s, R, h) && b in R && b <= h && (b != h ==> Next(R, b) == h)
    requires b != h ==> R[b].hole
    requires SameInside(s.mem, m, 0, b)
    ensures BlocksKept(s, R - {h}, s.(mem := m), Below(R, b))
  {
    hide WordAt, Tagged;
    forall a | a in R && !R[a].hole && a != h
      ensures a in Below(R, b) && SameInside(s.mem, m, a, a + R[a].size)
    {
      if a > h {
        NothingBehind(R, s.start, s.end, h, a);
      }
      Apart(R, s.start, s.end, a, b);
    }
  }

  lemma StaleCutKeeps(s: Heap, R: Regions, h: nat)
    requires Freeable(s, R, h) && !FreeHalts(s, R, h) && LeftStale(s, R, h) && ReachesEnd(s, R, h)
    requires h == s.start + HEAP_MIN_SIZE
    ensures Consistent(Freed(s, R, h), Below(R, h))
    ensures BlocksKept(s, R - {h}, Freed(s, R, h), Below(R, h))
  {
    hide WordAt, AfterLeft, Tagged, Tiled, LeftStale, Coalesced, FreeHalts, Freed, TracedAt;
    var s', index := Freed(s, R, h), Coalesced(s, R, h).index;
    StaleCutMem(s, R, h);
    MergedIndex(s, R, h);
    CutIndex(s, R, h, index);
    BlocksBelow(s, R, h, h, s'.mem);
    BelowConsistent(s, R, h, s'.mem, index);
    FreedFields(s, R, h);
  }

  /** Of the regions behind the block none is left in the index. */
  lemma CutIndex(s: Heap, R: Regions, h: nat, index: seq<nat>)
    requires Sound(s, R) && Live(R, h) && ReachesEnd(s, R, h)
    requires forall x :: x in index <==> x in s.index && !(HoleOnRight(R, h) && x == Next(R, h))
    ensures forall x :: x in index ==> x < h
    ensures Next(R, h) !in index
  {
    hide WordAt, Tagged, Tiled;
    RegionBounds(R, s.start, s.end, h);
    if Next(R, h) in R {
      RegionBounds(R, s.start, s.end, Next(R, h));
    }
    forall x | x in index ensures x < h {
      assert x in R && R[x].hole;
      if h < x {
        NothingBehind(R, s.start, s.end, h, x);
      }
    }
  }

  lemma FreedFields(s: Heap, R: Regions, h: nat)
    requires Freeable(s, R, h) && !FreeHalts(s, R, h)
    ensures Freed(s, R, h).start == s.start && Freed(s, R, h).max == s.max && |Freed(s, R, h).mem| == |s.mem|
  {
    hide Coalesced, FreeHalts, ContractLength, Consistent, LeftStale, FreedIndex, Forgotten, ContractMem, WordAt, Tiled;
    FreeSettles(s, R, h);
  }

  /** An unindexed hole at a page boundary that is cut off as a whole. */
  lemma UsedUpKeeps(s: Heap, R: Regions, h: nat)
    requires Freeable(s, R, h) && !FreeHalts(s, R, h) && !LeftStale(s, R, h) && ReachesEnd(s, R, h)
    requires var t := Target(s, R, h); UsedUp(s, t) && t % 0x1000 == 0 && t != h && t !in s.index
    ensures Consistent(Freed(s, R, h), Below(R, Target(s, R, h)))
    ensures BlocksKept(s, R - {h}, Freed(s, R, h), Below(R, Target(s, R, h)))
  {
    hide WordAt, Tagged, Tiled, LeftStale, Coalesced, FreeHalts, TracedAt, Sound, Target, UsedUp, ContractEnd;
    var t, c := Target(s, R, h), Coalesced(s, R, h);
    FreeSettles(s, R, h);
    ContractCases(s, t);
    UsedUpState(s, R, h);
    MergedIndex(s, R, h);
    CutIndex(s, R, h, c.index);
    BelowTarget(s, R, h, c.index);
    BlocksBelow(s, R, h, t, c.mem);
    BelowConsistent(s, R, t, c.mem, c.index);
  }

  lemma UsedUpState(s: Heap, R: Regions, h: nat)
    requires Freeable(s, R, h) && !FreeHalts(s, R, h) && !LeftStale(s, R, h) && ReachesEnd(s, R, h)
    requires UsedUp(s, Target(s, R, h)) && Target(s, R, h) != h
    ensures var c := Coalesced(s, R, h);
      Freed(s, R, h) == s.(mem := c.mem, end := Target(s, R, h), index := c.index)
    ensures s.start < Target(s, R, h)
  {
    hide WordAt, Tagged, Tiled, LeftStale, Coalesced, FreeHalts, AfterLeft, Sound, Target, ContractLength;
    FreeSettles(s, R, h);
    ContractCases(s, Target(s, R, h));
    MergedIndex(s, R, h);
    CutIndex(s, R, h, Coalesced(s, R, h).index);
    LeftSeen(s, R, h);
    JoinedLeft(s, R, h);
  }

  lemma JoinedLeft(s: Heap, R: Regions, h: nat)
    requires Sound(s, R) && Live(R, h) && !FreeHalts(s, R, h) && Target(s, R, h) != h
    ensures !Coalesced(s, R, h).add
  {
    hide WordAt, Tagged, Tiled, LeftStale, AfterLeft;
    LeftSeen(s, R, h);
  }

  /** The hole on the left is where the heap is cut. */
  lemma BelowTarget(s: Heap, R: Regions, h: nat, index: seq<nat>)
    requires Sound(s, R) && Live(R, h) && !FreeHalts(s, R, h) && !LeftStale(s, R, h)
    requires var t := Target(s, R, h); t != h && t !in s.index
    requires forall x :: x in index ==> x in s.index && x < h
    ensures var t := Target(s, R, h);
      && t in R && R[t].hole && Next(R, t) == h && !Lost(s.mem, R, s.index, t)
      && SameInside(s.mem, Coalesced(s, R, h).mem, 0, t)
      && (forall x :: x in index ==> x < t)
  {
    hide WordAt, Tagged, LeftStale, AfterLeft, Coalesced, FreeHalts;
    LeftSeen(s, R, h);
    LeftHeader(s, R, h);
    TargetIs(s, R, h);
    var g := CoalesceFrame(s, R, h);
  }
}
