/** Growing the kernel heap, and alloc's recursion through expand (src/impl/kheap.c). */
module HeapGrow {
  import opened Bytes
  import opened OrderedArrays
  import opened HeapModel
  import opened HeapAlloc

  /** A length as expand rounds it: up to the next page boundary, even when it is on one. */
  function Rounded(n: nat): (r: nat)
    ensures n <= r
    ensures 0x1000 <= n ==> r % 0x1000 == 0 && r == n - n % 0x1000 + 0x1000
  {
    if n / 0x1000 != 0 then n - n % 0x1000 + 0x1000 else n
  }

  /** By how much expand makes the heap longer. */
  function Growth(s: Heap, need: nat): nat
    requires s.start <= s.end
  {
    Rounded(s.end - s.start + need) - (s.end - s.start)
  }

  predicate HasRoom(s: Heap, need: nat)
    requires s.start <= s.end
  {
    s.end + Growth(s, need) <= s.max
  }

  /** The highest address in the index, 0 for an empty one. */
  ghost function Top(index: seq<nat>): (t: nat)
    ensures index != [] ==> t in index
    ensures forall x :: x in index ==> x <= t
  {
    if index == [] then 0
    else
      var t := Top(index[..|index| - 1]);
      assert index == index[..|index| - 1] + [index[|index| - 1]];
      if index[|index| - 1] > t then index[|index| - 1] else t
  }

  /** There is no indexed hole, or the one at the highest address touches the end of the heap. */
  ghost predicate TopAbuts(s: Heap, R: Regions) {
    s.index == [] || (Top(s.index) in R && Next(R, Top(s.index)) == s.end)
  }

  /** The regions after growth by g, as the headers describe them. */
  ghost function GrowRegions(s: Heap, R: Regions, g: nat): Regions {
    var t := Top(s.index);
    if s.index == [] then R[s.end := Region(g, true)]
    else if t in R then R[t := Region(R[t].size + g, true)]
    else R
  }

  ghost function GrowMem(s: Heap, R: Regions, g: nat): (m: Mem)
    requires Sound(s, R) && MIN_REGION <= g && s.end + g <= s.max
    ensures |m| == |s.mem|
  {
    var t := Top(s.index);
    if s.index == [] then PutFooter(PutHeader(s.mem, s.end, true, g), s.end + g - FOOTER, s.end)
    else
      assert Tiled(R, s.start, s.end) && t in R;
      PutFooter(PutWord(s.mem, t + 8, R[t].size + g), t + R[t].size + g - FOOTER, t)
  }

  ghost function Grow(s: Heap, R: Regions, g: nat): Heap
    requires Sound(s, R) && MIN_REGION <= g && s.end + g <= s.max
  {
    var m := GrowMem(s, R, g);
    s.(mem := m, end := s.end + g,
       index := if s.index == [] then Inserted(s.index, s.end, BySize(m)) else s.index)
  }

  /** Growth keeps the tiling when there is no indexed hole or the top one abuts the end. */
  lemma GrowTiles(s: Heap, R: Regions, g: nat)
    requires Sound(s, R) && MIN_REGION <= g && TopAbuts(s, R)
    ensures Tiled(GrowRegions(s, R, g), s.start, s.end + g)
  {
    hide WordAt, Tagged, WellPlaced, Tiled, IndexHoles;
    if s.index == [] {
      AppendTiles(R, s.start, s.end, g);
    } else {
      ResizeTiles(R, s.start, s.end, Top(s.index), R[Top(s.index)].size + g);
    }
  }

  lemma AppendTiles(R: Regions, start: nat, end: nat, g: nat)
    requires Tiled(R, start, end) && MIN_REGION <= g
    ensures Tiled(R[end := Region(g, true)], start, end + g)
  {
    var R' := R[end := Region(g, true)];
    forall a | a in R' ensures Next(R', a) == end + g || Next(R', a) in R' {
      if a in R {
        assert Next(R', a) == Next(R, a);
      }
    }
  }

  /** The last region, a hole from now on, may be given any other size. */
  lemma ResizeTiles(R: Regions, start: nat, end: nat, t: nat, size: nat)
    requires Tiled(R, start, end) && t in R && Next(R, t) == end && MIN_REGION <= size
    ensures Tiled(R[t := Region(size, true)], start, t + size)
  {
    var R' := R[t := Region(size, true)];
    forall a | a in R' ensures Next(R', a) == t + size || Next(R', a) in R' {
      if a != t {
        assert Next(R', a) == Next(R, a);
        assert a < t;
      }
    }
  }

  /** Where growth writes: from the hole it makes or stretches to the new end. */
  lemma GrowFrame(s: Heap, R: Regions, g: nat)
    requires Sound(s, R) && MIN_REGION <= g && s.end + g <= s.max && TopAbuts(s, R)
    ensures var t := if s.index == [] then s.end else Top(s.index);
      && SameOutside(s.mem, GrowMem(s, R, g), t, s.end + g)
      && t in GrowRegions(s, R, g) && RegionTags(GrowMem(s, R, g), t, GrowRegions(s, R, g)[t])
  {
    hide WordAt, PutHeader, PutFooter, RegionTags, Tiled;
    var t := if s.index == [] then s.end else Top(s.index);
    if s.index == [] {
      FreshTags(s.mem, t, g);
    } else {
      RegionBounds(R, s.start, s.end, t);
      TagsAt(s.mem, R, t);
      ResizedTags(s.mem, t, R[t].size, R[t].size + g);
    }
  }

  lemma GrowTags(s: Heap, R: Regions, g: nat)
    requires Sound(s, R) && MIN_REGION <= g && s.end + g <= s.max && TopAbuts(s, R)
    ensures Tagged(GrowMem(s, R, g), GrowRegions(s, R, g))
    ensures SameOutside(s.mem, GrowMem(s, R, g), if s.index == [] then s.end else Top(s.index), s.end + g)
  {
    hide WordAt, GrowMem, RegionTags, Tiled, SameOutside;
    var m, R' := GrowMem(s, R, g), GrowRegions(s, R, g);
    var t := if s.index == [] then s.end else Top(s.index);
    GrowFrame(s, R, g);
    forall a | a in R' && a != t ensures RegionTags(m, a, R'[a]) {
      BelowTop(s, R, a);
      TagsAt(s.mem, R, a);
      OutsideTags(s.mem, m, a, R[a], t, s.end + g);
    }
  }

  /** All other regions lie in front of the hole that growth makes or stretches. */
  lemma BelowTop(s: Heap, R: Regions, a: nat)
    requires Sound(s, R) && TopAbuts(s, R) && a in R && (s.index == [] || a != Top(s.index))
    ensures Next(R, a) <= if s.index == [] then s.end else Top(s.index)
  {
    hide WordAt, Tagged, IndexHoles;
    if s.index != [] {
      Apart(R, s.start, s.end, a, Top(s.index));
      RegionBounds(R, s.start, s.end, a);
    }
  }

  lemma FreshTags(m: Mem, a: nat, g: nat)
    requires 0 < a && a + g <= |m| <= WORD_LIMIT && MIN_REGION <= g
    ensures RegionTags(PutFooter(PutHeader(m, a, true, g), a + g - FOOTER, a), a, Region(g, true))
  {
    hide WordAt, PutHeader, PutFooter, HeaderAt;
    var m0 := PutHeader(m, a, true, g);
    HeaderFrame(m0, PutFooter(m0, a + g - FOOTER, a), a, true, g);
  }

  lemma ResizedTags(m: Mem, a: nat, was: nat, size: nat)
    requires 0 < a && a + size <= |m| <= WORD_LIMIT && MIN_REGION <= size && RegionTags(m, a, Region(was, true))
    ensures RegionTags(PutFooter(PutWord(m, a + 8, size), a + size - FOOTER, a), a, Region(size, true))
  {
    hide PutWord, PutFooter, WordAt;
    var m0 := PutWord(m, a + 8, size);
    WordFrame(m, m0, a);
    HeaderFrame(m0, PutFooter(m0, a + size - FOOTER, a), a, true, size);
  }

  lemma GrowKeepsSound(s: Heap, R: Regions, need: nat)
    requires Sound(s, R) && MIN_REGION <= need && HasRoom(s, need) && TopAbuts(s, R)
    ensures MIN_REGION <= Growth(s, need)
    ensures Sound(Grow(s, R, Growth(s, need)), GrowRegions(s, R, Growth(s, need)))
    ensures TopAbuts(Grow(s, R, Growth(s, need)), GrowRegions(s, R, Growth(s, need)))
    ensures Grow(s, R, Growth(s, need)).index == if s.index == [] then [s.end] else s.index
  {
    hide WordAt, PutHeader, PutFooter, RegionTags, Tagged, Tiled, GrowMem;
    GrowthIsRounded(s, R, need);
    var g := Growth(s, need);
    GrowTiles(s, R, g);
    GrowTags(s, R, g);
    RegionsInside(s, R);
    var s', R' := Grow(s, R, g), GrowRegions(s, R, g);
    WordFrame(s.mem, s'.mem, s.start - FOOTER);
    if s.index == [] {
      assert s'.index == [s.end];
    }
  }

  /** What growth stores at the top hole. */
  lemma TopHeader(s: Heap, R: Regions, g: nat)
    requires Sound(s, R) && MIN_REGION <= g && s.end + g <= s.max && s.index != []
    ensures Top(s.index) in R && R[Top(s.index)].hole
    ensures HeaderAt(GrowMem(s, R, g), Top(s.index), true, R[Top(s.index)].size + g)
  {
    hide WordAt, PutWord, PutFooter;
    var t := Top(s.index);
    RegionBounds(R, s.start, s.end, t);
    assert RegionTags(s.mem, t, R[t]);
    var m1 := PutWord(s.mem, t + 8, R[t].size + g);
    WordFrame(s.mem, m1, t);
    HeaderFrame(m1, PutFooter(m1, t + R[t].size + g - FOOTER, t), t, true, R[t].size + g);
  }

  /** Growth may leave the index out of order: the top hole keeps its place, so the index is still
      sorted by size exactly when that hole is now not larger than the next one. */
  lemma GrowSortedIff(s: Heap, R: Regions, g: nat, i: nat)
    requires Sound(s, R) && MIN_REGION <= g && s.end + g <= s.max && TopAbuts(s, R)
    requires Sorted(s.index, BySize(s.mem)) && i < |s.index| && s.index[i] == Top(s.index)
    ensures Sorted(Grow(s, R, g).index, BySize(Grow(s, R, g).mem)) <==>
      (i + 1 < |s.index| ==> SizeOf(s.mem, s.index[i]) + g <= SizeOf(s.mem, s.index[i + 1]))
  {
    hide WordAt, GrowMem, Tagged, Tiled, SizeOf, Sorted;
    var t, m := Top(s.index), GrowMem(s, R, g);
    TopHeader(s, R, g);
    TopSizes(s, R, g);
    forall j | 0 <= j < |s.index| && j != i ensures SizeOf(m, s.index[j]) == SizeOf(s.mem, s.index[j]) {
      assert s.index[j] in R && s.index[j] != t;
      KeyBelowTop(s, R, g, s.index[j]);
    }
    GrownKeySortedIff(s.index, s.mem, m, i);
  }

  lemma TopSizes(s: Heap, R: Regions, g: nat)
    requires Sound(s, R) && MIN_REGION <= g && s.end + g <= s.max && s.index != []
    ensures SizeOf(GrowMem(s, R, g), Top(s.index)) == SizeOf(s.mem, Top(s.index)) + g
  {
    hide WordAt, GrowMem;
    TopHeader(s, R, g);
    TagsAt(s.mem, R, Top(s.index));
  }

  lemma KeyBelowTop(s: Heap, R: Regions, g: nat, a: nat)
    requires Sound(s, R) && MIN_REGION <= g && s.end + g <= s.max && TopAbuts(s, R) && s.index != []
    requires a in R && a != Top(s.index)
    ensures SizeOf(GrowMem(s, R, g), a) == SizeOf(s.mem, a)
  {
    hide WordAt, GrowMem, Tagged, Tiled;
    GrowTags(s, R, g);
    BelowTop(s, R, a);
    RegionBounds(R, s.start, s.end, a);
    WordFrame(s.mem, GrowMem(s, R, g), a + 8);
  }

  /** The grown heap has a sound reading that keeps all other regions if and only if there is no
      indexed hole or the top one abuts the end: stretched elsewhere, the top hole runs into the
      region behind it. */
  lemma GrowSoundIff(s: Heap, R: Regions, need: nat)
    requires Sound(s, R) && MIN_REGION <= need && HasRoom(s, need)
    ensures MIN_REGION <= Growth(s, need)
    ensures (exists R' :: Sound(Grow(s, R, Growth(s, need)), R') && OthersKept(R, Top(s.index), R')) <==>
      TopAbuts(s, R)
  {
    hide WordAt, GrowMem, Tagged, WellPlaced, IndexHoles, Tiled;
    GrowthIsRounded(s, R, need);
    var g := Growth(s, need);
    var s', t := Grow(s, R, g), Top(s.index);
    if TopAbuts(s, R) {
      GrowKeepsSound(s, R, need);
      GrowKeepsOthers(s, R, g);
    } else {
      forall R' | Sound(s', R') ensures !OthersKept(R, t, R') {
        if OthersKept(R, t, R') {
          StretchedOverlaps(s, R, g, R');
        }
      }
    }
  }

  lemma StretchedOverlaps(s: Heap, R: Regions, g: nat, R': Regions)
    requires Sound(s, R) && MIN_REGION <= g && s.end + g <= s.max && !TopAbuts(s, R)
    requires Tagged(GrowMem(s, R, g), R') && OthersKept(R, Top(s.index), R')
    ensures !Tiled(R', s.start, s.end + g)
  {
    hide WordAt, GrowMem, Tagged;
    var t := Top(s.index);
    TopHeader(s, R, g);
    RegionBounds(R, s.start, s.end, t);
    assert Next(R, t) in R && Next(R, t) in R' && t < Next(R, t) < t + R[t].size + g;
    if Tiled(R', s.start, s.end + g) {
      StillStarts(R, s.start, s.end, R', s.end + g, t);
      TagsAt(GrowMem(s, R, g), R', t);
    }
  }

  lemma GrowKeepsOthers(s: Heap, R: Regions, g: nat)
    requires Sound(s, R)
    ensures OthersKept(R, Top(s.index), GrowRegions(s, R, g))
  {
    hide WordAt, Tagged;
  }

  lemma RegionsInside(s: Heap, R: Regions)
    requires Sound(s, R)
    ensures forall a :: a in R ==> s.start <= a && a + R[a].size <= s.end
  {
  }

  // ---- The recursion of alloc ----

  /** How the search for a hole ends: the heap has no room left and expand halts, or the
      hole at index position `at` fits after the heap has grown `grown` times. */
  datatype Search = Halted | Ready(heap: Heap, regions: Regions, at: nat, grown: nat)

  /** No address or length that growth computes for the request wraps around, however far the heap
      has grown. */
  predicate NoWrap(s: Heap, size: nat) {
    s.max + size + MIN_REGION + 0x1000 < WORD_LIMIT
  }

  /** What growth relies on, should the request need it. */
  ghost predicate Growable(s: Heap, R: Regions, size: nat, align: bool)
    requires s.start <= s.end
  {
    FirstFit(s.mem, s.index, size + MIN_REGION, align, 0) == |s.index| ==>
      NoWrap(s, size) && (HasRoom(s, size + MIN_REGION) ==> TopAbuts(s, R))
  }

  ghost function Prepare(s: Heap, R: Regions, size: nat, align: bool): Search
    requires Sound(s, R) && Growable(s, R, size, align)
    decreases s.max - s.end
  {
    var need := size + MIN_REGION;
    var i := FirstFit(s.mem, s.index, need, align, 0);
    if i < |s.index| then Ready(s, R, i, 0)
    else if !HasRoom(s, need) then Halted
    else
      GrowKeepsSound(s, R, need);
      var g := Growth(s, need);
      match Prepare(Grow(s, R, g), GrowRegions(s, R, g), size, align)
      case Halted => Halted
      case Ready(s', R', at, grown) => Ready(s', R', at, grown + 1)
  }

  /** Live blocks of s are live blocks of s', in the same place and with the same bytes. */
  ghost predicate BlocksKept(s: Heap, R: Regions, s': Heap, R': Regions) {
    |s'.mem| == |s.mem| &&
    forall a :: a in R && !R[a].hole ==>
      a in R' && R'[a] == R[a] && SameInside(s.mem, s'.mem, a, a + R[a].size)
  }

  lemma GrowKeepsBlocks(s: Heap, R: Regions, need: nat)
    requires Sound(s, R) && MIN_REGION <= need && HasRoom(s, need) && TopAbuts(s, R)
    ensures MIN_REGION <= Growth(s, need)
    ensures BlocksKept(s, R, Grow(s, R, Growth(s, need)), GrowRegions(s, R, Growth(s, need)))
    ensures IndexComplete(s.index, R) ==>
      IndexComplete(Grow(s, R, Growth(s, need)).index, GrowRegions(s, R, Growth(s, need)))
  {
    hide WordAt, Tagged, GrowMem, Tiled, Growth;
    GrowthIsRounded(s, R, need);
    var g := Growth(s, need);
    GrowTags(s, R, g);
    forall a | a in R && !R[a].hole
      ensures a in GrowRegions(s, R, g) && GrowRegions(s, R, g)[a] == R[a]
      ensures SameInside(s.mem, Grow(s, R, g).mem, a, a + R[a].size)
    {
      RegionBounds(R, s.start, s.end, a);
      BelowTop(s, R, a);
    }
    GrowIndexes(s, R, g);
  }

  lemma GrowIndexes(s: Heap, R: Regions, g: nat)
    requires Sound(s, R) && MIN_REGION <= g && s.end + g <= s.max && TopAbuts(s, R)
    ensures IndexComplete(s.index, R) ==> IndexComplete(Grow(s, R, g).index, GrowRegions(s, R, g))
  {
    hide WordAt, Tagged, GrowMem, Tiled;
    if s.index == [] {
      assert Grow(s, R, g).index == [s.end];
    }
  }

  /** The search leaves the heap sound and its blocks alone. */
  lemma {:induction false} PrepareKeepsSound(s: Heap, R: Regions, size: nat, align: bool)
    requires Sound(s, R) && Growable(s, R, size, align)
    ensures var found := Prepare(s, R, size, align);
      found.Ready? ==>
        && Sound(found.heap, found.regions) && found.at < |found.heap.index|
        && Fits(found.heap.mem, found.heap.index[found.at], size + MIN_REGION, align)
        && BlocksKept(s, R, found.heap, found.regions)
        && (IndexComplete(s.index, R) ==> IndexComplete(found.heap.index, found.regions))
    decreases s.max - s.end
  {
    hide Sound, Fits, Grow, GrowRegions, TopAbuts, FirstFit, HasRoom, Growth, Growable, Prepare, IndexComplete,
      BlocksKept;
    var need := size + MIN_REGION;
    PrepareStep(s, R, size, align);
    if FirstFit(s.mem, s.index, need, align, 0) < |s.index| {
      KeptItself(s, R);
    } else if HasRoom(s, need) {
      var g := Growth(s, need);
      var s1, R1 := Grow(s, R, g), GrowRegions(s, R, g);
      GrowKeepsBlocks(s, R, need);
      PrepareKeepsSound(s1, R1, size, align);
      var found := Prepare(s1, R1, size, align);
      if found.Ready? {
        KeptTwice(s, R, s1, R1, found.heap, found.regions);
      }
    }
  }

  lemma KeptItself(s: Heap, R: Regions)
    ensures BlocksKept(s, R, s, R)
  {
  }

  /** The size the highest hole has after growth. */
  lemma GrownTop(s: Heap, R: Regions, need: nat)
    requires Sound(s, R) && MIN_REGION <= need && HasRoom(s, need) && TopAbuts(s, R)
    ensures MIN_REGION <= Growth(s, need) && need <= Growth(s, need) && 0x1000 <= Growth(s, need)
    ensures var s' := Grow(s, R, Growth(s, need));
      s'.index != [] && SizeOf(s'.mem, Top(s'.index)) < 0x8000_0000 && SizeOf(s'.mem, Top(s'.index)) ==
        Growth(s, need) + if s.index == [] then 0 else SizeOf(s.mem, Top(s.index))
  {
    hide Tiled, Tagged, GrowMem, SizeOf, Growth;
    var g := Growth(s, need);
    GrowthIsRounded(s, R, need);
    GrowKeepsSound(s, R, need);
    var s', R' := Grow(s, R, g), GrowRegions(s, R, g);
    var t := Top(s'.index);
    if s.index == [] {
      assert s'.index == [s.end];
    } else {
      RegionSize(s, R, t);
    }
    RegionSize(s', R', t);
  }

  lemma RegionSize(s: Heap, R: Regions, a: nat)
    requires Sound(s, R) && a in R
    ensures SizeOf(s.mem, a) == R[a].size < 0x8000_0000
  {
    hide WordAt;
    assert RegionTags(s.mem, a, R[a]);
  }

  /** A hole that the search accepts is smaller than 2^31 bytes. */
  lemma FitsIsServable(s: Heap, R: Regions, i: nat, size: nat, align: bool)
    requires Sound(s, R) && i < |s.index| && Fits(s.mem, s.index[i], size + MIN_REGION, align)
    requires align ==> size + MIN_REGION < 0x8000_0000
    ensures Servable(s, R, i, size, align)
  {
    hide WordAt, Tagged, Tiled;
    RegionSize(s, R, s.index[i]);
  }

  lemma TopFits(s: Heap, size: nat, align: bool)
    requires s.index != [] && SizeOf(s.mem, Top(s.index)) < 0x8000_0000
    requires SizeOf(s.mem, Top(s.index)) >= size + if align then 0x1000 else 0
    ensures FirstFit(s.mem, s.index, size, align, 0) < |s.index|
  {
    var j :| 0 <= j < |s.index| && s.index[j] == Top(s.index);
    assert Fits(s.mem, s.index[j], size, align);
  }

  /** The search, one step. */
  lemma PrepareStep(s: Heap, R: Regions, size: nat, align: bool)
    requires Sound(s, R) && Growable(s, R, size, align)
    ensures s.start <= s.end
    ensures var i := FirstFit(s.mem, s.index, size + MIN_REGION, align, 0);
      && (i < |s.index| ==> Prepare(s, R, size, align) == Ready(s, R, i, 0))
      && (i == |s.index| ==> NoWrap(s, size))
      && (i == |s.index| && HasRoom(s, size + MIN_REGION) ==> TopAbuts(s, R))
      && (i == |s.index| && !HasRoom(s, size + MIN_REGION) ==> Prepare(s, R, size, align) == Halted)
    ensures FirstFit(s.mem, s.index, size + MIN_REGION, align, 0) == |s.index| && HasRoom(s, size + MIN_REGION) ==>
      var g := Growth(s, size + MIN_REGION);
      && MIN_REGION <= g && s.end < s.end + g <= s.max
      && var s', R' := Grow(s, R, g), GrowRegions(s, R, g);
      && Sound(s', R') && Growable(s', R', size, align) && s'.end == s.end + g && s'.max == s.max
      && |s'.index| == (if s.index == [] then 1 else |s.index|)
      && Prepare(s, R, size, align) == match Prepare(s', R', size, align)
           case Halted => Halted
           case Ready(h, r, at, grown) => Ready(h, r, at, grown + 1)
  {
    hide Sound, WordAt, GrowMem, GrowRegions, TopAbuts, Fits, BySize, Rounded;
    GrowthIsRounded(s, R, size + MIN_REGION);
    if FirstFit(s.mem, s.index, size + MIN_REGION, align, 0) == |s.index| && HasRoom(s, size + MIN_REGION) {
      GrowKeepsSound(s, R, size + MIN_REGION);
    }
  }

  /** The recursion ends: an unaligned request makes the heap grow at most once and a
      page-aligned one at most twice, and room for that much growth is room enough. */
  lemma {:induction false} GrowsAtMostTwice(s: Heap, R: Regions, size: nat, align: bool)
    requires Sound(s, R) && Growable(s, R, size, align)
    ensures var found := Prepare(s, R, size, align);
      var need := size + MIN_REGION;
      && (found.Ready? ==> found.grown <= if align then 2 else 1)
      && (s.end + (if align then 2 else 1) * (need + 0x1000) <= s.max ==> found.Ready?)
  {
    hide Sound, Grow, GrowRegions, Growable, SizeOf, Prepare, FirstFit;
    var need := size + MIN_REGION;
    PrepareStep(s, R, size, align);
    GrowthIsRounded(s, R, need);
    if FirstFit(s.mem, s.index, need, align, 0) == |s.index| && HasRoom(s, need) {
      GrownTop(s, R, need);
      var s1, R1 := Grow(s, R, Growth(s, need)), GrowRegions(s, R, Growth(s, need));
      SecondGrowth(s1, R1, size, align);
    }
  }

  /** What the search does in a heap that has just grown. */
  lemma SecondGrowth(s: Heap, R: Regions, size: nat, align: bool)
    requires Sound(s, R) && Growable(s, R, size, align) && s.index != []
    requires size + MIN_REGION <= SizeOf(s.mem, Top(s.index)) < 0x8000_0000
    ensures var found := Prepare(s, R, size, align);
      && (found.Ready? ==> found.grown <= if align then 1 else 0)
      && (!align || s.end + size + MIN_REGION + 0x1000 <= s.max ==> found.Ready?)
  {
    hide Sound, Grow, GrowRegions, Growable, SizeOf, Prepare, FirstFit;
    var need := size + MIN_REGION;
    PrepareStep(s, R, size, align);
    GrowthIsRounded(s, R, need);
    if !align {
      TopFits(s, need, align);
    }
    if FirstFit(s.mem, s.index, need, align, 0) == |s.index| && HasRoom(s, need) {
      GrownTop(s, R, need);
      var s1, R1 := Grow(s, R, Growth(s, need)), GrowRegions(s, R, Growth(s, need));
      TopFits(s1, need, align);
      PrepareStep(s1, R1, size, align);
    }
  }

  lemma GrowthIsRounded(s: Heap, R: Regions, need: nat)
    requires Sound(s, R)
    ensures s.start <= s.end && Growth(s, need) == need - need % 0x1000 + 0x1000
  {
    hide Tiled, Tagged, IndexHoles;
    var n := s.end - s.start;
    assert n % 0x1000 == 0 && 0x1000 <= n;
  }

  // ---- alloc as a whole ----

  lemma CarveKeepsBlocks(s: Heap, R: Regions, i: nat, size: nat, align: bool)
    requires Carvable(s, R, i, size, align)
    ensures BlocksKept(s, R, Carve(s, R, i, size, align), CarveRegions(s, R, i, size, align))
  {
    hide WordAt, Tagged, Tiled, Carve, CarveRegions, Prefix, Taken, Fits, Divisible;
    CarvedBlock(s, R, i, size, align);
    Plan(s, R, i, size, align);
    forall a: nat | a in R && !R[a].hole ensures SameInside(s.mem, Carve(s, R, i, size, align).mem, a, a + R[a].size) {
      Apart(R, s.start, s.end, a, s.index[i]);
    }
  }

  lemma KeptTwice(s: Heap, R: Regions, s1: Heap, R1: Regions, s2: Heap, R2: Regions)
    requires BlocksKept(s, R, s1, R1) && BlocksKept(s1, R1, s2, R2)
    ensures BlocksKept(s, R, s2, R2)
  {
    forall a | a in R && !R[a].hole ensures SameInside(s.mem, s2.mem, a, a + R[a].size) {
      assert R1[a] == R[a];
    }
  }

  /** A request, whether the heap has to grow for it or not, keeps the heap sound and every
      live block as it is, byte by byte. */
  lemma AllocIsSafe(s: Heap, R: Regions, size: nat, align: bool)
    requires Sound(s, R) && Growable(s, R, size, align) && Prepare(s, R, size, align).Ready?
    requires var found := Prepare(s, R, size, align);
      Carvable(found.heap, found.regions, found.at, size, align)
    ensures var found := Prepare(s, R, size, align);
      var s' := Carve(found.heap, found.regions, found.at, size, align);
      var R' := CarveRegions(found.heap, found.regions, found.at, size, align);
      && Sound(s', R') && BlocksKept(s, R, s', R') && (IndexComplete(s.index, R) ==> IndexComplete(s'.index, R'))
  {
    hide Sound, Carve, CarveRegions, Prepare, Growable, Carvable, IndexComplete, BlocksKept;
    var found := Prepare(s, R, size, align);
    PrepareKeepsSound(s, R, size, align);
    CarveKeepsSound(found.heap, found.regions, found.at, size, align);
    CarveKeepsBlocks(found.heap, found.regions, found.at, size, align);
    KeptTwice(s, R, found.heap, found.regions, Carve(found.heap, found.regions, found.at, size, align),
      CarveRegions(found.heap, found.regions, found.at, size, align));
  }
}
