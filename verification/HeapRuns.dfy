/** Whole runs of the kernel heap of src/impl/kheap.c. */
module HeapRuns {
  import opened Bytes
  import opened HeapModel
  import opened HeapAlloc
  import opened HeapGrow
  import opened HeapTraces
  import opened HeapFree
  import opened HeapSettle
  import opened HeapFreeSound
  import opened HeapPristine

  datatype Config = Config(heap: Heap, regions: Regions)

  /** Something that happens to the heap: a request for `size` bytes, page-aligned or not; the
      release of the block at h; or a write by the owner of the block at h into its payload. */
  datatype Event = Request(size: nat, align: bool) | Release(h: nat) | Write(h: nat, at: nat, value: byte)

  /** The event can happen: a request that can be served, after growth if need be; the harmless
      release of a live block that trips no assertion; a write that stays within the payload. */
  ghost predicate Enabled(c: Config, e: Event)
    requires Sound(c.heap, c.regions)
  {
    match e
    case Request(size, align) =>
      && Growable(c.heap, c.regions, size, align)
      && var found := Prepare(c.heap, c.regions, size, align);
         found.Ready? && Carvable(found.heap, found.regions, found.at, size, align)
    case Release(h) =>
      Freeable(c.heap, c.regions, h) && !FreeHalts(c.heap, c.regions, h) && Harmless(c.heap, c.regions, h)
    case Write(h, at, value) =>
      Live(c.regions, h) && h + HEADER <= at < Next(c.regions, h) - FOOTER
  }

  ghost function After(c: Config, e: Event): Config
    requires Sound(c.heap, c.regions) && Enabled(c, e)
  {
    match e
    case Request(size, align) =>
      var found := Prepare(c.heap, c.regions, size, align);
      Config(Carve(found.heap, found.regions, found.at, size, align),
             CarveRegions(found.heap, found.regions, found.at, size, align))
    case Release(h) =>
      Config(Freed(c.heap, c.regions, h), FreedRegions(c.heap, c.regions, h))
    case Write(h, at, value) =>
      RegionsInside(c.heap, c.regions);
      Config(c.heap.(mem := PutByte(c.heap.mem, at, value)), c.regions)
  }

  /** What every state of a run satisfies. */
  ghost predicate Safe(c: Config) {
    Consistent(c.heap, c.regions)
  }

  /** The events can happen one after the other, starting from c. Nothing is asked of what
      follows once the heap is unsound; End stops there. */
  ghost predicate Run(c: Config, events: seq<Event>)
    decreases |events|
  {
    events != [] && Sound(c.heap, c.regions) ==>
      Enabled(c, events[0]) && Run(After(c, events[0]), events[1..])
  }

  ghost function End(c: Config, events: seq<Event>): Config
    requires Run(c, events)
    decreases |events|
  {
    if events == [] || !Sound(c.heap, c.regions) then c else End(After(c, events[0]), events[1..])
  }

  /** The event neither releases the block at h nor writes to it. */
  predicate Spares(e: Event, h: nat) {
    match e
    case Request(_, _) => true
    case Release(b) => b != h
    case Write(b, _, _) => b != h
  }

  /** The hole at e is lost. */
  ghost predicate LostIn(c: Config, e: nat) {
    Lost(c.heap.mem, c.regions, c.heap.index, e)
  }

  /** The event does not release a block behind a stale footer. */
  ghost predicate Clean(c: Config, e: Event)
    requires Sound(c.heap, c.regions)
  {
    e.Release? && e.h in c.regions ==> !LeftStale(c.heap, c.regions, e.h)
  }

  lemma PayloadWrite(m: Mem, h: nat, g: Region, at: nat, value: byte)
    requires RegionTags(m, h, g) && h + HEADER <= at < h + g.size - FOOTER
    ensures RegionTags(PutByte(m, at, value), h, g)
  {
    hide WordAt;
    var r := PutByte(m, at, value);
    HeaderFrame(m, r, h, g.hole, g.size);
    WordFrame(m, r, h + g.size - FOOTER);
    WordFrame(m, r, h + g.size - 4);
  }

  /** A write of its owner reaches into no region but the block. */
  lemma WriteApart(s: Heap, R: Regions, h: nat, at: nat, value: byte, a: nat)
    requires Sound(s, R) && Live(R, h) && h + HEADER <= at < Next(R, h) - FOOTER && a in R && a != h
    ensures at < |s.mem| && SameInside(s.mem, PutByte(s.mem, at, value), a, Next(R, a))
  {
    hide WordAt, Tagged;
    RegionsInside(s, R);
    Apart(R, s.start, s.end, a, h);
  }

  lemma WriteKeepsSound(s: Heap, R: Regions, h: nat, at: nat, value: byte)
    requires Sound(s, R) && Live(R, h) && h + HEADER <= at < Next(R, h) - FOOTER
    ensures at < |s.mem| && Sound(s.(mem := PutByte(s.mem, at, value)), R)
  {
    hide WordAt, RegionTags, IndexHoles;
    RegionsInside(s, R);
    var m := PutByte(s.mem, at, value);
    WordFrame(s.mem, m, s.start - FOOTER);
    forall a | a in R ensures RegionTags(m, a, R[a]) {
      TagsAt(s.mem, R, a);
      if a == h {
        PayloadWrite(s.mem, h, R[h], at, value);
      } else {
        WriteApart(s, R, h, at, value, a);
        RegionTagsFrame(s.mem, m, a, R[a]);
      }
    }
  }

  lemma WriteKeepsLost(s: Heap, R: Regions, h: nat, at: nat, value: byte, e: nat)
    requires Sound(s, R) && Live(R, h) && h + HEADER <= at < Next(R, h) - FOOTER && Lost(s.mem, R, s.index, e)
    ensures at < |s.mem| && Lost(PutByte(s.mem, at, value), R, s.index, e)
  {
    hide WordAt, PutByte, Tagged;
    WriteApart(s, R, h, at, value, e);
    RegionBounds(R, s.start, s.end, e);
    LostFrame(s.mem, R, s.index, PutByte(s.mem, at, value), R, s.index, e);
  }

  lemma WriteKeepsTraces(s: Heap, R: Regions, h: nat, at: nat, value: byte)
    requires Consistent(s, R) && Live(R, h) && h + HEADER <= at < Next(R, h) - FOOTER
    ensures at < |s.mem| && Traced(s.(mem := PutByte(s.mem, at, value)), R)
  {
    hide WordAt, PutByte, Tagged, TracedAt, Lost;
    RegionsInside(s, R);
    var m := PutByte(s.mem, at, value);
    forall a | a in R ensures TracedAt(m, R, s.index, a) {
      if a == h {
        BlockTrace(m, R, s.index, h);
      } else {
        TagsAt(s.mem, R, a);
        WriteApart(s, R, h, at, value, a);
        if Lost(s.mem, R, s.index, Next(R, a)) {
          WriteKeepsLost(s, R, h, at, value, Next(R, a));
        }
        TracedFrame(s.mem, R, s.index, m, R, s.index, a);
      }
    }
  }

  lemma BlockTrace(m: Mem, R: Regions, index: seq<nat>, h: nat)
    requires Live(R, h)
    ensures TracedAt(m, R, index, h)
  {
  }

  lemma WriteKeepsSafe(c: Config, h: nat, at: nat, value: byte)
    requires Safe(c) && Enabled(c, Write(h, at, value))
    ensures Safe(After(c, Write(h, at, value))) && After(c, Write(h, at, value)).regions == c.regions
    ensures BlocksKept(c.heap, c.regions - {h}, After(c, Write(h, at, value)).heap, c.regions)
  {
    hide WordAt, Sound, Traced;
    var s, R := c.heap, c.regions;
    WriteKeepsSound(s, R, h, at, value);
    WriteKeepsTraces(s, R, h, at, value);
    forall a | a in R && a != h ensures SameInside(s.mem, PutByte(s.mem, at, value), a, Next(R, a)) {
      WriteApart(s, R, h, at, value, a);
    }
  }

  /** One event keeps the heap safe and spares every block it is not about. */
  lemma StepKeepsSafe(c: Config, e: Event, h: nat)
    requires Safe(c) && Enabled(c, e)
    ensures Safe(After(c, e)) && |After(c, e).heap.mem| == |c.heap.mem|
    ensures Live(c.regions, h) && Spares(e, h) ==>
      Live(After(c, e).regions, h) && After(c, e).regions[h] == c.regions[h]
      && SameInside(c.heap.mem, After(c, e).heap.mem, h, Next(c.regions, h))
  {
    hide Sound, Traced, Harmless, Growable, Carve, CarveRegions, Freed, FreedRegions, Freeable, FreeHalts,
      Prepare, Carvable;
    match e
    case Request(size, align) => AllocKeepsConsistent(c.heap, c.regions, size, align);
    case Release(b) => FreeKeepsConsistent(c.heap, c.regions, b);
    case Write(b, at, value) => WriteKeepsSafe(c, b, at, value);
  }

  /** In every run of requests, releases and writes, through growth and contraction, the heap
      stays consistent: its regions tile it, the index lists holes only, and a block that is neither
      released nor written to keeps its place and its bytes, whatever happens to all others. */
  lemma {:induction false} RunIsSafe(c: Config, events: seq<Event>, h: nat)
    requires Safe(c) && Run(c, events)
    ensures Safe(End(c, events)) && |End(c, events).heap.mem| == |c.heap.mem|
    ensures Live(c.regions, h) && (forall e :: e in events ==> Spares(e, h)) ==>
      Live(End(c, events).regions, h) && End(c, events).regions[h] == c.regions[h]
      && SameInside(c.heap.mem, End(c, events).heap.mem, h, Next(c.regions, h))
    decreases |events|
  {
    hide Sound, After, Enabled, Traced;
    if events != [] && Sound(c.heap, c.regions) {
      StepKeepsSafe(c, events[0], h);
      RunIsSafe(After(c, events[0]), events[1..], h);
    }
  }

  /** The payloads of live blocks lie in the heap, behind each other. */
  lemma PayloadsApart(c: Config, a: nat, b: nat)
    requires Safe(c) && Live(c.regions, a) && Live(c.regions, b) && a < b
    ensures c.heap.start <= a && a + HEADER <= Next(c.regions, a) - FOOTER
    ensures Next(c.regions, a) - FOOTER < b + HEADER && Next(c.regions, b) <= c.heap.end
  {
    hide WordAt, Tagged, Traced;
    RegionsInside(c.heap, c.regions);
    Apart(c.regions, c.heap.start, c.heap.end, a, b);
  }

  // ---- What the index knows ----

  /** A hole that is lost is lost for good: no run hands it out again. */
  lemma {:induction false} RunKeepsLost(c: Config, events: seq<Event>, e: nat)
    requires Safe(c) && Run(c, events) && LostIn(c, e)
    ensures LostIn(End(c, events), e)
    decreases |events|
  {
    hide Sound, After, Enabled, Traced, LostIn;
    if events != [] && Sound(c.heap, c.regions) {
      StepKeepsSafe(c, events[0], e);
      StepKeepsLost(c, events[0], e);
      RunKeepsLost(After(c, events[0]), events[1..], e);
    }
  }

  lemma StepKeepsLost(c: Config, event: Event, e: nat)
    requires Safe(c) && Enabled(c, event) && LostIn(c, e)
    ensures LostIn(After(c, event), e)
  {
    hide Sound, Traced, Harmless, Growable, Carve, CarveRegions, Freed, FreedRegions, FreeHalts, Prepare, Lost,
      Carvable;
    match event
    case Request(size, align) => AllocKeepsConsistent(c.heap, c.regions, size, align);
    case Release(b) => FreeKeepsLost(c.heap, c.regions, b, e);
    case Write(b, at, value) => WriteKeepsLost(c.heap, c.regions, b, at, value, e);
  }

  /** No event of the run releases a block behind a stale footer. */
  ghost predicate CleanRun(c: Config, events: seq<Event>)
    requires Run(c, events)
    decreases |events|
  {
    events != [] && Sound(c.heap, c.regions) ==>
      Clean(c, events[0]) && CleanRun(After(c, events[0]), events[1..])
  }

  /** As long as no stale footer is followed, the index stays complete: it lists exactly the holes. */
  lemma {:induction false} RunKeepsIndex(c: Config, events: seq<Event>)
    requires Safe(c) && Run(c, events) && CleanRun(c, events) && IndexComplete(c.heap.index, c.regions)
    ensures IndexComplete(End(c, events).heap.index, End(c, events).regions)
    decreases |events|
  {
    hide Sound, After, Enabled, Traced, IndexComplete, Clean;
    if events != [] && Sound(c.heap, c.regions) {
      StepKeepsSafe(c, events[0], 0);
      StepKeepsIndex(c, events[0]);
      RunKeepsIndex(After(c, events[0]), events[1..]);
    }
  }

  lemma StepKeepsIndex(c: Config, e: Event)
    requires Safe(c) && Enabled(c, e) && Clean(c, e) && IndexComplete(c.heap.index, c.regions)
    ensures IndexComplete(After(c, e).heap.index, After(c, e).regions)
  {
    hide Sound, Traced, Harmless, Growable, Carve, CarveRegions, Freed, FreedRegions, FreeHalts, Prepare, LeftStale,
      IndexComplete, Carvable;
    match e
    case Request(size, align) => AllocKeepsConsistent(c.heap, c.regions, size, align);
    case Release(h) => FreeIndexesAll(c.heap, c.regions, h);
    case Write(h, at, value) =>
  }

  /** A block behind a stale footer that is released is lost, for the rest of every run. */
  lemma StaleIsLostForGood(c: Config, h: nat, events: seq<Event>)
    requires Safe(c) && Run(c, [Release(h)] + events) && LeftStale(c.heap, c.regions, h)
    requires !ReachesEnd(c.heap, c.regions, h)
    ensures LostIn(End(c, [Release(h)] + events), h)
  {
    hide Sound, Traced, Freed, FreedRegions, FreeHalts, LeftStale, Lost;
    var all := [Release(h)] + events;
    assert all[0] == Release(h) && all[1..] == events;
    StepKeepsSafe(c, all[0], h);
    StaleLoses(c.heap, c.regions, h);
    RunKeepsLost(After(c, all[0]), events, h);
  }

  /** Two releases in order of address are enough to lose a hole, in any heap: a block with a hole
      behind it whose footer is intact, and then the block behind that hole. */
  lemma TwoReleasesLose(c: Config, h: nat, events: seq<Event>)
    requires Safe(c) && Live(c.regions, h) && !LeftStale(c.heap, c.regions, h) && HoleOnRight(c.regions, h)
    requires var e := MergedEnd(c.regions, h);
      && Live(c.regions, e) && FOOTER <= e && FooterAt(c.heap.mem, e - FOOTER, Next(c.regions, h))
      && MergedEnd(c.regions, e) != c.heap.end && Run(c, [Release(h), Release(e)] + events)
    ensures LostIn(End(c, [Release(h), Release(MergedEnd(c.regions, h))] + events), MergedEnd(c.regions, h))
  {
    hide Sound, Traced, FreeHalts, LeftStale, Lost, WordAt, Freed, CoalescedRegions;
    var e := MergedEnd(c.regions, h);
    var all, rest := [Release(h), Release(e)] + events, [Release(e)] + events;
    assert all[0] == Release(h) && all[1..] == rest;
    StepKeepsSafe(c, all[0], h);
    assert e <= |c.heap.mem|;
    RightMergeGoesStale(c.heap, c.regions, h);
    NotTheEnd(c.heap, c.regions, h);
    StillBehind(c.heap, c.regions, h);
    StaleIsLostForGood(After(c, all[0]), e, events);
  }

  /** What lies behind the second block is as it was. */
  lemma StillBehind(s: Heap, R: Regions, h: nat)
    requires Freeable(s, R, h) && !FreeHalts(s, R, h) && !LeftStale(s, R, h) && HoleOnRight(R, h)
    requires Live(R, MergedEnd(R, h)) && !ReachesEnd(s, R, h)
    ensures var R', e := FreedRegions(s, R, h), MergedEnd(R, h);
      e in R' && MergedEnd(R', e) == MergedEnd(R, e) && Freed(s, R, h).end == s.end
  {
    hide WordAt, Tagged, IndexHoles, Traced, FreeHalts, LeftStale, Coalesced, CoalescedRegions, AfterLeft, Tiled;
    var e := MergedEnd(R, h);
    FreedIs(s, R, h);
    TargetIs(s, R, h);
    LeftHeader(s, R, h);
    LeftSeen(s, R, h);
    CoalescedAt(s, R, h, e);
    CoalescedAt(s, R, h, Next(R, e));
    NextIsBehind(R, s.start, s.end, h);
    NextIsBehind(R, s.start, s.end, Next(R, h));
    NextIsBehind(R, s.start, s.end, e);
  }

  // ---- Runs under a condition on the calls alone ----

  /** What callers and the place of holes decide: requests for at least one byte that find a hole or
      make a heap grow whose top hole abuts the end, page-aligned ones only from divisible holes;
      releases of live blocks that stay clear of the end of the heap; writes of owners. */
  ghost predicate Ordinary(c: Config, e: Event)
    requires Sound(c.heap, c.regions)
  {
    match e
    case Request(size, align) =>
      && 0 < size && Growable(c.heap, c.regions, size, align)
      && (align ==>
            && size + MIN_REGION < 0x8000_0000
            && var found := Prepare(c.heap, c.regions, size, align);
            found.Ready? ==> FoundDivisible(found, size))
    case Release(h) => Live(c.regions, h) && !ReachesEnd(c.heap, c.regions, h)
    case Write(h, at, value) => Live(c.regions, h) && h + HEADER <= at < Next(c.regions, h) - FOOTER
  }

  ghost predicate FoundDivisible(found: Search, size: nat)
    requires found.Ready?
  {
    && found.at < |found.heap.index| && found.heap.index[found.at] in found.regions
    && Divisible(found.heap.index[found.at], found.regions[found.heap.index[found.at]].size, size)
  }

  /** An assertion of the code fails, and the kernel stops. */
  ghost predicate Halts(c: Config, e: Event)
    requires Sound(c.heap, c.regions) && Ordinary(c, e)
  {
    match e
    case Request(size, align) => Prepare(c.heap, c.regions, size, align).Halted?
    case Release(h) => FreeHalts(c.heap, c.regions, h)
    case Write(_, _, _) => false
  }

  /** What every state of such a run satisfies: no block is empty either. */
  ghost predicate Steady(c: Config) {
    Safe(c) && NoEmptyBlocks(c.regions)
  }

  /** A release of a block with payload that stays clear of the end is harmless. */
  lemma ClearIsHarmless(s: Heap, R: Regions, h: nat)
    requires Consistent(s, R) && NoEmptyBlocks(R) && Live(R, h) && !ReachesEnd(s, R, h)
    ensures Freeable(s, R, h) && Harmless(s, R, h)
  {
    hide Consistent, Sound, LeftStale, Target;
    assert Sound(s, R) by { ConsistentIsSound(s, R); }
  }

  lemma ConsistentIsSound(s: Heap, R: Regions)
    requires Consistent(s, R)
    ensures Sound(s, R)
  {
  }

  /** What is ordinary and trips no assertion can happen. */
  lemma OrdinaryIsEnabled(c: Config, e: Event)
    requires Steady(c) && Ordinary(c, e) && !Halts(c, e)
    ensures Enabled(c, e)
  {
    hide Sound, Traced, Prepare, Growable, FreeHalts, Divisible, Harmless, Freeable, ReachesEnd;
    match e
    case Request(size, align) =>
      var found := Prepare(c.heap, c.regions, size, align);
      PrepareKeepsSound(c.heap, c.regions, size, align);
      FitsIsServable(found.heap, found.regions, found.at, size, align);
    case Release(h) => ClearIsHarmless(c.heap, c.regions, h);
    case Write(_, _, _) =>
  }

  /** Growth makes no blocks. */
  lemma {:induction false} PrepareKeepsNonempty(s: Heap, R: Regions, size: nat, align: bool)
    requires Sound(s, R) && Growable(s, R, size, align) && NoEmptyBlocks(R) && Prepare(s, R, size, align).Ready?
    ensures NoEmptyBlocks(Prepare(s, R, size, align).regions)
    decreases s.max - s.end
  {
    hide Sound, FirstFit, HasRoom, Growth, Growable, HeapGrow.Grow, Prepare;
    PrepareStep(s, R, size, align);
    var need := size + MIN_REGION;
    if FirstFit(s.mem, s.index, need, align, 0) == |s.index| && HasRoom(s, need) {
      var g := Growth(s, need);
      PrepareKeepsNonempty(HeapGrow.Grow(s, R, g), GrowRegions(s, R, g), size, align);
    }
  }

  lemma RequestKeepsNonempty(c: Config, size: nat, align: bool)
    requires Steady(c) && Enabled(c, Request(size, align)) && 0 < size
    ensures NoEmptyBlocks(After(c, Request(size, align)).regions)
  {
    hide Sound, Traced, Tiled, Carve, CarveRegions, Prefix, Taken, Prepare, Growable, Carvable;
    var found := Prepare(c.heap, c.regions, size, align);
    PrepareKeepsNonempty(c.heap, c.regions, size, align);
    CarvedBlock(found.heap, found.regions, found.at, size, align);
  }

  lemma ReleaseKeepsNonempty(c: Config, h: nat)
    requires Steady(c) && Enabled(c, Release(h)) && !ReachesEnd(c.heap, c.regions, h)
    ensures NoEmptyBlocks(After(c, Release(h)).regions)
  {
    hide Sound, Traced, Tiled, AfterLeft, LeftStale, FreeHalts, CoalescedRegions, Freed, Harmless;
    var s, R := c.heap, c.regions;
    forall a | a in CoalescedRegions(s, R, h) && !CoalescedRegions(s, R, h)[a].hole
      ensures MIN_REGION < CoalescedRegions(s, R, h)[a].size
    {
      BlocksWereBlocks(s, R, h, a);
    }
  }

  /** Both merges leave no block but those there were. */
  lemma BlocksWereBlocks(s: Heap, R: Regions, h: nat, a: nat)
    requires Sound(s, R) && Live(R, h) && !FreeHalts(s, R, h)
    requires a in CoalescedRegions(s, R, h) && !CoalescedRegions(s, R, h)[a].hole
    ensures a in R && a != h && CoalescedRegions(s, R, h)[a] == R[a]
  {
    hide WordAt, Tagged, Tiled, AfterLeft, LeftStale, CoalescedRegions, IndexHoles;
    LeftHeader(s, R, h);
    CoalescedAt(s, R, h, a);
  }

  lemma StepKeepsSteady(c: Config, e: Event)
    requires Steady(c) && Ordinary(c, e) && !Halts(c, e)
    ensures Enabled(c, e) && Steady(After(c, e))
  {
    hide Sound, Traced, NoEmptyBlocks, Growable, Prepare, FreeHalts, Freed, FreedRegions, Carve, CarveRegions,
      ReachesEnd, Carvable, Harmless, Freeable;
    OrdinaryIsEnabled(c, e);
    StepKeepsSafe(c, e, 0);
    match e
    case Request(size, align) => RequestKeepsNonempty(c, size, align);
    case Release(h) => ReleaseKeepsNonempty(c, h);
    case Write(h, at, value) => WriteKeepsSafe(c, h, at, value);
  }

  /** All calls of the run are ordinary, up to the first assertion that fails. Nothing is asked of what
      follows a state that is not steady. */
  ghost predicate OrdinaryRun(c: Config, events: seq<Event>)
    decreases |events|
  {
    events != [] && Steady(c) ==>
      && Ordinary(c, events[0])
      && (!Halts(c, events[0]) ==>
            (StepKeepsSteady(c, events[0]); OrdinaryRun(After(c, events[0]), events[1..])))
  }

  /** How many of the calls return: all of them, or those in front of the first that halts the kernel. */
  ghost function Returning(c: Config, events: seq<Event>): (n: nat)
    requires OrdinaryRun(c, events)
    ensures n <= |events|
    decreases |events|
  {
    if events == [] || !Steady(c) || Halts(c, events[0]) then 0
    else
      StepKeepsSteady(c, events[0]);
      1 + Returning(After(c, events[0]), events[1..])
  }

  /** The heap once they have returned. */
  ghost function Reached(c: Config, events: seq<Event>): Config
    requires OrdinaryRun(c, events)
    decreases |events|
  {
    if events == [] || !Steady(c) || Halts(c, events[0]) then c
    else
      StepKeepsSteady(c, events[0]);
      Reached(After(c, events[0]), events[1..])
  }

  /** The calls that return make a run, and it ends in a steady heap; if there is another call, it is
      ordinary and halts the kernel. */
  lemma {:induction false} ReturningRuns(c: Config, events: seq<Event>)
    requires Steady(c) && OrdinaryRun(c, events)
    ensures var n, r := Returning(c, events), Reached(c, events);
      && Run(c, events[..n]) && End(c, events[..n]) == r && Steady(r)
      && (n < |events| ==> Ordinary(r, events[n]) && Halts(r, events[n]))
    decreases |events|
  {
    hide Sound, Traced, After, NoEmptyBlocks, Enabled, Ordinary, Halts;
    var n := Returning(c, events);
    if n > 0 {
      StepKeepsSteady(c, events[0]);
      ReturningRuns(After(c, events[0]), events[1..]);
      var done := events[..n];
      assert done[0] == events[0] && done[1..] == events[1..][..n - 1];
      RunUnfolds(c, done);
    }
  }

  /** In every run of ordinary calls, up to the point where an assertion halts the kernel, if any, each
      call can happen and the heap stays consistent: nothing is asked of what a release finds in
      memory. Blocks that are neither released nor written to keep their place and their bytes. */
  lemma OrdinaryRunIsSafe(c: Config, events: seq<Event>, h: nat)
    requires Steady(c) && OrdinaryRun(c, events)
    ensures var done, r := events[..Returning(c, events)], Reached(c, events);
      && Run(c, done) && End(c, done) == r && Steady(r)
      && (Live(c.regions, h) && (forall e :: e in done ==> Spares(e, h)) ==>
            && Live(r.regions, h) && r.regions[h] == c.regions[h]
            && SameInside(c.heap.mem, r.heap.mem, h, Next(c.regions, h)))
  {
    hide Sound, Traced, NoEmptyBlocks, OrdinaryRun, Run, End;
    ReturningRuns(c, events);
    RunIsSafe(c, events[..Returning(c, events)], h);
  }

  lemma RunUnfolds(c: Config, events: seq<Event>)
    requires events != [] && Sound(c.heap, c.regions) && Enabled(c, events[0]) && Run(After(c, events[0]), events[1..])
    ensures Run(c, events) && End(c, events) == End(After(c, events[0]), events[1..])
  {
    hide Sound, After, Enabled;
  }
}
