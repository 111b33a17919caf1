/** Runs of the heap of src/impl/kheap.c, from the state that create_heap leaves, after which alloc or
    free goes wrong. */
module HeapExamples {
  import opened Bytes
  import opened OrderedArrays
  import opened HeapModel
  import opened HeapAlloc
  import opened HeapServe
  import opened HeapGrow
  import opened HeapFree
  import opened HeapSettle
  import opened HeapFreeSound
  import opened HeapFreeLaws
  import opened HeapRuns

  /** The state that create_heap leaves. */
  ghost predicate Fresh(c: Config) {
    && Safe(c) && c.heap.index == [c.heap.start]
    && c.regions == map[c.heap.start := Region(c.heap.end - c.heap.start, true)]
  }

  /** A safe state with these regions and this index, within the bounds of the heap in c. */
  ghost predicate Shaped(c: Config, d: Config, R: Regions, index: seq<nat>) {
    && Safe(d) && d.regions == R && d.heap.index == index
    && d.heap.start == c.heap.start && d.heap.end == c.heap.end && d.heap.max == c.heap.max
  }

  // ---- Single calls, with one hole in the index at most ----

  /** The only indexed hole is found by a request that it has room for. */
  lemma FindsOnly(c: Config, h: nat, size: nat)
    requires Safe(c) && c.heap.index == [h] && h in c.regions && size + MIN_REGION <= c.regions[h].size
    ensures Growable(c.heap, c.regions, size, false)
    ensures Prepare(c.heap, c.regions, size, false) == Ready(c.heap, c.regions, 0, 0)
    ensures Carvable(c.heap, c.regions, 0, size, false)
  {
    hide WordAt, Tagged, Tiled, HeapGrow.Grow, GrowRegions, Growth;
    RegionSize(c.heap, c.regions, h);
    assert Fits(c.heap.mem, c.heap.index[0], size + MIN_REGION, false);
  }

  lemma OnlyRemoved(h: nat)
    ensures Removed([h], 0) == []
  {
  }

  lemma OnlyInserted(x: nat, less: Order)
    ensures Inserted([], x, less) == [x]
  {
  }

  /** The hole at h with a block of `size` bytes cut off its front. */
  ghost function Split(R: Regions, h: nat, size: nat): Regions
    requires h in R && size + 2 * MIN_REGION <= R[h].size
  {
    R[h := Region(size + MIN_REGION, false)]
     [h + size + MIN_REGION := Region(R[h].size - size - MIN_REGION, true)]
  }

  /** The block at h and the hole behind it as one hole. */
  ghost function Joined(R: Regions, h: nat): Regions
    requires h in R && Next(R, h) in R
  {
    (R - {Next(R, h)})[h := Region(R[h].size + R[Next(R, h)].size, true)]
  }

  /** A request that the only indexed hole has more than enough room for. */
  lemma RequestSplits(c: Config, h: nat, size: nat)
    requires Safe(c) && c.heap.index == [h] && h in c.regions && size + 2 * MIN_REGION <= c.regions[h].size
    ensures Enabled(c, Request(size, false))
    ensures Shaped(c, After(c, Request(size, false)), Split(c.regions, h, size), [h + size + MIN_REGION])
  {
    hide WordAt, Sound, Traced, Fits, CarvedMem, Inserted, Removed;
    FindsOnly(c, h, size);
    StepKeepsSafe(c, Request(size, false), 0);
    NoPrefix(h);
    OnlyRemoved(h);
    OnlyInserted(h + size + MIN_REGION, BySize(After(c, Request(size, false)).heap.mem));
  }

  /** A request for the whole of the only indexed hole. */
  lemma RequestTakes(c: Config, h: nat, size: nat)
    requires Safe(c) && c.heap.index == [h] && h in c.regions && size + MIN_REGION == c.regions[h].size
    ensures Enabled(c, Request(size, false))
    ensures Shaped(c, After(c, Request(size, false)), c.regions[h := Region(size + MIN_REGION, false)], [])
  {
    hide WordAt, Sound, Traced, Fits, CarvedMem, Inserted, Removed;
    FindsOnly(c, h, size);
    StepKeepsSafe(c, Request(size, false), 0);
    NoPrefix(h);
    OnlyRemoved(h);
  }

  /** What is left behind the block ends with its own footer. */
  lemma SplitFooter(c: Config, h: nat, size: nat)
    requires Safe(c) && c.heap.index == [h] && h in c.regions && size + 2 * MIN_REGION <= c.regions[h].size
    requires Enabled(c, Request(size, false))
    ensures FooterAt(After(c, Request(size, false)).heap.mem, Next(c.regions, h) - FOOTER, h + size + MIN_REGION)
  {
    hide WordAt, Tagged, Tiled, Fits, SplitMem, HeaderAt, FooterAt;
    FindsOnly(c, h, size);
    Plan(c.heap, c.regions, 0, size, false);
    NoPrefix(h);
    RegionBounds(c.regions, c.heap.start, c.heap.end, h);
    SplitMemTags(c.heap.mem, h, c.regions[h].size, size + MIN_REGION);
  }

  lemma StartNotStale(s: Heap, R: Regions)
    requires Sound(s, R)
    ensures !LeftFound(s.mem, s.start) && !LeftStale(s, R, s.start)
  {
    hide WordAt, Tagged, IndexHoles;
  }

  /** The release of the first block, with another block behind it and nothing in the index. */
  lemma ReleaseFirst(c: Config, h: nat)
    requires Safe(c) && h == c.heap.start && Live(c.regions, h) && Live(c.regions, Next(c.regions, h))
    requires c.heap.index == []
    ensures Enabled(c, Release(h))
    ensures Shaped(c, After(c, Release(h)), Flagged(c.regions, h), [h])
  {
    hide WordAt, Tagged, Traced, Tiled, AfterLeft, FreeHalts, IndexHoles, Inserted, Freed, LeftStale;
    var s, R := c.heap, c.regions;
    StartNotStale(s, R);
    NotTheEnd(s, R, h);
    HaltsIff(s, R, h);
    LeftSeen(s, R, h);
    LeftHeader(s, R, h);
    assert Enabled(c, Release(h));
    StepKeepsSafe(c, Release(h), 0);
    FreedIs(s, R, h);
    OnlyInserted(h, BySize(Coalesced(s, R, h).mem));
  }

  /** The release of the first block, with the only indexed hole behind it and a block behind that. */
  lemma ReleaseJoins(c: Config, h: nat)
    requires Safe(c) && h == c.heap.start && Live(c.regions, h) && HoleOnRight(c.regions, h)
    requires Live(c.regions, MergedEnd(c.regions, h)) && c.heap.index == [Next(c.regions, h)]
    ensures Enabled(c, Release(h))
    ensures Shaped(c, After(c, Release(h)), Joined(c.regions, h), [h])
  {
    hide WordAt, Tagged, Traced, Tiled, AfterLeft, FreeHalts, IndexHoles, Inserted, Removed, Freed, LeftStale;
    var s, R := c.heap, c.regions;
    StartNotStale(s, R);
    NotTheEnd(s, R, h);
    HaltsIff(s, R, h);
    LeftSeen(s, R, h);
    LeftHeader(s, R, h);
    assert Enabled(c, Release(h));
    StepKeepsSafe(c, Release(h), 0);
    FreedIs(s, R, h);
    OnlyRemoved(Next(R, h));
    OnlyInserted(h, BySize(Coalesced(s, R, h).mem));
    NextDiffers(s, R, h);
  }

  lemma NextDiffers(s: Heap, R: Regions, h: nat)
    requires Sound(s, R) && h in R
    ensures h < Next(R, h)
  {
  }

  /** The release of a block with payload behind a stale footer, with a block behind it. */
  lemma ReleaseStale(c: Config, h: nat)
    requires Safe(c) && Live(c.regions, h) && LeftStale(c.heap, c.regions, h) && MIN_REGION < c.regions[h].size
    requires Live(c.regions, Next(c.regions, h))
    ensures Enabled(c, Release(h)) && LostIn(After(c, Release(h)), h)
    ensures Shaped(c, After(c, Release(h)), Flagged(c.regions, h), c.heap.index)
  {
    hide WordAt, Tagged, Traced, Tiled, AfterLeft, FreeHalts, IndexHoles, Inserted, Freed, LeftStale, Lost;
    var s, R := c.heap, c.regions;
    NotTheEnd(s, R, h);
    HaltsIff(s, R, h);
    LeftHeader(s, R, h);
    assert Enabled(c, Release(h));
    StepKeepsSafe(c, Release(h), 0);
    FreedIs(s, R, h);
    StaleLoses(s, R, h);
    CoalescedAt(s, R, h, h);
  }

  // ---- Runs ----

  lemma {:induction false} RunAppends(c: Config, events: seq<Event>, e: Event)
    requires Safe(c) && Run(c, events) && Safe(End(c, events)) && Enabled(End(c, events), e)
    ensures Run(c, events + [e]) && End(c, events + [e]) == After(End(c, events), e)
    decreases |events|
  {
    hide Sound, Traced, Enabled, After;
    var all := events + [e];
    if events == [] {
      assert all == [e] && all[0] == e && all[1..] == [];
    } else {
      StepKeepsSafe(c, events[0], 0);
      assert all[0] == events[0] && all[1..] == events[1..] + [e];
      RunAppends(After(c, events[0]), events[1..], e);
    }
  }

  /** A run of the calls that ends in a state of this shape. */
  ghost predicate Leads(c: Config, events: seq<Event>, R: Regions, index: seq<nat>) {
    Safe(c) && Run(c, events) && Shaped(c, End(c, events), R, index)
  }

  /** The block at h finds a stale footer there. */
  ghost predicate LeadsStale(c: Config, events: seq<Event>, R: Regions, index: seq<nat>, h: nat) {
    Leads(c, events, R, index) && h in R && LeftStale(End(c, events).heap, R, h)
  }

  lemma LeadsOn(c: Config, events: seq<Event>, e: Event, R: Regions, index: seq<nat>, R': Regions, index': seq<nat>)
    requires Leads(c, events, R, index) && Enabled(End(c, events), e)
    requires Shaped(End(c, events), After(End(c, events), e), R', index')
    ensures Leads(c, events + [e], R', index') && End(c, events + [e]) == After(End(c, events), e)
  {
    hide Sound, Traced, Enabled, After, Run, End;
    RunAppends(c, events, e);
  }

  ghost function Block(size: nat): Region {
    Region(size, false)
  }

  ghost function Hole(size: nat): Region {
    Region(size, true)
  }

  /** The request for a block of `size` bytes, tags included. */
  function Ask(size: nat): Event
    requires MIN_REGION <= size
  {
    Request(size - MIN_REGION, false)
  }

  /** A block of a bytes at the start of a fresh heap. */
  lemma FirstBlock(c: Config, a: nat)
    requires Fresh(c) && MIN_REGION <= a && a + MIN_REGION <= c.heap.end - c.heap.start
    ensures var S, L := c.heap.start, c.heap.end - c.heap.start;
      Leads(c, [Ask(a)], map[S := Block(a), S + a := Hole(L - a)], [S + a])
  {
    hide Sound, Traced, Enabled, After;
    RequestSplits(c, c.heap.start, a - MIN_REGION);
    LeadsOn(c, [], Ask(a), c.regions, c.heap.index, Split(c.regions, c.heap.start, a - MIN_REGION),
      [c.heap.start + a]);
    assert [] + [Ask(a)] == [Ask(a)];
  }

  /** Two blocks that take all of a fresh heap. */
  lemma TwoBlocks(c: Config, a: nat)
    requires Fresh(c) && MIN_REGION <= a && a + MIN_REGION <= c.heap.end - c.heap.start
    ensures var S, L := c.heap.start, c.heap.end - c.heap.start;
      Leads(c, [Ask(a), Ask(L - a)], map[S := Block(a), S + a := Block(L - a)], [])
  {
    hide Sound, Traced, Enabled, After, Run, End;
    var S, L := c.heap.start, c.heap.end - c.heap.start;
    var R := map[S := Block(a), S + a := Hole(L - a)];
    FirstBlock(c, a);
    RequestTakes(End(c, [Ask(a)]), S + a, L - a - MIN_REGION);
    LeadsOn(c, [Ask(a)], Ask(L - a), R, [S + a], R[S + a := Block(L - a)], []);
    assert [Ask(a)] + [Ask(L - a)] == [Ask(a), Ask(L - a)];
    assert R[S + a := Block(L - a)] == map[S := Block(a), S + a := Block(L - a)];
  }

  /** Three blocks that take all of a fresh heap. */
  lemma ThreeBlocks(c: Config, a: nat, b: nat)
    requires Fresh(c) && MIN_REGION <= a && MIN_REGION <= b && a + b + MIN_REGION <= c.heap.end - c.heap.start
    ensures var S, L := c.heap.start, c.heap.end - c.heap.start;
      Leads(c, [Ask(a), Ask(b), Ask(L - a - b)],
            map[S := Block(a), S + a := Block(b), S + a + b := Block(L - a - b)], [])
  {
    hide Sound, Traced, Enabled, After, Run, End;
    var S, L := c.heap.start, c.heap.end - c.heap.start;
    var R := map[S := Block(a), S + a := Hole(L - a)];
    var R' := map[S := Block(a), S + a := Block(b), S + a + b := Hole(L - a - b)];
    FirstBlock(c, a);
    RequestSplits(End(c, [Ask(a)]), S + a, b - MIN_REGION);
    assert Split(R, S + a, b - MIN_REGION) == R';
    LeadsOn(c, [Ask(a)], Ask(b), R, [S + a], R', [S + a + b]);
    assert [Ask(a)] + [Ask(b)] == [Ask(a), Ask(b)];
    RequestTakes(End(c, [Ask(a), Ask(b)]), S + a + b, L - a - b - MIN_REGION);
    LeadsOn(c, [Ask(a), Ask(b)], Ask(L - a - b), R', [S + a + b], R'[S + a + b := Block(L - a - b)], []);
    assert [Ask(a), Ask(b)] + [Ask(L - a - b)] == [Ask(a), Ask(b), Ask(L - a - b)];
    assert R'[S + a + b := Block(L - a - b)] == map[S := Block(a), S + a := Block(b), S + a + b := Block(L - a - b)];
  }

  /** With all of the heap in blocks, releasing the first, taking part of it again and releasing that
      leaves one hole in its place, but the block behind it finds a stale footer. T are the others. */
  lemma GoesStale(c: Config, events: seq<Event>, a: nat, b: nat, T: Regions)
    requires MIN_REGION <= b && b + MIN_REGION <= a && Leads(c, events, T[c.heap.start := Block(a)], [])
    requires c.heap.start !in T && Live(T, c.heap.start + a)
    ensures var S := c.heap.start;
      var all := events + [Release(S)] + [Ask(b)] + [Release(S)];
      LeadsStale(c, all, T[S := Hole(a)], [S], S + a)
  {
    hide Sound, Traced, Enabled, After, Run, End, LeftStale;
    var S := c.heap.start;
    var R0, R1, R2 := T[S := Block(a)], T[S := Hole(a)], T[S := Block(b)][S + b := Hole(a - b)];
    var first := events + [Release(S)];
    var second := first + [Ask(b)];
    ReleaseFirst(End(c, events), S);
    assert Flagged(R0, S) == R1;
    LeadsOn(c, events, Release(S), R0, [], R1, [S]);
    RequestSplits(End(c, first), S, b - MIN_REGION);
    SplitFooter(End(c, first), S, b - MIN_REGION);
    InsideFirst(End(c, first), S, b);
    assert Split(R1, S, b - MIN_REGION) == R2;
    LeadsOn(c, first, Ask(b), R1, [S], R2, [S + b]);
    var d := End(c, second);
    assert MergedEnd(R2, S) == S + a;
    ReleaseJoins(d, S);
    assert Joined(R2, S) == R1;
    LeadsOn(c, second, Release(S), R2, [S + b], R1, [S]);
    StaleBehind(d, S);
  }

  lemma InsideFirst(d: Config, h: nat, b: nat)
    requires Safe(d) && h in d.regions && 0 < b < d.regions[h].size
    ensures h + b !in d.regions
  {
    hide Traced, WordAt, Tagged, IndexHoles;
  }

  /** What the release of the first block leaves for the block behind the hole it has swallowed. */
  lemma StaleBehind(d: Config, h: nat)
    requires Safe(d) && h == d.heap.start && Live(d.regions, h) && HoleOnRight(d.regions, h)
    requires Enabled(d, Release(h)) && Live(d.regions, MergedEnd(d.regions, h))
    requires FOOTER <= MergedEnd(d.regions, h)
    requires FooterAt(d.heap.mem, MergedEnd(d.regions, h) - FOOTER, Next(d.regions, h))
    ensures Sound(After(d, Release(h)).heap, After(d, Release(h)).regions)
    ensures Live(After(d, Release(h)).regions, MergedEnd(d.regions, h))
    ensures LeftStale(After(d, Release(h)).heap, After(d, Release(h)).regions, MergedEnd(d.regions, h))
  {
    hide Sound, Traced, LeftStale, Freed, FreedRegions, FreeHalts, WordAt;
    StartNotStale(d.heap, d.regions);
    assert MergedEnd(d.regions, h) <= |d.heap.mem|;
    RightMergeGoesStale(d.heap, d.regions, h);
  }

  // ---- free ----

  /** The calls can be made in this order, and after them the release of the block at h halts, although
      it stays clear of the end, because of the lost hole at e behind it. */
  ghost predicate RunThenHalts(c: Config, events: seq<Event>, h: nat, e: nat) {
    Run(c, events) && HaltsNext(End(c, events), h, e)
  }

  ghost predicate HaltsNext(d: Config, h: nat, e: nat) {
    && Safe(d) && Live(d.regions, h) && !ReachesEnd(d.heap, d.regions, h) && FreeHalts(d.heap, d.regions, h)
    && Next(d.regions, h) == e && LostIn(d, e)
  }

  ghost function HaltingCalls(S: nat, L: nat, a: nat, b: nat, e: nat): seq<Event>
    requires MIN_REGION <= a && MIN_REGION <= b && MIN_REGION <= e && a + b + MIN_REGION <= L
  {
    [Ask(a), Ask(b), Ask(L - a - b)] + [Release(S)] + [Ask(e)] + [Release(S)] + [Release(S + a)] + [Ask(a)]
  }

  /** From the state that create_heap leaves, eight calls that all return, and then the release of a
      block that halts the kernel: it lies in front of the hole that the seventh call has lost. */
  lemma FreeCanHalt(c: Config, a: nat, b: nat, e: nat)
    requires Fresh(c) && MIN_REGION <= e && e + MIN_REGION <= a && MIN_REGION < b
    requires a + b + MIN_REGION <= c.heap.end - c.heap.start
    ensures var S, L := c.heap.start, c.heap.end - c.heap.start;
      RunThenHalts(c, HaltingCalls(S, L, a, b, e), S, S + a)
  {
    hide Sound, Traced, Enabled, After, Run, End, LeftStale, LostIn;
    var S, L := c.heap.start, c.heap.end - c.heap.start;
    var T := map[S + a := Block(b), S + a + b := Block(L - a - b)];
    var six := [Ask(a), Ask(b), Ask(L - a - b)] + [Release(S)] + [Ask(e)] + [Release(S)];
    ThreeBlocks(c, a, b);
    assert T[S := Block(a)] == map[S := Block(a), S + a := Block(b), S + a + b := Block(L - a - b)];
    GoesStale(c, [Ask(a), Ask(b), Ask(L - a - b)], a, e, T);
    var R := T[S := Hole(a)];
    var R' := R[S + a := Hole(b)];
    ReleaseStale(End(c, six), S + a);
    LeadsOn(c, six, Release(S + a), R, [S], R', [S]);
    var seven := six + [Release(S + a)];
    RequestTakes(End(c, seven), S, a - MIN_REGION);
    StepKeepsLost(End(c, seven), Ask(a), S + a);
    LeadsOn(c, seven, Ask(a), R', [S], R'[S := Block(a)], []);
    LostNext(End(c, seven + [Ask(a)]), S);
  }

  lemma LostNext(d: Config, h: nat)
    requires Safe(d) && Live(d.regions, h) && LostIn(d, Next(d.regions, h)) && !ReachesEnd(d.heap, d.regions, h)
    ensures HaltsNext(d, h, Next(d.regions, h))
  {
    hide Sound, Traced, FreeHalts, Lost;
    LostHalts(d.heap, d.regions, h);
  }

  ghost function StaleCalls(S: nat, L: nat, a: nat, b: nat, e: nat): seq<Event>
    requires MIN_REGION <= a && MIN_REGION <= b && MIN_REGION <= e && a + b + MIN_REGION <= L
  {
    [Ask(a), Ask(b), Ask(L - a - b)] + [Release(S)] + [Ask(e)] + [Release(S)]
  }

  /** The calls can be made in this order, and after them the release of the block at h, unless it
      halts, leaves no sound heap. */
  ghost predicate RunThenSpoils(c: Config, events: seq<Event>, h: nat) {
    Run(c, events) && SpoilsNext(End(c, events), h)
  }

  ghost predicate SpoilsNext(d: Config, h: nat) {
    && Safe(d) && Freeable(d.heap, d.regions, h)
    && (FreeHalts(d.heap, d.regions, h) || !exists R' :: Sound(Freed(d.heap, d.regions, h), R'))
  }

  /** From the state that create_heap leaves, six calls, one of them a request for nothing, and then the
      release of that empty block leaves no sound heap. */
  lemma EmptyCanSpoil(c: Config, a: nat, e: nat)
    requires Fresh(c) && MIN_REGION <= e && e + MIN_REGION <= a
    requires a + 2 * MIN_REGION <= c.heap.end - c.heap.start
    ensures var S, L := c.heap.start, c.heap.end - c.heap.start;
      RunThenSpoils(c, StaleCalls(S, L, a, MIN_REGION, e), S + a)
  {
    hide Sound, Traced, Enabled, After, Run, End, LeftStale, SpoilsNext;
    var S, L, b := c.heap.start, c.heap.end - c.heap.start, MIN_REGION;
    var T := map[S + a := Block(b), S + a + b := Block(L - a - b)];
    ThreeBlocks(c, a, b);
    assert T[S := Block(a)] == map[S := Block(a), S + a := Block(b), S + a + b := Block(L - a - b)];
    GoesStale(c, [Ask(a), Ask(b), Ask(L - a - b)], a, e, T);
    StaleSpoils(End(c, StaleCalls(S, L, a, b, e)), S + a);
  }

  /** A block behind a stale footer that is empty, or that is the last one. */
  lemma StaleSpoils(d: Config, h: nat)
    requires Safe(d) && Live(d.regions, h) && LeftStale(d.heap, d.regions, h)
    requires if MergedEnd(d.regions, h) == d.heap.end
             then d.heap.start + HEAP_MIN_SIZE <= d.heap.max && h != d.heap.start + HEAP_MIN_SIZE
             else d.regions[h].size == MIN_REGION
    ensures SpoilsNext(d, h)
  {
    hide Sound, Traced, LeftStale, FreeHalts, Freed, MergedEnd;
    if !FreeHalts(d.heap, d.regions, h) {
      FreeSoundIff(d.heap, d.regions, h);
    }
  }

  /** From the state that create_heap leaves, five calls, none of them for an empty block, and then the
      release of the last block leaves no sound heap. */
  lemma EndCanSpoil(c: Config, a: nat, e: nat)
    requires Fresh(c) && MIN_REGION < e && e + MIN_REGION <= a && a + MIN_REGION < c.heap.end - c.heap.start
    requires c.heap.start + HEAP_MIN_SIZE <= c.heap.max && a != HEAP_MIN_SIZE
    ensures var S, L := c.heap.start, c.heap.end - c.heap.start;
      RunThenSpoils(c, [Ask(a), Ask(L - a)] + [Release(S)] + [Ask(e)] + [Release(S)], S + a)
  {
    hide Sound, Traced, Enabled, After, Run, End, LeftStale, SpoilsNext;
    var S, L := c.heap.start, c.heap.end - c.heap.start;
    var T := map[S + a := Block(L - a)];
    TwoBlocks(c, a);
    assert T[S := Block(a)] == map[S := Block(a), S + a := Block(L - a)];
    GoesStale(c, [Ask(a), Ask(L - a)], a, e, T);
    var events := [Ask(a), Ask(L - a)] + [Release(S)] + [Ask(e)] + [Release(S)];
    StaleSpoils(End(c, events), S + a);
  }

  // ---- alloc ----

  /** The calls can be made in this order, and after them a request of `need` bytes, tags included,
      fits nowhere and makes the heap grow to one that has no sound reading with all other regions. */
  ghost predicate RunThenGrowsWrong(c: Config, events: seq<Event>, need: nat) {
    Run(c, events) && GrowsWrong(End(c, events).heap, End(c, events).regions, need)
  }

  ghost predicate GrowsWrong(s: Heap, R: Regions, need: nat) {
    && Sound(s, R) && FirstFit(s.mem, s.index, need, false, 0) == |s.index|
    && HasRoom(s, need) && MIN_REGION <= Growth(s, need)
    && !exists R' :: Sound(HeapGrow.Grow(s, R, Growth(s, need)), R') && OthersKept(R, Top(s.index), R')
  }

  /** From the state that create_heap leaves, three calls that leave a block behind the only hole, and
      then a request that is too large for that hole. */
  lemma GrowCanSpoil(c: Config, a: nat, need: nat)
    requires Fresh(c) && MIN_REGION <= a && a + MIN_REGION <= c.heap.end - c.heap.start
    requires a < need && c.heap.end + need + 0x1000 <= c.heap.max
    ensures var S, L := c.heap.start, c.heap.end - c.heap.start;
      RunThenGrowsWrong(c, [Ask(a), Ask(L - a)] + [Release(S)], need)
  {
    hide Sound, Traced, Enabled, After, Run, End, GrowsWrong;
    var S, L := c.heap.start, c.heap.end - c.heap.start;
    var R := map[S := Block(a), S + a := Block(L - a)];
    var two := [Ask(a), Ask(L - a)];
    TwoBlocks(c, a);
    ReleaseFirst(End(c, two), S);
    LeadsOn(c, two, Release(S), R, [], Flagged(R, S), [S]);
    GrowthSpoils(End(c, two + [Release(S)]), S, need);
  }

  lemma GrowthSpoils(d: Config, h: nat, need: nat)
    requires Safe(d) && d.heap.index == [h] && h in d.regions && d.regions[h].size < need && MIN_REGION <= need
    requires Next(d.regions, h) != d.heap.end && d.heap.end + need + 0x1000 <= d.heap.max
    ensures GrowsWrong(d.heap, d.regions, need)
  {
    hide WordAt, Tagged, Tiled, Traced, HeapGrow.Grow;
    RegionSize(d.heap, d.regions, h);
    GrowthIsRounded(d.heap, d.regions, need);
    assert Top(d.heap.index) == h;
    GrowSoundIff(d.heap, d.regions, need);
  }

  /** The calls can be made in this order, and after them the search accepts the only hole, at h, for a
      page-aligned request. The size read back from the header at h is the magic number of the footer
      that was stored over it, and no sound reading of the heap has the block handed out and all
      regions but that hole. */
  ghost predicate RunThenServesWrong(c: Config, events: seq<Event>, h: nat, size: nat) {
    Run(c, events) && ServesWrong(End(c, events).heap, End(c, events).regions, h, size)
  }

  ghost predicate ServesWrong(s: Heap, R: Regions, h: nat, size: nat) {
    && s.index == [h] && FirstFit(s.mem, s.index, size + MIN_REGION, true, 0) == 0 && Servable(s, R, 0, size, true)
    && h in R && Serving(s.mem, h, R[h].size, size, true)
    && WordAt(FrontMem(s.mem, h, R[h].size, size, true), h + 8) == HEAP_MAGIC
    && !exists R' :: Sound(Served(s, R, 0, size, true), R') && OthersKept(R, h, R') && Live(R', BlockAt(h, true))
  }

  /** From the state that create_heap leaves, one request that leaves the hole 0xFE4 bytes into its
      page, and then a page-aligned one. */
  lemma AlignedCanSpoil(c: Config, a: nat, size: nat)
    requires MIN_REGION <= a && a % 0x1000 == 0xFE4 && Fresh(c)
    requires a + 16 + size + MIN_REGION <= c.heap.end - c.heap.start
    ensures RunThenServesWrong(c, [Ask(a)], c.heap.start + a, size)
  {
    hide Traced, Enabled, After, Run, End, ServesWrong, Tiled, Tagged, WordAt, IndexHoles;
    FirstBlock(c, a);
    OffsetAdds(c.heap.start, a);
    ServesBadly(End(c, [Ask(a)]), c.heap.start + a, size);
  }

  lemma OffsetAdds(start: nat, a: nat)
    requires start % 0x1000 == 0
    ensures (start + a) % 0x1000 == a % 0x1000
  {
  }

  lemma ServesBadly(d: Config, h: nat, size: nat)
    requires Safe(d) && d.heap.index == [h] && h in d.regions && h % 0x1000 == 0xFE4
    requires 16 + size + MIN_REGION <= d.regions[h].size
    ensures ServesWrong(d.heap, d.regions, h, size)
  {
    hide WordAt, Tagged, Tiled, Traced, Served, FrontMem;
    RegionSize(d.heap, d.regions, h);
    assert Fits(d.heap.mem, d.heap.index[0], size + MIN_REGION, true);
    ServablePlan(d.heap, d.regions, 0, size, true);
    FrontOverwritten(d.heap.mem, h, d.regions[h].size, size);
    AlignedServesIff(d.heap, d.regions, 0, size);
  }

  lemma FrontOverwritten(m: Mem, h: nat, room: nat, size: nat)
    requires Serving(m, h, room, size, true) && h % 0x1000 == 0xFE4
    ensures WordAt(FrontMem(m, h, room, size, true), h + 8) == HEAP_MAGIC
  {
    hide WordAt, PutHeader, PutFooter;
    ServeInRange(h, room, size, true);
    assert BlockAt(h, true) - FOOTER == h + 8;
  }

  // ---- The heap of the kernel ----

  ghost function Zeros(n: nat): (m: Mem)
    ensures |m| == n && forall i :: 0 <= i < n ==> m[i] == 0
  {
    seq(n, _ => 0)
  }

  /** The heap that initialise_paging has create_heap make, in memory that is zero so far. */
  ghost function KernelConfig(): Config {
    var start, end := 0xC008_1000, 0xC010_0000;
    Config(Heap(PutHeader(Zeros(0xD000_0000), start, true, end - start), [start], start, end, 0xCFFF_F000),
           map[start := Region(end - start, true)])
  }

  lemma KernelConfigIsFresh()
    ensures Fresh(KernelConfig())
  {
    hide PutHeader, Consistent, WordAt, Zeros;
    var m := Zeros(0xD000_0000);
    ZeroWordAt(m, 0xC008_1000 - FOOTER);
    ZeroWordAt(m, 0xC010_0000 - FOOTER);
    FreshHeapSound(m, 0xC008_1000, 0xC010_0000, 0xCFFF_F000);
  }

  lemma ZeroWordAt(m: Mem, a: nat)
    requires a + 4 <= |m| && m[a] == m[a + 1] == m[a + 2] == m[a + 3] == 0
    ensures WordAt(m, a) == 0
  {
  }

  /** The heap of the kernel is one in which all of this can happen. */
  lemma KernelHeapCanFail()
    ensures var c, S, L := KernelConfig(), 0xC008_1000, 0x7_F000;
      && RunThenHalts(c, HaltingCalls(S, L, 120, 60, 40), S, S + 120)
      && RunThenSpoils(c, StaleCalls(S, L, 120, MIN_REGION, 40), S + 120)
      && RunThenSpoils(c, [Ask(120), Ask(L - 120)] + [Release(S)] + [Ask(40)] + [Release(S)], S + 120)
      && RunThenGrowsWrong(c, [Ask(120), Ask(L - 120)] + [Release(S)], 0x1000)
      && RunThenServesWrong(c, [Ask(0xFE4)], S + 0xFE4, 16)
  {
    hide Fresh, RunThenHalts, RunThenSpoils, RunThenGrowsWrong, RunThenServesWrong, HaltingCalls, StaleCalls, PutHeader;
    var c := KernelConfig();
    KernelConfigIsFresh();
    FreeCanHalt(c, 120, 60, 40);
    EmptyCanSpoil(c, 120, 40);
    EndCanSpoil(c, 120, 40);
    GrowCanSpoil(c, 120, 0x1000);
    AlignedCanSpoil(c, 0xFE4, 16);
  }
}
