/** alloc of src/impl/kheap.c keeps the traces of holes, and never hands out a lost one. */
module HeapTraces {
  import opened Bytes
  import opened OrderedArrays
  import opened HeapModel
  import opened HeapAlloc
  import opened HeapGrow

  // ---- Carving ----

  /** Every piece of the hole that is carved ends with its own footer. */
  lemma PieceFooters(m: Mem, R: Regions, start: nat, end: nat, h: nat, p: nat, taken: nat, a: nat)
    requires 0 < start && Tiled(R, start, end) && end <= |m| <= WORD_LIMIT && Tagged(m, R) && Cuttable(R, h, p, taken)
    requires a in CarvedRegions(R, h, p, taken) && (a == h || a !in R)
    ensures var e := Next(CarvedRegions(R, h, p, taken), a);
      FOOTER <= e <= |m| == |CarvedMem(m, R, h, p, taken)| && FooterAt(CarvedMem(m, R, h, p, taken), e - FOOTER, a)
  {
    hide WordAt, SplitMem, CutMem, RegionTags, FooterAt, CarvedRegions, Tiled;
    RegionBounds(R, start, end, h);
    CarvedAt(R, start, end, h, p, taken, a);
    var m1 := if p == 0 then m else CutMem(m, h, p);
    if p != 0 {
      CutMemTags(m, h, p);
    }
    SplitMemTags(m1, h + p, R[h].size - p, taken);
    if a == h && p != 0 {
      FooterFrame(m1, CarvedMem(m, R, h, p, taken), h + p - FOOTER, h);
    }
  }

  /** A lost hole stays lost: it is neither carved nor put into the index. */
  lemma CarveKeepsLost(s: Heap, R: Regions, i: nat, size: nat, align: bool, e: nat)
    requires Carvable(s, R, i, size, align) && Lost(s.mem, R, s.index, e)
    ensures var s' := Carve(s, R, i, size, align);
      Lost(s'.mem, CarveRegions(s, R, i, size, align), s'.index, e)
  {
    hide WordAt, CarvedMem, CarvedRegions, Tagged, Fits, Divisible, Prefix, Taken, Tiled, Inserted, Removed;
    Plan(s, R, i, size, align);
    var h := s.index[i];
    var p, taken := Prefix(h, align), Taken(R[h].size, size);
    var s', R' := Carve(s, R, i, size, align), CarveRegions(s, R, i, size, align);
    CarvedAt(R, s.start, s.end, h, p, taken, e);
    CarvedAt(R, s.start, s.end, h, p, taken, h + p + taken);
    CarvedBlock(s, R, i, size, align);
    RemovedElements(s.index, i);
    InsertedElements(if p == 0 then Removed(s.index, i) else s.index, h + p + taken, BySize(s'.mem));
    RegionBounds(R, s.start, s.end, e);
    LostFrame(s.mem, R, s.index, s'.mem, R', s'.index, e);
  }

  lemma CarveKeepsTraces(s: Heap, R: Regions, i: nat, size: nat, align: bool)
    requires Carvable(s, R, i, size, align) && Traced(s, R)
    ensures Traced(Carve(s, R, i, size, align), CarveRegions(s, R, i, size, align))
  {
    hide WordAt, CarvedMem, CarvedRegions, CarvedIndex, Tagged, Fits, Divisible, Prefix, Taken, Tiled, TracedAt, Lost;
    Plan(s, R, i, size, align);
    var h := s.index[i];
    var p, taken := Prefix(h, align), Taken(R[h].size, size);
    var s', R' := Carve(s, R, i, size, align), CarveRegions(s, R, i, size, align);
    CarvedBlock(s, R, i, size, align);
    forall a | a in R' ensures TracedAt(s'.mem, R', s'.index, a) {
      if a == h || a !in R {
        PieceFooters(s.mem, R, s.start, s.end, h, p, taken, a);
        OwnTrace(s'.mem, R', s'.index, a);
      } else {
        CarvedAt(R, s.start, s.end, h, p, taken, a);
        TagsAt(s.mem, R, a);
        if Lost(s.mem, R, s.index, Next(R, a)) {
          CarveKeepsLost(s, R, i, size, align, Next(R, a));
        }
        TracedFrame(s.mem, R, s.index, s'.mem, R', s'.index, a);
      }
    }
  }

  // ---- Growth ----

  lemma GrowKeepsLost(s: Heap, R: Regions, g: nat, e: nat)
    requires Sound(s, R) && MIN_REGION <= g && s.end + g <= s.max && TopAbuts(s, R) && Lost(s.mem, R, s.index, e)
    ensures var s' := HeapGrow.Grow(s, R, g); Lost(s'.mem, GrowRegions(s, R, g), s'.index, e)
  {
    hide WordAt, Tagged, GrowMem;
    var s' := HeapGrow.Grow(s, R, g);
    GrowTags(s, R, g);
    RegionBounds(R, s.start, s.end, e);
    LostFrame(s.mem, R, s.index, s'.mem, GrowRegions(s, R, g), s'.index, e);
  }

  lemma GrowKeepsTraces(s: Heap, R: Regions, g: nat)
    requires Consistent(s, R) && MIN_REGION <= g && s.end + g <= s.max && TopAbuts(s, R)
    ensures Traced(HeapGrow.Grow(s, R, g), GrowRegions(s, R, g))
  {
    hide WordAt, Tagged, GrowMem, TracedAt, Lost;
    var s', R' := HeapGrow.Grow(s, R, g), GrowRegions(s, R, g);
    var t := if s.index == [] then s.end else Top(s.index);
    GrowTags(s, R, g);
    forall a | a in R' ensures TracedAt(s'.mem, R', s'.index, a) {
      if a == t {
        GrownFooter(s, R, g);
        OwnTrace(s'.mem, R', s'.index, a);
      } else {
        TagsAt(s.mem, R, a);
        RegionBounds(R, s.start, s.end, a);
        if s.index != [] {
          Apart(R, s.start, s.end, a, t);
        }
        if Lost(s.mem, R, s.index, Next(R, a)) {
          GrowKeepsLost(s, R, g, Next(R, a));
        }
        TracedFrame(s.mem, R, s.index, s'.mem, R', s'.index, a);
      }
    }
  }

  /** Growth writes a footer at the new end. */
  lemma GrownFooter(s: Heap, R: Regions, g: nat)
    requires Sound(s, R) && MIN_REGION <= g && s.end + g <= s.max && TopAbuts(s, R)
    ensures var t := if s.index == [] then s.end else Top(s.index);
      && t in GrowRegions(s, R, g) && Next(GrowRegions(s, R, g), t) == s.end + g <= |s.mem|
      && FooterAt(GrowMem(s, R, g), s.end + g - FOOTER, t)
  {
    hide WordAt, Tagged, PutFooter, PutHeader, PutWord;
  }

  // ---- alloc as a whole ----

  /** What was lost before the call is lost after it, and all holes are still traced. */
  ghost predicate KeepsTraces(s: Heap, R: Regions, s': Heap, R': Regions) {
    && Traced(s', R')
    && forall e :: Lost(s.mem, R, s.index, e) ==> Lost(s'.mem, R', s'.index, e)
  }

  lemma {:induction false} PrepareKeepsTraces(s: Heap, R: Regions, size: nat, align: bool)
    requires Consistent(s, R) && Growable(s, R, size, align) && Prepare(s, R, size, align).Ready?
    ensures KeepsTraces(s, R, Prepare(s, R, size, align).heap, Prepare(s, R, size, align).regions)
    decreases s.max - s.end
  {
    hide Sound, FirstFit, HasRoom, Growth, Growable, HeapGrow.Grow, GrowRegions, Prepare, TracedAt, Lost, TopAbuts;
    PrepareStep(s, R, size, align);
    var need := size + MIN_REGION;
    if FirstFit(s.mem, s.index, need, align, 0) == |s.index| && HasRoom(s, need) {
      var g := Growth(s, need);
      var s1, R1 := HeapGrow.Grow(s, R, g), GrowRegions(s, R, g);
      GrowKeepsTraces(s, R, g);
      PrepareKeepsTraces(s1, R1, size, align);
      forall e | Lost(s.mem, R, s.index, e) ensures Lost(s1.mem, R1, s1.index, e) {
        GrowKeepsLost(s, R, g, e);
      }
    }
  }

  /** A request, growth included, keeps the heap consistent and every live block as it is, byte by
      byte, indexes all holes if they were indexed before, and hands out no lost hole. */
  lemma AllocKeepsConsistent(s: Heap, R: Regions, size: nat, align: bool)
    requires Consistent(s, R) && Growable(s, R, size, align) && Prepare(s, R, size, align).Ready?
    requires var found := Prepare(s, R, size, align);
      Carvable(found.heap, found.regions, found.at, size, align)
    ensures var found := Prepare(s, R, size, align);
      var s' := Carve(found.heap, found.regions, found.at, size, align);
      var R' := CarveRegions(found.heap, found.regions, found.at, size, align);
      && Consistent(s', R') && BlocksKept(s, R, s', R') && KeepsTraces(s, R, s', R')
      && (IndexComplete(s.index, R) ==> IndexComplete(s'.index, R'))
  {
    hide Sound, Carve, CarveRegions, Prepare, Growable, Carvable, IndexComplete, BlocksKept, TracedAt, Lost;
    var found := Prepare(s, R, size, align);
    AllocIsSafe(s, R, size, align);
    PrepareKeepsTraces(s, R, size, align);
    CarveKeepsTraces(found.heap, found.regions, found.at, size, align);
    var s' := Carve(found.heap, found.regions, found.at, size, align);
    var R' := CarveRegions(found.heap, found.regions, found.at, size, align);
    forall e | Lost(s.mem, R, s.index, e) ensures Lost(s'.mem, R', s'.index, e) {
      CarveKeepsLost(found.heap, found.regions, found.at, size, align, e);
    }
  }
}
