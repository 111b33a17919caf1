/** The paging state of src/impl/paging.c and the methods that update it. */
module PagingUnit {
  import opened Frames
  import opened Spaces
  import opened SpaceLaws

  class Paging {
    const bitmap: FrameMap
    const phys: array<nat>
    var tables: map<nat, seq<Page>>
    var dirs: map<nat, seq<nat>>
    var next: nat

    ghost predicate Valid()
      reads this, bitmap.frames, phys
    {
      bitmap.Valid() && phys.Length == NFRAMES * 1024 && (phys as object) != bitmap.frames && Formed(State())
    }

    ghost function State(): Space
      requires bitmap.Valid()
      reads this, bitmap.frames, phys
    {
      Space(bitmap.InUseSet(), tables, dirs, next, phys[..])
    }

    constructor ()
      ensures Valid() && fresh(bitmap.frames) && fresh(phys)
      ensures bitmap.InUseSet() == {} && tables == map[] && dirs == map[]
    {
      bitmap := new FrameMap();
      phys := new nat[NFRAMES * 1024];
      tables := map[];
      dirs := map[];
      next := 1;
    }

    /** alloc_frame on page i of the table t. */
    method AllocFrame(t: nat, i: nat, kernel: bool, writeable: bool)
      requires Valid() && HasPage(State(), t, i)
      modifies this`tables, bitmap.frames
      ensures Valid() && State() == AllocFrameAt(old(State()), t, i, kernel, writeable)
    {
      hide LeastFree;
      AllocForms(State(), t, i, kernel, writeable);
      LeastFreeInRange(bitmap.InUseSet());
      var page := tables[t][i];
      if page.frame != 0 {
        return;
      }
      var idx := bitmap.FirstFrame();
      bitmap.SetFrame(idx * 0x1000);
      page := page.(present := true, rw := writeable, user := !kernel, frame := idx);
      tables := tables[t := tables[t][i := page]];
    }

    /** free_frame on page i of the table t. */
    method FreeFrame(t: nat, i: nat)
      requires Valid() && HasPage(State(), t, i)
      modifies this`tables, bitmap.frames
      ensures Valid() && State() == FreeFrameAt(old(State()), t, i)
    {
      AllocForms(State(), t, i, false, false);
      var page := tables[t][i];
      if page.frame == 0 {
        return;
      }
      bitmap.ClearFrame(page.frame);
      tables := tables[t := tables[t][i := page.(frame := 0)]];
    }

    /** get_page: the table and the position in it; table 0 if there is none. */
    method GetPage(address: nat, make: bool, d: nat) returns (t: nat, i: nat)
      requires Valid() && d in dirs && address < LIMIT
      modifies this`tables, this`dirs, this`next
      ensures Valid() && TableIndex(address) < ENTRIES && i == PageIndex(address) < ENTRIES
      ensures State() == if make then MakeTable(old(State()), d, TableIndex(address)) else old(State())
      ensures d in dirs && t == dirs[d][TableIndex(address)] && (t != 0 ==> t in tables)
    {
      Indices(address);
      var page := address / 0x1000;
      var e := page / 1024;
      i := page % 1024;
      if dirs[d][e] == 0 && make {
        tables := tables[next := seq(ENTRIES, _ => ZERO_PAGE)];
        var entries: seq<nat> := dirs[d][e := next];
        dirs := dirs[d := entries];
        next := next + 1;
      }
      t := dirs[d][e];
    }

    /** copy_page_physical */
    method CopyPage(from: nat, to: nat)
      requires phys.Length == NFRAMES * 1024 && from < NFRAMES && to < NFRAMES
      modifies phys
      ensures phys[..] == CopyFrame(old(phys[..]), from, to)
    {
      var k := 0;
      while k < 1024
        invariant k <= 1024
        invariant forall x :: 0 <= x < phys.Length ==>
          phys[x] == if to * 1024 <= x < to * 1024 + k then old(phys[x - to * 1024 + from * 1024]) else old(phys[x])
      {
        phys[to * 1024 + k] := phys[from * 1024 + k];
        k := k + 1;
      }
    }

    /** One step of the loop of clone_table. */
    method ClonePage(src: Page) returns (page: Page)
      requires bitmap.Valid() && phys.Length == NFRAMES * 1024 && (phys as object) != bitmap.frames
      requires src.frame < NFRAMES
      modifies bitmap.frames, phys
      ensures LeastFree(old(bitmap.InUseSet()), 0) < NFRAMES
      ensures if src.frame == 0
              then bitmap.InUseSet() == old(bitmap.InUseSet()) && phys[..] == old(phys[..]) && page == ZERO_PAGE
              else var f := LeastFree(old(bitmap.InUseSet()), 0);
                bitmap.InUseSet() == old(bitmap.InUseSet()) + {f} && phys[..] == CopyFrame(old(phys[..]), src.frame, f)
                && page == ClonedPage(src, f)
    {
      hide LeastFree, CopyFrame;
      page := ZERO_PAGE;
      LeastFreeInRange(bitmap.InUseSet());
      if src.frame == 0 {
        return;
      }
      var idx := bitmap.FirstFrame();
      bitmap.SetFrame(idx * 0x1000);
      page := page.(present := true, rw := false, user := true, frame := idx);
      if src.present { page := page.(present := true); }
      if src.rw { page := page.(rw := true); }
      if src.user { page := page.(user := true); }
      if src.accessed { page := page.(accessed := true); }
      if src.dirty { page := page.(dirty := true); }
      CopyPage(src.frame, idx);
    }

    /** clone_table */
    method CloneTable(t: nat) returns (copy: nat)
      requires Valid() && t in tables
      modifies this`tables, this`next, bitmap.frames, phys
      ensures Valid() && copy == old(next) && State() == Spaces.CloneTable(old(State()), t)
    {
      hide LeastFree, CopyFrame, Owned, Extends;
      ghost var s := State();
      CloneTableForms(s, t);
      copy := next;
      next := next + 1;
      var src := tables[t];
      assert GoodPages(src);
      var pages: seq<Page> := [];
      var i := 0;
      while i < ENTRIES
        invariant i <= ENTRIES && tables == s.tables && next == s.next + 1
        invariant Copying(bitmap.InUseSet(), phys[..], pages) == CopyPages(s.used, s.phys, src, i)
      {
        var page := ClonePage(src[i]);
        pages := pages + [page];
        i := i + 1;
      }
      tables := tables[copy := pages];
    }

    /** clone_directory, given the kernel directory kd. */
    method CloneDirectory(d: nat, kd: nat) returns (copy: nat)
      requires Valid() && d in dirs && kd in dirs
      modifies this`tables, this`dirs, this`next, bitmap.frames, phys
      ensures Valid() && copy == old(next) && State() == Spaces.CloneDirectory(old(State()), d, kd)
    {
      hide Owned, Spaces.CloneTable, CopyPages, Extends, Used, CloneEntries;
      ghost var s := State();
      CloneForms(s, d, kd);
      copy := next;
      next := next + 1;
      assert Formed(State());
      var src, kernel := dirs[d], dirs[kd];
      var entries: seq<nat> := [];
      var i := 0;
      EntriesStep(s.(next := s.next + 1), src, kernel, 0);
      while i < ENTRIES
        invariant i <= ENTRIES && Valid()
        invariant (State(), entries) == CloneEntries(s.(next := s.next + 1), src, kernel, i)
      {
        EntriesStep(s.(next := s.next + 1), src, kernel, i);
        if src[i] == 0 || kernel[i] == src[i] {
          entries := entries + [src[i]];
        } else {
          var t := CloneTable(src[i]);
          entries := entries + [t];
        }
        i := i + 1;
      }
      dirs := dirs[copy := entries];
    }

    /** alloc_frame(get_page(address, 1, d), 0, 0), when the first `count` frames are in use. */
    method MapPage(address: nat, d: nat, ghost count: nat)
      requires Valid() && d in dirs && address < LIMIT && count < NFRAMES
      requires bitmap.InUseSet() == First(count)
      requires var t := dirs[d][TableIndex(address)]; t == 0 || tables[t][PageIndex(address)] == ZERO_PAGE
      modifies this`tables, this`dirs, this`next, bitmap.frames
      ensures Valid() && bitmap.InUseSet() == First(count + 1) && TableIndex(address) < ENTRIES
      ensures d in dirs && |dirs[d]| == |old(dirs)[d]| == ENTRIES
      ensures var e := TableIndex(address); var t := dirs[d][e];
        && t != 0 && t in tables && (forall i :: 0 <= i < ENTRIES && i != e ==> dirs[d][i] == old(dirs[d][i]))
        && (if old(dirs[d][e]) == 0 then t !in old(tables) else t == old(dirs[d][e]))
        && tables[t] == (if old(dirs[d][e]) == 0 then seq(ENTRIES, _ => ZERO_PAGE) else old(tables)[t])
             [PageIndex(address) := BootPage(count)]
        && forall u :: u in old(tables) && u != t ==> u in tables && tables[u] == old(tables)[u]
    {
      hide Used, Owned;
      Indices(address);
      LeastOfFirst(count);
      var t, i := GetPage(address, true, d);
      assert tables[t][i] == ZERO_PAGE;
      AllocFrame(t, i, false, false);
      assert First(count + 1) == First(count) + {count};
    }

    ghost predicate AllZero(t: nat)
      reads this
    {
      t != 0 && t in tables && |tables[t]| == ENTRIES && forall j :: 0 <= j < ENTRIES ==> tables[t][j] == ZERO_PAGE
    }

    /** Page j of the table t has frame from + j, for the first n pages, and the rest none. */
    ghost predicate MappedFrom(t: nat, n: nat, from: nat)
      reads this
    {
      && t != 0 && t in tables && |tables[t]| == ENTRIES
      && forall j :: 0 <= j < ENTRIES ==> tables[t][j] == if j < n then BootPage(from + j) else ZERO_PAGE
    }

    /** The first loop of initialise_paging: the table for the heap's pages. */
    method MakeHeapTable(kd: nat) returns (ghost heap: nat)
      requires Valid() && kd in dirs && dirs[kd][0] == dirs[kd][768] == 0
      modifies this`tables, this`dirs, this`next
      ensures Valid() && kd in dirs && dirs[kd][0] == 0 && dirs[kd][768] == heap && AllZero(heap)
      ensures bitmap.InUseSet() == old(bitmap.InUseSet())
    {
      var i := 0;
      while i < 256
        invariant Valid() && i <= 256 && kd in dirs && dirs[kd][0] == 0
        invariant if dirs[kd][768] == 0 then i == 0 else AllZero(dirs[kd][768])
      {
        HeapIndices(i);
        var t, x := GetPage(0xC000_0000 + i * 0x1000, true, kd);
        i := i + 1;
      }
      heap := dirs[kd][768];
    }

    /** The second loop of initialise_paging: the first 4 MB. */
    method MapLow(kd: nat, ghost heap: nat) returns (ghost low: nat)
      requires Valid() && kd in dirs && |dirs[kd]| == ENTRIES && dirs[kd][0] == 0 && dirs[kd][768] == heap
      requires AllZero(heap) && bitmap.InUseSet() == {}
      modifies this`tables, this`dirs, this`next, bitmap.frames
      ensures Valid() && kd in dirs && |dirs[kd]| == ENTRIES && dirs[kd][768] == heap && AllZero(heap)
      ensures dirs[kd][0] == low && low != heap && MappedFrom(low, 1024, 0) && bitmap.InUseSet() == First(1024)
    {
      hide Used, Owned, Formed;
      var i := 0;
      while i < 1024
        invariant Valid() && i <= 1024 && kd in dirs && |dirs[kd]| == ENTRIES && bitmap.InUseSet() == First(i)
        invariant dirs[kd][768] == heap && AllZero(heap) && dirs[kd][0] != heap
        invariant if dirs[kd][0] == 0 then i == 0 else MappedFrom(dirs[kd][0], i, 0)
      {
        LowIndices(i);
        MapPage(i * 0x1000, kd, i);
        i := i + 1;
      }
      low := dirs[kd][0];
    }

    /** The mapping loops of initialise_paging: the table for the heap, the first 4 MB, and
        the pages of the heap. Page k gets frame k, and heap page j the frame 1024 + j. */
    method InitialisePaging() returns (kd: nat)
      requires Valid() && bitmap.InUseSet() == {}
      modifies this`tables, this`dirs, this`next, bitmap.frames
      ensures Valid() && kd in dirs && bitmap.InUseSet() == First(1280)
      ensures MappedFrom(dirs[kd][0], 1024, 0) && MappedFrom(dirs[kd][768], 256, 1024)
    {
      hide Used, Owned;
      kd := next;
      dirs := dirs[kd := seq<nat>(ENTRIES, _ => 0)];
      next := next + 1;
      ghost var heap := MakeHeapTable(kd);
      ghost var low := MapLow(kd, heap);
      MapHeap(kd, heap, low);
    }

    /** The third loop of initialise_paging: the pages of the heap. */
    method MapHeap(kd: nat, ghost heap: nat, ghost low: nat)
      requires Valid() && kd in dirs && |dirs[kd]| == ENTRIES && dirs[kd][768] == heap && dirs[kd][0] == low
      requires low != heap
      requires AllZero(heap) && MappedFrom(low, 1024, 0) && bitmap.InUseSet() == First(1024)
      modifies this`tables, this`dirs, this`next, bitmap.frames
      ensures Valid() && kd in dirs && |dirs[kd]| == ENTRIES && dirs[kd][768] == heap && dirs[kd][0] == low
      ensures MappedFrom(low, 1024, 0) && MappedFrom(heap, 256, 1024) && bitmap.InUseSet() == First(1280)
    {
      hide Used, Owned, Formed;
      var i := 0;
      while i < 256
        invariant Valid() && i <= 256 && kd in dirs && |dirs[kd]| == ENTRIES && bitmap.InUseSet() == First(1024 + i)
        invariant dirs[kd][768] == heap && dirs[kd][0] == low
        invariant MappedFrom(low, 1024, 0) && MappedFrom(heap, i, 1024)
      {
        HeapIndices(i);
        MapPage(0xC000_0000 + i * 0x1000, kd, 1024 + i);
        i := i + 1;
      }
    }
  }

  /** The first n frames. */
  ghost function First(n: nat): (r: set<nat>)
    ensures forall f: nat :: f in r <==> f < n
  {
    if n == 0 then {} else First(n - 1) + {n - 1}
  }

  /** What alloc_frame(page, 0, 0) makes of an empty page. */
  function BootPage(frame: nat): Page {
    Page(true, false, true, false, false, frame)
  }

  lemma LeastOfFirst(n: nat)
    requires n < NFRAMES
    ensures LeastFree(First(n), 0) == n
  {
    LeastFreeIsLeast(First(n), 0);
    assert n !in First(n);
  }

  lemma HeapIndices(j: nat)
    requires j < 256
    ensures TableIndex(0xC000_0000 + j * 0x1000) == 768 && PageIndex(0xC000_0000 + j * 0x1000) == j
  {
  }

  lemma LowIndices(k: nat)
    requires k < 1024
    ensures TableIndex(k * 0x1000) == 0 && PageIndex(k * 0x1000) == k
  {
  }

  /** The loop of clone_directory, one step. */
  lemma EntriesStep(s: Space, src: seq<nat>, kd: seq<nat>, n: nat)
    requires Formed(s) && |src| == |kd| == ENTRIES && n < ENTRIES
    requires forall i :: 0 <= i < ENTRIES ==> src[i] == 0 || src[i] in s.tables
    ensures CloneEntries(s, src, kd, 0) == (s, [])
    ensures var (s1, entries) := CloneEntries(s, src, kd, n);
      if src[n] == 0 || kd[n] == src[n] then CloneEntries(s, src, kd, n + 1) == (s1, entries + [src[n]])
      else
        && src[n] in s1.tables
        && CloneEntries(s, src, kd, n + 1) == (Spaces.CloneTable(s1, src[n]), entries + [s1.next])
  {
    hide Spaces.CloneTable, Formed, Owned;
  }
}
