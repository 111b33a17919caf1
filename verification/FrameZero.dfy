/** What clone_directory of src/impl/paging.c does when bit 0 of the bitmap is clear, as every
    effective free_frame leaves it: the first page copied goes to frame 0. */
module FrameZero {
  import opened Frames
  import opened Options
  import opened Spaces
  import opened SpaceLaws

  /** Page i is the first of the first n that clone_table copies. */
  ghost predicate FirstCopied(src: seq<Page>, n: nat, i: nat)
    requires n <= |src|
  {
    i < n && src[i].frame != 0 && forall j :: 0 <= j < i ==> src[j].frame == 0
  }

  /** What the copies of the first n pages amount to, if frame 0 was free before. */
  ghost predicate OverZero(used: set<nat>, phys: seq<nat>, src: seq<Page>, n: nat, c: Copying)
    requires |phys| == NFRAMES * 1024 && GoodPages(src) && n <= ENTRIES && |c.phys| == |phys| && |c.pages| == n
  {
    && |FreeFrames(c.used)| == |FreeFrames(used)| - Copies(src, n)
    && (Copies(src, n) == 0 ==> c.used == used && c.phys == phys)
    && (Copies(src, n) > 0 ==> 0 in c.used)
    && (forall i: nat :: FirstCopied(src, n, i) ==>
          c.pages[i].frame == 0 && c.pages[i].present && SameFrame(phys, src[i].frame, c.phys, 0))
    && (forall f :: f in used && f < NFRAMES ==> SameFrame(phys, f, c.phys, f))
  }

  lemma FirstCounts(src: seq<Page>, n: nat)
    requires n <= |src|
    ensures Copies(src, n) == 0 <==> forall j :: 0 <= j < n ==> src[j].frame == 0
  {
  }

  lemma TakeZero(used: set<nat>)
    requires 0 !in used
    ensures LeastFree(used, 0) == 0 && |FreeFrames(used + {0})| == |FreeFrames(used)| - 1
  {
    LeastFreeIsLeast(used, 0);
    assert 0 in FreeFrames(used);
    assert FreeFrames(used + {0}) == FreeFrames(used) - {0};
  }

  lemma {:induction false} CopiesOverZero(used: set<nat>, phys: seq<nat>, src: seq<Page>, n: nat)
    requires |phys| == NFRAMES * 1024 && GoodPages(src) && n <= ENTRIES
    requires 0 !in used && Copies(src, n) <= |FreeFrames(used)|
    requires forall i :: 0 <= i < ENTRIES && src[i].frame != 0 ==> src[i].frame in used
    ensures OverZero(used, phys, src, n, CopyPages(used, phys, src, n))
  {
    hide SameFrame, FreeFrames;
    if n == 0 {
      forall f | f in used && f < NFRAMES ensures SameFrame(phys, f, phys, f) {
        SameItself(phys, f);
      }
    } else {
      CopiesOverZero(used, phys, src, n - 1);
      FirstCounts(src, n - 1);
      if src[n - 1].frame != 0 {
        CopiesAreFresh(used, phys, src, n - 1);
        if Copies(src, n - 1) == 0 {
          FirstOverZero(used, phys, src, n);
        } else {
          LaterOverZero(used, phys, src, n);
        }
      }
    }
  }

  lemma SameItself(phys: seq<nat>, f: nat)
    requires |phys| == NFRAMES * 1024 && f < NFRAMES
    ensures SameFrame(phys, f, phys, f)
  {
  }

  /** The first page copied overwrites frame 0. */
  lemma FirstOverZero(used: set<nat>, phys: seq<nat>, src: seq<Page>, n: nat)
    requires |phys| == NFRAMES * 1024 && GoodPages(src) && 0 < n <= ENTRIES
    requires 0 !in used && Copies(src, n - 1) == 0 && src[n - 1].frame != 0
    requires OverZero(used, phys, src, n - 1, CopyPages(used, phys, src, n - 1))
    ensures OverZero(used, phys, src, n, CopyPages(used, phys, src, n))
  {
    hide SameFrame, FreeFrames, CopyFrame;
    var from := src[n - 1].frame;
    FirstCounts(src, n - 1);
    TakeZero(used);
    SameItself(phys, from);
    CopyHere(phys, from, phys, from, 0);
    forall f | f in used && f < NFRAMES ensures SameFrame(phys, f, CopyFrame(phys, from, 0), f) {
      SameItself(phys, f);
      CopyElsewhere(phys, f, phys, f, from, 0);
    }
  }

  /** The pages copied later go to frames of their own. */
  lemma LaterOverZero(used: set<nat>, phys: seq<nat>, src: seq<Page>, n: nat)
    requires |phys| == NFRAMES * 1024 && GoodPages(src) && 0 < n <= ENTRIES
    requires Copies(src, n - 1) > 0 && src[n - 1].frame != 0 && Copies(src, n) <= |FreeFrames(used)|
    requires var c := CopyPages(used, phys, src, n - 1);
      OverZero(used, phys, src, n - 1, c) && used <= c.used
    ensures OverZero(used, phys, src, n, CopyPages(used, phys, src, n))
  {
    hide SameFrame, FreeFrames, CopyFrame;
    var c := CopyPages(used, phys, src, n - 1);
    var from, to := src[n - 1].frame, LeastFree(c.used, 0);
    FirstCounts(src, n - 1);
    assert FreeFrames(c.used) != {};
    TakeFree(c.used);
    forall i: nat | FirstCopied(src, n, i) ensures SameFrame(phys, src[i].frame, CopyFrame(c.phys, from, to), 0) {
      assert FirstCopied(src, n - 1, i);
      CopyElsewhere(phys, src[i].frame, c.phys, 0, from, to);
    }
    forall i: nat | FirstCopied(src, n, i) ensures FirstCopied(src, n - 1, i) {
    }
    forall f | f in used && f < NFRAMES ensures SameFrame(phys, f, CopyFrame(c.phys, from, to), f) {
      CopyElsewhere(phys, f, c.phys, f, from, to);
    }
  }

  // ---- A whole directory ----

  /** Page i of entry e is the first page that clone_directory copies. */
  ghost predicate FirstPage(s: Space, src: seq<nat>, kd: seq<nat>, n: nat, e: nat, i: nat)
    requires Formed(s) && |src| == |kd| == ENTRIES && n <= ENTRIES
    requires forall i :: 0 <= i < ENTRIES ==> src[i] == 0 || src[i] in s.tables
  {
    && e < n && Private(src, kd, e) && FirstCopied(s.tables[src[e]], ENTRIES, i) && Need(s, src, kd, e) == 0
  }

  lemma {:induction false} NeedGrows(s: Space, src: seq<nat>, kd: seq<nat>, m: nat, n: nat)
    requires Formed(s) && |src| == |kd| == ENTRIES && m <= n <= ENTRIES
    requires forall i :: 0 <= i < ENTRIES ==> src[i] == 0 || src[i] in s.tables
    ensures Need(s, src, kd, m) <= Need(s, src, kd, n)
    ensures m < n && Private(src, kd, m) ==>
      Need(s, src, kd, m) + Copies(s.tables[src[m]], ENTRIES) <= Need(s, src, kd, n)
  {
    if m < n {
      NeedGrows(s, src, kd, m, n - 1);
    }
  }

  /** The space after the first n entries, if frame 0 was free before. */
  ghost predicate ClonedOverZero(s: Space, src: seq<nat>, kd: seq<nat>, n: nat, s': Space, entries: seq<nat>)
    requires Formed(s) && |src| == |kd| == ENTRIES && n <= ENTRIES && Formed(s') && |entries| == n
    requires forall i :: 0 <= i < ENTRIES ==> src[i] == 0 || src[i] in s.tables
  {
    && |FreeFrames(s'.used)| == |FreeFrames(s.used)| - Need(s, src, kd, n)
    && Kept(s, s')
    && (Need(s, src, kd, n) == 0 ==> s'.used == s.used && s'.phys == s.phys)
    && (Need(s, src, kd, n) > 0 ==> 0 in s'.used)
    && (forall e: nat, i: nat :: FirstPage(s, src, kd, n, e, i) ==> HoldsFirst(s, src, e, i, s', entries))
  }

  /** Frame 0 holds what page i of entry e held, and its copy in the clone has frame 0. */
  ghost predicate HoldsFirst(s: Space, src: seq<nat>, e: nat, i: nat, s': Space, entries: seq<nat>)
    requires Formed(s) && Formed(s')
  {
    && e < |src| && src[e] in s.tables && i < ENTRIES && e < |entries| && entries[e] in s'.tables
    && s'.tables[entries[e]][i].frame == 0 && s'.tables[entries[e]][i].present
    && SameFrame(s.phys, s.tables[src[e]][i].frame, s'.phys, 0)
  }

  lemma {:induction false} EntriesOverZero(s: Space, src: seq<nat>, kd: seq<nat>, n: nat)
    requires Formed(s) && Owned(s) && |src| == |kd| == ENTRIES && n <= ENTRIES
    requires forall i :: 0 <= i < ENTRIES ==> src[i] == 0 || src[i] in s.tables
    requires 0 !in s.used && Need(s, src, kd, n) <= |FreeFrames(s.used)|
    ensures var (s', entries) := CloneEntries(s, src, kd, n); ClonedOverZero(s, src, kd, n, s', entries)
  {
    hide Kept, FreeFrames, HoldsFirst, SameFrame, Owned;
    if n == 0 {
      SelfKept(s);
    } else {
      NeedGrows(s, src, kd, n - 1, n);
      EntriesOverZero(s, src, kd, n - 1);
      var (s1, entries) := CloneEntries(s, src, kd, n - 1);
      if Private(src, kd, n - 1) {
        PrivateOverZero(s, src, kd, n);
      } else {
        SharedOverZero(s, src, kd, n);
      }
    }
  }

  lemma SharedOverZero(s: Space, src: seq<nat>, kd: seq<nat>, n: nat)
    requires Formed(s) && |src| == |kd| == ENTRIES && 0 < n <= ENTRIES && !Private(src, kd, n - 1)
    requires forall i :: 0 <= i < ENTRIES ==> src[i] == 0 || src[i] in s.tables
    requires var (s1, entries) := CloneEntries(s, src, kd, n - 1); ClonedOverZero(s, src, kd, n - 1, s1, entries)
    ensures var (s', entries) := CloneEntries(s, src, kd, n); ClonedOverZero(s, src, kd, n, s', entries)
  {
    hide Kept, FreeFrames, SameFrame, Owned, Formed;
    var (s1, entries1) := CloneEntries(s, src, kd, n - 1);
    var (s', entries) := CloneEntries(s, src, kd, n);
    forall e: nat, i: nat | FirstPage(s, src, kd, n, e, i) ensures HoldsFirst(s, src, e, i, s', entries) {
      assert FirstPage(s, src, kd, n - 1, e, i);
    }
  }

  lemma PrivateOverZero(s: Space, src: seq<nat>, kd: seq<nat>, n: nat)
    requires Formed(s) && Owned(s) && |src| == |kd| == ENTRIES && 0 < n <= ENTRIES && Private(src, kd, n - 1)
    requires forall i :: 0 <= i < ENTRIES ==> src[i] == 0 || src[i] in s.tables
    requires 0 !in s.used && Need(s, src, kd, n) <= |FreeFrames(s.used)|
    requires var (s1, entries) := CloneEntries(s, src, kd, n - 1); ClonedOverZero(s, src, kd, n - 1, s1, entries)
    ensures var (s', entries) := CloneEntries(s, src, kd, n); ClonedOverZero(s, src, kd, n, s', entries)
  {
    hide Kept, FreeFrames, SameFrame, Formed, CloneTable, Owned, ClonedOverZero, Extends;
    if Need(s, src, kd, n - 1) == 0 {
      FirstTable(s, src, kd, n);
    } else {
      LaterTable(s, src, kd, n);
    }
  }

  /** The table that has the first page to copy, or none yet. */
  lemma FirstTable(s: Space, src: seq<nat>, kd: seq<nat>, n: nat)
    requires Formed(s) && Owned(s) && |src| == |kd| == ENTRIES && 0 < n <= ENTRIES && Private(src, kd, n - 1)
    requires forall i :: 0 <= i < ENTRIES ==> src[i] == 0 || src[i] in s.tables
    requires 0 !in s.used && Need(s, src, kd, n) <= |FreeFrames(s.used)|
    requires var (s1, entries) := CloneEntries(s, src, kd, n - 1); ClonedOverZero(s, src, kd, n - 1, s1, entries)
    requires Need(s, src, kd, n - 1) == 0
    ensures var (s', entries) := CloneEntries(s, src, kd, n); ClonedOverZero(s, src, kd, n, s', entries)
  {
    hide Kept, FreeFrames, SameFrame, Formed, CopyPages, Owned;
    var t := src[n - 1];
    var (s1, entries1) := CloneEntries(s, src, kd, n - 1);
    var (s', entries) := CloneEntries(s, src, kd, n);
    CloneTableForms(s1, t);
    TableOverZero(s1, t);
    KeptChain(s, s1, s');
    forall e: nat, i: nat | FirstPage(s, src, kd, n, e, i) ensures HoldsFirst(s, src, e, i, s', entries) {
      NotEarlier(s, src, kd, n, e, i);
    }
  }

  lemma NotEarlier(s: Space, src: seq<nat>, kd: seq<nat>, n: nat, e: nat, i: nat)
    requires Formed(s) && |src| == |kd| == ENTRIES && 0 < n <= ENTRIES
    requires forall i :: 0 <= i < ENTRIES ==> src[i] == 0 || src[i] in s.tables
    requires FirstPage(s, src, kd, n, e, i)
    ensures Need(s, src, kd, n - 1) == 0 <==> e == n - 1
  {
    if e < n - 1 {
      NeedGrows(s, src, kd, e, n - 1);
      FirstCounts(s.tables[src[e]], ENTRIES);
    }
  }

  /** A table that is copied when frame 0 is in use already. */
  lemma LaterTable(s: Space, src: seq<nat>, kd: seq<nat>, n: nat)
    requires Formed(s) && Owned(s) && |src| == |kd| == ENTRIES && 0 < n <= ENTRIES && Private(src, kd, n - 1)
    requires forall i :: 0 <= i < ENTRIES ==> src[i] == 0 || src[i] in s.tables
    requires 0 !in s.used && Need(s, src, kd, n) <= |FreeFrames(s.used)|
    requires var (s1, entries) := CloneEntries(s, src, kd, n - 1); ClonedOverZero(s, src, kd, n - 1, s1, entries)
    requires Need(s, src, kd, n - 1) > 0
    ensures var (s', entries) := CloneEntries(s, src, kd, n); ClonedOverZero(s, src, kd, n, s', entries)
  {
    hide Kept, FreeFrames, SameFrame, Formed, Owned, HoldsFirst, CloneTable;
    var t := src[n - 1];
    var (s1, entries1) := CloneEntries(s, src, kd, n - 1);
    var (s', entries) := CloneEntries(s, src, kd, n);
    CloneTableForms(s1, t);
    CloneTableFaithful(s1, t);
    KeptChain(s, s1, s');
    forall e: nat, i: nat | FirstPage(s, src, kd, n, e, i) ensures HoldsFirst(s, src, e, i, s', entries) {
      NotEarlier(s, src, kd, n, e, i);
      assert FirstPage(s, src, kd, n - 1, e, i);
      FirstLater(s, src, e, i, s1, entries1, s', entries);
    }
  }

  /** Once frame 0 is in use, its words stay. */
  lemma FirstLater(s: Space, src: seq<nat>, e: nat, i: nat, s1: Space, entries1: seq<nat>, s2: Space,
                  entries2: seq<nat>)
    requires Formed(s) && Formed(s1) && Formed(s2) && HoldsFirst(s, src, e, i, s1, entries1)
    requires Kept(s1, s2) && Extends(s1, s2) && 0 in s1.used && e < |entries2| && entries2[e] == entries1[e]
    ensures HoldsFirst(s, src, e, i, s2, entries2)
  {
    hide SameFrame;
    SameFrameChain(s.phys, s.tables[src[e]][i].frame, s1.phys, 0, s2.phys, 0);
  }

  /** clone_table with frame 0 free. */
  lemma TableOverZero(s: Space, t: nat)
    requires Formed(s) && Owned(s) && t in s.tables && 0 !in s.used
    requires Copies(s.tables[t], ENTRIES) <= |FreeFrames(s.used)|
    ensures Formed(CloneTable(s, t)) && Kept(s, CloneTable(s, t))
    ensures |CloneTable(s, t).tables[s.next]| == ENTRIES
    ensures var c := Copying(CloneTable(s, t).used, CloneTable(s, t).phys, CloneTable(s, t).tables[s.next]);
      OverZero(s.used, s.phys, s.tables[t], ENTRIES, c)
  {
    hide SameFrame, CopyPages, FreeFrames;
    CloneTableForms(s, t);
    CopiesOverZero(s.used, s.phys, s.tables[t], ENTRIES);
  }

  // ---- clone_directory ----

  /** The calls of clone_directory with bit 0 clear and frames enough, of which page i of entry e is the
      first page copied. */
  ghost predicate OverZeroCall(s: Space, d: nat, kd: nat, e: nat, i: nat) {
    && Formed(s) && Owned(s) && d in s.dirs && kd in s.dirs && 0 !in s.used
    && Need(s, s.dirs[d], s.dirs[kd], ENTRIES) <= |FreeFrames(s.used)|
    && FirstPage(s, s.dirs[d], s.dirs[kd], ENTRIES, e, i)
  }

  /** With bit 0 clear a clone overwrites frame 0 with the first page it copies, and gives that page of
      the clone frame 0. All frames that were in use keep their words. */
  lemma CloneOverwritesZero(s: Space, d: nat, kd: nat, e: nat, i: nat)
    requires OverZeroCall(s, d, kd, e, i)
    ensures var s' := CloneDirectory(s, d, kd);
      && Formed(s') && d in s'.dirs && s'.dirs[d] == s.dirs[d] && s.next in s'.dirs && Kept(s, s') && 0 in s'.used
      && (forall t :: t in s.tables ==> t in s'.tables && s'.tables[t] == s.tables[t])
      && HoldsFirst(s, s.dirs[d], e, i, s', s'.dirs[s.next])
  {
    hide CloneEntries, Need, SameFrame, Kept, Owned, FirstCopied, FreeFrames;
    CloneForms(s, d, kd);
    LaterForms(s);
    var s0 := s.(next := s.next + 1);
    var src, kernel := s.dirs[d], s.dirs[kd];
    NeedSame(s, s0, src, kernel, ENTRIES);
    NeedSame(s, s0, src, kernel, e);
    EntriesOverZero(s0, src, kernel, ENTRIES);
    assert FirstPage(s0, src, kernel, ENTRIES, e, i);
    SomethingCopied(s0, src, kernel, e, i);
    var (s1, entries) := CloneEntries(s0, src, kernel, ENTRIES);
    SameKept(s0, s1, s, CloneDirectory(s, d, kd));
  }

  lemma SomethingCopied(s: Space, src: seq<nat>, kd: seq<nat>, e: nat, i: nat)
    requires Formed(s) && |src| == |kd| == ENTRIES
    requires forall i :: 0 <= i < ENTRIES ==> src[i] == 0 || src[i] in s.tables
    requires FirstPage(s, src, kd, ENTRIES, e, i)
    ensures Need(s, src, kd, ENTRIES) > 0
  {
    NeedGrows(s, src, kd, e, ENTRIES);
    FirstCounts(s.tables[src[e]], ENTRIES);
  }

  /** So the source itself reads as before at an address if and only if its page is not a present one in
      frame 0, or the page copied first has the same word there. */
  lemma SourceReadsAlike(s: Space, d: nat, kd: nat, e: nat, i: nat, addr: nat)
    requires OverZeroCall(s, d, kd, e, i) && addr < LIMIT
    ensures var s', src := CloneDirectory(s, d, kd), s.dirs[d];
      && Formed(s') && d in s'.dirs && e < |src| && src[e] in s.tables && i < ENTRIES
      && (Read(s', d, addr) == Read(s, d, addr) <==>
            (PageAt(s, d, addr).Some? && PageAt(s, d, addr).value.present && PageAt(s, d, addr).value.frame == 0 ==>
               WordIn(s.phys, s.tables[src[e]][i].frame, addr % 0x1000 / 4) == WordIn(s.phys, 0, addr % 0x1000 / 4)))
  {
    hide CloneDirectory, Owned, WordIn, Need, FreeFrames, FirstPage;
    Indices(addr);
    CloneOverwritesZero(s, d, kd, e, i);
    var s', src := CloneDirectory(s, d, kd), s.dirs[d];
    assert PageAt(s', d, addr) == PageAt(s, d, addr);
    if PageAt(s, d, addr).Some? {
      var f := PageAt(s, d, addr).value.frame;
      FrameInRange(s, d, addr);
      if f == 0 {
        assert SameFrame(s.phys, s.tables[src[e]][i].frame, s'.phys, 0);
      } else {
        FrameIsUsed(s, src[TableIndex(addr)], PageIndex(addr));
        assert SameFrame(s.phys, f, s'.phys, f);
      }
    }
  }

  lemma FrameIsUsed(s: Space, t: nat, i: nat)
    requires Formed(s) && Owned(s) && t in s.tables && i < ENTRIES && s.tables[t][i].frame != 0
    ensures s.tables[t][i].frame in s.used
  {
  }
}
