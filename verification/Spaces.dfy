/** Address spaces of src/impl/paging.c: page directories, tables of pages, and the physical
    words behind them. */
module Spaces {
  import opened Frames

  const ENTRIES: nat := 1024

  /** A page_t. */
  datatype Page = Page(present: bool, rw: bool, user: bool, accessed: bool, dirty: bool, frame: nat)

  const ZERO_PAGE: Page := Page(false, false, false, false, false, 0)

  /** The frames in use, the page tables and page directories by address, the next address that
      kmalloc hands out, and physical memory in words. A table address of 0 is no table. */
  datatype Space = Space(used: set<nat>, tables: map<nat, seq<Page>>, dirs: map<nat, seq<nat>>, next: nat,
                         phys: seq<nat>)

  /** Sizes and references are in order. */
  ghost predicate Formed(s: Space) {
    && |s.phys| == NFRAMES * 1024
    && (forall f :: f in s.used ==> f < NFRAMES)
    && (forall t :: t in s.tables ==> 0 < t < s.next && |s.tables[t]| == ENTRIES)
    && (forall t, i :: t in s.tables && 0 <= i < ENTRIES ==> s.tables[t][i].frame < NFRAMES)
    && (forall d :: d in s.dirs ==> 0 < d < s.next && |s.dirs[d]| == ENTRIES)
    && (forall d, i :: d in s.dirs && 0 <= i < ENTRIES ==> s.dirs[d][i] == 0 || s.dirs[d][i] in s.tables)
    && 0 < s.next
  }

  /** A page with a nonzero frame has that frame marked in use, and has it for itself. */
  ghost predicate Owned(s: Space)
    requires Formed(s)
  {
    && (forall t, i :: t in s.tables && 0 <= i < ENTRIES && s.tables[t][i].frame != 0 ==>
          s.tables[t][i].frame in s.used)
    && (forall t, i, u, j ::
          t in s.tables && u in s.tables && 0 <= i < ENTRIES && 0 <= j < ENTRIES && s.tables[t][i].frame != 0 ==>
          s.tables[t][i].frame == s.tables[u][j].frame ==> t == u && i == j)
  }

  // ---- Frames for pages ----

  /** alloc_frame on a page, given the frames in use. */
  function AllocPage(page: Page, frame: nat, kernel: bool, writeable: bool): Page {
    if page.frame != 0 then page
    else page.(present := true, rw := writeable, user := !kernel, frame := frame)
  }

  /** copy_page_physical */
  ghost function CopyFrame(phys: seq<nat>, from: nat, to: nat): (r: seq<nat>)
    requires |phys| == NFRAMES * 1024 && from < NFRAMES && to < NFRAMES
    ensures |r| == |phys|
    ensures forall k :: 0 <= k < |phys| ==>
      r[k] == if to * 1024 <= k < to * 1024 + 1024 then phys[k - to * 1024 + from * 1024] else phys[k]
  {
    seq(|phys|, k requires 0 <= k < |phys| =>
      if to * 1024 <= k < to * 1024 + 1024 then phys[k - to * 1024 + from * 1024] else phys[k])
  }

  /** Word k of frame f. */
  function WordIn(m: seq<nat>, f: nat, k: nat): nat
    requires |m| == NFRAMES * 1024 && f < NFRAMES && k < 1024
  {
    m[f * 1024 + k]
  }

  /** Frame `to` of r holds what frame `from` of m holds. */
  ghost predicate SameFrame(m: seq<nat>, from: nat, r: seq<nat>, to: nat)
    requires |m| == |r| == NFRAMES * 1024 && from < NFRAMES && to < NFRAMES
  {
    forall k :: 0 <= k < 1024 ==> WordIn(r, to, k) == WordIn(m, from, k)
  }

  // ---- clone_table ----

  /** The state of clone_table's loop. */
  datatype Copying = Copying(used: set<nat>, phys: seq<nat>, pages: seq<Page>)

  /** The flags of the copy of a page. */
  function ClonedPage(src: Page, frame: nat): Page {
    Page(true, src.rw, true, src.accessed, src.dirty, frame)
  }

  ghost predicate GoodPages(src: seq<Page>) {
    |src| == ENTRIES && forall i :: 0 <= i < ENTRIES ==> src[i].frame < NFRAMES
  }

  lemma LeastFreeInRange(used: set<nat>)
    ensures LeastFree(used, 0) < NFRAMES
  {
    LeastFreeIsLeast(used, 0);
  }

  /** The loop of clone_table, after the first n pages. */
  ghost function CopyPages(used: set<nat>, phys: seq<nat>, src: seq<Page>, n: nat): (c: Copying)
    requires |phys| == NFRAMES * 1024 && GoodPages(src) && n <= ENTRIES
    ensures |c.phys| == |phys| && |c.pages| == n
  {
    if n == 0 then Copying(used, phys, [])
    else
      var c := CopyPages(used, phys, src, n - 1);
      if src[n - 1].frame == 0 then c.(pages := c.pages + [ZERO_PAGE])
      else
        var f := LeastFree(c.used, 0);
        LeastFreeInRange(c.used);
        Copying(c.used + {f}, CopyFrame(c.phys, src[n - 1].frame, f), c.pages + [ClonedPage(src[n - 1], f)])
  }

  /** Whatever frames there are, a copy never takes a frame in use, except frame 0. */
  lemma {:induction false} CopiesAreFresh(used: set<nat>, phys: seq<nat>, src: seq<Page>, n: nat)
    requires |phys| == NFRAMES * 1024 && GoodPages(src) && n <= ENTRIES
    ensures var c := CopyPages(used, phys, src, n);
      && used <= c.used && (forall f :: f in c.used ==> f in used || f < NFRAMES)
      && (forall i :: 0 <= i < n ==> c.pages[i].frame < NFRAMES)
      && (forall i :: 0 <= i < n && c.pages[i].frame != 0 ==> c.pages[i].frame in c.used && c.pages[i].frame !in used)
      && (forall i, j :: 0 <= i < j < n && c.pages[i].frame != 0 ==> c.pages[i].frame != c.pages[j].frame)
  {
    if n > 0 {
      CopiesAreFresh(used, phys, src, n - 1);
      var c := CopyPages(used, phys, src, n - 1);
      LeastFreeIsLeast(c.used, 0);
    }
  }

  /** Whatever frames there are, the copy of a page with a frame is present and for user mode, and
      takes its other flags from the original; the copy of a page without one is all zero. */
  lemma {:induction false} CopiesKeepFlags(used: set<nat>, phys: seq<nat>, src: seq<Page>, n: nat)
    requires |phys| == NFRAMES * 1024 && GoodPages(src) && n <= ENTRIES
    ensures forall i :: 0 <= i < n ==>
      var p, q := src[i], CopyPages(used, phys, src, n).pages[i];
      if p.frame == 0 then q == Page(false, false, false, false, false, 0)
      else q.present && q.user && q.rw == p.rw && q.accessed == p.accessed && q.dirty == p.dirty
  {
    if n > 0 {
      CopiesKeepFlags(used, phys, src, n - 1);
    }
  }

  /** How many of the first n pages have a frame to copy. */
  ghost function Copies(src: seq<Page>, n: nat): nat
    requires n <= |src|
  {
    if n == 0 then 0 else Copies(src, n - 1) + if src[n - 1].frame == 0 then 0 else 1
  }

  ghost function FreeFrames(used: set<nat>): set<nat> {
    set f: nat | f < NFRAMES && f !in used
  }

  lemma TakeFree(used: set<nat>)
    requires FreeFrames(used) != {} && 0 in used
    ensures var f := LeastFree(used, 0);
      0 < f < NFRAMES && f !in used && |FreeFrames(used + {f})| == |FreeFrames(used)| - 1
  {
    LeastFreeIsLeast(used, 0);
    var g :| g in FreeFrames(used);
    assert 0 <= g < NFRAMES && g !in used;
    var f := LeastFree(used, 0);
    assert FreeFrames(used + {f}) == FreeFrames(used) - {f};
  }

  /** With bit 0 set and frames enough, every page with a frame is copied to a frame of its
      own, word by word, and no frame that was in use changes. */
  lemma {:induction false} CopiesKeepContent(used: set<nat>, phys: seq<nat>, src: seq<Page>, n: nat)
    requires |phys| == NFRAMES * 1024 && GoodPages(src) && n <= ENTRIES
    requires 0 in used && Copies(src, n) <= |FreeFrames(used)|
    requires forall i :: 0 <= i < ENTRIES && src[i].frame != 0 ==> src[i].frame in used
    ensures var c := CopyPages(used, phys, src, n);
      && |FreeFrames(c.used)| == |FreeFrames(used)| - Copies(src, n)
      && (forall i :: 0 <= i < n ==> c.pages[i].frame < NFRAMES)
      && (forall i :: 0 <= i < n && src[i].frame != 0 ==>
           c.pages[i].frame != 0 && SameFrame(phys, src[i].frame, c.phys, c.pages[i].frame))
      && (forall f :: f in used && f < NFRAMES ==> SameFrame(phys, f, c.phys, f))
  {
    CopiesAreFresh(used, phys, src, n);
    if n > 0 {
      CopiesKeepContent(used, phys, src, n - 1);
      CopiesAreFresh(used, phys, src, n - 1);
      if src[n - 1].frame != 0 {
        CopyStep(used, phys, src, n);
      }
    }
  }

  lemma CopyElsewhere(m: seq<nat>, x: nat, phys: seq<nat>, g: nat, from: nat, to: nat)
    requires |m| == |phys| == NFRAMES * 1024 && x < NFRAMES && g < NFRAMES && from < NFRAMES && to < NFRAMES
    requires g != to && SameFrame(m, x, phys, g)
    ensures SameFrame(m, x, CopyFrame(phys, from, to), g)
  {
    forall k | 0 <= k < 1024 ensures WordIn(CopyFrame(phys, from, to), g, k) == WordIn(m, x, k) {
      assert WordIn(phys, g, k) == WordIn(m, x, k);
    }
  }

  lemma CopyHere(m: seq<nat>, x: nat, phys: seq<nat>, from: nat, to: nat)
    requires |m| == |phys| == NFRAMES * 1024 && x < NFRAMES && from < NFRAMES && to < NFRAMES
    requires SameFrame(m, x, phys, from)
    ensures SameFrame(m, x, CopyFrame(phys, from, to), to)
  {
    hide CopyFrame;
    forall k | 0 <= k < 1024 ensures WordIn(CopyFrame(phys, from, to), to, k) == WordIn(m, x, k) {
      assert WordIn(phys, from, k) == WordIn(m, x, k);
      CopiedWord(phys, from, to, k);
    }
  }

  lemma CopiedWord(phys: seq<nat>, from: nat, to: nat, k: nat)
    requires |phys| == NFRAMES * 1024 && from < NFRAMES && to < NFRAMES && k < 1024
    ensures WordIn(CopyFrame(phys, from, to), to, k) == WordIn(phys, from, k)
  {
    var at := to * 1024 + k;
    assert at - to * 1024 + from * 1024 == from * 1024 + k;
  }

  lemma CopyStep(used: set<nat>, phys: seq<nat>, src: seq<Page>, n: nat)
    requires |phys| == NFRAMES * 1024 && GoodPages(src) && 0 < n <= ENTRIES
    requires src[n - 1].frame != 0 && src[n - 1].frame in used && 0 in used
    requires var c := CopyPages(used, phys, src, n - 1);
      && FreeFrames(c.used) != {} && used <= c.used && (forall i :: 0 <= i < n - 1 ==> c.pages[i].frame < NFRAMES)
      && (forall i :: 0 <= i < n - 1 && c.pages[i].frame != 0 ==> c.pages[i].frame in c.used)
      && (forall i :: 0 <= i < n - 1 && src[i].frame != 0 ==>
           c.pages[i].frame != 0 && SameFrame(phys, src[i].frame, c.phys, c.pages[i].frame))
      && (forall f :: f in used && f < NFRAMES ==> SameFrame(phys, f, c.phys, f))
    ensures var c, d := CopyPages(used, phys, src, n - 1), CopyPages(used, phys, src, n);
      && |FreeFrames(d.used)| == |FreeFrames(c.used)| - 1
      && (forall i :: 0 <= i < n ==> d.pages[i].frame < NFRAMES)
      && d.pages[n - 1].frame != 0
      && (forall i :: 0 <= i < n && src[i].frame != 0 ==> SameFrame(phys, src[i].frame, d.phys, d.pages[i].frame))
      && (forall f :: f in used && f < NFRAMES ==> SameFrame(phys, f, d.phys, f))
  {
    hide CopyFrame, SameFrame, FreeFrames;
    var c, d := CopyPages(used, phys, src, n - 1), CopyPages(used, phys, src, n);
    var from, to := src[n - 1].frame, LeastFree(c.used, 0);
    TakeFree(c.used);
    CopyHere(phys, from, c.phys, from, to);
    forall i | 0 <= i < n - 1 && src[i].frame != 0 ensures SameFrame(phys, src[i].frame, d.phys, d.pages[i].frame) {
      CopyElsewhere(phys, src[i].frame, c.phys, c.pages[i].frame, from, to);
    }
    forall f | f in used && f < NFRAMES ensures SameFrame(phys, f, d.phys, f) {
      CopyElsewhere(phys, f, c.phys, f, from, to);
    }
  }

  // ---- clone_directory ----

  /** s' has everything s has: the same tables and directories, and at least the frames. */
  ghost predicate Extends(s: Space, s': Space) {
    && s.used <= s'.used && s'.dirs == s.dirs && s.next <= s'.next
    && (forall t :: t in s.tables ==> t in s'.tables && s'.tables[t] == s.tables[t])
    && (forall t :: t in s'.tables ==> t in s.tables || s.next <= t)
  }

  /** The space with a copy of the table t added at the next address. */
  ghost function CloneTable(s: Space, t: nat): Space
    requires Formed(s) && t in s.tables
  {
    var c := CopyPages(s.used, s.phys, s.tables[t], ENTRIES);
    s.(used := c.used, phys := c.phys, tables := s.tables[s.next := c.pages], next := s.next + 1)
  }

  lemma CloneTableForms(s: Space, t: nat)
    requires Formed(s) && t in s.tables
    ensures Formed(CloneTable(s, t)) && Extends(s, CloneTable(s, t)) && s.next in CloneTable(s, t).tables
    ensures Owned(s) ==> Owned(CloneTable(s, t))
  {
    CopiesAreFresh(s.used, s.phys, s.tables[t], ENTRIES);
    var c, s' := CopyPages(s.used, s.phys, s.tables[t], ENTRIES), CloneTable(s, t);
    assert s'.tables[s.next] == c.pages && s.next !in s.tables;
  }

  /** The loop of clone_directory, after the first n entries; kd is the kernel directory. */
  ghost function CloneEntries(s: Space, src: seq<nat>, kd: seq<nat>, n: nat): (r: (Space, seq<nat>))
    requires Formed(s) && |src| == |kd| == ENTRIES && n <= ENTRIES
    requires forall i :: 0 <= i < ENTRIES ==> src[i] == 0 || src[i] in s.tables
    ensures Formed(r.0) && Extends(s, r.0) && |r.1| == n
    ensures Owned(s) ==> Owned(r.0)
    ensures forall i :: 0 <= i < n ==>
      if src[i] == 0 || kd[i] == src[i] then r.1[i] == src[i] else s.next <= r.1[i] && r.1[i] in r.0.tables
  {
    if n == 0 then (s, [])
    else
      var (s1, entries) := CloneEntries(s, src, kd, n - 1);
      var t := src[n - 1];
      if t == 0 || kd[n - 1] == t then (s1, entries + [t])
      else
        CloneTableForms(s1, t);
        (CloneTable(s1, t), entries + [s1.next])
  }

  /** The space after clone_directory of d, given the kernel directory kd. */
  ghost function CloneDirectory(s: Space, d: nat, kd: nat): Space
    requires Formed(s) && d in s.dirs && kd in s.dirs
  {
    var (s1, entries) := CloneEntries(s.(next := s.next + 1), s.dirs[d], s.dirs[kd], ENTRIES);
    s1.(dirs := s1.dirs[s.next := entries])
  }

  /** A new directory of tables that exist. */
  lemma DirectoryForms(s: Space, d: nat, entries: seq<nat>)
    requires Formed(s) && 0 < d < s.next && d !in s.dirs && |entries| == ENTRIES
    requires forall i :: 0 <= i < ENTRIES ==> entries[i] == 0 || entries[i] in s.tables
    ensures Formed(s.(dirs := s.dirs[d := entries]))
    ensures Owned(s) ==> Owned(s.(dirs := s.dirs[d := entries]))
  {
  }

  lemma LaterForms(s: Space)
    requires Formed(s)
    ensures Formed(s.(next := s.next + 1)) && s.next !in s.dirs
    ensures Owned(s) <==> Owned(s.(next := s.next + 1))
  {
  }

  lemma CloneForms(s: Space, d: nat, kd: nat)
    requires Formed(s) && d in s.dirs && kd in s.dirs
    ensures var s' := CloneDirectory(s, d, kd);
      && Formed(s') && (Owned(s) ==> Owned(s'))
      && s.next in s'.dirs && s.next !in s.dirs && (forall e :: e in s.dirs ==> e in s'.dirs && s'.dirs[e] == s.dirs[e])
      && (forall t :: t in s.tables ==> t in s'.tables && s'.tables[t] == s.tables[t])
  {
    hide CloneEntries, Owned;
    var s0 := s.(next := s.next + 1);
    LaterForms(s);
    var (s1, entries) := CloneEntries(s0, s.dirs[d], s.dirs[kd], ENTRIES);
    ClonedEntries(s0, s.dirs[d], s.dirs[kd]);
    DirectoryForms(s1, s.next, entries);
  }

  lemma ClonedEntries(s: Space, src: seq<nat>, kd: seq<nat>)
    requires Formed(s) && |src| == |kd| == ENTRIES
    requires forall i :: 0 <= i < ENTRIES ==> src[i] == 0 || src[i] in s.tables
    ensures var (s1, entries) := CloneEntries(s, src, kd, ENTRIES);
      |entries| == ENTRIES && forall i :: 0 <= i < ENTRIES ==> entries[i] == 0 || entries[i] in s1.tables
  {
    hide CloneEntries, Owned, Formed;
    var (s1, entries) := CloneEntries(s, src, kd, ENTRIES);
    forall i | 0 <= i < ENTRIES ensures entries[i] == 0 || entries[i] in s1.tables {
      assert if src[i] == 0 || kd[i] == src[i] then entries[i] == src[i] else entries[i] in s1.tables;
    }
  }

  // ---- What a clone holds ----

  /** Frames in use in s hold the same words in s'. */
  ghost predicate Kept(s: Space, s': Space) {
    && |s.phys| == |s'.phys| == NFRAMES * 1024
    && forall f :: f in s.used && f < NFRAMES ==> SameFrame(s.phys, f, s'.phys, f)
  }

  /** Page q of s' is a copy of page p of s. */
  ghost predicate FaithfulPage(s: Space, p: Page, s': Space, q: Page)
    requires |s.phys| == |s'.phys| == NFRAMES * 1024 && p.frame < NFRAMES && q.frame < NFRAMES
  {
    if p.frame == 0 then q == Page(false, false, false, false, false, 0)
    else
      && q.present && q.user && q.rw == p.rw && q.accessed == p.accessed && q.dirty == p.dirty
      && q.frame != 0 && q.frame in s'.used
      && SameFrame(s.phys, p.frame, s'.phys, q.frame)
  }

  ghost predicate Faithful(s: Space, t: nat, s': Space, t': nat) {
    && |s.phys| == |s'.phys| == NFRAMES * 1024 && t in s.tables && t' in s'.tables
    && GoodPages(s.tables[t]) && GoodPages(s'.tables[t'])
    && forall i :: 0 <= i < ENTRIES ==> FaithfulPage(s, s.tables[t][i], s', s'.tables[t'][i])
  }

  lemma SameFrameChain(a: seq<nat>, f: nat, b: seq<nat>, g: nat, c: seq<nat>, h: nat)
    requires |a| == |b| == |c| == NFRAMES * 1024 && f < NFRAMES && g < NFRAMES && h < NFRAMES
    requires SameFrame(a, f, b, g) && SameFrame(b, g, c, h)
    ensures SameFrame(a, f, c, h)
  {
    forall k | 0 <= k < 1024 ensures WordIn(c, h, k) == WordIn(a, f, k) {
      assert WordIn(b, g, k) == WordIn(a, f, k);
    }
  }

  lemma KeptChain(a: Space, b: Space, c: Space)
    requires Kept(a, b) && Kept(b, c) && a.used <= b.used
    ensures Kept(a, c)
  {
    hide SameFrame;
    forall f | f in a.used && f < NFRAMES ensures SameFrame(a.phys, f, c.phys, f) {
      SameFrameChain(a.phys, f, b.phys, f, c.phys, f);
    }
  }

  lemma FaithfulLater(s: Space, t: nat, s1: Space, t': nat, s2: Space)
    requires Faithful(s, t, s1, t') && Kept(s1, s2) && Extends(s1, s2)
    ensures Faithful(s, t, s2, t')
  {
    hide SameFrame;
    forall i | 0 <= i < ENTRIES ensures FaithfulPage(s, s.tables[t][i], s2, s2.tables[t'][i]) {
      var p, q := s.tables[t][i], s1.tables[t'][i];
      assert FaithfulPage(s, p, s1, q);
      if p.frame != 0 {
        SameFrameChain(s.phys, p.frame, s1.phys, q.frame, s2.phys, q.frame);
      }
    }
  }

  /** A table is cloned faithfully when bit 0 is set and there are frames for all its pages. */
  lemma CloneTableFaithful(s: Space, t: nat)
    requires Formed(s) && Owned(s) && t in s.tables && 0 in s.used
    requires Copies(s.tables[t], ENTRIES) <= |FreeFrames(s.used)|
    ensures var s' := CloneTable(s, t);
      && Kept(s, s') && Faithful(s, t, s', s.next)
      && |FreeFrames(s'.used)| == |FreeFrames(s.used)| - Copies(s.tables[t], ENTRIES)
  {
    hide SameFrame, CopyPages;
    CloneTableForms(s, t);
    CopiesAreFresh(s.used, s.phys, s.tables[t], ENTRIES);
    CopiesKeepContent(s.used, s.phys, s.tables[t], ENTRIES);
    CopiesKeepFlags(s.used, s.phys, s.tables[t], ENTRIES);
    var s' := CloneTable(s, t);
    forall i | 0 <= i < ENTRIES ensures FaithfulPage(s, s.tables[t][i], s', s'.tables[s.next][i]) {
      assert s'.tables[s.next][i].frame < NFRAMES;
    }
  }

  /** How many frames cloning the first n entries takes. */
  ghost function Need(s: Space, src: seq<nat>, kd: seq<nat>, n: nat): nat
    requires Formed(s) && |src| == |kd| == ENTRIES && n <= ENTRIES
    requires forall i :: 0 <= i < ENTRIES ==> src[i] == 0 || src[i] in s.tables
  {
    if n == 0 then 0
    else Need(s, src, kd, n - 1) +
         if src[n - 1] == 0 || kd[n - 1] == src[n - 1] then 0 else Copies(s.tables[src[n - 1]], ENTRIES)
  }

  /** Entry i is a table that clone_directory copies. */
  predicate Private(src: seq<nat>, kd: seq<nat>, i: nat)
    requires i < |src| && i < |kd|
  {
    src[i] != 0 && kd[i] != src[i]
  }

  lemma {:induction false} CloneEntriesFaithful(s: Space, src: seq<nat>, kd: seq<nat>, n: nat)
    requires Formed(s) && Owned(s) && |src| == |kd| == ENTRIES && n <= ENTRIES
    requires forall i :: 0 <= i < ENTRIES ==> src[i] == 0 || src[i] in s.tables
    requires 0 in s.used && Need(s, src, kd, n) <= |FreeFrames(s.used)|
    ensures var (s', entries) := CloneEntries(s, src, kd, n);
      && Kept(s, s') && |FreeFrames(s'.used)| == |FreeFrames(s.used)| - Need(s, src, kd, n)
      && forall i :: 0 <= i < n && Private(src, kd, i) ==> Faithful(s, src[i], s', entries[i])
  {
    if n > 0 {
      CloneEntriesFaithful(s, src, kd, n - 1);
      if Private(src, kd, n - 1) {
        EntryStep(s, src, kd, n);
      }
    } else {
      assert Kept(s, s) by { SelfKept(s); }
    }
  }

  lemma SelfKept(s: Space)
    requires Formed(s)
    ensures Kept(s, s)
  {
  }

  lemma EntryStep(s: Space, src: seq<nat>, kd: seq<nat>, n: nat)
    requires Formed(s) && Owned(s) && |src| == |kd| == ENTRIES && 0 < n <= ENTRIES
    requires forall i :: 0 <= i < ENTRIES ==> src[i] == 0 || src[i] in s.tables
    requires 0 in s.used && Need(s, src, kd, n) <= |FreeFrames(s.used)| && Private(src, kd, n - 1)
    requires var (s1, entries) := CloneEntries(s, src, kd, n - 1);
      && Kept(s, s1) && |FreeFrames(s1.used)| == |FreeFrames(s.used)| - Need(s, src, kd, n - 1)
      && forall i :: 0 <= i < n - 1 && Private(src, kd, i) ==> Faithful(s, src[i], s1, entries[i])
    ensures var (s', entries) := CloneEntries(s, src, kd, n);
      && Kept(s, s') && |FreeFrames(s'.used)| == |FreeFrames(s.used)| - Need(s, src, kd, n)
      && forall i :: 0 <= i < n && Private(src, kd, i) ==> Faithful(s, src[i], s', entries[i])
  {
    hide Faithful, Kept, CloneTable;
    var t := src[n - 1];
    var (s1, entries1) := CloneEntries(s, src, kd, n - 1);
    var (s', entries) := CloneEntries(s, src, kd, n);
    CloneTableForms(s1, t);
    CloneTableFaithful(s1, t);
    KeptChain(s, s1, s');
    forall i | 0 <= i < n && Private(src, kd, i) ensures Faithful(s, src[i], s', entries[i]) {
      if i < n - 1 {
        FaithfulLater(s, src[i], s1, entries1[i], s');
      } else {
        FaithfulEarlier(s, t, s1, s', s1.next);
      }
    }
  }

  lemma FaithfulEarlier(s: Space, t: nat, s1: Space, s2: Space, t': nat)
    requires Formed(s) && Owned(s) && t in s.tables && Kept(s, s1) && Extends(s, s1) && Faithful(s1, t, s2, t')
    ensures Faithful(s, t, s2, t')
  {
    hide SameFrame;
    forall i | 0 <= i < ENTRIES ensures FaithfulPage(s, s.tables[t][i], s2, s2.tables[t'][i]) {
      var p, q := s.tables[t][i], s2.tables[t'][i];
      assert FaithfulPage(s1, p, s2, q);
      if p.frame != 0 {
        SameFrameChain(s.phys, p.frame, s1.phys, p.frame, s2.phys, q.frame);
      }
    }
  }
}
