/** What address spaces promise: a clone reads like its source, private pages are isolated, and
    frames have one owner in every run. */
module SpaceLaws {
  import opened Frames
  import opened Options
  import opened Spaces

  const LIMIT: nat := 0x1_0000_0000

  function TableIndex(addr: nat): nat {
    addr / 0x1000 / 1024
  }

  function PageIndex(addr: nat): nat {
    addr / 0x1000 % 1024
  }

  lemma Indices(addr: nat)
    requires addr < LIMIT
    ensures TableIndex(addr) < ENTRIES && PageIndex(addr) < ENTRIES && addr % 0x1000 / 4 < 1024
  {
  }

  /** The page that the directory d has for an address. */
  ghost function PageAt(s: Space, d: nat, addr: nat): Option<Page>
    requires Formed(s) && d in s.dirs && addr < LIMIT
  {
    Indices(addr);
    var t := s.dirs[d][TableIndex(addr)];
    if t == 0 then None else Some(s.tables[t][PageIndex(addr)])
  }

  lemma FrameInRange(s: Space, d: nat, addr: nat)
    requires Formed(s) && d in s.dirs && addr < LIMIT && PageAt(s, d, addr).Some?
    ensures PageAt(s, d, addr).value.frame < NFRAMES
  {
    Indices(addr);
  }

  /** The word that is read at an address through the directory d, None if it is not mapped. */
  ghost function Read(s: Space, d: nat, addr: nat): Option<nat>
    requires Formed(s) && d in s.dirs && addr < LIMIT
  {
    Indices(addr);
    match PageAt(s, d, addr)
    case None => None
    case Some(p) =>
      FrameInRange(s, d, addr);
      if p.present then Some(WordIn(s.phys, p.frame, addr % 0x1000 / 4)) else None
  }

  ghost function Write(s: Space, d: nat, addr: nat, v: nat): Space
    requires Formed(s) && d in s.dirs && addr < LIMIT && Read(s, d, addr).Some?
  {
    Indices(addr);
    FrameInRange(s, d, addr);
    s.(phys := s.phys[PageAt(s, d, addr).value.frame * 1024 + addr % 0x1000 / 4 := v])
  }

  /** The calls of clone_directory that succeed: bit 0 is set and there are frames enough. */
  ghost predicate Cloneable(s: Space, d: nat, kd: nat) {
    && Formed(s) && Owned(s) && d in s.dirs && kd in s.dirs && 0 in s.used
    && Need(s, s.dirs[d], s.dirs[kd], ENTRIES) <= |FreeFrames(s.used)|
  }

  /** Entries are shared or faithfully copied, and frames in use keep their words. */
  lemma CloneIsFaithful(s: Space, d: nat, kd: nat)
    requires Cloneable(s, d, kd)
    ensures var s' := CloneDirectory(s, d, kd);
      && Formed(s') && Owned(s') && Kept(s, s') && s.next in s'.dirs && s.next !in s.dirs
      && (forall e :: e in s.dirs ==> e in s'.dirs && s'.dirs[e] == s.dirs[e])
      && (forall t :: t in s.tables ==> t in s'.tables && s'.tables[t] == s.tables[t])
      && (forall i :: 0 <= i < ENTRIES ==>
            if Private(s.dirs[d], s.dirs[kd], i)
            then s'.dirs[s.next][i] !in s.tables && s'.dirs[s.next][i] in s'.tables
            else s'.dirs[s.next][i] == s.dirs[d][i])
      && (forall i :: 0 <= i < ENTRIES && Private(s.dirs[d], s.dirs[kd], i) ==>
            Faithful(s, s.dirs[d][i], s', s'.dirs[s.next][i]))
  {
    hide CloneEntries, Need, Faithful, SameFrame, Kept, Owned, Extends;
    CloneForms(s, d, kd);
    LaterForms(s);
    var s0, s' := s.(next := s.next + 1), CloneDirectory(s, d, kd);
    NeedSame(s, s0, s.dirs[d], s.dirs[kd], ENTRIES);
    CloneEntriesFaithful(s0, s.dirs[d], s.dirs[kd], ENTRIES);
    var (s1, entries) := CloneEntries(s0, s.dirs[d], s.dirs[kd], ENTRIES);
    SameKept(s0, s1, s, s');
    forall i | 0 <= i < ENTRIES && Private(s.dirs[d], s.dirs[kd], i)
      ensures Faithful(s, s.dirs[d][i], s', s'.dirs[s.next][i])
    {
      SameFaithful(s0, s1, s, s', s.dirs[d][i], entries[i]);
    }
  }

  lemma NeedSame(s: Space, s0: Space, src: seq<nat>, kd: seq<nat>, n: nat)
    requires Formed(s) && Formed(s0) && s0.tables == s.tables && |src| == |kd| == ENTRIES && n <= ENTRIES
    requires forall i :: 0 <= i < ENTRIES ==> src[i] == 0 || src[i] in s.tables
    ensures Need(s0, src, kd, n) == Need(s, src, kd, n)
  {
  }

  lemma SameKept(a: Space, b: Space, c: Space, d: Space)
    requires a.used == c.used && a.phys == c.phys && b.phys == d.phys
    ensures Kept(a, b) <==> Kept(c, d)
  {
    hide SameFrame;
  }

  /** Faithfulness is about frames, tables and memory alone. */
  lemma SameFaithful(a: Space, b: Space, c: Space, d: Space, t: nat, t': nat)
    requires a.tables == c.tables && a.phys == c.phys && b.tables == d.tables && b.phys == d.phys && b.used == d.used
    ensures Faithful(a, t, b, t') <==> Faithful(c, t, d, t')
  {
    hide SameFrame, GoodPages;
  }

  /** A page of s in a table that s' still has reads the same words. */
  lemma OldPageReads(s: Space, s': Space, t: nat, i: nat, k: nat)
    requires Formed(s) && Formed(s') && Owned(s) && 0 in s.used && Kept(s, s') && t in s.tables && i < ENTRIES
    requires k < 1024
    ensures WordIn(s'.phys, s.tables[t][i].frame, k) == WordIn(s.phys, s.tables[t][i].frame, k)
  {
    assert SameFrame(s.phys, s.tables[t][i].frame, s'.phys, s.tables[t][i].frame);
  }

  /** A clone reads like its source at an address if and only if the address lies in a shared
      table or its page is present exactly when it has a frame other than 0; and the source
      itself reads as before. */
  lemma CloneReadsLikeSource(s: Space, d: nat, kd: nat, addr: nat)
    requires Cloneable(s, d, kd) && addr < LIMIT
    ensures var s' := CloneDirectory(s, d, kd);
      && Formed(s') && s.next in s'.dirs && d in s'.dirs
      && TableIndex(addr) < ENTRIES
      && Read(s', d, addr) == Read(s, d, addr)
      && (Read(s', s.next, addr) == Read(s, d, addr) <==>
            (Private(s.dirs[d], s.dirs[kd], TableIndex(addr)) ==>
               (PageAt(s, d, addr).value.present <==> PageAt(s, d, addr).value.frame != 0)))
  {
    hide CloneDirectory, SameFrame, Owned, WordIn, Faithful, Kept;
    Indices(addr);
    CloneIsFaithful(s, d, kd);
    var s', i, j, k := CloneDirectory(s, d, kd), TableIndex(addr), PageIndex(addr), addr % 0x1000 / 4;
    var t := s.dirs[d][i];
    if t != 0 {
      OldPageReads(s, s', t, j, k);
      if Private(s.dirs[d], s.dirs[kd], i) {
        CopiedPageReads(s, t, s', s'.dirs[s.next][i], j, k);
      }
    }
  }

  lemma CopiedPageReads(s: Space, t: nat, s': Space, t': nat, i: nat, k: nat)
    requires Formed(s) && Formed(s') && Faithful(s, t, s', t') && i < ENTRIES && k < 1024
    ensures var p, q := s.tables[t][i], s'.tables[t'][i];
      if p.frame == 0 then !q.present else q.present && WordIn(s'.phys, q.frame, k) == WordIn(s.phys, p.frame, k)
  {
    hide WordIn;
    assert FaithfulPage(s, s.tables[t][i], s', s'.tables[t'][i]);
  }

  // A private table whose first page is present in frame 0, and no other page.
  ghost function FrameZeroTable(): seq<Page> {
    seq(ENTRIES, i => if i == 0 then ZERO_PAGE.(present := true) else ZERO_PAGE)
  }

  ghost function FrameZeroSpace(): Space {
    Space({0}, map[1 := FrameZeroTable()],
          map[2 := seq<nat>(ENTRIES, i => if i == 0 then 1 else 0), 3 := seq<nat>(ENTRIES, _ => 0)], 4,
          seq(NFRAMES * 1024, _ => 0))
  }

  lemma {:induction false} NoCopies(src: seq<Page>, n: nat)
    requires n <= |src| && forall i :: 0 <= i < n ==> src[i].frame == 0
    ensures Copies(src, n) == 0
  {
    if n > 0 {
      NoCopies(src, n - 1);
    }
  }

  lemma {:induction false} NoNeed(s: Space, src: seq<nat>, kd: seq<nat>, n: nat)
    requires Formed(s) && |src| == |kd| == ENTRIES && n <= ENTRIES
    requires forall i :: 0 <= i < ENTRIES ==> src[i] == 0 || src[i] in s.tables
    requires forall i :: 0 <= i < ENTRIES && src[i] != 0 ==> Copies(s.tables[src[i]], ENTRIES) == 0
    ensures Need(s, src, kd, n) == 0
  {
    if n > 0 {
      NoNeed(s, src, kd, n - 1);
    }
  }

  lemma FrameZeroForms()
    ensures var s := FrameZeroSpace(); Formed(s) && Owned(s) && s.tables[1] == FrameZeroTable()
  {
  }

  lemma FrameZeroNeedsNothing()
    ensures Formed(FrameZeroSpace()) && Cloneable(FrameZeroSpace(), 2, 3)
  {
    hide Copies, Need, Formed, Owned;
    var s := FrameZeroSpace();
    FrameZeroForms();
    NoCopies(FrameZeroTable(), ENTRIES);
    NoNeed(s, s.dirs[2], s.dirs[3], ENTRIES);
  }

  /** A clone can read differently: a page that is present in frame 0 is missing from the copy. */
  lemma CloneCanDiffer()
    ensures var s := FrameZeroSpace();
      && Cloneable(s, 2, 3) && Formed(CloneDirectory(s, 2, 3)) && s.next in CloneDirectory(s, 2, 3).dirs
      && Read(s, 2, 0).Some? && Read(CloneDirectory(s, 2, 3), s.next, 0) != Read(s, 2, 0)
  {
    hide CloneDirectory, Cloneable, Formed, WordIn;
    var s := FrameZeroSpace();
    FrameZeroForms();
    FrameZeroNeedsNothing();
    CloneReadsLikeSource(s, 2, 3, 0);
  }

  // ---- Isolation ----

  /** What is written is what is read back, and no other word of memory changes. */
  lemma WriteThenRead(s: Space, d: nat, x: nat, v: nat, y: nat)
    requires Formed(s) && d in s.dirs && x < LIMIT && y < LIMIT && Read(s, d, x).Some?
    ensures var s' := Write(s, d, x, v);
      && Formed(s') && s'.used == s.used && s'.tables == s.tables && s'.dirs == s.dirs
      && Read(s', d, y) ==
         if Read(s, d, y).Some? && y % 0x1000 / 4 == x % 0x1000 / 4 &&
            PageAt(s, d, y).value.frame == PageAt(s, d, x).value.frame
         then Some(v) else Read(s, d, y)
  {
    Indices(x);
    Indices(y);
    FrameInRange(s, d, x);
    assert PageAt(Write(s, d, x, v), d, y) == PageAt(s, d, y);
    if PageAt(s, d, y).Some? {
      FrameInRange(s, d, y);
      WordWritten(s.phys, PageAt(s, d, x).value.frame, x % 0x1000 / 4, v, PageAt(s, d, y).value.frame, y % 0x1000 / 4);
    }
  }

  lemma WordWritten(m: seq<nat>, f: nat, k: nat, v: nat, g: nat, l: nat)
    requires |m| == NFRAMES * 1024 && f < NFRAMES && g < NFRAMES && k < 1024 && l < 1024
    ensures WordIn(m[f * 1024 + k := v], g, l) == if f == g && k == l then v else WordIn(m, g, l)
  {
  }

  /** A write through a page that has a frame of its own is invisible through every directory
      that does not have the page's table. */
  lemma WritesAreIsolated(s: Space, a: nat, x: nat, v: nat, b: nat, y: nat)
    requires Formed(s) && Owned(s) && a in s.dirs && b in s.dirs && x < LIMIT && y < LIMIT && Read(s, a, x).Some?
    requires PageAt(s, a, x).value.frame != 0 && TableIndex(x) < ENTRIES
    requires forall i :: 0 <= i < ENTRIES ==> s.dirs[b][i] != s.dirs[a][TableIndex(x)]
    ensures Formed(Write(s, a, x, v)) && Read(Write(s, a, x, v), b, y) == Read(s, b, y)
  {
    Indices(x);
    Indices(y);
    FrameInRange(s, a, x);
    var s' := Write(s, a, x, v);
    assert PageAt(s', b, y) == PageAt(s, b, y);
    if PageAt(s, b, y).Some? {
      FrameInRange(s, b, y);
      var f, g := PageAt(s, a, x).value.frame, PageAt(s, b, y).value.frame;
      assert f != g by { OneOwner(s, s.dirs[a][TableIndex(x)], PageIndex(x), s.dirs[b][TableIndex(y)], PageIndex(y)); }
      WordUntouched(s.phys, f, x % 0x1000 / 4, v, g, y % 0x1000 / 4);
    }
  }

  lemma OneOwner(s: Space, t: nat, i: nat, u: nat, j: nat)
    requires Formed(s) && Owned(s) && t in s.tables && u in s.tables && i < ENTRIES && j < ENTRIES
    requires s.tables[t][i].frame != 0 && t != u
    ensures s.tables[t][i].frame != s.tables[u][j].frame
  {
  }

  lemma WordUntouched(m: seq<nat>, f: nat, k: nat, v: nat, g: nat, l: nat)
    requires |m| == NFRAMES * 1024 && f < NFRAMES && g < NFRAMES && k < 1024 && l < 1024 && f != g
    ensures WordIn(m[f * 1024 + k := v], g, l) == WordIn(m, g, l)
  {
  }

  /** After a clone, writes through a private page of either directory are invisible through
      the other, anywhere. For writes through the source this needs the page's table not to be
      one that the two directories share at another index. */
  lemma CloneIsIsolated(s: Space, d: nat, kd: nat, x: nat, v: nat, y: nat)
    requires Cloneable(s, d, kd) && x < LIMIT && y < LIMIT && TableIndex(x) < ENTRIES
    requires Private(s.dirs[d], s.dirs[kd], TableIndex(x)) && PageAt(s, d, x).value.frame != 0
    ensures var s', c := CloneDirectory(s, d, kd), s.next;
      && Formed(s') && d in s'.dirs && c in s'.dirs && Read(s', c, x).Some?
      && Formed(Write(s', c, x, v)) && Read(Write(s', c, x, v), d, y) == Read(s', d, y)
      && (Read(s', d, x).Some? &&
          (forall i :: 0 <= i < ENTRIES && s.dirs[kd][i] == s.dirs[d][i] ==>
             s.dirs[d][i] != s.dirs[d][TableIndex(x)]) ==>
            Formed(Write(s', d, x, v)) && Read(Write(s', d, x, v), c, y) == Read(s', c, y))
  {
    hide CloneDirectory, SameFrame, Owned, WordIn, Faithful, Kept, Write, Need;
    Indices(x);
    CloneIsFaithful(s, d, kd);
    var s', c, i, j := CloneDirectory(s, d, kd), s.next, TableIndex(x), PageIndex(x);
    var t, t' := s.dirs[d][i], s'.dirs[c][i];
    CopiedFrame(s, t, s', t', j);
    assert forall e :: 0 <= e < ENTRIES ==> s'.dirs[d][e] != t';
    WritesAreIsolated(s', c, x, v, d, y);
    if Read(s', d, x).Some? &&
       (forall i :: 0 <= i < ENTRIES && s.dirs[kd][i] == s.dirs[d][i] ==> s.dirs[d][i] != s.dirs[d][TableIndex(x)]) {
      forall e | 0 <= e < ENTRIES ensures s'.dirs[c][e] != t {
        assert Private(s.dirs[d], s.dirs[kd], e) || s'.dirs[c][e] == s.dirs[d][e];
      }
      WritesAreIsolated(s', d, x, v, c, y);
    }
  }

  lemma CopiedFrame(s: Space, t: nat, s': Space, t': nat, i: nat)
    requires Formed(s) && Formed(s') && Faithful(s, t, s', t') && i < ENTRIES && s.tables[t][i].frame != 0
    ensures s'.tables[t'][i].present && s'.tables[t'][i].frame != 0
  {
    hide SameFrame;
    assert FaithfulPage(s, s.tables[t][i], s', s'.tables[t'][i]);
  }

  // ---- Whole runs ----

  ghost predicate HasPage(s: Space, t: nat, i: nat)
    requires Formed(s)
  {
    t in s.tables && i < ENTRIES
  }

  /** alloc_frame on page i of the table t. */
  ghost function AllocFrameAt(s: Space, t: nat, i: nat, kernel: bool, writeable: bool): Space
    requires Formed(s) && HasPage(s, t, i)
  {
    var page, f := s.tables[t][i], LeastFree(s.used, 0);
    if page.frame != 0 then s
    else s.(used := s.used + {f}, tables := s.tables[t := s.tables[t][i := AllocPage(page, f, kernel, writeable)]])
  }

  /** free_frame on page i of the table t: clear_frame is given a frame number where it
      expects an address, so it clears the bit of frame frame/0x1000. */
  ghost function FreeFrameAt(s: Space, t: nat, i: nat): Space
    requires Formed(s) && HasPage(s, t, i)
  {
    var page := s.tables[t][i];
    if page.frame == 0 then s
    else s.(used := s.used - {page.frame / 0x1000}, tables := s.tables[t := s.tables[t][i := page.(frame := 0)]])
  }

  /** get_page with make, where the directory has no table yet. */
  ghost function MakeTable(s: Space, d: nat, e: nat): Space
    requires Formed(s) && d in s.dirs && e < ENTRIES
  {
    if s.dirs[d][e] != 0 then s
    else
      var entries: seq<nat> := s.dirs[d][e := s.next];
      s.(tables := s.tables[s.next := seq(ENTRIES, _ => ZERO_PAGE)], dirs := s.dirs[d := entries], next := s.next + 1)
  }

  ghost function MakeDirectory(s: Space): Space
    requires Formed(s)
  {
    s.(dirs := s.dirs[s.next := seq<nat>(ENTRIES, _ => 0)], next := s.next + 1)
  }

  datatype Event =
    | NewDirectory
    | NewTable(d: nat, e: nat)
    | Alloc(t: nat, i: nat, kernel: bool, writeable: bool)
    | Free(t: nat, i: nat)
    | Clone(d: nat, kd: nat)

  ghost predicate Enabled(s: Space, e: Event)
    requires Formed(s)
  {
    match e
    case NewDirectory => true
    case NewTable(d, i) => d in s.dirs && i < ENTRIES
    case Alloc(t, i, _, _) => HasPage(s, t, i)
    case Free(t, i) => HasPage(s, t, i)
    case Clone(d, kd) => d in s.dirs && kd in s.dirs
  }

  ghost function After(s: Space, e: Event): Space
    requires Formed(s) && Enabled(s, e)
  {
    match e
    case NewDirectory => MakeDirectory(s)
    case NewTable(d, i) => MakeTable(s, d, i)
    case Alloc(t, i, kernel, writeable) => AllocFrameAt(s, t, i, kernel, writeable)
    case Free(t, i) => FreeFrameAt(s, t, i)
    case Clone(d, kd) => CloneDirectory(s, d, kd)
  }

  /** The space with page i of the table t replaced and other frames in use. */
  ghost function Replaced(s: Space, t: nat, i: nat, q: Page, used: set<nat>): Space
    requires Formed(s) && HasPage(s, t, i)
  {
    s.(used := used, tables := s.tables[t := s.tables[t][i := q]])
  }

  lemma ReplacedAt(s: Space, t: nat, i: nat, q: Page, used: set<nat>, u: nat, j: nat)
    requires Formed(s) && HasPage(s, t, i) && u in s.tables && j < ENTRIES
    ensures var s' := Replaced(s, t, i, q, used);
      u in s'.tables && |s'.tables[u]| == ENTRIES && s'.tables[u][j] == if u == t && j == i then q else s.tables[u][j]
  {
  }

  lemma SameTables(s: Space, t: nat, i: nat, q: Page, used: set<nat>)
    requires Formed(s) && HasPage(s, t, i)
    ensures forall u :: u in Replaced(s, t, i, q, used).tables <==> u in s.tables
  {
  }

  lemma ReplacedForms(s: Space, t: nat, i: nat, q: Page, used: set<nat>)
    requires Formed(s) && HasPage(s, t, i) && q.frame < NFRAMES && forall f :: f in used ==> f < NFRAMES
    ensures Formed(Replaced(s, t, i, q, used))
  {
    var s' := Replaced(s, t, i, q, used);
    assert s'.tables.Keys == s.tables.Keys;
    forall u, j | u in s'.tables && 0 <= j < ENTRIES
      ensures |s'.tables[u]| == ENTRIES && s'.tables[u][j].frame < NFRAMES
    {
      ReplacedAt(s, t, i, q, used, u, j);
    }
  }

  /** Giving a page no frame, or one that nobody uses, leaves every frame with one owner. */
  lemma ReplacedOwned(s: Space, t: nat, i: nat, q: Page, used: set<nat>)
    requires Formed(s) && Owned(s) && HasPage(s, t, i) && Formed(Replaced(s, t, i, q, used))
    requires forall f :: f in s.used && f != 0 ==> f in used
    requires q.frame != 0 ==> q.frame in used && q.frame !in s.used
    ensures Owned(Replaced(s, t, i, q, used))
  {
    var s' := Replaced(s, t, i, q, used);
    hide Formed, Replaced;
    SameTables(s, t, i, q, used);
    forall u, j | u in s'.tables && 0 <= j < ENTRIES && s'.tables[u][j].frame != 0
      ensures s'.tables[u][j].frame in used
    {
      ReplacedAt(s, t, i, q, used, u, j);
    }
    forall u, j, v, k |
      u in s'.tables && v in s'.tables && 0 <= j < ENTRIES && 0 <= k < ENTRIES && s'.tables[u][j].frame != 0 &&
      s'.tables[u][j].frame == s'.tables[v][k].frame
      ensures u == v && j == k
    {
      ReplacedAt(s, t, i, q, used, u, j);
      ReplacedAt(s, t, i, q, used, v, k);
    }
  }

  lemma AllocKeepsOwned(s: Space, t: nat, i: nat, kernel: bool, writeable: bool)
    requires Formed(s) && Owned(s) && HasPage(s, t, i)
    ensures Formed(AllocFrameAt(s, t, i, kernel, writeable)) && Owned(AllocFrameAt(s, t, i, kernel, writeable))
  {
    hide Owned;
    AllocForms(s, t, i, kernel, writeable);
    LeastFreeIsLeast(s.used, 0);
    var f, page := LeastFree(s.used, 0), s.tables[t][i];
    if page.frame == 0 {
      ReplacedOwned(s, t, i, AllocPage(page, f, kernel, writeable), s.used + {f});
    }
  }

  lemma AllocForms(s: Space, t: nat, i: nat, kernel: bool, writeable: bool)
    requires Formed(s) && HasPage(s, t, i)
    ensures Formed(AllocFrameAt(s, t, i, kernel, writeable)) && Formed(FreeFrameAt(s, t, i))
  {
    var f, page := LeastFree(s.used, 0), s.tables[t][i];
    LeastFreeInRange(s.used);
    if page.frame == 0 {
      ReplacedForms(s, t, i, AllocPage(page, f, kernel, writeable), s.used + {f});
    } else {
      ReplacedForms(s, t, i, page.(frame := 0), s.used - {page.frame / 0x1000});
    }
  }

  lemma FreeKeepsOwned(s: Space, t: nat, i: nat)
    requires Formed(s) && Owned(s) && HasPage(s, t, i)
    ensures Formed(FreeFrameAt(s, t, i)) && Owned(FreeFrameAt(s, t, i))
  {
    hide Owned;
    AllocForms(s, t, i, true, true);
    var page := s.tables[t][i];
    assert page.frame / 0x1000 == 0;
    if page.frame != 0 {
      ReplacedOwned(s, t, i, page.(frame := 0), s.used - {page.frame / 0x1000});
    }
  }

  /** What is freed is not the page's frame: free_frame never makes that one available again. */
  lemma FreedFrameStaysInUse(s: Space, t: nat, i: nat)
    requires Formed(s) && Owned(s) && HasPage(s, t, i) && s.tables[t][i].frame != 0
    ensures FreeFrameAt(s, t, i).used == s.used - {0}
    ensures s.tables[t][i].frame in FreeFrameAt(s, t, i).used
  {
    assert s.tables[t][i].frame / 0x1000 == 0;
  }

  /** Apart from page i of the table t and from what frames are in use, s' is s. */
  ghost predicate ElsewhereSame(s: Space, s': Space, t: nat, i: nat)
    requires Formed(s)
  {
    && s'.dirs == s.dirs && s'.phys == s.phys && s'.next == s.next && s'.tables.Keys == s.tables.Keys
    && (forall u: nat, j: nat :: HasPage(s, u, j) ==> j < |s'.tables[u]|)
    && (forall u: nat, j: nat :: HasPage(s, u, j) && !(u == t && j == i) ==> s'.tables[u][j] == s.tables[u][j])
  }

  lemma ReplacedElsewhere(s: Space, t: nat, i: nat, q: Page, used: set<nat>)
    requires Formed(s) && HasPage(s, t, i)
    ensures ElsewhereSame(s, Replaced(s, t, i, q, used), t, i)
    ensures Replaced(s, t, i, q, used).tables[t][i] == q
  {
    var s' := Replaced(s, t, i, q, used);
    assert s'.tables.Keys == s.tables.Keys;
    forall u: nat, j: nat | HasPage(s, u, j)
      ensures |s'.tables[u]| == ENTRIES && (!(u == t && j == i) ==> s'.tables[u][j] == s.tables[u][j])
    {
      ReplacedAt(s, t, i, q, used, u, j);
    }
  }

  /** alloc_frame gives a page without frame the least free one, with the flags asked for, and
      marks that frame. A page that has a frame, and every other page, stays as it is. */
  lemma AllocGivesLeast(s: Space, t: nat, i: nat, kernel: bool, writeable: bool)
    requires Formed(s) && HasPage(s, t, i)
    ensures var s', p := AllocFrameAt(s, t, i, kernel, writeable), s.tables[t][i];
      && ElsewhereSame(s, s', t, i)
      && var q := s'.tables[t][i];
      if p.frame != 0 then q == p && s'.used == s.used
      else
        && q.present && (q.rw <==> writeable) && (q.user <==> !kernel)
        && q.accessed == p.accessed && q.dirty == p.dirty
        && (FreeFrames(s.used) != {} ==>
              q.frame in FreeFrames(s.used) && forall f :: f in FreeFrames(s.used) ==> q.frame <= f)
        && (FreeFrames(s.used) == {} ==> q.frame == 0) && s'.used == s.used + {q.frame}
  {
    hide LeastFree;
    var p, f := s.tables[t][i], LeastFree(s.used, 0);
    LeastFreeIsLeast(s.used, 0);
    assert forall g :: 0 <= g < NFRAMES && g !in s.used ==> g in FreeFrames(s.used);
    if p.frame == 0 {
      ReplacedElsewhere(s, t, i, AllocPage(p, f, kernel, writeable), s.used + {f});
    }
  }

  /** free_frame takes the frame from a page and nothing else: not its flags, and no other page. */
  lemma FreeTakesFrame(s: Space, t: nat, i: nat)
    requires Formed(s) && HasPage(s, t, i)
    ensures var s', p := FreeFrameAt(s, t, i), s.tables[t][i];
      && ElsewhereSame(s, s', t, i)
      && var q := s'.tables[t][i];
      && q.frame == 0 && q.present == p.present && q.rw == p.rw && q.user == p.user
      && q.accessed == p.accessed && q.dirty == p.dirty
      && s'.used == if p.frame == 0 then s.used else s.used - {0}
  {
    var p := s.tables[t][i];
    assert p.frame / 0x1000 == 0;
    if p.frame != 0 {
      ReplacedElsewhere(s, t, i, p.(frame := 0), s.used - {p.frame / 0x1000});
    }
  }

  /** A page that is freed and allocated again gets the least free frame: frame 0, now that its
      bit is clear, so that the page still counts as one without a frame. */
  lemma FreeThenAlloc(s: Space, t: nat, i: nat, kernel: bool, writeable: bool)
    requires Formed(s) && HasPage(s, t, i) && s.tables[t][i].frame != 0
    ensures var s1 := FreeFrameAt(s, t, i);
      && Formed(s1) && HasPage(s1, t, i)
      && var s2 := AllocFrameAt(s1, t, i, kernel, writeable);
      && ElsewhereSame(s, s2, t, i) && s2.used == s.used + {0}
      && var p, q := s.tables[t][i], s2.tables[t][i];
      q == Page(true, writeable, !kernel, p.accessed, p.dirty, 0)
  {
    hide Formed;
    var s1 := FreeFrameAt(s, t, i);
    AllocForms(s, t, i, kernel, writeable);
    FreeTakesFrame(s, t, i);
    AllocGivesLeast(s1, t, i, kernel, writeable);
    assert 0 in FreeFrames(s1.used);
    forall u: nat, j: nat | HasPage(s, u, j) ensures HasPage(s1, u, j) {
    }
  }

  /** get_page with make gives a directory an empty table where it had none, and leaves every
      other entry, directory and table as it is. */
  lemma MakeTableIsEmpty(s: Space, d: nat, e: nat)
    requires Formed(s) && d in s.dirs && e < ENTRIES
    ensures var s' := MakeTable(s, d, e);
      && s'.used == s.used && s'.phys == s.phys && s'.dirs.Keys == s.dirs.Keys && |s'.dirs[d]| == ENTRIES
      && (forall u :: u in s.tables ==> u in s'.tables && s'.tables[u] == s.tables[u])
      && (forall b :: b in s.dirs && b != d ==> s'.dirs[b] == s.dirs[b])
      && (forall i :: 0 <= i < ENTRIES && i != e ==> s'.dirs[d][i] == s.dirs[d][i])
      && var t := s'.dirs[d][e];
      && t != 0 && t in s'.tables
      && if s.dirs[d][e] != 0 then t == s.dirs[d][e] && s' == s
         else
           && t !in s.tables && s'.tables.Keys == s.tables.Keys + {t} && |s'.tables[t]| == ENTRIES
           && forall j :: 0 <= j < ENTRIES ==> s'.tables[t][j] == Page(false, false, false, false, false, 0)
  {
    if s.dirs[d][e] == 0 {
      assert s.next !in s.tables;
    }
  }

  /** A new directory maps no address, and what there was is as before. */
  lemma NewDirectoryIsEmpty(s: Space, addr: nat)
    requires Formed(s) && addr < LIMIT
    ensures var s' := MakeDirectory(s);
      && Formed(s') && s.next !in s.dirs && s'.dirs.Keys == s.dirs.Keys + {s.next} && Read(s', s.next, addr) == None
      && s'.tables == s.tables && s'.used == s.used && s'.phys == s.phys
      && forall d :: d in s.dirs ==> s'.dirs[d] == s.dirs[d]
  {
    Indices(addr);
  }

  lemma MakeKeepsOwned(s: Space, d: nat, e: nat)
    requires Formed(s) && Owned(s) && d in s.dirs && e < ENTRIES
    ensures Formed(MakeTable(s, d, e)) && Owned(MakeTable(s, d, e))
  {
    var s' := MakeTable(s, d, e);
    if s.dirs[d][e] == 0 {
      assert s.next !in s.tables;
      assert forall u :: u in s'.tables && u != s.next ==> u in s.tables && s'.tables[u] == s.tables[u];
    }
  }

  /** The events can happen one after the other; nothing is asked of what follows a space
      that is not in order, where Last stops. */
  ghost predicate Run(s: Space, events: seq<Event>)
    decreases |events|
  {
    events != [] && Formed(s) ==> Enabled(s, events[0]) && Run(After(s, events[0]), events[1..])
  }

  ghost function Last(s: Space, events: seq<Event>): Space
    requires Run(s, events)
    decreases |events|
  {
    if events == [] || !Formed(s) then s else Last(After(s, events[0]), events[1..])
  }

  /** In every run, whether frames run out or not, a page with a nonzero frame has that frame
      marked in use and no other page of any table has it. */
  lemma {:induction false} RunKeepsOwned(s: Space, events: seq<Event>)
    requires Formed(s) && Owned(s) && Run(s, events)
    ensures Formed(Last(s, events)) && Owned(Last(s, events))
    decreases |events|
  {
    hide Owned, AllocFrameAt, FreeFrameAt, MakeTable, CloneDirectory;
    if events != [] {
      match events[0] {
      case NewDirectory => DirectoryKeepsOwned(s);
      case NewTable(d, i) => MakeKeepsOwned(s, d, i);
      case Alloc(t, i, kernel, writeable) => AllocKeepsOwned(s, t, i, kernel, writeable);
      case Free(t, i) => FreeKeepsOwned(s, t, i);
      case Clone(d, kd) => CloneForms(s, d, kd);
      }
      RunKeepsOwned(After(s, events[0]), events[1..]);
    }
  }

  lemma DirectoryKeepsOwned(s: Space)
    requires Formed(s) && Owned(s)
    ensures Formed(MakeDirectory(s)) && Owned(MakeDirectory(s))
  {
  }
}
