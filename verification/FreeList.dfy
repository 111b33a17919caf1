/** The first-fit allocator of src/impl/memory.c: a linked list of blocks laid out in one
    arena of bytes. */
module FreeList {
  import opened Options

  const ARENA: nat := 25000 // heap_size
  const HEAD: nat := 12 // sizeof(memory)

  /** A block header at offset addr of the arena, followed by `size` bytes of payload. */
  datatype Cell = Cell(addr: nat, size: nat, free: bool) {
    function Payload(): nat { addr + HEAD }
    function End(): nat { addr + HEAD + size }
  }

  // ---- The list as a sequence of cells ----

  /** The cells follow each other and fill the arena. */
  ghost predicate Laid(bs: seq<Cell>) {
    && bs != [] && bs[0].addr == 0 && bs[|bs| - 1].End() == ARENA
    && forall i {:trigger bs[i].End()} :: 0 <= i < |bs| - 1 ==> bs[i + 1].addr == bs[i].End()
  }

  ghost predicate NoFreePair(bs: seq<Cell>) {
    forall i {:trigger bs[i]} :: 0 <= i < |bs| - 1 ==> !(bs[i].free && bs[i + 1].free)
  }

  /** What every call keeps; the list is empty before the first request. */
  ghost predicate Wellformed(bs: seq<Cell>) {
    bs == [] || (Laid(bs) && NoFreePair(bs))
  }

  /** The list a request starts from. */
  function Started(bs: seq<Cell>): seq<Cell> {
    if bs == [] then [Cell(0, ARENA - HEAD, true)] else bs
  }

  /** The position of the first free cell with room for n bytes. */
  ghost function FirstFit(bs: seq<Cell>, n: nat): (i: nat)
    ensures i <= |bs|
    ensures i < |bs| ==> bs[i].free && bs[i].size >= n
    ensures forall j :: 0 <= j < i ==> !(bs[j].free && bs[j].size >= n)
  {
    if bs == [] || (bs[0].free && bs[0].size >= n) then 0 else 1 + FirstFit(bs[1..], n)
  }

  /** A free cell used for n bytes; what is left over becomes a cell if it can hold a header
      and at least one byte. */
  ghost function Cut(b: Cell, n: nat): (r: seq<Cell>)
    requires b.size >= n
  {
    if b.size > n + HEAD then [Cell(b.addr, n, false), Cell(b.addr + HEAD + n, b.size - n - HEAD, true)]
    else [Cell(b.addr, b.size, false)]
  }

  ghost function Allocated(bs: seq<Cell>, n: nat): seq<Cell> {
    var s := Started(bs);
    var i := FirstFit(s, n);
    if i == |s| then s else s[..i] + Cut(s[i], n) + s[i + 1..]
  }

  ghost function Pointer(bs: seq<Cell>, n: nat): Option<nat> {
    var s := Started(bs);
    var i := FirstFit(s, n);
    if i == |s| then None else Some(s[i].Payload())
  }

  /** The position of the cell whose payload starts at p. */
  ghost function Find(bs: seq<Cell>, p: int): (i: nat)
    ensures i <= |bs|
    ensures i < |bs| ==> bs[i].Payload() == p
    ensures forall j :: 0 <= j < i ==> bs[j].Payload() != p
  {
    if bs == [] || bs[0].Payload() == p then 0 else 1 + Find(bs[1..], p)
  }

  ghost function Joined(a: Cell, b: Cell): Cell {
    Cell(a.addr, a.size + b.size + HEAD, true)
  }

  /** The list with the cell at position i freed and merged with its free neighbours. */
  ghost function ReleasedAt(bs: seq<Cell>, i: nat): seq<Cell>
    requires i < |bs|
  {
    var left := 0 < i && bs[i - 1].free;
    var right := i + 1 < |bs| && bs[i + 1].free;
    var b := if left then Joined(bs[i - 1], bs[i]) else bs[i].(free := true);
    bs[..if left then i - 1 else i] + [if right then Joined(b, bs[i + 1]) else b] + bs[if right then i + 2 else i + 1..]
  }

  ghost function Released(bs: seq<Cell>, p: int): seq<Cell> {
    var i := Find(bs, p);
    if i == |bs| then bs else ReleasedAt(bs, i)
  }

  // ---- Laws ----

  /** b may directly follow a. */
  ghost predicate Fits(a: Cell, b: Cell) {
    b.addr == a.End() && !(a.free && b.free)
  }

  lemma Neighbours(bs: seq<Cell>, i: nat)
    requires Laid(bs) && NoFreePair(bs) && i + 1 < |bs|
    ensures Fits(bs[i], bs[i + 1])
  {
    assert bs[i + 1].addr == bs[i].End();
  }

  lemma AllFit(bs: seq<Cell>)
    requires bs != [] && bs[0].addr == 0 && bs[|bs| - 1].End() == ARENA
    requires forall i :: 0 <= i < |bs| - 1 ==> Fits(bs[i], bs[i + 1])
    ensures Laid(bs) && NoFreePair(bs)
  {
    forall i | 0 <= i < |bs| - 1 ensures bs[i + 1].addr == bs[i].End() && !(bs[i].free && bs[i + 1].free) {
      assert Fits(bs[i], bs[i + 1]);
    }
  }

  /** A request keeps the cells tiling the arena, no two free ones side by side. */
  lemma AllocatedIsWellformed(bs: seq<Cell>, n: nat)
    requires Wellformed(bs)
    ensures Wellformed(Allocated(bs, n))
  {
    var s, r := Started(bs), Allocated(bs, n);
    assert Laid(s) && NoFreePair(s);
    var i := FirstFit(s, n);
    if i < |s| {
      var cut := Cut(s[i], n);
      forall j | 0 <= j < |r| - 1 ensures Fits(r[j], r[j + 1]) {
        if j < i {
          Neighbours(s, j);
        } else if j >= i + |cut| - 1 {
          Neighbours(s, j + 1 - |cut|);
        }
      }
      AllFit(r);
    }
  }

  /** Replacing the cells [lo, hi) by a free one that spans them. */
  lemma SpanFits(bs: seq<Cell>, lo: nat, hi: nat, x: Cell)
    requires Laid(bs) && NoFreePair(bs) && lo < hi <= |bs|
    requires x.addr == bs[lo].addr && x.End() == bs[hi - 1].End()
    requires (0 < lo ==> !bs[lo - 1].free) && (hi < |bs| ==> !bs[hi].free)
    ensures Laid(bs[..lo] + [x] + bs[hi..]) && NoFreePair(bs[..lo] + [x] + bs[hi..])
  {
    var r := bs[..lo] + [x] + bs[hi..];
    forall j | 0 <= j < |r| - 1 ensures Fits(r[j], r[j + 1]) {
      if j < lo {
        Neighbours(bs, j);
      } else {
        Neighbours(bs, j + hi - lo - 1);
      }
    }
    AllFit(r);
  }

  /** A release, of whatever pointer, keeps it as well. */
  lemma ReleasedIsWellformed(bs: seq<Cell>, p: int)
    requires Wellformed(bs)
    ensures Wellformed(Released(bs, p))
  {
    hide Laid, NoFreePair;
    var r := Released(bs, p);
    var i := Find(bs, p);
    if i < |bs| {
      var left := 0 < i && bs[i - 1].free;
      var right := i + 1 < |bs| && bs[i + 1].free;
      var lo, hi := if left then i - 1 else i, if right then i + 2 else i + 1;
      if 0 < i {
        Neighbours(bs, i - 1);
      }
      if 0 < lo {
        Neighbours(bs, lo - 1);
      }
      if i + 1 < |bs| {
        Neighbours(bs, i);
      }
      if hi < |bs| {
        Neighbours(bs, hi - 1);
      }
      SpanFits(bs, lo, hi, r[lo]);
    }
  }

  lemma {:induction false} CellsInOrder(bs: seq<Cell>, i: nat, j: nat)
    requires Laid(bs) && i < j < |bs|
    ensures bs[i].End() <= bs[j].addr
  {
    if j > i + 1 {
      CellsInOrder(bs, i, j - 1);
    }
    assert bs[j].addr == bs[j - 1].End();
  }

  /** Payloads of different cells do not overlap, and lie in the arena. */
  lemma PayloadsApart(bs: seq<Cell>, i: nat, j: nat)
    requires Laid(bs) && i < j < |bs|
    ensures bs[i].End() <= bs[j].addr < bs[j].Payload() <= bs[j].End() <= ARENA
  {
    CellsInOrder(bs, i, j);
    if j < |bs| - 1 {
      CellsInOrder(bs, j, |bs| - 1);
    }
  }

  ghost function Total(bs: seq<Cell>): nat {
    if bs == [] then 0 else HEAD + bs[0].size + Total(bs[1..])
  }

  /** Sizes and headers add up to the arena. */
  lemma {:induction false} TotalFrom(bs: seq<Cell>, i: nat)
    requires Laid(bs) && i < |bs|
    ensures Total(bs[i..]) == ARENA - bs[i].addr
    decreases |bs| - i
  {
    assert bs[i..][1..] == bs[i + 1..];
    if i < |bs| - 1 {
      TotalFrom(bs, i + 1);
      assert bs[i + 1].addr == bs[i].End();
    }
  }

  lemma TilesArena(bs: seq<Cell>)
    requires Wellformed(bs) && bs != []
    ensures Total(bs) == ARENA
  {
    TotalFrom(bs, 0);
    assert bs[0..] == bs;
  }

  /** No live cell, header included, overlaps the bytes [a, a + length). */
  ghost predicate Unoccupied(bs: seq<Cell>, a: nat, length: nat) {
    && a + length <= ARENA
    && forall i :: 0 <= i < |bs| && !bs[i].free ==> bs[i].End() <= a || a + length <= bs[i].addr
  }

  ghost predicate HasRoom(bs: seq<Cell>, length: nat) {
    exists a :: Unoccupied(bs, a, length)
  }

  lemma Covering(bs: seq<Cell>, x: nat) returns (i: nat)
    requires Laid(bs) && x < ARENA
    ensures i < |bs| && bs[i].addr <= x < bs[i].End()
  {
    i := 0;
    while bs[i].End() <= x
      invariant i < |bs| && bs[i].addr <= x
      decreases |bs| - i
    {
      assert i < |bs| - 1 ==> bs[i + 1].addr == bs[i].End();
      i := i + 1;
    }
  }

  /** malloc fails exactly when no stretch of bytes free of live cells could hold a header
      and the request. */
  lemma FailsIffNoRoom(bs: seq<Cell>, n: nat)
    requires Wellformed(bs)
    ensures Pointer(bs, n) == None <==> !HasRoom(bs, HEAD + n)
  {
    var s := Started(bs);
    assert Laid(s) && NoFreePair(s);
    var i := FirstFit(s, n);
    if i < |s| {
      forall j | 0 <= j < |s| && !s[j].free ensures s[j].End() <= s[i].addr || s[i].addr + HEAD + n <= s[j].addr {
        if j < i {
          CellsInOrder(s, j, i);
        } else {
          CellsInOrder(s, i, j);
        }
      }
      EndsInArena(s, i);
      assert Unoccupied(bs, s[i].addr, HEAD + n);
    }
    if HasRoom(bs, HEAD + n) {
      var a :| Unoccupied(bs, a, HEAD + n);
      var k := Covering(s, a);
      assert Unoccupied(s, a, HEAD + n);
      assert s[k].free;
      EndsInArena(s, k);
      if k < |s| - 1 {
        assert s[k + 1].addr == s[k].End() && !s[k + 1].free;
      }
    }
  }

  lemma EndsInArena(bs: seq<Cell>, i: nat)
    requires Laid(bs) && i < |bs|
    ensures bs[i].End() <= ARENA
  {
    if i < |bs| - 1 {
      CellsInOrder(bs, i, |bs| - 1);
    }
  }

  ghost predicate LiveCell(bs: seq<Cell>, c: Cell) {
    c in bs && !c.free
  }

  /** A request is served from the first cell that can serve it: with as many bytes as asked for if
      those left over hold a header and at least one byte, and with all of the cell if not. The
      live cells are those before and this one; the cells in front and behind stay. */
  lemma ServesRequest(bs: seq<Cell>, n: nat)
    requires Wellformed(bs) && Pointer(bs, n).Some?
    ensures var i, r := FirstFit(Started(bs), n), Allocated(bs, n);
      && i < |r| && r[i].Payload() == Pointer(bs, n).value && !r[i].free
      && r[i].size == (if Started(bs)[i].size <= n + HEAD then Started(bs)[i].size else n) && n <= r[i].size <= n + HEAD
      && (forall c :: c in Started(bs)[i + 1..] ==> c in r)
      && (forall j :: 0 <= j < i ==> r[j] == Started(bs)[j])
      && (forall c :: LiveCell(r, c) <==> LiveCell(bs, c) || c == r[i])
      && !LiveCell(bs, r[i])
  {
    var s := Started(bs);
    var i, r := FirstFit(s, n), Allocated(bs, n);
    forall c ensures LiveCell(r, c) <==> LiveCell(s, c) || c == r[i] {
      SpliceMembers(s, i, i + 1, Cut(s[i], n), c);
    }
    if LiveCell(s, r[i]) {
      OtherPayload(s, i, r[i]);
    }
  }

  /** A request that fails leaves the arena as it was, or as the one free cell it starts with. */
  lemma FailedChangesNothing(bs: seq<Cell>, n: nat)
    requires Pointer(bs, n) == None
    ensures Allocated(bs, n) == if bs == [] then [Cell(0, 24988, true)] else bs
  {
  }

  /** What is in a sequence after the stretch [lo, hi) has been replaced. */
  lemma SpliceMembers(s: seq<Cell>, lo: nat, hi: nat, mid: seq<Cell>, c: Cell)
    requires lo <= hi <= |s|
    ensures c in s <==> c in s[..lo] || c in s[lo..hi] || c in s[hi..]
    ensures c in s[..lo] + mid + s[hi..] <==> c in s[..lo] || c in mid || c in s[hi..]
  {
    assert s == s[..lo] + s[lo..hi] + s[hi..];
  }

  /** A release takes the cell at p out of the live cells and touches no other. */
  lemma ReleaseTakesOne(bs: seq<Cell>, p: int, c: Cell)
    requires Wellformed(bs)
    ensures LiveCell(Released(bs, p), c) <==> LiveCell(bs, c) && c.Payload() != p
  {
    var i := Find(bs, p);
    var r := Released(bs, p);
    if i < |bs| {
      var left := 0 < i && bs[i - 1].free;
      var right := i + 1 < |bs| && bs[i + 1].free;
      var lo, hi := if left then i - 1 else i, if right then i + 2 else i + 1;
      SpliceMembers(bs, lo, hi, [r[lo]], c);
      assert r == bs[..lo] + [r[lo]] + bs[hi..];
      if c in bs {
        OtherPayload(bs, i, c);
      }
      forall x | x in bs[..lo] || x in bs[hi..] ensures x.addr != bs[i].addr {
        KeptElsewhere(bs, lo, hi, i, x);
      }
    }
  }

  lemma KeptElsewhere(bs: seq<Cell>, lo: nat, hi: nat, i: nat, x: Cell)
    requires Laid(bs) && lo <= i < hi <= |bs| && (x in bs[..lo] || x in bs[hi..])
    ensures x.addr != bs[i].addr
  {
    if x in bs[..lo] {
      var j :| 0 <= j < lo && bs[j] == x;
      CellsInOrder(bs, j, i);
    } else {
      var j :| hi <= j < |bs| && bs[j] == x;
      CellsInOrder(bs, i, j);
    }
  }

  lemma OtherPayload(bs: seq<Cell>, i: nat, c: Cell)
    requires Laid(bs) && i < |bs| && c in bs
    ensures c.Payload() == bs[i].Payload() ==> c == bs[i]
  {
    var j :| 0 <= j < |bs| && bs[j] == c;
    if j < i {
      CellsInOrder(bs, j, i);
    } else if j > i {
      CellsInOrder(bs, i, j);
    }
  }

  // ---- Whole runs ----

  /** A call; pointers are offsets into the arena, None is NULL. */
  datatype Call = Malloc(n: nat) | MFree(p: Option<int>)

  ghost function After(calls: seq<Call>): seq<Cell> {
    if calls == [] then []
    else
      var bs := After(calls[..|calls| - 1]);
      match calls[|calls| - 1]
      case Malloc(n) => Allocated(bs, n)
      case MFree(None) => bs
      case MFree(Some(p)) => Released(bs, p)
  }

  /** The pointers that have been handed out and not been released since. */
  ghost function Outstanding(calls: seq<Call>): set<int> {
    if calls == [] then {}
    else
      var earlier := calls[..|calls| - 1];
      match calls[|calls| - 1]
      case Malloc(n) =>
        (match Pointer(After(earlier), n) case None => Outstanding(earlier) case Some(p) => Outstanding(earlier) + {p})
      case MFree(None) => Outstanding(earlier)
      case MFree(Some(p)) => Outstanding(earlier) - {p}
  }

  ghost predicate LivePointer(bs: seq<Cell>, p: int) {
    exists c :: LiveCell(bs, c) && c.Payload() == p
  }

  /** In every run the cells tile the arena without adjacent free ones, and the live cells are
      those whose pointers are outstanding. */
  lemma {:induction false} RunIsWellformed(calls: seq<Call>)
    ensures Wellformed(After(calls))
    ensures forall p :: p in Outstanding(calls) <==> LivePointer(After(calls), p)
  {
    if calls != [] {
      var earlier := calls[..|calls| - 1];
      RunIsWellformed(earlier);
      match calls[|calls| - 1]
      case Malloc(n) => MallocStep(After(earlier), n);
      case MFree(None) =>
      case MFree(Some(q)) => ReleaseStep(After(earlier), q);
    }
  }

  lemma MallocStep(bs: seq<Cell>, n: nat)
    requires Wellformed(bs)
    ensures Wellformed(Allocated(bs, n))
    ensures forall q :: LivePointer(Allocated(bs, n), q) <==> LivePointer(bs, q) || Pointer(bs, n) == Some(q)
  {
    AllocatedIsWellformed(bs, n);
    if Pointer(bs, n).Some? {
      ServesRequest(bs, n);
      var c := Allocated(bs, n)[FirstFit(Started(bs), n)];
      assert LiveCell(Allocated(bs, n), c);
    }
  }

  lemma ReleaseStep(bs: seq<Cell>, p: int)
    requires Wellformed(bs)
    ensures Wellformed(Released(bs, p))
    ensures forall q :: LivePointer(Released(bs, p), q) <==> LivePointer(bs, q) && q != p
  {
    ReleasedIsWellformed(bs, p);
    forall c ensures LiveCell(Released(bs, p), c) <==> LiveCell(bs, c) && c.Payload() != p {
      ReleaseTakesOne(bs, p, c);
    }
  }

  /** Once everything handed out has been released, in whatever order, the arena is one free
      cell again. */
  lemma AllReleased(calls: seq<Call>)
    requires Outstanding(calls) == {} && After(calls) != []
    ensures After(calls) == [Cell(0, ARENA - HEAD, true)]
  {
    RunIsWellformed(calls);
    var bs := After(calls);
    forall i | 0 <= i < |bs| ensures bs[i].free {
      LiveHasPointer(bs, i);
    }
    AllFreeIsOne(bs);
  }

  lemma AllFreeIsOne(bs: seq<Cell>)
    requires NoFreePair(bs) && forall i :: 0 <= i < |bs| ==> bs[i].free
    ensures |bs| <= 1
  {
    if |bs| > 1 {
      NotBothFree(bs);
    }
  }

  lemma NotBothFree(bs: seq<Cell>)
    requires NoFreePair(bs) && |bs| > 1
    ensures !(bs[0].free && bs[1].free)
  {
  }

  lemma LiveHasPointer(bs: seq<Cell>, i: nat)
    requires i < |bs|
    ensures bs[i].free || LivePointer(bs, bs[i].Payload())
  {
    assert bs[i].free || LiveCell(bs, bs[i]);
  }

  // ---- The list in memory ----

  class Block {
    const addr: nat
    var isFree: bool
    var size: nat
    var next: Block?

    constructor (addr: nat, isFree: bool, size: nat, next: Block?)
      ensures this.addr == addr && this.isFree == isFree && this.size == size && this.next == next
    {
      this.addr, this.isFree, this.size, this.next := addr, isFree, size, next;
    }

    ghost function View(): Cell
      reads this
    {
      Cell(addr, size, isFree)
    }
  }

  class Arena {
    var head: Block?
    ghost var blocks: seq<Block>

    ghost predicate Valid()
      reads this, blocks
    {
      && head == (if blocks == [] then null else blocks[0])
      && (forall i {:trigger blocks[i].next} :: 0 <= i < |blocks| ==>
            blocks[i].next == if i + 1 < |blocks| then blocks[i + 1] else null)
      && (forall i, j :: 0 <= i < j < |blocks| ==> blocks[i] != blocks[j])
    }

    ghost function Cells(): seq<Cell>
      reads this, blocks
    {
      seq(|blocks|, i requires 0 <= i < |blocks| reads this, blocks => blocks[i].View())
    }

    constructor ()
      ensures Valid() && Cells() == []
    {
      head := null;
      blocks := [];
    }

    /** The search of malloc. */
    method FirstFree(n: nat) returns (current: Block?, ghost i: nat)
      requires Valid()
      ensures i == FirstFit(Cells(), n) && current == if i < |blocks| then blocks[i] else null
    {
      current, i := head, 0;
      while current != null && !(current.isFree && current.size >= n)
        invariant i <= |blocks| && current == if i < |blocks| then blocks[i] else null
        invariant forall j :: 0 <= j < i ==> !(Cells()[j].free && Cells()[j].size >= n)
        decreases |blocks| - i
      {
        current := current.next;
        i := i + 1;
      }
      FirstFitUnique(Cells(), n, i);
    }

    /** Cut what the block at position i does not need for n bytes off as a free block. */
    method SplitOff(current: Block, n: nat, ghost i: nat)
      requires Valid() && i < |blocks| && blocks[i] == current && current.size > n + HEAD
      modifies this`blocks, current
      ensures Valid() && forall b :: b in blocks ==> b in old(blocks) || fresh(b)
      ensures Cells() == old(Cells())[..i] +
        [Cell(current.addr, n, old(current.isFree)),
         Cell(current.addr + HEAD + n, old(current.size) - n - HEAD, true)] +
        old(Cells())[i + 1..]
    {
      var rest := new Block(current.addr + n + HEAD, true, current.size - n - HEAD, current.next);
      current.size := n;
      current.next := rest;
      blocks := blocks[..i + 1] + [rest] + blocks[i + 1..];
    }

    method Mark(current: Block, free: bool, ghost i: nat)
      requires Valid() && i < |blocks| && blocks[i] == current
      modifies current`isFree
      ensures Valid()
      ensures Cells() == old(Cells())[i := old(Cells())[i].(free := free)]
    {
      current.isFree := free;
    }

    method Start()
      requires Valid()
      modifies this
      ensures Valid() && head != null && forall b :: b in blocks ==> b in old(blocks) || fresh(b)
      ensures Cells() == Started(old(Cells()))
    {
      if head == null {
        head := new Block(0, true, ARENA - HEAD, null);
        blocks := [head];
      }
    }

    /** malloc, for a size that is not negative */
    method Malloc(n: nat) returns (p: Option<nat>)
      requires Valid()
      modifies this, blocks
      ensures Valid() && forall b :: b in blocks ==> b in old(blocks) || fresh(b)
      ensures Cells() == Allocated(old(Cells()), n)
      ensures p == Pointer(old(Cells()), n)
    {
      hide Started, FirstFit;
      Start();
      ghost var s := Cells();
      var current, i := FirstFree(n);
      if current == null {
        return None;
      }
      assert s[i] == current.View() && current in blocks;
      Mark(current, false, i);
      if current.size > n + HEAD {
        SplitOff(current, n, i);
      }
      assert Cells() == s[..i] + Cut(s[i], n) + s[i + 1..];
      p := Some(current.addr + HEAD);
    }

    /** The search of m_free. */
    method FindBlock(p: int) returns (previous: Block?, current: Block?, ghost i: nat)
      requires Valid()
      ensures i == Find(Cells(), p) && current == if i < |blocks| then blocks[i] else null
      ensures previous == if i == 0 then null else blocks[i - 1]
    {
      previous, current, i := null, head, 0;
      while current != null && current.addr + HEAD != p
        invariant i <= |blocks| && current == if i < |blocks| then blocks[i] else null
        invariant previous == if i == 0 then null else blocks[i - 1]
        invariant forall j :: 0 <= j < i ==> Cells()[j].Payload() != p
        decreases |blocks| - i
      {
        previous, current := current, current.next;
        i := i + 1;
      }
      FindUnique(Cells(), p, i);
    }

    /** Let the block at position i swallow the next one. */
    method JoinNext(current: Block, ghost i: nat)
      requires Valid() && i + 1 < |blocks| && blocks[i] == current
      modifies this`blocks, current
      ensures Valid() && blocks == old(blocks)[..i + 1] + old(blocks)[i + 2..]
      ensures current.isFree == old(current.isFree)
      ensures Cells() == old(Cells())[..i] +
        [Cell(current.addr, old(Cells()[i].size + Cells()[i + 1].size) + HEAD, current.isFree)] + old(Cells())[i + 2..]
    {
      current.size := current.size + current.next.size + HEAD;
      current.next := current.next.next;
      blocks := blocks[..i + 1] + blocks[i + 2..];
    }

    /** The right merge of m_free. */
    method JoinRight(current: Block, ghost k: nat)
      requires Valid() && k < |blocks| && blocks[k] == current
      modifies this`blocks, current
      ensures Valid() && forall b :: b in blocks ==> b in old(blocks)
      ensures Cells() == WithRight(old(Cells()), k)
    {
      assert k + 1 < |blocks| ==> Cells()[k + 1] == blocks[k + 1].View();
      if current.next != null && current.next.isFree {
        JoinNext(current, k);
      }
    }

    /** m_free */
    method MFree(p: Option<int>)
      requires Valid()
      modifies this, blocks
      ensures Valid() && forall b :: b in blocks ==> b in old(blocks)
      ensures Cells() == if p.Some? then Released(old(Cells()), p.value) else old(Cells())
    {
      hide Find, WithRight, ReleasedAt;
      if p == None {
        return;
      }
      ghost var was := Cells();
      var previous, current, i := FindBlock(p.value);
      if current != null {
        ReleasedByMerges(was, i);
        Mark(current, true, i);
        assert i > 0 ==> Cells()[i - 1] == was[i - 1] == previous.View();
        if previous != null && previous.isFree {
          JoinNext(previous, i - 1);
          JoinRight(previous, i - 1);
        } else {
          JoinRight(current, i);
        }
      }
    }
  }

  ghost function WithRight(bs: seq<Cell>, k: nat): seq<Cell>
    requires k < |bs|
  {
    if k + 1 < |bs| && bs[k + 1].free then
      bs[..k] + [Cell(bs[k].addr, bs[k].size + bs[k + 1].size + HEAD, bs[k].free)] + bs[k + 2..]
    else bs
  }

  /** The left merge of m_free at position i. */
  ghost function WithLeft(bs: seq<Cell>, i: nat): (seq<Cell>, nat)
    requires i < |bs|
  {
    if 0 < i && bs[i - 1].free then
      (bs[..i - 1] + [Cell(bs[i - 1].addr, bs[i - 1].size + bs[i].size + HEAD, true)] + bs[i + 1..], i - 1)
    else (bs, i)
  }

  /** m_free merges to the left first, then whatever resulted to the right. */
  lemma ReleasedByMerges(bs: seq<Cell>, i: nat)
    requires i < |bs|
    ensures var (s, k) := WithLeft(bs[i := bs[i].(free := true)], i);
      k < |s| && ReleasedAt(bs, i) == WithRight(s, k)
  {
    hide WithRight;
    var marked := bs[i := bs[i].(free := true)];
    var (s, k) := WithLeft(marked, i);
    var back := bs[i + 1..];
    assert s[k + 1..] == back;
    assert s == s[..k] + [s[k]] + back;
    SpliceRight(s[..k], s[k], back);
    assert s[..k] == bs[..k];
    if i + 1 < |bs| {
      assert back[0] == bs[i + 1] && back[1..] == bs[i + 2..];
    }
  }

  lemma SpliceRight(front: seq<Cell>, b: Cell, back: seq<Cell>)
    ensures WithRight(front + [b] + back, |front|) ==
      if back != [] && back[0].free then front + [Cell(b.addr, b.size + back[0].size + HEAD, b.free)] + back[1..]
      else front + [b] + back
  {
  }

  lemma FirstFitUnique(bs: seq<Cell>, n: nat, i: nat)
    requires i <= |bs| && (i < |bs| ==> bs[i].free && bs[i].size >= n)
    requires forall j :: 0 <= j < i ==> !(bs[j].free && bs[j].size >= n)
    ensures i == FirstFit(bs, n)
  {
  }

  lemma FindUnique(bs: seq<Cell>, p: int, i: nat)
    requires i <= |bs| && (i < |bs| ==> bs[i].Payload() == p)
    requires forall j :: 0 <= j < i ==> bs[j].Payload() != p
    ensures i == Find(bs, p)
  {
  }
}
